/**
 The enterprise web scraper: the same URL admission rule as the open-source
 one, image numbering by position in the actor's image list, and the Markdown
 file built from the page text and the image URLs.

 The Apify actor run, the HTTP downloads and the file writes are outside the
 model: the actor's image list and page text are inputs, and whether each
 download succeeded is a list of booleans.
 */
module EnterpriseWebScrap {
  import opened Strings
  import opened Paths
  import OSWebScrap
  import Selection

  // ---------------------------------------------------------------------------
  // URL admission

  /** File types the scraper refuses to fetch. */
  const DisallowedExtensions: seq<string> :=
    [".pdf", ".xls", ".xlsx", ".doc", ".docx", ".ppt", ".pptx", ".zip", ".rar"]

  /** `is_valid_url`: an exact `http://` or `https://` prefix and no disallowed suffix, ignoring case. */
  predicate IsValidUrl(url: string) {
    if !(StartsWith(url, "http://") || StartsWith(url, "https://")) then false
    else if exists k :: 0 <= k < |DisallowedExtensions| && EndsWith(Lower(url), DisallowedExtensions[k]) then false
    else true
  }

  /** Both scrapers admit exactly the same URLs. */
  lemma SameAdmissionAsOpenSource(url: string)
    ensures IsValidUrl(url) <==> OSWebScrap.IsValidUrl(url)
  {
    assert DisallowedExtensions == OSWebScrap.DisallowedExtensions;
  }

  // ---------------------------------------------------------------------------
  // Saving images

  /**
   The numbers of the saved images: the URL at 0-based position `k` is saved as
   `image_{k+1}.jpg` when its download succeeded; a failed download is skipped
   and leaves a gap in the numbering.
   */
  function SavedNumbers(fetched: seq<bool>): seq<nat> {
    Selection.Numbers(fetched)
  }

  /**
   The saved numbers are exactly the 1-based positions of the successful
   downloads, in increasing order.
   */
  lemma SavedNumbersSpec(fetched: seq<bool>)
    ensures |SavedNumbers(fetched)| <= |fetched|
    ensures forall j :: 0 <= j < |SavedNumbers(fetched)| ==>
              1 <= SavedNumbers(fetched)[j] <= |fetched| && fetched[SavedNumbers(fetched)[j] - 1]
    ensures forall j1, j2 :: 0 <= j1 < j2 < |SavedNumbers(fetched)| ==>
              SavedNumbers(fetched)[j1] < SavedNumbers(fetched)[j2]
    ensures forall k :: 0 <= k < |fetched| && fetched[k] ==> k + 1 in SavedNumbers(fetched)
  {
    Selection.NumbersInRange(fetched);
    Selection.NumbersIncreasing(fetched);
    Selection.NumbersComplete(fetched);
  }

  /** The list `save_images` returns: the path of each saved image, in URL order. */
  function SavedImages(folder: string, fetched: seq<bool>): (paths: seq<string>)
    ensures |paths| == |SavedNumbers(fetched)|
    decreases |fetched|
  {
    if |fetched| == 0 then []
    else
      SavedImages(folder, fetched[..|fetched| - 1])
      + (if fetched[|fetched| - 1] then [PathJoin(folder, OSWebScrap.ImageFileName(|fetched|))] else [])
  }

  /** Saved path `j` is the folder joined with `image_{n}.jpg` for the `j`-th saved number `n`. */
  lemma {:induction false} SavedImagesAt(folder: string, fetched: seq<bool>, j: nat)
    requires j < |SavedImages(folder, fetched)|
    ensures SavedImages(folder, fetched)[j] == PathJoin(folder, OSWebScrap.ImageFileName(SavedNumbers(fetched)[j]))
    decreases |fetched|
  {
    var init := fetched[..|fetched| - 1];
    if j < |SavedImages(folder, init)| {
      SavedImagesAt(folder, init, j);
    }
  }

  /**
   `save_images`: try every URL in order; a successful download is written to
   `image_{k+1}.jpg` in the folder and its path recorded.
   */
  method SaveImages(urls: seq<string>, folder: string, fetched: seq<bool>) returns (saved: seq<string>)
    requires |fetched| == |urls|
    ensures saved == SavedImages(folder, fetched)
    ensures |saved| <= |urls|
  {
    saved := [];
    var k := 0;
    while k < |urls|
      invariant 0 <= k <= |urls|
      invariant saved == SavedImages(folder, fetched[..k])
    {
      assert fetched[..k + 1][..k] == fetched[..k];
      if fetched[k] {
        saved := saved + [PathJoin(folder, OSWebScrap.ImageFileName(k + 1))];
      }
      k := k + 1;
    }
    assert fetched[..|urls|] == fetched;
    SavedNumbersSpec(fetched);
  }

  /** No two saved images share a path, so none overwrites another. */
  lemma SavedImagesDistinct(folder: string, fetched: seq<bool>)
    ensures forall j1, j2 :: 0 <= j1 < j2 < |SavedImages(folder, fetched)| ==>
              SavedImages(folder, fetched)[j1] != SavedImages(folder, fetched)[j2]
  {
    var paths := SavedImages(folder, fetched);
    var ns := SavedNumbers(fetched);
    SavedNumbersSpec(fetched);
    forall j1, j2 | 0 <= j1 < j2 < |paths|
      ensures paths[j1] != paths[j2]
    {
      SavedImagesAt(folder, fetched, j1);
      SavedImagesAt(folder, fetched, j2);
      if paths[j1] == paths[j2] {
        OSWebScrap.ImageFileNameRelative(ns[j1]);
        OSWebScrap.ImageFileNameRelative(ns[j2]);
        PathJoinInjective(folder, OSWebScrap.ImageFileName(ns[j1]), OSWebScrap.ImageFileName(ns[j2]));
        OSWebScrap.ImageFileNameInjective(ns[j1], ns[j2]);
        assert false;
      }
    }
  }

  // ---------------------------------------------------------------------------
  // The Markdown file

  const Title := "# Extracted Webpage Data"
  const ContentHeading := "## Page Content"
  const ImagesHeading := "## Extracted Images"

  /**
   Image URLs are written as they are, with no path rewriting: this is the
   identity in the place where the open-source report applies `os.path.relpath`,
   so both reports share `OSWebScrap.MarkdownImageLines`.
   */
  function Verbatim(url: string): string {
    url
  }

  /** `![Image k](url)` followed by a blank line, for k = 1..n in list order. */
  function ImageRefs(urls: seq<string>): string
    decreases |urls|
  {
    if |urls| == 0 then ""
    else ImageRefs(urls[..|urls| - 1]) + OSWebScrap.ImageLine(|urls|, urls[|urls| - 1]) + "\n\n"
  }

  /** The image section, written only when there is at least one image URL. */
  function ImagesSection(urls: seq<string>): string {
    if |urls| == 0 then "" else ImagesHeading + "\n\n" + ImageRefs(urls)
  }

  /** `generate_markdown`: the writes to the output file, in order. */
  function GenerateMarkdown(text: string, urls: seq<string>): string {
    Title + "\n\n" + ContentHeading + "\n\n" + text + "\n\n" + ImagesSection(urls)
  }

  function SectionLines(urls: seq<string>): seq<string> {
    if |urls| == 0 then [] else [ImagesHeading, ""] + OSWebScrap.MarkdownImageLines(urls, Verbatim)
  }

  /** The lines `generate_markdown` produces when the text is one line. */
  function MarkdownLines(text: string, urls: seq<string>): seq<string> {
    [Title, ""] + [ContentHeading, ""] + [text, ""] + SectionLines(urls)
  }

  /** The image section is empty exactly when there are no image URLs. */
  lemma ImagesSectionEmpty(urls: seq<string>)
    ensures ImagesSection(urls) == "" <==> |urls| == 0
  {
    if |urls| > 0 {
      assert |ImagesSection(urls)| >= |ImagesHeading| > 0;
    }
  }

  /** A line followed by a blank line. */
  lemma ConcatLinesPair(x: string, rest: seq<string>)
    ensures ConcatLines([x, ""] + rest) == x + "\n\n" + ConcatLines(rest)
  {
    ConcatLinesAppend([x, ""], rest);
    var pair := [x, ""];
    assert pair[1..] == [""];
    assert [""][1..] == [];
    assert ConcatLines([""]) == "" + "\n" + ConcatLines([]);
    assert ConcatLines(pair) == x + "\n" + ConcatLines([""]);
    assert "\n" + "\n" == "\n\n";
  }

  lemma {:induction false} ImageRefsAsLines(urls: seq<string>)
    ensures ImageRefs(urls) == ConcatLines(OSWebScrap.MarkdownImageLines(urls, Verbatim))
    decreases |urls|
  {
    if |urls| > 0 {
      var init := urls[..|urls| - 1];
      var last := OSWebScrap.ImageLine(|urls|, urls[|urls| - 1]);
      ImageRefsAsLines(init);
      var ls := OSWebScrap.MarkdownImageLines(urls, Verbatim);
      var initLs := OSWebScrap.MarkdownImageLines(init, Verbatim);
      assert ls == initLs + [last, ""];
      ConcatLinesAppend(initLs, [last, ""]);
      ConcatLinesPair(last, []);
      assert [last, ""] + [] == [last, ""];
    }
  }

  lemma SectionAsLines(urls: seq<string>)
    ensures ImagesSection(urls) == ConcatLines(SectionLines(urls))
  {
    if |urls| > 0 {
      ConcatLinesPair(ImagesHeading, OSWebScrap.MarkdownImageLines(urls, Verbatim));
      ImageRefsAsLines(urls);
    }
  }

  /** Three lines each followed by a blank line, then the rest. */
  lemma ThreePairs(a: string, b: string, c: string, rest: seq<string>)
    ensures ConcatLines([a, ""] + [b, ""] + [c, ""] + rest)
            == a + "\n\n" + b + "\n\n" + c + "\n\n" + ConcatLines(rest)
  {
    ConcatLinesPair(c, rest);
    ConcatLinesPair(b, [c, ""] + rest);
    ConcatLinesPair(a, [b, ""] + ([c, ""] + rest));
    assert [a, ""] + [b, ""] + [c, ""] + rest == [a, ""] + ([b, ""] + ([c, ""] + rest));
  }

  /** `generate_markdown` writes every line of `MarkdownLines` followed by a newline. */
  lemma GenerateMarkdownAsLines(text: string, urls: seq<string>)
    ensures GenerateMarkdown(text, urls) == ConcatLines(MarkdownLines(text, urls))
  {
    SectionAsLines(urls);
    ThreePairs(Title, ContentHeading, text, SectionLines(urls));
  }

  /**
   Read back line by line, a one-line page text gives the title, `## Page
   Content`, the text and, when there are images, `## Extracted Images` and one
   `![Image k](url)` line (and a blank line) per URL, numbered from 1.
   */
  lemma GenerateMarkdownReadBack(text: string, urls: seq<string>)
    requires '\n' !in text
    requires forall j :: 0 <= j < |urls| ==> '\n' !in urls[j]
    ensures Lines(GenerateMarkdown(text, urls)) == MarkdownLines(text, urls)
  {
    GenerateMarkdownAsLines(text, urls);
    SectionLinesSingleLine(urls);
    HeadingsSingleLine();
    HeadSingleLine(Title, ContentHeading, text);
    AllSingleLineAppend([Title, ""] + [ContentHeading, ""] + [text, ""], SectionLines(urls));
    LinesOfConcatLines(MarkdownLines(text, urls));
  }

  lemma HeadingsSingleLine()
    ensures '\n' !in Title && '\n' !in ContentHeading && '\n' !in ImagesHeading
  {
  }

  lemma HeadSingleLine(a: string, b: string, c: string)
    requires '\n' !in a && '\n' !in b && '\n' !in c
    ensures AllSingleLine([a, ""] + [b, ""] + [c, ""])
  {
  }

  lemma SectionLinesSingleLine(urls: seq<string>)
    requires forall j :: 0 <= j < |urls| ==> '\n' !in urls[j]
    ensures AllSingleLine(SectionLines(urls))
  {
    if |urls| > 0 {
      OSWebScrap.MarkdownImageLinesSingleLine(urls, Verbatim);
      HeadingsSingleLine();
      AllSingleLineAppend([ImagesHeading, ""], OSWebScrap.MarkdownImageLines(urls, Verbatim));
    }
  }

  /** The lines hold the page text at line 4 and image `k` (from 1) at line `6 + 2k`. */
  lemma MarkdownLinesLayout(text: string, urls: seq<string>)
    ensures var ls := MarkdownLines(text, urls);
      && |ls| == (if |urls| == 0 then 6 else 8 + 2 * |urls|)
      && ls[..4] == [Title, "", ContentHeading, ""]
      && ls[4] == text && ls[5] == ""
      && (|urls| > 0 ==> ls[6] == ImagesHeading && ls[7] == "")
      && (forall j :: 0 <= j < |urls| ==>
            ls[8 + 2 * j] == "![Image " + NatStr(j + 1) + "](" + urls[j] + ")" && ls[9 + 2 * j] == "")
  {
    var ls := MarkdownLines(text, urls);
    if |urls| > 0 {
      var refs := OSWebScrap.MarkdownImageLines(urls, Verbatim);
      forall j | 0 <= j < |urls|
        ensures ls[8 + 2 * j] == "![Image " + NatStr(j + 1) + "](" + urls[j] + ")" && ls[9 + 2 * j] == ""
      {
        assert ls[8 + 2 * j] == refs[2 * j];
        assert ls[9 + 2 * j] == refs[2 * j + 1];
      }
    }
  }
}
