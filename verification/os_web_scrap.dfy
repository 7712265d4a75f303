/**
 The open-source web scraper: URL admission, image numbering, the `tables.txt`
 layout, the text-with-image-links document and the Markdown report.

 What BeautifulSoup and `requests` return is an input here: the page's `<img>`
 tags (their `src` and `alt` attributes), whether each image download and
 write succeeded, the page text and the table cells. `urljoin` and
 `os.path.relpath` are opaque functions passed in.
 */
module OSWebScrap {
  import opened Strings
  import opened Wrappers
  import opened Paths
  import Selection
  import TextCleanup
  import opened LineBlocks

  // ---------------------------------------------------------------------------
  // URL admission

  /** File types the scraper refuses to fetch. */
  const DisallowedExtensions: seq<string> :=
    [".pdf", ".xls", ".xlsx", ".doc", ".docx", ".ppt", ".pptx", ".zip", ".rar"]

  predicate HasWebScheme(url: string) {
    StartsWith(url, "http://") || StartsWith(url, "https://")
  }

  /** The lower-cased URL ends with one of the disallowed extensions. */
  predicate HasDisallowedExtension(url: string) {
    exists k :: 0 <= k < |DisallowedExtensions| && EndsWith(Lower(url), DisallowedExtensions[k])
  }

  /** `is_valid_url`: a case-sensitive scheme test, then a case-insensitive suffix test. */
  predicate IsValidUrl(url: string) {
    if !HasWebScheme(url) then false
    else if HasDisallowedExtension(url) then false
    else true
  }

  /** Without an exact lower-case `http://` or `https://` prefix nothing is admitted. */
  lemma RejectsWithoutWebScheme(url: string)
    requires !StartsWith(url, "http://") && !StartsWith(url, "https://")
    ensures !IsValidUrl(url)
  {
  }

  /** The scheme test is case-sensitive, unlike the scheme rule of RFC 3986 section 3.1. */
  lemma SchemeIsCaseSensitive()
    ensures IsValidUrl("http://example.com/")
    ensures !IsValidUrl("HTTP://example.com/")
    ensures !IsValidUrl("Https://example.com/")
  {
    var url := "http://example.com/";
    assert StartsWith(url, "http://");
    forall k | 0 <= k < |DisallowedExtensions|
      ensures !EndsWith(Lower(url), DisallowedExtensions[k])
    {
      var ext := DisallowedExtensions[k];
      assert Lower(url)[|url| - 1] == '/';
      assert ext[|ext| - 1] != '/';
    }
    assert "HTTP://example.com/"[0] == 'H';
    assert "Https://example.com/"[0] == 'H';
  }

  /** Any upper/lower-case spelling of a listed extension at the very end is refused. */
  lemma RejectsDisallowedExtension(url: string, suffix: string)
    requires Lower(suffix) in DisallowedExtensions
    ensures !IsValidUrl(url + suffix)
  {
    LowerAppend(url, suffix);
    EndsWithAppend(Lower(url), Lower(suffix));
    var k :| 0 <= k < |DisallowedExtensions| && DisallowedExtensions[k] == Lower(suffix);
    assert EndsWith(Lower(url + suffix), DisallowedExtensions[k]);
  }

  /** Only the very end counts: a query string after the extension lets the URL through. */
  lemma ExtensionExamples()
    ensures !IsValidUrl("https://host/X.PDF")
    ensures IsValidUrl("https://host/x.pdf?dl=1")
  {
    assert Lower(".PDF") == ".pdf";
    RejectsDisallowedExtension("https://host/X", ".PDF");
    assert "https://host/X" + ".PDF" == "https://host/X.PDF";
    var url := "https://host/x.pdf?dl=1";
    assert StartsWith(url, "https://");
    forall k | 0 <= k < |DisallowedExtensions|
      ensures !EndsWith(Lower(url), DisallowedExtensions[k])
    {
      var ext := DisallowedExtensions[k];
      assert Lower(url)[|url| - 1] == '1';
      assert ext[|ext| - 1] != '1';
    }
  }

  /**
   Nothing but the scheme and the lower-cased rest decides admission: two URLs
   with the same scheme whose remainders differ only in letter case get the
   same answer.
   */
  lemma DecidedBySchemeAndLowerCase(scheme: string, rest1: string, rest2: string)
    requires scheme == "http://" || scheme == "https://"
    requires Lower(rest1) == Lower(rest2)
    ensures IsValidUrl(scheme + rest1) == IsValidUrl(scheme + rest2)
  {
    LowerAppend(scheme, rest1);
    LowerAppend(scheme, rest2);
    assert Lower(scheme + rest1) == Lower(scheme + rest2);
    assert StartsWith(scheme + rest1, scheme) && StartsWith(scheme + rest2, scheme);
  }

  // ---------------------------------------------------------------------------
  // Images

  /** An `<img>` tag as BeautifulSoup reports it; an absent attribute is `None`. */
  datatype ImgTag = ImgTag(src: Option<string>, alt: Option<string>)

  /** `if not img_url: continue` lets through only a present, non-empty `src`. */
  predicate HasSrc(tag: ImgTag) {
    tag.src.Some? && tag.src.value != ""
  }

  /** The local file name of the image numbered `n`. */
  function ImageFileName(n: nat): string {
    "image_" + NatStr(n) + ".jpg"
  }

  lemma ImageFileNameInjective(a: nat, b: nat)
    requires ImageFileName(a) == ImageFileName(b)
    ensures a == b
  {
    assert ImageFileName(a) == "image_" + (NatStr(a) + ".jpg");
    assert ImageFileName(b) == "image_" + (NatStr(b) + ".jpg");
    CancelPrefix("image_", NatStr(a) + ".jpg", NatStr(b) + ".jpg");
    NatStrThenCancel(a, ".jpg", b, ".jpg");
  }

  /**
   The numbers of the images `scrape_visual_data` saves: the tag at 0-based
   position `k` is saved as number `k + 1` when it has a `src` and its download
   succeeded; skipped tags leave a gap instead of shifting later numbers.
   */
  function SavedImageNumbers(tags: seq<ImgTag>, fetched: seq<bool>): (ns: seq<nat>)
    requires |fetched| == |tags|
    ensures |ns| <= |tags|
  {
    Selection.Numbers(seq(|tags|, k requires 0 <= k < |tags| => HasSrc(tags[k]) && fetched[k]))
  }

  /**
   The saved numbers are the 1-based positions of exactly the tags that have a
   `src` and were fetched, strictly increasing.
   */
  lemma SavedImageNumbersSpec(tags: seq<ImgTag>, fetched: seq<bool>)
    requires |fetched| == |tags|
    ensures forall j :: 0 <= j < |SavedImageNumbers(tags, fetched)| ==>
              var n := SavedImageNumbers(tags, fetched)[j];
              1 <= n <= |tags| && HasSrc(tags[n - 1]) && fetched[n - 1]
    ensures forall j1, j2 :: 0 <= j1 < j2 < |SavedImageNumbers(tags, fetched)| ==>
              SavedImageNumbers(tags, fetched)[j1] < SavedImageNumbers(tags, fetched)[j2]
    ensures forall k :: 0 <= k < |tags| && HasSrc(tags[k]) && fetched[k] ==> k + 1 in SavedImageNumbers(tags, fetched)
  {
    var keep := seq(|tags|, k requires 0 <= k < |tags| => HasSrc(tags[k]) && fetched[k]);
    Selection.NumbersInRange(keep);
    Selection.NumbersIncreasing(keep);
    Selection.NumbersComplete(keep);
    forall k | 0 <= k < |tags| && HasSrc(tags[k]) && fetched[k]
      ensures k + 1 in SavedImageNumbers(tags, fetched)
    {
      assert keep[k];
    }
  }

  /** The `images` list `scrape_visual_data` returns: one path per saved image, in tag order. */
  function SavedImages(outputDir: string, tags: seq<ImgTag>, fetched: seq<bool>): (paths: seq<string>)
    requires |fetched| == |tags|
    ensures |paths| == |SavedImageNumbers(tags, fetched)|
    ensures forall j :: 0 <= j < |paths| ==>
              paths[j] == PathJoin(outputDir, ImageFileName(SavedImageNumbers(tags, fetched)[j]))
  {
    var ns := SavedImageNumbers(tags, fetched);
    seq(|ns|, j requires 0 <= j < |ns| => PathJoin(outputDir, ImageFileName(ns[j])))
  }

  /** An image file name is relative, so joining it onto a folder keeps the folder. */
  lemma ImageFileNameRelative(n: nat)
    ensures !StartsWith(ImageFileName(n), "/")
  {
    assert ImageFileName(n)[0] == 'i';
  }

  /** Every saved path is that of a tag with a `src` that was fetched. */
  lemma SavedImagesSound(outputDir: string, tags: seq<ImgTag>, fetched: seq<bool>, j: nat)
    requires |fetched| == |tags| && j < |SavedImages(outputDir, tags, fetched)|
    ensures exists k :: 0 <= k < |tags| && HasSrc(tags[k]) && fetched[k]
                        && SavedImages(outputDir, tags, fetched)[j] == PathJoin(outputDir, ImageFileName(k + 1))
  {
    var ns := SavedImageNumbers(tags, fetched);
    SavedImageNumbersSpec(tags, fetched);
    var k := ns[j] - 1;
    assert SavedImages(outputDir, tags, fetched)[j] == PathJoin(outputDir, ImageFileName(k + 1));
  }

  /** Every tag with a `src` that was fetched has its path saved. */
  lemma SavedImagesComplete(outputDir: string, tags: seq<ImgTag>, fetched: seq<bool>, k: nat)
    requires |fetched| == |tags| && k < |tags| && HasSrc(tags[k]) && fetched[k]
    ensures PathJoin(outputDir, ImageFileName(k + 1)) in SavedImages(outputDir, tags, fetched)
  {
    var ns := SavedImageNumbers(tags, fetched);
    SavedImageNumbersSpec(tags, fetched);
    assert k + 1 in ns;
    var j :| 0 <= j < |ns| && ns[j] == k + 1;
    assert SavedImages(outputDir, tags, fetched)[j] == PathJoin(outputDir, ImageFileName(k + 1));
  }

  /**
   A saved image path belongs to exactly the tags that have a `src` and were
   fetched: `output_dir/image_{k+1}.jpg` for such a tag at 0-based position `k`.
   */
  lemma SavedImagesMember(outputDir: string, tags: seq<ImgTag>, fetched: seq<bool>, x: string)
    requires |fetched| == |tags|
    ensures x in SavedImages(outputDir, tags, fetched) <==>
            exists k :: 0 <= k < |tags| && HasSrc(tags[k]) && fetched[k]
                        && x == PathJoin(outputDir, ImageFileName(k + 1))
  {
    var paths := SavedImages(outputDir, tags, fetched);
    if x in paths {
      var j :| 0 <= j < |paths| && paths[j] == x;
      SavedImagesSound(outputDir, tags, fetched, j);
    }
    if exists k :: 0 <= k < |tags| && HasSrc(tags[k]) && fetched[k]
                   && x == PathJoin(outputDir, ImageFileName(k + 1)) {
      var k :| 0 <= k < |tags| && HasSrc(tags[k]) && fetched[k]
               && x == PathJoin(outputDir, ImageFileName(k + 1));
      SavedImagesComplete(outputDir, tags, fetched, k);
    }
  }

  /** No two saved images share a path, so none overwrites another. */
  lemma SavedImagesDistinct(outputDir: string, tags: seq<ImgTag>, fetched: seq<bool>)
    requires |fetched| == |tags|
    ensures forall j1, j2 :: 0 <= j1 < j2 < |SavedImages(outputDir, tags, fetched)| ==>
              SavedImages(outputDir, tags, fetched)[j1] != SavedImages(outputDir, tags, fetched)[j2]
  {
    var paths := SavedImages(outputDir, tags, fetched);
    var ns := SavedImageNumbers(tags, fetched);
    SavedImageNumbersSpec(tags, fetched);
    forall j1, j2 | 0 <= j1 < j2 < |paths|
      ensures paths[j1] != paths[j2]
    {
      if paths[j1] == paths[j2] {
        ImageFileNameRelative(ns[j1]);
        ImageFileNameRelative(ns[j2]);
        PathJoinInjective(outputDir, ImageFileName(ns[j1]), ImageFileName(ns[j2]));
        ImageFileNameInjective(ns[j1], ns[j2]);
        assert false;
      }
    }
  }

  // ---------------------------------------------------------------------------
  // Tables

  /** A table as a list of rows of cell texts. */
  type Table = seq<seq<string>>

  predicate TableSingleLine(table: Table) {
    forall r :: 0 <= r < |table| ==> AllSingleLine(table[r])
  }

  predicate TablesSingleLine(tables: seq<Table>) {
    forall k :: 0 <= k < |tables| ==> TableSingleLine(tables[k])
  }

  // ---------------------------------------------------------------------------
  // tables.txt

  /** The lines written for one table: its heading, one line per row, a blank line. */
  function TableTxtBlock(number: nat, table: Table): seq<string> {
    [TableHeading(number)] + TxtRowLines(table) + [""]
  }

  function TableHeading(number: nat): string {
    "Table " + NatStr(number) + ":"
  }

  /** One line per row, the cells joined by ` | `. */
  function TxtRowLines(table: Table): (ls: seq<string>)
    ensures |ls| == |table|
    decreases |table|
  {
    if |table| == 0 then []
    else TxtRowLines(table[..|table| - 1]) + [Join(" | ", table[|table| - 1])]
  }

  lemma {:induction false} TxtRowLinesAt(table: Table, r: nat)
    requires r < |table|
    ensures TxtRowLines(table)[r] == Join(" | ", table[r])
    decreases |table|
  {
    if r < |table| - 1 {
      TxtRowLinesAt(table[..|table| - 1], r);
    }
  }

  /** The blocks of all tables, numbered from 1 in page order. */
  function TableTxtBlocks(tables: seq<Table>): (blocks: seq<seq<string>>)
    ensures |blocks| == |tables|
    decreases |tables|
  {
    if |tables| == 0 then []
    else TableTxtBlocks(tables[..|tables| - 1]) + [TableTxtBlock(|tables|, tables[|tables| - 1])]
  }

  lemma {:induction false} TableTxtBlocksAt(tables: seq<Table>, k: nat)
    requires k < |tables|
    ensures TableTxtBlocks(tables)[k] == TableTxtBlock(k + 1, tables[k])
    decreases |tables|
  {
    if k < |tables| - 1 {
      TableTxtBlocksAt(tables[..|tables| - 1], k);
    }
  }

  /** The lines written to `tables.txt`, in order. */
  function TablesTxtWritten(tables: seq<Table>): seq<string> {
    Flatten(TableTxtBlocks(tables))
  }

  /** The content of `tables.txt`: every `write` ends its line with `\n`. */
  function TablesTxt(tables: seq<Table>): string {
    ConcatLines(TablesTxtWritten(tables))
  }

  /** Row `r` of a table is line `1 + r` of its block. */
  lemma TableTxtBlockRow(number: nat, table: Table, r: nat)
    requires r < |table|
    ensures |TableTxtBlock(number, table)| == |table| + 2
    ensures TableTxtBlock(number, table)[1 + r] == Join(" | ", table[r])
  {
    TxtRowLinesAt(table, r);
  }

  /** A block opens with its heading and closes with a blank line. */
  lemma TableTxtBlockEnds(number: nat, table: Table)
    ensures |TableTxtBlock(number, table)| == |table| + 2
    ensures TableTxtBlock(number, table)[0] == TableHeading(number)
    ensures TableTxtBlock(number, table)[|table| + 1] == ""
  {
  }

  lemma TableTxtBlockSingleLine(number: nat, table: Table)
    requires TableSingleLine(table)
    ensures AllSingleLine(TableTxtBlock(number, table))
  {
    var block := TableTxtBlock(number, table);
    DigitsSingleLine(NatStr(number));
    forall i | 0 <= i < |block|
      ensures '\n' !in block[i]
    {
      if 1 <= i <= |table| {
        TableTxtBlockRow(number, table, i - 1);
        JoinSingleLine(" | ", table[i - 1]);
      }
    }
  }

  /** Reading `tables.txt` back line by line gives the lines that were written. */
  lemma TablesTxtReadBack(tables: seq<Table>)
    requires TablesSingleLine(tables)
    ensures Lines(TablesTxt(tables)) == TablesTxtWritten(tables)
  {
    var blocks := TableTxtBlocks(tables);
    forall k | 0 <= k < |blocks|
      ensures AllSingleLine(blocks[k])
    {
      TableTxtBlocksAt(tables, k);
      TableTxtBlockSingleLine(k + 1, tables[k]);
    }
    FlattenSingleLine(blocks);
    LinesOfConcatLines(Flatten(blocks));
  }

  /**
   Lines `start ..` of `ls` hold table number `number`: `Table number:`, then
   each row's cells joined by ` | `, then one blank line.
   */
  predicate TableTxtAt(ls: seq<string>, start: nat, number: nat, table: Table) {
    && start + |table| + 1 < |ls|
    && ls[start] == TableHeading(number)
    && (forall r :: 0 <= r < |table| ==> ls[start + 1 + r] == Join(" | ", table[r]))
    && ls[start + 1 + |table|] == ""
  }

  /**
   The layout of `tables.txt`: the tables are numbered from 1 in page order,
   table `k`'s block starts where the blocks before it end, and the blocks
   fill the whole file.
   */
  lemma TablesTxtLayout(tables: seq<Table>, k: nat)
    requires k < |tables|
    ensures |TablesTxtWritten(tables)| == BlockStart(TableTxtBlocks(tables), |tables|)
    ensures TableTxtAt(TablesTxtWritten(tables), BlockStart(TableTxtBlocks(tables), k), k + 1, tables[k])
  {
    var blocks := TableTxtBlocks(tables);
    TableTxtBlocksAt(tables, k);
    FlattenLength(blocks);
    TableTxtBlockInFile(blocks, k, tables[k]);
  }

  /** Where one table's block sits among the lines of any file made of blocks. */
  lemma TableTxtBlockInFile(blocks: seq<seq<string>>, k: nat, table: Table)
    requires k < |blocks| && blocks[k] == TableTxtBlock(k + 1, table)
    ensures TableTxtAt(Flatten(blocks), BlockStart(blocks, k), k + 1, table)
  {
    BlockLines(blocks, k);
    TableTxtAtOfBlock(Flatten(blocks), BlockStart(blocks, k), blocks[k], k + 1, table);
  }

  /** Lines that repeat a table's block from `start` on hold that table there. */
  lemma TableTxtAtOfBlock(ls: seq<string>, start: nat, block: seq<string>, number: nat, table: Table)
    requires block == TableTxtBlock(number, table)
    requires start + |block| <= |ls|
    requires forall i :: 0 <= i < |block| ==> ls[start + i] == block[i]
    ensures TableTxtAt(ls, start, number, table)
  {
    TableTxtBlockEnds(number, table);
    assert ls[start + 0] == block[0];
    assert ls[start + (1 + |table|)] == block[1 + |table|];
    forall r | 0 <= r < |table|
      ensures ls[start + 1 + r] == Join(" | ", table[r])
    {
      assert ls[start + (1 + r)] == block[1 + r];
      TableTxtBlockRow(number, table, r);
    }
  }

  // ---------------------------------------------------------------------------
  // Text with image links

  /** The alt text of the tag at 0-based position `idx`: its `alt`, else `Image {idx+1}`. */
  function AltText(tag: ImgTag, idx: nat): string {
    tag.alt.GetOr("Image " + NatStr(idx + 1))
  }

  function ImageLink(alt: string, url: string): string {
    "![" + alt + "](" + url + ")"
  }

  /**
   The Markdown image references of `scrape_text_data_with_images`: one per tag
   with a `src`, in tag order, the alt text defaulting by the tag's own position.
   */
  function ImageLinks(tags: seq<ImgTag>, resolve: string -> string): (links: seq<string>)
    ensures |links| <= |tags|
    decreases |tags|
  {
    if |tags| == 0 then []
    else
      var tag := tags[|tags| - 1];
      ImageLinks(tags[..|tags| - 1], resolve)
      + (if HasSrc(tag) then [ImageLink(AltText(tag, |tags| - 1), resolve(tag.src.value))] else [])
  }

  /** Which tags have a `src`. */
  function SrcFlags(tags: seq<ImgTag>): (keep: seq<bool>)
    ensures |keep| == |tags|
  {
    seq(|tags|, k requires 0 <= k < |tags| => HasSrc(tags[k]))
  }

  /** There is exactly one link per tag with a `src`. */
  lemma {:induction false} ImageLinksCount(tags: seq<ImgTag>, resolve: string -> string)
    ensures |ImageLinks(tags, resolve)| == |Selection.Numbers(SrcFlags(tags))|
    decreases |tags|
  {
    if |tags| > 0 {
      var init := tags[..|tags| - 1];
      ImageLinksCount(init, resolve);
      assert SrcFlags(tags)[..|tags| - 1] == SrcFlags(init);
    }
  }

  /**
   Link `j` belongs to the `j`-th tag with a `src` (1-based number `n`): it
   carries that tag's alt text, defaulting by the tag's own position, and its
   resolved URL.
   */
  lemma {:induction false} ImageLinksAt(tags: seq<ImgTag>, resolve: string -> string, j: nat)
    requires j < |ImageLinks(tags, resolve)|
    ensures j < |Selection.Numbers(SrcFlags(tags))|
    ensures var n := Selection.Numbers(SrcFlags(tags))[j];
            1 <= n <= |tags| && HasSrc(tags[n - 1])
            && ImageLinks(tags, resolve)[j] == ImageLink(AltText(tags[n - 1], n - 1), resolve(tags[n - 1].src.value))
    decreases |tags|
  {
    ImageLinksCount(tags, resolve);
    Selection.NumbersInRange(SrcFlags(tags));
    var init := tags[..|tags| - 1];
    assert SrcFlags(tags)[..|tags| - 1] == SrcFlags(init);
    if j < |ImageLinks(init, resolve)| {
      ImageLinksAt(init, resolve, j);
      assert Selection.Numbers(SrcFlags(tags))[j] == Selection.Numbers(SrcFlags(init))[j];
    }
  }

  /** Links never move once made: the links of the first `n` tags begin the links of all tags. */
  lemma {:induction false} ImageLinksPrefix(tags: seq<ImgTag>, n: nat, resolve: string -> string)
    requires n <= |tags|
    ensures ImageLinks(tags[..n], resolve) <= ImageLinks(tags, resolve)
    decreases |tags|
  {
    if n == |tags| {
      assert tags[..n] == tags;
    } else {
      var init := tags[..|tags| - 1];
      ImageLinksPrefix(init, n, resolve);
      assert init[..n] == tags[..n];
      assert ImageLinks(init, resolve) <= ImageLinks(tags, resolve);
    }
  }

  /**
   The heading `scrape_text_data_with_images` puts between the text and the
   links, `"\n\n## Images\n\n"`, written as its whitespace and visible pieces
   so that `HeadingVisibleText` can erase it piece by piece.
   */
  const LinksHeading: string := "\n\n" + "##" + " " + "Images" + "\n\n"

  lemma HeadingVisibleText()
    ensures Erase(LinksHeading) == "##Images"
  {
    EraseOfWhitespace("\n\n");
    EraseOfWhitespace(" ");
    EraseOfVisible("##");
    EraseOfVisible("Images");
    EraseFive("\n\n", "##", " ", "Images", "\n\n");
  }

  /** Whitespace, text, whitespace, text, whitespace: only the two texts stay visible. */
  lemma EraseFive(a: string, b: string, c: string, d: string, e: string)
    requires Erase(a) == "" && Erase(c) == "" && Erase(e) == ""
    ensures Erase(a + b + c + d + e) == Erase(b) + Erase(d)
  {
    EraseAppend(a + b + c + d, e);
    EraseAppend(a + b + c, d);
    EraseAppend(a + b, c);
    EraseAppend(a, b);
  }

  /** `scrape_text_data_with_images`: cleaned page text, an `## Images` heading, the links. */
  function TextWithImages(pageText: string, tags: seq<ImgTag>, resolve: string -> string): string {
    TextCleanup.CleanText(pageText) + LinksHeading + Join("\n\n", ImageLinks(tags, resolve))
  }

  /**
   The document keeps all visible page text in order, then the heading, then
   the links; only whitespace is rewritten.
   */
  lemma TextWithImagesVisibleText(pageText: string, tags: seq<ImgTag>, resolve: string -> string)
    ensures Erase(TextWithImages(pageText, tags, resolve))
            == Erase(pageText) + "##Images" + EraseAll(ImageLinks(tags, resolve))
  {
    HeadingVisibleText();
    EraseOfWhitespace("\n\n");
    TextCleanup.CleanTextKeepsVisibleText(pageText);
    EraseDocument(TextCleanup.CleanText(pageText), LinksHeading, "\n\n", ImageLinks(tags, resolve));
  }

  /** Text, then a heading, then items joined by a blank separator: what stays visible. */
  lemma EraseDocument(text: string, heading: string, sep: string, items: seq<string>)
    requires Erase(sep) == ""
    ensures Erase(text + heading + Join(sep, items)) == Erase(text) + Erase(heading) + EraseAll(items)
  {
    EraseAppend(text + heading, Join(sep, items));
    EraseAppend(text, heading);
    EraseJoin(sep, items);
  }

  // ---------------------------------------------------------------------------
  // The Markdown report

  function ImageLine(number: nat, path: string): string {
    "![Image " + NatStr(number) + "](" + path + ")"
  }

  /** One `![Image k](path)` line and one blank line per image, numbered from 1. */
  function MarkdownImageLines(images: seq<string>, relpath: string -> string): (ls: seq<string>)
    ensures |ls| == 2 * |images|
    ensures forall j :: 0 <= j < |images| ==>
              ls[2 * j] == ImageLine(j + 1, relpath(images[j])) && ls[2 * j + 1] == ""
    decreases |images|
  {
    if |images| == 0 then []
    else
      var init := MarkdownImageLines(images[..|images| - 1], relpath);
      var ls := init + [ImageLine(|images|, relpath(images[|images| - 1])), ""];
      assert forall j :: 0 <= j < |images| - 1 ==> images[..|images| - 1][j] == images[j];
      ls
  }

  /** The lines of one table section: `### Table k`, blank, one `| … |` line per row, blank. */
  function MarkdownTableBlock(number: nat, table: Table): seq<string> {
    [MarkdownTableHeading(number), ""] + MarkdownRowLines(table) + [""]
  }

  function MarkdownTableHeading(number: nat): string {
    "### Table " + NatStr(number)
  }

  /** One `| c1 | … | cm |` line per row. */
  function MarkdownRowLines(table: Table): (ls: seq<string>)
    ensures |ls| == |table|
    decreases |table|
  {
    if |table| == 0 then []
    else MarkdownRowLines(table[..|table| - 1]) + ["| " + Join(" | ", table[|table| - 1]) + " |"]
  }

  lemma {:induction false} MarkdownRowLinesAt(table: Table, r: nat)
    requires r < |table|
    ensures MarkdownRowLines(table)[r] == "| " + Join(" | ", table[r]) + " |"
    decreases |table|
  {
    if r < |table| - 1 {
      MarkdownRowLinesAt(table[..|table| - 1], r);
    }
  }

  function MarkdownTableBlocks(tables: seq<Table>): (blocks: seq<seq<string>>)
    ensures |blocks| == |tables|
    decreases |tables|
  {
    if |tables| == 0 then []
    else MarkdownTableBlocks(tables[..|tables| - 1]) + [MarkdownTableBlock(|tables|, tables[|tables| - 1])]
  }

  lemma {:induction false} MarkdownTableBlocksAt(tables: seq<Table>, k: nat)
    requires k < |tables|
    ensures MarkdownTableBlocks(tables)[k] == MarkdownTableBlock(k + 1, tables[k])
    decreases |tables|
  {
    if k < |tables| - 1 {
      MarkdownTableBlocksAt(tables[..|tables| - 1], k);
    }
  }

  /** The header block, the image block and the `## Tables` heading come first. */
  function MarkdownPreamble(images: seq<string>, relpath: string -> string): (ls: seq<string>)
    ensures |ls| == 6 + 2 * |images|
  {
    ["# Extracted Web Content", "", "## Images", ""]
    + MarkdownImageLines(images, relpath)
    + ["## Tables", ""]
  }

  /** The preamble followed by one section per table. */
  function MarkdownBlocks(images: seq<string>, tables: seq<Table>, relpath: string -> string): seq<seq<string>> {
    [MarkdownPreamble(images, relpath)] + MarkdownTableBlocks(tables)
  }

  /** The lines `convert_to_markdown` writes, in order. */
  function MarkdownWritten(images: seq<string>, tables: seq<Table>, relpath: string -> string): seq<string> {
    Flatten(MarkdownBlocks(images, tables, relpath))
  }

  /** `convert_to_markdown`: each piece it appends ends in a newline. */
  function ConvertToMarkdown(images: seq<string>, tables: seq<Table>, relpath: string -> string): string {
    ConcatLines(MarkdownWritten(images, tables, relpath))
  }

  /** Row `r` of a table is line `2 + r` of its section. */
  lemma MarkdownTableBlockRow(number: nat, table: Table, r: nat)
    requires r < |table|
    ensures |MarkdownTableBlock(number, table)| == |table| + 3
    ensures MarkdownTableBlock(number, table)[2 + r] == "| " + Join(" | ", table[r]) + " |"
  {
    MarkdownRowLinesAt(table, r);
  }

  /** A section opens with its heading and a blank line and closes with a blank line. */
  lemma MarkdownTableBlockEnds(number: nat, table: Table)
    ensures |MarkdownTableBlock(number, table)| == |table| + 3
    ensures MarkdownTableBlock(number, table)[0] == MarkdownTableHeading(number)
    ensures MarkdownTableBlock(number, table)[1] == ""
    ensures MarkdownTableBlock(number, table)[|table| + 2] == ""
  {
  }

  lemma MarkdownTableBlockSingleLine(number: nat, table: Table)
    requires TableSingleLine(table)
    ensures AllSingleLine(MarkdownTableBlock(number, table))
  {
    var block := MarkdownTableBlock(number, table);
    DigitsSingleLine(NatStr(number));
    forall i | 0 <= i < |block|
      ensures '\n' !in block[i]
    {
      if 2 <= i < 2 + |table| {
        MarkdownTableBlockRow(number, table, i - 2);
        JoinSingleLine(" | ", table[i - 2]);
      }
    }
  }

  lemma ImageLineSingleLine(number: nat, path: string)
    requires '\n' !in path
    ensures '\n' !in ImageLine(number, path)
  {
    DigitsSingleLine(NatStr(number));
  }

  lemma MarkdownImageLinesSingleLine(images: seq<string>, relpath: string -> string)
    requires forall j :: 0 <= j < |images| ==> '\n' !in relpath(images[j])
    ensures AllSingleLine(MarkdownImageLines(images, relpath))
  {
    var il := MarkdownImageLines(images, relpath);
    forall i | 0 <= i < |il|
      ensures '\n' !in il[i]
    {
      var j := i / 2;
      assert i == 2 * j || i == 2 * j + 1;
      ImageLineSingleLine(j + 1, relpath(images[j]));
    }
  }

  lemma MarkdownPreambleSingleLine(images: seq<string>, relpath: string -> string)
    requires forall j :: 0 <= j < |images| ==> '\n' !in relpath(images[j])
    ensures AllSingleLine(MarkdownPreamble(images, relpath))
  {
    var il := MarkdownImageLines(images, relpath);
    MarkdownImageLinesSingleLine(images, relpath);
    var head: seq<string> := ["# Extracted Web Content", "", "## Images", ""];
    var mid: seq<string> := ["## Tables", ""];
    AllSingleLineAppend(head, il);
    AllSingleLineAppend(head + il, mid);
  }

  /** Reading the Markdown report back line by line gives the lines that were written. */
  lemma MarkdownReadBack(images: seq<string>, tables: seq<Table>, relpath: string -> string)
    requires forall j :: 0 <= j < |images| ==> '\n' !in relpath(images[j])
    requires TablesSingleLine(tables)
    ensures Lines(ConvertToMarkdown(images, tables, relpath)) == MarkdownWritten(images, tables, relpath)
  {
    var blocks := MarkdownBlocks(images, tables, relpath);
    forall j | 0 <= j < |blocks|
      ensures AllSingleLine(blocks[j])
    {
      if j == 0 {
        MarkdownPreambleSingleLine(images, relpath);
      } else {
        MarkdownTableBlocksAt(tables, j - 1);
        MarkdownTableBlockSingleLine(j, tables[j - 1]);
      }
    }
    FlattenSingleLine(blocks);
    LinesOfConcatLines(Flatten(blocks));
  }

  /**
   The report opens with the title and `## Images`, lists `![Image k](path)`
   and a blank line for k = 1..n in input order, then `## Tables`.
   */
  predicate MarkdownImagesAt(ls: seq<string>, images: seq<string>, relpath: string -> string) {
    && |ls| >= 6 + 2 * |images|
    && ls[0] == "# Extracted Web Content" && ls[1] == "" && ls[2] == "## Images" && ls[3] == ""
    && (forall j :: 0 <= j < |images| ==>
          ls[4 + 2 * j] == ImageLine(j + 1, relpath(images[j])) && ls[5 + 2 * j] == "")
    && ls[4 + 2 * |images|] == "## Tables" && ls[5 + 2 * |images|] == ""
  }

  /** Lines `start ..` of `ls` hold table section `number`: `### Table number`, blank, the rows, blank. */
  predicate MarkdownTableAt(ls: seq<string>, start: nat, number: nat, table: Table) {
    && start + |table| + 2 < |ls|
    && ls[start] == MarkdownTableHeading(number)
    && ls[start + 1] == ""
    && (forall r :: 0 <= r < |table| ==> ls[start + 2 + r] == "| " + Join(" | ", table[r]) + " |")
    && ls[start + 2 + |table|] == ""
  }

  /** Whatever follows it, the preamble puts the title, the images and `## Tables` in place. */
  lemma MarkdownPreambleAt(pre: seq<string>, rest: seq<string>, images: seq<string>, relpath: string -> string)
    requires pre == MarkdownPreamble(images, relpath)
    ensures MarkdownImagesAt(pre + rest, images, relpath)
  {
    var ls := pre + rest;
    var il := MarkdownImageLines(images, relpath);
    forall j | 0 <= j < |images|
      ensures ls[4 + 2 * j] == ImageLine(j + 1, relpath(images[j])) && ls[5 + 2 * j] == ""
    {
      assert ls[4 + 2 * j] == il[2 * j];
      assert ls[5 + 2 * j] == il[2 * j + 1];
    }
  }

  /** The lines of the Markdown report begin with the title, the image list and `## Tables`. */
  lemma MarkdownImagesLayout(images: seq<string>, tables: seq<Table>, relpath: string -> string)
    ensures MarkdownImagesAt(MarkdownWritten(images, tables, relpath), images, relpath)
  {
    var blocks := MarkdownBlocks(images, tables, relpath);
    assert blocks[1..] == MarkdownTableBlocks(tables);
    MarkdownPreambleAt(MarkdownPreamble(images, relpath), Flatten(MarkdownTableBlocks(tables)), images, relpath);
  }

  /** Where one table section sits among the lines of any file made of blocks. */
  lemma MarkdownBlockInFile(blocks: seq<seq<string>>, j: nat, number: nat, table: Table)
    requires j < |blocks| && blocks[j] == MarkdownTableBlock(number, table)
    ensures MarkdownTableAt(Flatten(blocks), BlockStart(blocks, j), number, table)
  {
    BlockLines(blocks, j);
    MarkdownTableAtOfBlock(Flatten(blocks), BlockStart(blocks, j), blocks[j], number, table);
  }

  /** Lines that repeat a table's section from `start` on hold that table there. */
  lemma MarkdownTableAtOfBlock(ls: seq<string>, start: nat, block: seq<string>, number: nat, table: Table)
    requires block == MarkdownTableBlock(number, table)
    requires start + |block| <= |ls|
    requires forall i :: 0 <= i < |block| ==> ls[start + i] == block[i]
    ensures MarkdownTableAt(ls, start, number, table)
  {
    MarkdownTableBlockEnds(number, table);
    assert ls[start + 0] == block[0];
    assert ls[start + 1] == block[1];
    assert ls[start + (2 + |table|)] == block[2 + |table|];
    forall r | 0 <= r < |table|
      ensures ls[start + 2 + r] == "| " + Join(" | ", table[r]) + " |"
    {
      assert ls[start + (2 + r)] == block[2 + r];
      MarkdownTableBlockRow(number, table, r);
    }
  }

  /**
   The table sections of the Markdown report: table `k` (numbered from 1 in
   page order) starts after the preamble's `6 + 2n` lines and the sections
   before it, and the sections end the file.
   */
  lemma MarkdownTablesLayout(images: seq<string>, tables: seq<Table>, relpath: string -> string, k: nat)
    requires k < |tables|
    ensures |MarkdownWritten(images, tables, relpath)|
            == 6 + 2 * |images| + BlockStart(MarkdownTableBlocks(tables), |tables|)
    ensures BlockStart(MarkdownBlocks(images, tables, relpath), k + 1)
            == 6 + 2 * |images| + BlockStart(MarkdownTableBlocks(tables), k)
    ensures MarkdownTableAt(MarkdownWritten(images, tables, relpath),
                            BlockStart(MarkdownBlocks(images, tables, relpath), k + 1), k + 1, tables[k])
  {
    var blocks := MarkdownBlocks(images, tables, relpath);
    assert blocks[1..] == MarkdownTableBlocks(tables);
    FlattenLength(blocks);
    FlattenLength(MarkdownTableBlocks(tables));
    MarkdownTableBlocksAt(tables, k);
    assert blocks[k + 1] == MarkdownTableBlocks(tables)[k];
    MarkdownBlockInFile(blocks, k + 1, k + 1, tables[k]);
  }
}
