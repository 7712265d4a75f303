/**
 The open-source PDF pipeline: which files the four extraction passes write,
 under which object-store keys they are uploaded, and the log lines the
 passes return.

 PyMuPDF and camelot are outside the model. Their results are inputs: the
 text of each page, for each page the image-list entries (the file extension
 of an entry whose image could be extracted, `None` otherwise), and the
 tables camelot found with their page and parsing accuracy. The outcome of
 each upload is an input as well.
 */
module OpenSourceParsing {
  import opened Strings
  import opened Wrappers
  import opened Paths
  import opened Selection

  /** Every pass uploads into this one flat folder; there is no per-document folder. */
  const ParsedPrefix := "pdf_processing_pipeline/pdf_os_pipeline/parsed_data/"

  // ---------------------------------------------------------------------------
  // Uploads and their log lines

  /** One call of `upload_file_to_s3`: the local file and the object key. */
  datatype Upload = Upload(localPath: string, key: string)

  /** The file `name` written into `folder` and uploaded under the prefix and its basename. */
  function UploadOf(folder: string, name: string): (u: Upload)
    ensures u.localPath == PathJoin(folder, name)
    ensures IsParsedUpload(u)
  {
    var path := PathJoin(folder, name);
    Upload(path, ParsedPrefix + Basename(path))
  }

  /** The key is the flat prefix followed by the local file's basename. */
  predicate IsParsedUpload(u: Upload) {
    u.key == ParsedPrefix + Basename(u.localPath)
  }

  /** The key of a parsed upload names no folder below the prefix. */
  lemma ParsedKeyIsFlat(u: Upload)
    requires IsParsedUpload(u)
    ensures StartsWith(u.key, ParsedPrefix)
    ensures '/' !in u.key[|ParsedPrefix|..]
  {
    assert u.key[|ParsedPrefix|..] == Basename(u.localPath);
  }

  /** For a plain file name the key is the prefix followed by that name. */
  lemma UploadOfKey(folder: string, name: string)
    requires name != "" && '/' !in name
    ensures UploadOf(folder, name).key == ParsedPrefix + name
  {
    BasenameOfJoin(folder, name);
  }

  /** What `s3.upload_file` did: stored the object, or raised an exception with a message. */
  datatype UploadOutcome = Stored | Raised(message: string)

  /** `upload_file_to_s3` catches every `Exception` and returns a message either way. */
  function UploadLog(bucket: string, u: Upload, outcome: UploadOutcome): string {
    match outcome
    case Stored => "Uploaded " + u.localPath + " to s3://" + bucket + "/" + u.key
    case Raised(message) => "Error uploading file " + u.localPath + ": " + message
  }

  predicate IsSuccessLog(log: string) {
    StartsWith(log, "Uploaded ")
  }

  /**
   A log line says "Uploaded" exactly when the upload succeeded; a success line
   ends with the object's URL, a failure line names the local file.
   */
  lemma UploadLogKind(bucket: string, u: Upload, outcome: UploadOutcome)
    ensures IsSuccessLog(UploadLog(bucket, u, outcome)) <==> outcome.Stored?
    ensures outcome.Stored? ==> EndsWith(UploadLog(bucket, u, outcome), "s3://" + bucket + "/" + u.key)
    ensures outcome.Raised? ==> StartsWith(UploadLog(bucket, u, outcome), "Error uploading file " + u.localPath + ": ")
  {
    var log := UploadLog(bucket, u, outcome);
    if outcome.Stored? {
      var head := "Uploaded " + u.localPath + " to ";
      assert log == head + ("s3://" + bucket + "/" + u.key);
      EndsWithAppend(head, "s3://" + bucket + "/" + u.key);
    } else {
      assert log[0] == 'E';
    }
  }

  /** One log line per attempted upload, in attempt order. */
  function UploadLogs(bucket: string, uploads: seq<Upload>, outcomes: seq<UploadOutcome>): (logs: seq<string>)
    requires |outcomes| == |uploads|
    ensures |logs| == |uploads|
    decreases |uploads|
  {
    if |uploads| == 0 then []
    else
      UploadLogs(bucket, uploads[..|uploads| - 1], outcomes[..|outcomes| - 1])
      + [UploadLog(bucket, uploads[|uploads| - 1], outcomes[|outcomes| - 1])]
  }

  lemma {:induction false} UploadLogsAt(bucket: string, uploads: seq<Upload>, outcomes: seq<UploadOutcome>, i: nat)
    requires |outcomes| == |uploads| && i < |uploads|
    ensures UploadLogs(bucket, uploads, outcomes)[i] == UploadLog(bucket, uploads[i], outcomes[i])
    decreases |uploads|
  {
    if i < |uploads| - 1 {
      UploadLogsAt(bucket, uploads[..|uploads| - 1], outcomes[..|outcomes| - 1], i);
    }
  }

  // ---------------------------------------------------------------------------
  // File names

  /** Every file name is `page_{n}` followed by a pass-specific tail. */
  function PageName(n: nat, tail: string): string {
    "page_" + NatStr(n) + tail
  }

  /** A page name determines its page number and its tail, when the tail does not start with a digit. */
  lemma PageNameInjective(a: nat, tailA: string, b: nat, tailB: string)
    requires StartsWithNonDigit(tailA) && StartsWithNonDigit(tailB)
    requires PageName(a, tailA) == PageName(b, tailB)
    ensures a == b && tailA == tailB
  {
    assert PageName(a, tailA) == "page_" + (NatStr(a) + tailA);
    assert PageName(b, tailB) == "page_" + (NatStr(b) + tailB);
    CancelPrefix("page_", NatStr(a) + tailA, NatStr(b) + tailB);
    NatStrThenCancel(a, tailA, b, tailB);
  }

  function TextFileName(n: nat): string {
    PageName(n, "_text.txt")
  }

  function ImageFileName(page: nat, index: nat, ext: string): string {
    PageName(page, "_img_" + NatStr(index) + "." + ext)
  }

  function TableFileName(page: nat): string {
    PageName(page, "_table.csv")
  }

  function ListFileName(n: nat): string {
    PageName(n, "_lists.txt")
  }

  /** An image file name determines its page, its index on the page and its extension. */
  lemma ImageFileNameInjective(p1: nat, i1: nat, e1: string, p2: nat, i2: nat, e2: string)
    requires ImageFileName(p1, i1, e1) == ImageFileName(p2, i2, e2)
    ensures p1 == p2 && i1 == i2 && e1 == e2
  {
    var t1 := "_img_" + NatStr(i1) + "." + e1;
    var t2 := "_img_" + NatStr(i2) + "." + e2;
    assert t1[0] == '_' && t2[0] == '_';
    PageNameInjective(p1, t1, p2, t2);
    assert t1 == "_img_" + (NatStr(i1) + ("." + e1));
    assert t2 == "_img_" + (NatStr(i2) + ("." + e2));
    CancelPrefix("_img_", NatStr(i1) + ("." + e1), NatStr(i2) + ("." + e2));
    assert ("." + e1)[0] == '.' && ("." + e2)[0] == '.';
    NatStrThenCancel(i1, "." + e1, i2, "." + e2);
    CancelPrefix(".", e1, e2);
  }

  /** Files of different passes never share a name. */
  lemma PassNamesDiffer(n: nat, m: nat, page: nat, index: nat, ext: string)
    ensures TextFileName(n) != ImageFileName(page, index, ext)
    ensures TextFileName(n) != TableFileName(m)
    ensures TextFileName(n) != ListFileName(m)
    ensures ImageFileName(page, index, ext) != TableFileName(m)
    ensures ImageFileName(page, index, ext) != ListFileName(m)
    ensures TableFileName(n) != ListFileName(m)
  {
    var text := "_text.txt";
    var img := "_img_" + NatStr(index) + "." + ext;
    var table := "_table.csv";
    var list := "_lists.txt";
    assert text[0] == '_' && img[0] == '_' && table[0] == '_' && list[0] == '_';
    assert text[1] == 't' && img[1] == 'i' && table[1] == 't' && list[1] == 'l';
    assert text[2] == 'e' && table[2] == 'a';
    if TextFileName(n) == ImageFileName(page, index, ext) {
      PageNameInjective(n, text, page, img);
      assert false;
    }
    if TextFileName(n) == TableFileName(m) {
      PageNameInjective(n, text, m, table);
      assert false;
    }
    if TextFileName(n) == ListFileName(m) {
      PageNameInjective(n, text, m, list);
      assert false;
    }
    if ImageFileName(page, index, ext) == TableFileName(m) {
      PageNameInjective(page, img, m, table);
      assert false;
    }
    if ImageFileName(page, index, ext) == ListFileName(m) {
      PageNameInjective(page, img, m, list);
      assert false;
    }
    if TableFileName(n) == ListFileName(m) {
      PageNameInjective(n, table, m, list);
      assert false;
    }
  }

  /** A file name that `os.path.join` appends and `os.path.basename` gives back unchanged. */
  predicate IsPlainName(name: string) {
    name != "" && '/' !in name
  }

  /** Every page name is plain when its tail has no `/`. */
  lemma PageNamePlain(n: nat, tail: string)
    requires '/' !in tail
    ensures IsPlainName(PageName(n, tail))
  {
    var d := NatStr(n);
    assert forall k :: 0 <= k < |d| ==> d[k] != '/' by {
      forall k | 0 <= k < |d|
        ensures d[k] != '/'
      {
        assert IsDigit(d[k]);
      }
    }
    assert PageName(n, tail) == "page_" + d + tail;
  }

  // ---------------------------------------------------------------------------
  // Writing and uploading a run of files

  /** The uploads of the files `names`, each written into `folder`, in order. */
  function Uploads(folder: string, names: seq<string>): (us: seq<Upload>)
    ensures |us| == |names|
    decreases |names|
  {
    if |names| == 0 then []
    else Uploads(folder, names[..|names| - 1]) + [UploadOf(folder, names[|names| - 1])]
  }

  lemma {:induction false} UploadsAt(folder: string, names: seq<string>, i: nat)
    requires i < |names|
    ensures Uploads(folder, names)[i] == UploadOf(folder, names[i])
    decreases |names|
  {
    if i < |names| - 1 {
      UploadsAt(folder, names[..|names| - 1], i);
    }
  }

  /** Files with different plain names are uploaded under different keys. */
  lemma UploadKeysDistinct(folder: string, a: string, b: string)
    requires IsPlainName(a) && IsPlainName(b) && a != b
    ensures UploadOf(folder, a).key != UploadOf(folder, b).key
  {
    UploadOfKey(folder, a);
    UploadOfKey(folder, b);
    if ParsedPrefix + a == ParsedPrefix + b {
      CancelPrefix(ParsedPrefix, a, b);
    }
  }

  // ---------------------------------------------------------------------------
  // Text pass

  /** `extract_text_from_pdf` writes `page_{n}_text.txt` for n = 1..pageCount, whatever the text. */
  function TextNames(pageCount: nat): (ns: seq<string>)
    ensures |ns| == pageCount
    decreases pageCount
  {
    if pageCount == 0 then [] else TextNames(pageCount - 1) + [TextFileName(pageCount)]
  }

  /** The `i`-th text file (from 0) belongs to page `i + 1`. */
  lemma {:induction false} TextNamesAt(pageCount: nat, i: nat)
    requires i < pageCount
    ensures TextNames(pageCount)[i] == TextFileName(i + 1)
    decreases pageCount
  {
    if i < pageCount - 1 {
      TextNamesAt(pageCount - 1, i);
    }
  }

  function TextUploads(folder: string, pageCount: nat): seq<Upload> {
    Uploads(folder, TextNames(pageCount))
  }

  /** Different pages get different text files. */
  lemma TextNamesDistinct(pageCount: nat, i: nat, j: nat)
    requires i < j < pageCount
    ensures TextNames(pageCount)[i] != TextNames(pageCount)[j]
  {
    var tail := "_text.txt";
    assert tail[0] == '_';
    TextNamesAt(pageCount, i);
    TextNamesAt(pageCount, j);
    if TextFileName(i + 1) == TextFileName(j + 1) {
      PageNameInjective(i + 1, tail, j + 1, tail);
    }
  }

  /**
   One text upload per page, in page order: the `i`-th (from 0) is the file of
   page `i + 1`, uploaded from the folder under its own name.
   */
  lemma TextUploadAt(folder: string, pageCount: nat, i: nat)
    requires i < pageCount
    ensures |TextUploads(folder, pageCount)| == pageCount
    ensures TextUploads(folder, pageCount)[i].localPath == PathJoin(folder, TextFileName(i + 1))
    ensures TextUploads(folder, pageCount)[i].key == ParsedPrefix + TextFileName(i + 1)
  {
    TextNamesAt(pageCount, i);
    UploadsAt(folder, TextNames(pageCount), i);
    TextNamePlain(i + 1);
    UploadOfKey(folder, TextFileName(i + 1));
  }

  /** No two pages' text files share a key. */
  lemma TextUploadKeysDistinct(folder: string, pageCount: nat, i: nat, j: nat)
    requires i < j < pageCount
    ensures TextUploads(folder, pageCount)[i].key != TextUploads(folder, pageCount)[j].key
  {
    var names := TextNames(pageCount);
    TextNamesAt(pageCount, i);
    TextNamesAt(pageCount, j);
    TextNamesDistinct(pageCount, i, j);
    UploadsAt(folder, names, i);
    UploadsAt(folder, names, j);
    TextNamePlain(i + 1);
    TextNamePlain(j + 1);
    UploadKeysDistinct(folder, names[i], names[j]);
  }

  lemma TextNamePlain(n: nat)
    ensures IsPlainName(TextFileName(n))
  {
    PageNamePlain(n, "_text.txt");
  }

  // ---------------------------------------------------------------------------
  // Image pass

  /**
   The image files of page `page`: entry `i` (from 0) of the page's image list
   is written as `page_{page}_img_{i+1}.{ext}` when its image could be
   extracted; an entry without image data is skipped and the later entries
   keep their index.
   */
  function PageImageNames(page: nat, entries: seq<Option<string>>): (ns: seq<string>)
    ensures |ns| <= |entries|
    decreases |entries|
  {
    if |entries| == 0 then []
    else
      var last := entries[|entries| - 1];
      PageImageNames(page, entries[..|entries| - 1])
      + (if last.Some? then [ImageFileName(page, |entries|, last.value)] else [])
  }

  /** `extract_images_from_pdf`: the pages in order, page `p` (from 1) with its own image list. */
  function ImageNames(pages: seq<seq<Option<string>>>): seq<string>
    decreases |pages|
  {
    if |pages| == 0 then []
    else ImageNames(pages[..|pages| - 1]) + PageImageNames(|pages|, pages[|pages| - 1])
  }

  function ImageUploads(folder: string, pages: seq<seq<Option<string>>>): seq<Upload> {
    Uploads(folder, ImageNames(pages))
  }

  /** A page's image file is exactly the file of one of its extracted entries. */
  lemma {:induction false} PageImageNamesMember(page: nat, entries: seq<Option<string>>, x: string)
    ensures x in PageImageNames(page, entries) <==>
            exists i :: 0 <= i < |entries| && entries[i].Some? && x == ImageFileName(page, i + 1, entries[i].value)
    decreases |entries|
  {
    if |entries| > 0 {
      var init := entries[..|entries| - 1];
      PageImageNamesMember(page, init, x);
      if exists i :: 0 <= i < |entries| && entries[i].Some? && x == ImageFileName(page, i + 1, entries[i].value) {
        var i :| 0 <= i < |entries| && entries[i].Some? && x == ImageFileName(page, i + 1, entries[i].value);
        if i < |init| {
          assert init[i] == entries[i];
        }
      }
      if x in PageImageNames(page, init) {
        var i :| 0 <= i < |init| && init[i].Some? && x == ImageFileName(page, i + 1, init[i].value);
        assert entries[i] == init[i];
      }
    }
  }

  /**
   A file of the image pass is exactly the file of an extracted entry `i`
   (from 0) on page `p` (from 0): `page_{p+1}_img_{i+1}.{ext}`. An entry
   without image data gives no file, so it gives no upload and no log line.
   */
  lemma {:induction false} ImageNamesMember(pages: seq<seq<Option<string>>>, x: string)
    ensures x in ImageNames(pages) <==>
            exists p, i :: 0 <= p < |pages| && 0 <= i < |pages[p]| && pages[p][i].Some?
                           && x == ImageFileName(p + 1, i + 1, pages[p][i].value)
    decreases |pages|
  {
    if |pages| > 0 {
      var init := pages[..|pages| - 1];
      var last := pages[|pages| - 1];
      ImageNamesMember(init, x);
      PageImageNamesMember(|pages|, last, x);
      if exists p, i :: 0 <= p < |pages| && 0 <= i < |pages[p]| && pages[p][i].Some?
                        && x == ImageFileName(p + 1, i + 1, pages[p][i].value) {
        var p, i :| 0 <= p < |pages| && 0 <= i < |pages[p]| && pages[p][i].Some?
                    && x == ImageFileName(p + 1, i + 1, pages[p][i].value);
        if p < |init| {
          assert init[p] == pages[p];
        } else {
          assert last[i].Some? && x == ImageFileName(|pages|, i + 1, last[i].value);
        }
      }
      if x in ImageNames(init) {
        var p, i :| 0 <= p < |init| && 0 <= i < |init[p]| && init[p][i].Some?
                    && x == ImageFileName(p + 1, i + 1, init[p][i].value);
        assert pages[p] == init[p];
      }
    }
  }

  /** The number of entries of a page's image list that yielded image data. */
  function ExtractedCount(entries: seq<Option<string>>): nat
    decreases |entries|
  {
    if |entries| == 0 then 0
    else ExtractedCount(entries[..|entries| - 1]) + (if entries[|entries| - 1].Some? then 1 else 0)
  }

  /** The number of extracted entries over all pages. */
  function AllExtractedCount(pages: seq<seq<Option<string>>>): nat
    decreases |pages|
  {
    if |pages| == 0 then 0
    else AllExtractedCount(pages[..|pages| - 1]) + ExtractedCount(pages[|pages| - 1])
  }

  lemma {:induction false} PageImageNamesCount(page: nat, entries: seq<Option<string>>)
    ensures |PageImageNames(page, entries)| == ExtractedCount(entries)
    decreases |entries|
  {
    if |entries| > 0 {
      PageImageNamesCount(page, entries[..|entries| - 1]);
    }
  }

  /** The image pass writes one file per extracted entry, however many entries are skipped. */
  lemma {:induction false} ImageNamesCount(pages: seq<seq<Option<string>>>)
    ensures |ImageNames(pages)| == AllExtractedCount(pages)
    decreases |pages|
  {
    if |pages| > 0 {
      ImageNamesCount(pages[..|pages| - 1]);
      PageImageNamesCount(|pages|, pages[|pages| - 1]);
    }
  }

  /** No name occurs twice. */
  predicate NoRepeats(xs: seq<string>) {
    forall i, j :: 0 <= i < j < |xs| ==> xs[i] != xs[j]
  }

  lemma NoRepeatsAppend(a: seq<string>, b: seq<string>)
    requires NoRepeats(a) && NoRepeats(b)
    requires forall j :: 0 <= j < |b| ==> b[j] !in a
    ensures NoRepeats(a + b)
  {
    forall i, j | 0 <= i < j < |a + b|
      ensures (a + b)[i] != (a + b)[j]
    {
      if j >= |a| && i < |a| {
        assert (a + b)[j] == b[j - |a|] && (a + b)[i] == a[i];
      }
    }
  }

  /** The entries of one page get pairwise different files. */
  lemma {:induction false} PageImageNamesDistinct(page: nat, entries: seq<Option<string>>)
    ensures NoRepeats(PageImageNames(page, entries))
    decreases |entries|
  {
    if |entries| > 0 {
      var init := entries[..|entries| - 1];
      var last := entries[|entries| - 1];
      PageImageNamesDistinct(page, init);
      if last.Some? {
        var x := ImageFileName(page, |entries|, last.value);
        if x in PageImageNames(page, init) {
          PageImageNamesMember(page, init, x);
          var i :| 0 <= i < |init| && init[i].Some? && x == ImageFileName(page, i + 1, init[i].value);
          ImageFileNameInjective(page, i + 1, init[i].value, page, |entries|, last.value);
        }
        NoRepeatsAppend(PageImageNames(page, init), [x]);
      }
    }
  }

  /** No two extracted entries, on the same page or on different pages, share a file. */
  lemma {:induction false} ImageNamesDistinct(pages: seq<seq<Option<string>>>)
    ensures NoRepeats(ImageNames(pages))
    decreases |pages|
  {
    if |pages| > 0 {
      var init := pages[..|pages| - 1];
      var last := pages[|pages| - 1];
      var before := ImageNames(init);
      var now := PageImageNames(|pages|, last);
      ImageNamesDistinct(init);
      PageImageNamesDistinct(|pages|, last);
      forall j | 0 <= j < |now|
        ensures now[j] !in before
      {
        PageImageNamesMember(|pages|, last, now[j]);
        var i :| 0 <= i < |last| && last[i].Some? && now[j] == ImageFileName(|pages|, i + 1, last[i].value);
        if now[j] in before {
          ImageNamesMember(init, now[j]);
          var p, i' :| 0 <= p < |init| && 0 <= i' < |init[p]| && init[p][i'].Some?
                       && now[j] == ImageFileName(p + 1, i' + 1, init[p][i'].value);
          ImageFileNameInjective(p + 1, i' + 1, init[p][i'].value, |pages|, i + 1, last[i].value);
        }
      }
      NoRepeatsAppend(before, now);
    }
  }

  /** Pages are processed in order: the files of the first `n` pages begin the pass's files. */
  lemma {:induction false} ImageNamesPrefix(pages: seq<seq<Option<string>>>, n: nat)
    requires n <= |pages|
    ensures ImageNames(pages[..n]) <= ImageNames(pages)
    decreases |pages|
  {
    if n == |pages| {
      assert pages[..n] == pages;
    } else {
      var init := pages[..|pages| - 1];
      ImageNamesPrefix(init, n);
      assert init[..n] == pages[..n];
      assert ImageNames(init) <= ImageNames(pages);
    }
  }

  // ---------------------------------------------------------------------------
  // Table pass

  /** A table camelot found: the page it is on and camelot's parsing accuracy. */
  datatype CamelotTable = CamelotTable(page: nat, accuracy: real)

  /** Only tables parsed with an accuracy of at least 80 are written. */
  predicate Qualifies(t: CamelotTable) {
    t.accuracy >= 80.0
  }

  /** `extract_tables_from_pdf`: `page_{page}_table.csv` for each qualifying table, in camelot's order. */
  function TableNames(tables: seq<CamelotTable>): (ns: seq<string>)
    ensures |ns| <= |tables|
    decreases |tables|
  {
    if |tables| == 0 then []
    else
      var t := tables[|tables| - 1];
      TableNames(tables[..|tables| - 1]) + (if Qualifies(t) then [TableFileName(t.page)] else [])
  }

  function TableUploads(folder: string, tables: seq<CamelotTable>): seq<Upload> {
    Uploads(folder, TableNames(tables))
  }

  /** A file of the table pass is exactly the file of the page of a qualifying table. */
  lemma {:induction false} TableNamesMember(tables: seq<CamelotTable>, x: string)
    ensures x in TableNames(tables) <==>
            exists k :: 0 <= k < |tables| && Qualifies(tables[k]) && x == TableFileName(tables[k].page)
    decreases |tables|
  {
    if |tables| > 0 {
      var init := tables[..|tables| - 1];
      TableNamesMember(init, x);
      if exists k :: 0 <= k < |tables| && Qualifies(tables[k]) && x == TableFileName(tables[k].page) {
        var k :| 0 <= k < |tables| && Qualifies(tables[k]) && x == TableFileName(tables[k].page);
        if k < |init| {
          assert init[k] == tables[k];
        }
      }
      if x in TableNames(init) {
        var k :| 0 <= k < |init| && Qualifies(init[k]) && x == TableFileName(init[k].page);
        assert tables[k] == init[k];
      }
    }
  }

  /** The file of a table names only its page. */
  function TableFileOf(t: CamelotTable): string {
    TableFileName(t.page)
  }

  /** The table pass is the comprehension over the qualifying tables. */
  lemma {:induction false} TableNamesFiltered(tables: seq<CamelotTable>)
    ensures TableNames(tables) == Filtered(tables, Qualifies, TableFileOf)
    decreases |tables|
  {
    if |tables| > 0 {
      TableNamesFiltered(tables[..|tables| - 1]);
    }
  }

  /**
   One file per qualifying table, in camelot's order: file j belongs to the
   j-th qualifying table, whose 1-based position is `Numbers(Flags(tables, Qualifies))[j]`.
   */
  lemma TableNamesAt(tables: seq<CamelotTable>)
    ensures |TableNames(tables)| == |Numbers(Flags(tables, Qualifies))|
    ensures forall j :: 0 <= j < |TableNames(tables)| ==>
              1 <= Numbers(Flags(tables, Qualifies))[j] <= |tables|
              && TableNames(tables)[j] == TableFileName(tables[Numbers(Flags(tables, Qualifies))[j] - 1].page)
  {
    TableNamesFiltered(tables);
    FilteredAt(tables, Qualifies, TableFileOf);
  }

  /** A lone table is written exactly when its accuracy is at least 80: 80 itself passes. */
  lemma AccuracyThreshold(page: nat, accuracy: real)
    ensures TableNames([CamelotTable(page, accuracy)]) != [] <==> accuracy >= 80.0
  {
    var ts := [CamelotTable(page, accuracy)];
    assert ts[..0] == [];
  }

  /**
   The file name depends only on the page: two qualifying tables on one page,
   wherever they stand, are uploaded twice under the same key, the later
   overwriting the earlier.
   */
  lemma SamePageSameKey(folder: string, tables: seq<CamelotTable>, a: nat, b: nat)
    requires a < b < |tables|
    requires Qualifies(tables[a]) && Qualifies(tables[b]) && tables[a].page == tables[b].page
    ensures exists j1, j2 :: 0 <= j1 < j2 < |TableUploads(folder, tables)|
              && TableUploads(folder, tables)[j1].key == TableUploads(folder, tables)[j2].key
  {
    var names := TableNames(tables);
    var j1, j2 := SamePageSameName(tables, a, b);
    var us := TableUploads(folder, tables);
    UploadsAt(folder, names, j1);
    UploadsAt(folder, names, j2);
    assert us[j1].key == us[j2].key;
  }

  /** The positions, among the table pass's files, of two qualifying tables on one page. */
  lemma SamePageSameName(tables: seq<CamelotTable>, a: nat, b: nat) returns (j1: nat, j2: nat)
    requires a < b < |tables|
    requires Qualifies(tables[a]) && Qualifies(tables[b]) && tables[a].page == tables[b].page
    ensures j1 < j2 < |TableNames(tables)| && TableNames(tables)[j1] == TableNames(tables)[j2]
  {
    var flags := Flags(tables, Qualifies);
    assert flags[a] && flags[b];
    j1, j2 := NumbersPositions(flags, a, b);
    TableNamesAt(tables);
    assert TableNames(tables)[j1] == TableFileName(tables[a].page);
    assert TableNames(tables)[j2] == TableFileName(tables[b].page);
  }

  // ---------------------------------------------------------------------------
  // List pass

  /** `-`, `*`, `•` (U+2022) or `○` (U+25CB). */
  predicate IsListMarker(c: char) {
    c == '-' || c == '*' || c == '•' || c == '○'
  }

  /** A line whose stripped text starts with a list marker. */
  predicate IsListLine(line: string) {
    |Strip(line)| > 0 && IsListMarker(Strip(line)[0])
  }

  /** The stripped list lines, in their original order. */
  function ListLinesOf(lines: seq<string>): (r: seq<string>)
    ensures |r| <= |lines|
    decreases |lines|
  {
    if |lines| == 0 then []
    else
      var line := lines[|lines| - 1];
      ListLinesOf(lines[..|lines| - 1]) + (if IsListLine(line) then [Strip(line)] else [])
  }

  /** The list lines of one page's text. */
  function ListLines(text: string): seq<string> {
    ListLinesOf(Lines(text))
  }

  /** What `page_{n}_lists.txt` holds: the list lines joined by `\n`. */
  function ListFileContent(text: string): string {
    Join("\n", ListLines(text))
  }

  /** Every list line is kept, stripped. */
  lemma ListLinesKeep(lines: seq<string>, i: nat)
    requires i < |lines| && IsListLine(lines[i])
    ensures Strip(lines[i]) in ListLinesOf(lines)
  {
    var flags := Flags(lines, IsListLine);
    assert flags[i];
    NumbersComplete(flags);
    var ns := Numbers(flags);
    assert i + 1 in ns;
    var j :| 0 <= j < |ns| && ns[j] == i + 1;
    ListLinesCount(lines);
    ListLinesAt(lines, j);
    var kept := ListLinesOf(lines);
    assert kept[j] == Strip(lines[i]);
  }

  /** Every kept line is the stripped form of a list line. */
  lemma {:induction false} ListLinesSource(lines: seq<string>, x: string)
    requires x in ListLinesOf(lines)
    ensures exists i :: 0 <= i < |lines| && IsListLine(lines[i]) && x == Strip(lines[i])
    decreases |lines|
  {
    var init := lines[..|lines| - 1];
    var line := lines[|lines| - 1];
    if x in ListLinesOf(init) {
      ListLinesSource(init, x);
      var i :| 0 <= i < |init| && IsListLine(init[i]) && x == Strip(init[i]);
      assert lines[i] == init[i];
    } else {
      assert IsListLine(line) && x == Strip(line);
    }
  }

  /** The list pass is the comprehension that keeps the stripped list lines. */
  lemma {:induction false} ListLinesOfFiltered(lines: seq<string>)
    ensures ListLinesOf(lines) == Filtered(lines, IsListLine, Strip)
    decreases |lines|
  {
    if |lines| > 0 {
      ListLinesOfFiltered(lines[..|lines| - 1]);
    }
  }

  /** There are as many kept lines as list lines: duplicates are kept. */
  lemma ListLinesCount(lines: seq<string>)
    ensures |ListLinesOf(lines)| == |Numbers(Flags(lines, IsListLine))|
  {
    ListLinesOfFiltered(lines);
    FilteredAt(lines, IsListLine, Strip);
  }

  /**
   The comprehension keeps order: kept line j is the stripped j-th list line,
   whose 1-based position is `Numbers(Flags(lines, IsListLine))[j]`.
   */
  lemma ListLinesAt(lines: seq<string>, j: nat)
    requires j < |ListLinesOf(lines)|
    ensures |ListLinesOf(lines)| == |Numbers(Flags(lines, IsListLine))|
    ensures 1 <= Numbers(Flags(lines, IsListLine))[j] <= |lines|
    ensures ListLinesOf(lines)[j] == Strip(lines[Numbers(Flags(lines, IsListLine))[j] - 1])
  {
    ListLinesOfFiltered(lines);
    FilteredAt(lines, IsListLine, Strip);
  }

  /** Every kept line is non-empty, stripped, starts with a marker and has no line break. */
  lemma {:induction false} ListLinesShape(lines: seq<string>)
    requires forall i :: 0 <= i < |lines| ==> '\n' !in lines[i]
    ensures forall j :: 0 <= j < |ListLinesOf(lines)| ==>
              var x := ListLinesOf(lines)[j];
              x != "" && IsStripped(x) && IsListMarker(x[0]) && '\n' !in x
    decreases |lines|
  {
    if |lines| > 0 {
      var line := lines[|lines| - 1];
      ListLinesShape(lines[..|lines| - 1]);
      StripSingleLine(line);
    }
  }

  /** Reading a lists file back line by line gives exactly the list lines. */
  lemma ListFileReadBack(text: string)
    ensures Lines(ListFileContent(text)) == ListLines(text)
  {
    ListLinesShape(Lines(text));
    LinesOfJoin(ListLines(text));
  }

  /** The page text has at least one list line. */
  predicate HasListLines(text: string) {
    |ListLines(text)| > 0
  }

  /** Which pages have list lines. */
  function ListFlags(pageTexts: seq<string>): (flags: seq<bool>)
    ensures |flags| == |pageTexts|
  {
    seq(|pageTexts|, n requires 0 <= n < |pageTexts| => HasListLines(pageTexts[n]))
  }

  /** `page_{n}_lists.txt` for every page `n` (from 1) whose flag is set. */
  function FlaggedListNames(flags: seq<bool>): (ns: seq<string>)
    ensures |ns| <= |flags|
    decreases |flags|
  {
    if |flags| == 0 then []
    else
      FlaggedListNames(flags[..|flags| - 1])
      + (if flags[|flags| - 1] then [ListFileName(|flags|)] else [])
  }

  /** `extract_lists_from_pdf`: `page_{n}_lists.txt` only for the pages that have list lines. */
  function ListNames(pageTexts: seq<string>): (ns: seq<string>) {
    FlaggedListNames(ListFlags(pageTexts))
  }

  function ListUploads(folder: string, pageTexts: seq<string>): seq<Upload> {
    Uploads(folder, ListNames(pageTexts))
  }

  /** Every flagged list file belongs to a flagged page (from 0). */
  lemma {:induction false} FlaggedListNamesSound(flags: seq<bool>, x: string)
    requires x in FlaggedListNames(flags)
    ensures exists n :: 0 <= n < |flags| && flags[n] && x == ListFileName(n + 1)
    decreases |flags|
  {
    var init := flags[..|flags| - 1];
    if x in FlaggedListNames(init) {
      FlaggedListNamesSound(init, x);
      var n :| 0 <= n < |init| && init[n] && x == ListFileName(n + 1);
      assert flags[n] == init[n];
    }
  }

  /** Every flagged page (from 0) gets its list file. */
  lemma {:induction false} FlaggedListNamesComplete(flags: seq<bool>, n: nat)
    requires n < |flags| && flags[n]
    ensures ListFileName(n + 1) in FlaggedListNames(flags)
    decreases |flags|
  {
    var init := flags[..|flags| - 1];
    if n < |init| {
      assert init[n] == flags[n];
      FlaggedListNamesComplete(init, n);
    }
  }

  /**
   One list file per flagged page, in page order: file j is that of the j-th
   flagged page, whose 1-based number is `Numbers(flags)[j]`.
   */
  lemma {:induction false} FlaggedListNamesAt(flags: seq<bool>)
    ensures |FlaggedListNames(flags)| == |Numbers(flags)|
    ensures forall j :: 0 <= j < |FlaggedListNames(flags)| ==>
              FlaggedListNames(flags)[j] == ListFileName(Numbers(flags)[j])
    decreases |flags|
  {
    if |flags| > 0 {
      var init := flags[..|flags| - 1];
      FlaggedListNamesAt(init);
      var ns := Numbers(flags);
      var names := FlaggedListNames(flags);
      forall j | 0 <= j < |names|
        ensures names[j] == ListFileName(ns[j])
      {
        if j < |FlaggedListNames(init)| {
          assert names[j] == FlaggedListNames(init)[j];
          assert ns[j] == Numbers(init)[j];
        }
      }
    }
  }

  /**
   The list pass writes one file per page that has list lines, in page order:
   file j is `page_{n}_lists.txt` for the j-th such page `n` (from 1).
   */
  lemma ListNamesAt(pageTexts: seq<string>)
    ensures |ListNames(pageTexts)| == |Numbers(ListFlags(pageTexts))|
    ensures forall j :: 0 <= j < |ListNames(pageTexts)| ==>
              ListNames(pageTexts)[j] == ListFileName(Numbers(ListFlags(pageTexts))[j])
  {
    FlaggedListNamesAt(ListFlags(pageTexts));
  }

  /** No page's list file is written twice. */
  lemma ListNamesDistinct(pageTexts: seq<string>, j1: nat, j2: nat)
    requires j1 < j2 < |ListNames(pageTexts)|
    ensures ListNames(pageTexts)[j1] != ListNames(pageTexts)[j2]
  {
    var flags := ListFlags(pageTexts);
    var ns := Numbers(flags);
    ListNamesAt(pageTexts);
    NumbersIncreasing(flags);
    assert ns[j1] < ns[j2];
    var tail := "_lists.txt";
    assert tail[0] == '_';
    if ListFileName(ns[j1]) == ListFileName(ns[j2]) {
      PageNameInjective(ns[j1], tail, ns[j2], tail);
    }
  }

  /** A file of the list pass is exactly the file of a page (from 0) that has list lines. */
  lemma ListNamesMember(pageTexts: seq<string>, x: string)
    ensures x in ListNames(pageTexts) <==>
            exists n :: 0 <= n < |pageTexts| && HasListLines(pageTexts[n]) && x == ListFileName(n + 1)
  {
    var flags := ListFlags(pageTexts);
    if x in ListNames(pageTexts) {
      FlaggedListNamesSound(flags, x);
      var n :| 0 <= n < |flags| && flags[n] && x == ListFileName(n + 1);
      assert HasListLines(pageTexts[n]);
    }
    if exists n :: 0 <= n < |pageTexts| && HasListLines(pageTexts[n]) && x == ListFileName(n + 1) {
      var n :| 0 <= n < |pageTexts| && HasListLines(pageTexts[n]) && x == ListFileName(n + 1);
      assert flags[n];
      FlaggedListNamesComplete(flags, n);
    }
  }

  // ---------------------------------------------------------------------------
  // All passes

  /**
   What PyMuPDF and camelot report about one document. `pageTexts` and
   `pageImages` come from the same PyMuPDF document, so they have as many
   pages as each other; no pass relates the two, so nothing here needs it.
   */
  datatype PdfContent = PdfContent(pageTexts: seq<string>, pageImages: seq<seq<Option<string>>>, tables: seq<CamelotTable>)

  /** Every upload `extract_all_from_pdf` attempts, in order: text, images, tables, lists. */
  function AllUploads(folder: string, doc: PdfContent): seq<Upload> {
    TextUploads(folder, |doc.pageTexts|)
    + ImageUploads(folder, doc.pageImages)
    + TableUploads(folder, doc.tables)
    + ListUploads(folder, doc.pageTexts)
  }

  /** Every run of uploads goes to the flat prefix under the file's basename. */
  lemma {:induction false} UploadsParsed(folder: string, names: seq<string>)
    ensures forall u :: u in Uploads(folder, names) ==> IsParsedUpload(u)
    decreases |names|
  {
    if |names| > 0 {
      UploadsParsed(folder, names[..|names| - 1]);
    }
  }

  /** Whatever the document, every upload key is the prefix plus the local file's basename. */
  lemma AllUploadsParsed(folder: string, doc: PdfContent)
    ensures forall u :: u in AllUploads(folder, doc) ==> IsParsedUpload(u)
  {
    UploadsParsed(folder, TextNames(|doc.pageTexts|));
    UploadsParsed(folder, ImageNames(doc.pageImages));
    UploadsParsed(folder, TableNames(doc.tables));
    UploadsParsed(folder, ListNames(doc.pageTexts));
  }

  /**
   The logs of four consecutive passes, each pass logging its own uploads with
   its own slice of the outcomes.
   */
  function PassLogs(bucket: string, a: seq<Upload>, b: seq<Upload>, c: seq<Upload>, d: seq<Upload>,
                    outcomes: seq<UploadOutcome>): seq<string>
    requires |outcomes| == |a| + |b| + |c| + |d|
  {
    var i := |a|;
    var j := i + |b|;
    var k := j + |c|;
    UploadLogs(bucket, a, outcomes[..i])
    + UploadLogs(bucket, b, outcomes[i..j])
    + UploadLogs(bucket, c, outcomes[j..k])
    + UploadLogs(bucket, d, outcomes[k..])
  }

  /**
   `extract_all_from_pdf`: each pass returns the logs of its own uploads and the
   logs are concatenated; `outcomes` holds the outcome of every attempted
   upload, in attempt order.
   */
  function ExtractAllLogs(bucket: string, folder: string, doc: PdfContent, outcomes: seq<UploadOutcome>): seq<string>
    requires |outcomes| == |AllUploads(folder, doc)|
  {
    PassLogs(bucket, TextUploads(folder, |doc.pageTexts|), ImageUploads(folder, doc.pageImages),
             TableUploads(folder, doc.tables), ListUploads(folder, doc.pageTexts), outcomes)
  }

  /** Logs of consecutive runs of uploads follow each other. */
  lemma {:induction false} UploadLogsAppend(bucket: string, u1: seq<Upload>, o1: seq<UploadOutcome>, u2: seq<Upload>, o2: seq<UploadOutcome>)
    requires |o1| == |u1| && |o2| == |u2|
    ensures UploadLogs(bucket, u1 + u2, o1 + o2) == UploadLogs(bucket, u1, o1) + UploadLogs(bucket, u2, o2)
    decreases |u2|
  {
    if |u2| == 0 {
      assert u1 + u2 == u1 && o1 + o2 == o1;
    } else {
      var u2i := u2[..|u2| - 1];
      var o2i := o2[..|o2| - 1];
      var last := UploadLog(bucket, u2[|u2| - 1], o2[|o2| - 1]);
      UploadLogsAppend(bucket, u1, o1, u2i, o2i);
      assert (u1 + u2)[..|u1 + u2| - 1] == u1 + u2i;
      assert (o1 + o2)[..|o1 + o2| - 1] == o1 + o2i;
      assert UploadLogs(bucket, u1 + u2, o1 + o2) == UploadLogs(bucket, u1 + u2i, o1 + o2i) + [last];
      assert UploadLogs(bucket, u2, o2) == UploadLogs(bucket, u2i, o2i) + [last];
    }
  }

  /** The logs of a run of uploads split where the run splits. */
  lemma UploadLogsSplit(bucket: string, u1: seq<Upload>, u2: seq<Upload>, o: seq<UploadOutcome>)
    requires |o| == |u1| + |u2|
    ensures UploadLogs(bucket, u1 + u2, o)
            == UploadLogs(bucket, u1, o[..|u1|]) + UploadLogs(bucket, u2, o[|u1|..])
  {
    assert o == o[..|u1|] + o[|u1|..];
    UploadLogsAppend(bucket, u1, o[..|u1|], u2, o[|u1|..]);
  }

  lemma PassLogsInOrder(bucket: string, a: seq<Upload>, b: seq<Upload>, c: seq<Upload>, d: seq<Upload>,
                        outcomes: seq<UploadOutcome>)
    requires |outcomes| == |a| + |b| + |c| + |d|
    ensures PassLogs(bucket, a, b, c, d, outcomes) == UploadLogs(bucket, a + b + c + d, outcomes)
  {
    var i := |a|;
    var j := i + |b|;
    var k := j + |c|;
    var o := outcomes;
    UploadLogsSplit(bucket, a + b + c, d, o);
    UploadLogsSplit(bucket, a + b, c, o[..k]);
    SlicesOfPrefix(o, j, k);
    UploadLogsSplit(bucket, a, b, o[..j]);
    SlicesOfPrefix(o, i, j);
  }

  lemma SlicesOfPrefix<T>(o: seq<T>, j: nat, k: nat)
    requires j <= k <= |o|
    ensures o[..k][..j] == o[..j] && o[..k][j..] == o[j..k]
  {
  }

  /**
   The logs of `extract_all_from_pdf` are one line per attempted upload, in
   attempt order: the text pass first, then images, tables and lists; this
   holds for a document with no uploads too.
   */
  lemma ExtractAllLogsConcat(bucket: string, folder: string, doc: PdfContent, outcomes: seq<UploadOutcome>)
    requires |outcomes| == |AllUploads(folder, doc)|
    ensures ExtractAllLogs(bucket, folder, doc, outcomes) == UploadLogs(bucket, AllUploads(folder, doc), outcomes)
  {
    PassLogsInOrder(bucket, TextUploads(folder, |doc.pageTexts|), ImageUploads(folder, doc.pageImages),
                    TableUploads(folder, doc.tables), ListUploads(folder, doc.pageTexts), outcomes);
  }

  /** Log line `i` of the whole extraction reports upload `i` with outcome `i`. */
  lemma ExtractAllLogsInOrder(bucket: string, folder: string, doc: PdfContent, outcomes: seq<UploadOutcome>, i: nat)
    requires |outcomes| == |AllUploads(folder, doc)|
    requires i < |outcomes|
    ensures ExtractAllLogs(bucket, folder, doc, outcomes) == UploadLogs(bucket, AllUploads(folder, doc), outcomes)
    ensures ExtractAllLogs(bucket, folder, doc, outcomes)[i] == UploadLog(bucket, AllUploads(folder, doc)[i], outcomes[i])
  {
    ExtractAllLogsConcat(bucket, folder, doc, outcomes);
    UploadLogsAt(bucket, AllUploads(folder, doc), outcomes, i);
  }

}
