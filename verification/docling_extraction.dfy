/**
 The docling pipeline's artifact naming: one job folder per (document stem,
 service type), locally and in the object store, holding the page images,
 the table and picture images numbered by their own counters, and two
 Markdown renderings.

 Docling itself is outside the model: its results enter as the page numbers
 of the `pages` map, in the map's order, and the kinds of the items
 `iterate_items` yields, in iteration order.
 */
module DoclingExtraction {
  import opened Strings
  import opened Paths
  import OpenSourceParsing

  const MarkdownOutputs := "pdf_processing_pipeline/markdown_outputs/"

  /** `f"{doc_filename}-{service_type}"`. */
  function JobFolder(stem: string, service: string): (job: string)
    ensures StartsWith(job, stem + "-") && EndsWith(job, service)
  {
    EndsWithAppend(stem + "-", service);
    stem + "-" + service
  }

  /** `f"pdf_processing_pipeline/markdown_outputs/{job_folder}/"`. */
  function S3Folder(job: string): string {
    MarkdownOutputs + job + "/"
  }

  /** The S3 folder is the job folder between the outputs prefix and a closing `/`. */
  lemma S3FolderShape(stem: string, service: string)
    ensures StartsWith(S3Folder(JobFolder(stem, service)), MarkdownOutputs + stem + "-")
    ensures EndsWith(S3Folder(JobFolder(stem, service)), service + "/")
    ensures |S3Folder(JobFolder(stem, service))| == |MarkdownOutputs| + |stem| + |service| + 2
  {
    var folder := S3Folder(JobFolder(stem, service));
    assert folder == (MarkdownOutputs + stem + "-") + (service + "/");
    EndsWithAppend(MarkdownOutputs + stem + "-", service + "/");
  }

  /** For one document, different service types never share an S3 folder. */
  lemma ServicesGetDistinctFolders(stem: string, s1: string, s2: string)
    requires s1 != s2
    ensures S3Folder(JobFolder(stem, s1)) != S3Folder(JobFolder(stem, s2))
  {
    var p := MarkdownOutputs + stem + "-";
    assert S3Folder(JobFolder(stem, s1)) == p + (s1 + "/");
    assert S3Folder(JobFolder(stem, s2)) == p + (s2 + "/");
    if p + (s1 + "/") == p + (s2 + "/") {
      CancelPrefix(p, s1 + "/", s2 + "/");
      CancelSuffix(s1, s2, "/");
    }
  }

  /**
   The job folder does not determine the pair it came from: a stem may itself
   contain `-`, so `a-b` with service `c` and `a` with service `b-c` share a folder.
   */
  lemma JobFolderNotInjective()
    ensures exists stem1, service1, stem2, service2 ::
              stem1 != stem2 && JobFolder(stem1, service1) == JobFolder(stem2, service2)
  {
    assert JobFolder("a-b", "c") == JobFolder("a", "b-c");
  }

  // ---------------------------------------------------------------------------
  // File names

  /** The files one job writes. */
  datatype JobFile =
    | PageImage(pageNo: int)
    | TableImage(tableNo: nat)
    | PictureImage(pictureNo: nat)
    | EmbeddedMarkdown
    | ReferencedMarkdown

  const PngSuffix := ".png"
  const TableInfix := "table-"
  const PictureInfix := "picture-"
  const EmbeddedTail := "with-images.md"
  const ReferencedTail := "with-image-refs.md"

  /** What follows `{doc_filename}-` in the file's name. */
  function Tail(f: JobFile): string {
    match f
    case PageImage(p) => IntStr(p) + PngSuffix
    case TableImage(k) => TableInfix + NatStr(k) + PngSuffix
    case PictureImage(k) => PictureInfix + NatStr(k) + PngSuffix
    case EmbeddedMarkdown => EmbeddedTail
    case ReferencedMarkdown => ReferencedTail
  }

  /** Every file of the job is named `{doc_filename}-{tail}`. */
  function FileName(stem: string, f: JobFile): string {
    stem + "-" + Tail(f)
  }

  lemma NumberedTailInjective(infix: string, a: nat, b: nat)
    requires infix + NatStr(a) + PngSuffix == infix + NatStr(b) + PngSuffix
    ensures a == b
  {
    assert infix + NatStr(a) + PngSuffix == infix + (NatStr(a) + PngSuffix);
    assert infix + NatStr(b) + PngSuffix == infix + (NatStr(b) + PngSuffix);
    CancelPrefix(infix, NatStr(a) + PngSuffix, NatStr(b) + PngSuffix);
    CancelSuffix(NatStr(a), NatStr(b), PngSuffix);
    NatStrInjective(a, b);
  }

  /** The first character of each tail tells the kind of file apart. */
  lemma TailHead(f: JobFile)
    ensures |Tail(f)| > 0
    ensures f.PageImage? ==> Tail(f)[0] == '-' || IsDigit(Tail(f)[0])
    ensures f.TableImage? ==> Tail(f)[0] == 't'
    ensures f.PictureImage? ==> Tail(f)[0] == 'p'
    ensures f.EmbeddedMarkdown? || f.ReferencedMarkdown? ==> Tail(f)[0] == 'w'
  {
    match f
    case PageImage(p) => assert Tail(f)[0] == IntStr(p)[0];
    case TableImage(k) => assert Tail(f)[0] == TableInfix[0];
    case PictureImage(k) => assert Tail(f)[0] == PictureInfix[0];
    case EmbeddedMarkdown =>
    case ReferencedMarkdown =>
  }

  /** Different files of a job have different tails. */
  lemma TailInjective(f: JobFile, g: JobFile)
    requires Tail(f) == Tail(g)
    ensures f == g
  {
    TailHead(f);
    TailHead(g);
    match f
    case PageImage(a) =>
      if g.PageImage? {
        CancelSuffix(IntStr(a), IntStr(g.pageNo), PngSuffix);
        IntStrInjective(a, g.pageNo);
      }
    case TableImage(a) =>
      if g.TableImage? {
        NumberedTailInjective(TableInfix, a, g.tableNo);
      }
    case PictureImage(a) =>
      if g.PictureImage? {
        NumberedTailInjective(PictureInfix, a, g.pictureNo);
      }
    case EmbeddedMarkdown =>
    case ReferencedMarkdown =>
  }

  /** Within one job, different files get different names, whatever the stem. */
  lemma FileNameInjective(stem: string, f: JobFile, g: JobFile)
    requires FileName(stem, f) == FileName(stem, g)
    ensures f == g
  {
    assert FileName(stem, f) == (stem + "-") + Tail(f);
    assert FileName(stem, g) == (stem + "-") + Tail(g);
    CancelPrefix(stem + "-", Tail(f), Tail(g));
    TailInjective(f, g);
  }

  lemma NatStrNoSlash(n: nat)
    ensures '/' !in NatStr(n)
  {
    var d := NatStr(n);
    assert forall k :: 0 <= k < |d| ==> IsDigit(d[k]);
  }

  /** No tail holds a `/`: page numbers, counters and the literal parts are free of it. */
  lemma TailNoSlash(f: JobFile)
    ensures '/' !in Tail(f)
  {
    match f
    case PageImage(p) =>
      if p < 0 {
        NatStrNoSlash(-p);
        assert Tail(f) == "-" + NatStr(-p) + PngSuffix;
      } else {
        NatStrNoSlash(p);
        assert Tail(f) == NatStr(p) + PngSuffix;
      }
    case TableImage(k) =>
      NatStrNoSlash(k);
    case PictureImage(k) =>
      NatStrNoSlash(k);
    case EmbeddedMarkdown =>
    case ReferencedMarkdown =>
  }

  /** A file name is a single path component when the stem is. */
  lemma FileNamePlain(stem: string, f: JobFile)
    requires '/' !in stem
    ensures FileName(stem, f) != "" && '/' !in FileName(stem, f)
  {
    TailNoSlash(f);
  }

  // ---------------------------------------------------------------------------
  // Page images

  /** One `{doc_filename}-{page_no}.png` per entry of the pages map, in the map's order. */
  function PageFiles(pages: seq<int>): (fs: seq<JobFile>)
    ensures |fs| == |pages|
    decreases |pages|
  {
    if |pages| == 0 then [] else PageFiles(pages[..|pages| - 1]) + [PageImage(pages[|pages| - 1])]
  }

  /** A page image is written exactly for each page number of the map. */
  lemma {:induction false} PageFilesMember(pages: seq<int>, f: JobFile)
    ensures f in PageFiles(pages) <==> f.PageImage? && f.pageNo in pages
    decreases |pages|
  {
    if |pages| > 0 {
      var init := pages[..|pages| - 1];
      PageFilesMember(init, f);
      assert pages == init + [pages[|pages| - 1]];
    }
  }

  /** The keys of a map are distinct, and so are its page images. */
  lemma {:induction false} PageFilesDistinct(pages: seq<int>)
    requires forall i, j :: 0 <= i < j < |pages| ==> pages[i] != pages[j]
    ensures forall i, j :: 0 <= i < j < |PageFiles(pages)| ==> PageFiles(pages)[i] != PageFiles(pages)[j]
    decreases |pages|
  {
    if |pages| > 0 {
      var init := pages[..|pages| - 1];
      var last := pages[|pages| - 1];
      PageFilesDistinct(init);
      PageFilesMember(init, PageImage(last));
    }
  }

  // ---------------------------------------------------------------------------
  // Table and picture images

  /** What `iterate_items` yields, as far as naming is concerned. */
  datatype ItemKind = TableItem | PictureItem | OtherItem

  function TableCount(items: seq<ItemKind>): (n: nat)
    ensures n <= |items|
    decreases |items|
  {
    if |items| == 0 then 0
    else TableCount(items[..|items| - 1]) + (if items[|items| - 1] == TableItem then 1 else 0)
  }

  function PictureCount(items: seq<ItemKind>): (n: nat)
    ensures n <= |items|
    decreases |items|
  {
    if |items| == 0 then 0
    else PictureCount(items[..|items| - 1]) + (if items[|items| - 1] == PictureItem then 1 else 0)
  }

  /**
   The table and picture images in iteration order: a table is numbered by the
   tables up to and including it, a picture by the pictures; other items
   write nothing.
   */
  function ElementFiles(items: seq<ItemKind>): (fs: seq<JobFile>)
    ensures |fs| == TableCount(items) + PictureCount(items)
    decreases |items|
  {
    if |items| == 0 then []
    else
      var init := ElementFiles(items[..|items| - 1]);
      match items[|items| - 1]
      case TableItem => init + [TableImage(TableCount(items))]
      case PictureItem => init + [PictureImage(PictureCount(items))]
      case OtherItem => init
  }

  /**
   The loop of `main` over `iterate_items`, with its two counters: each starts
   at 0 and is incremented just before the file of its own kind is named.
   */
  method SaveElementImages(items: seq<ItemKind>) returns (files: seq<JobFile>, tableCounter: nat, pictureCounter: nat)
    ensures files == ElementFiles(items)
    ensures tableCounter == TableCount(items) && pictureCounter == PictureCount(items)
    ensures |files| == tableCounter + pictureCounter
  {
    files := [];
    tableCounter := 0;
    pictureCounter := 0;
    for i := 0 to |items|
      invariant tableCounter == TableCount(items[..i])
      invariant pictureCounter == PictureCount(items[..i])
      invariant files == ElementFiles(items[..i])
    {
      assert items[..i + 1][..i] == items[..i];
      if items[i] == TableItem {
        tableCounter := tableCounter + 1;
        files := files + [TableImage(tableCounter)];
      }
      if items[i] == PictureItem {
        pictureCounter := pictureCounter + 1;
        files := files + [PictureImage(pictureCounter)];
      }
    }
    assert items[..|items|] == items;
  }

  /**
   The counters are independent and gapless: the element images are exactly
   `table-1..T` and `picture-1..P`, T and P the numbers of tables and pictures.
   */
  lemma {:induction false} ElementFilesMember(items: seq<ItemKind>, f: JobFile)
    ensures f in ElementFiles(items) <==>
            (f.TableImage? && 1 <= f.tableNo <= TableCount(items))
            || (f.PictureImage? && 1 <= f.pictureNo <= PictureCount(items))
    decreases |items|
  {
    if |items| > 0 {
      ElementFilesMember(items[..|items| - 1], f);
    }
  }

  /** The element images of a prefix of the items begin the element images of all of them. */
  lemma {:induction false} ElementFilesPrefix(items: seq<ItemKind>, n: nat)
    requires n <= |items|
    ensures ElementFiles(items[..n]) <= ElementFiles(items)
    decreases |items|
  {
    if n == |items| {
      assert items[..n] == items;
    } else {
      var init := items[..|items| - 1];
      ElementFilesPrefix(init, n);
      assert init[..n] == items[..n];
      assert ElementFiles(init) <= ElementFiles(items);
    }
  }

  /**
   The `i`-th item, when a table or picture, is numbered by the items of its
   kind up to it, and its image is written right after those of the items
   before it.
   */
  lemma ElementFileOfItem(items: seq<ItemKind>, i: nat)
    requires i < |items|
    ensures items[i] == TableItem ==>
              TableCount(items[..i + 1]) == TableCount(items[..i]) + 1
              && TableCount(items[..i]) + PictureCount(items[..i]) < |ElementFiles(items)|
              && ElementFiles(items)[TableCount(items[..i]) + PictureCount(items[..i])]
                 == TableImage(TableCount(items[..i]) + 1)
    ensures items[i] == PictureItem ==>
              PictureCount(items[..i + 1]) == PictureCount(items[..i]) + 1
              && TableCount(items[..i]) + PictureCount(items[..i]) < |ElementFiles(items)|
              && ElementFiles(items)[TableCount(items[..i]) + PictureCount(items[..i])]
                 == PictureImage(PictureCount(items[..i]) + 1)
  {
    assert items[..i + 1][..i] == items[..i];
    ElementFilesPrefix(items, i + 1);
    var before := ElementFiles(items[..i]);
    var upTo := ElementFiles(items[..i + 1]);
    if items[i] != OtherItem {
      assert |upTo| == |before| + 1;
      assert upTo[|before|] == ElementFiles(items)[|before|];
    }
  }

  /** Counting over a prefix never exceeds counting over the whole sequence. */
  lemma {:induction false} CountsGrow(items: seq<ItemKind>, n: nat)
    requires n <= |items|
    ensures TableCount(items[..n]) <= TableCount(items)
    ensures PictureCount(items[..n]) <= PictureCount(items)
    decreases |items|
  {
    if n < |items| {
      var init := items[..|items| - 1];
      assert items[..n] == init[..n];
      CountsGrow(init, n);
    } else {
      assert items[..n] == items;
    }
  }

  /** No two element images share a file. */
  lemma {:induction false} ElementFilesDistinct(items: seq<ItemKind>)
    ensures forall i, j :: 0 <= i < j < |ElementFiles(items)| ==> ElementFiles(items)[i] != ElementFiles(items)[j]
    decreases |items|
  {
    if |items| > 0 {
      var init := items[..|items| - 1];
      ElementFilesDistinct(init);
      ElementFilesMember(init, TableImage(TableCount(items)));
      ElementFilesMember(init, PictureImage(PictureCount(items)));
    }
  }

  // ---------------------------------------------------------------------------
  // The whole job

  /** Page images, then element images, then the embedded and the referenced Markdown. */
  function JobFiles(pages: seq<int>, items: seq<ItemKind>): (fs: seq<JobFile>)
    ensures |fs| == |pages| + TableCount(items) + PictureCount(items) + 2
  {
    PageFiles(pages) + ElementFiles(items) + [EmbeddedMarkdown, ReferencedMarkdown]
  }

  /** Exactly two Markdown files are written, the embedded one first, and they come last. */
  lemma MarkdownFiles(pages: seq<int>, items: seq<ItemKind>)
    ensures var fs := JobFiles(pages, items);
            fs[|fs| - 2] == EmbeddedMarkdown && fs[|fs| - 1] == ReferencedMarkdown
            && forall i :: 0 <= i < |fs| - 2 ==> !fs[i].EmbeddedMarkdown? && !fs[i].ReferencedMarkdown?
  {
    var fs := JobFiles(pages, items);
    var pf := PageFiles(pages);
    var ef := ElementFiles(items);
    forall i | 0 <= i < |fs| - 2
      ensures !fs[i].EmbeddedMarkdown? && !fs[i].ReferencedMarkdown?
    {
      if i < |pf| {
        PageFilesMember(pages, pf[i]);
      } else {
        assert fs[i] == ef[i - |pf|];
        ElementFilesMember(items, ef[i - |pf|]);
      }
    }
  }

  /** The files of one job are pairwise distinct, since the keys of the pages map are. */
  lemma JobFilesDistinct(pages: seq<int>, items: seq<ItemKind>)
    requires forall i, j :: 0 <= i < j < |pages| ==> pages[i] != pages[j]
    ensures forall i, j :: 0 <= i < j < |JobFiles(pages, items)| ==> JobFiles(pages, items)[i] != JobFiles(pages, items)[j]
  {
    var pf := PageFiles(pages);
    var ef := ElementFiles(items);
    var md := [EmbeddedMarkdown, ReferencedMarkdown];
    var fs := JobFiles(pages, items);
    PageFilesDistinct(pages);
    ElementFilesDistinct(items);
    forall i, j | 0 <= i < j < |fs|
      ensures fs[i] != fs[j]
    {
      if j < |pf| {
        assert fs[i] == pf[i] && fs[j] == pf[j];
      } else if j < |pf| + |ef| {
        assert fs[j] == ef[j - |pf|];
        if i < |pf| {
          assert fs[i] == pf[i];
          PageFilesMember(pages, pf[i]);
          ElementFilesMember(items, ef[j - |pf|]);
        } else {
          assert fs[i] == ef[i - |pf|];
        }
      } else {
        assert fs[j] == md[j - |pf| - |ef|];
        if i < |pf| {
          assert fs[i] == pf[i];
          PageFilesMember(pages, pf[i]);
        } else if i < |pf| + |ef| {
          assert fs[i] == ef[i - |pf|];
          ElementFilesMember(items, ef[i - |pf|]);
        }
      }
    }
  }

  /** `Path(f"output/{stem}") / job_folder`: where the job's files are written locally. */
  function LocalDir(stem: string, service: string): string {
    PathJoin("output/" + stem, JobFolder(stem, service))
  }

  /** The local file and the key `{s3_folder}{path.name}` of one file of the job. */
  function JobUpload(stem: string, service: string, f: JobFile): OpenSourceParsing.Upload {
    var path := PathJoin(LocalDir(stem, service), FileName(stem, f));
    OpenSourceParsing.Upload(path, S3Folder(JobFolder(stem, service)) + Basename(path))
  }

  /** Every upload of the job, in the order `main` makes them. */
  function JobUploads(stem: string, service: string, files: seq<JobFile>): (us: seq<OpenSourceParsing.Upload>)
    ensures |us| == |files|
  {
    seq(|files|, i requires 0 <= i < |files| => JobUpload(stem, service, files[i]))
  }

  /** A file's key is the job's S3 folder followed by the file's own name. */
  lemma JobUploadKey(stem: string, service: string, f: JobFile)
    requires '/' !in stem
    ensures JobUpload(stem, service, f).key == S3Folder(JobFolder(stem, service)) + FileName(stem, f)
  {
    FileNamePlain(stem, f);
    BasenameOfJoin(LocalDir(stem, service), FileName(stem, f));
  }

  /** Every upload of a job, the last one included, is keyed inside the job's S3 folder. */
  lemma JobKeysInFolder(stem: string, service: string, files: seq<JobFile>)
    requires '/' !in stem
    ensures forall i :: 0 <= i < |files| ==>
              StartsWith(JobUploads(stem, service, files)[i].key, S3Folder(JobFolder(stem, service)))
  {
    forall i | 0 <= i < |files|
      ensures StartsWith(JobUploads(stem, service, files)[i].key, S3Folder(JobFolder(stem, service)))
    {
      JobUploadKey(stem, service, files[i]);
    }
  }

  /**
   All uploads of one job go to its S3 folder under pairwise distinct keys, so
   no file of the job overwrites another.
   */
  lemma JobKeysDistinct(stem: string, service: string, pages: seq<int>, items: seq<ItemKind>, i: nat, j: nat)
    requires '/' !in stem
    requires forall a, b :: 0 <= a < b < |pages| ==> pages[a] != pages[b]
    requires i < j < |JobFiles(pages, items)|
    ensures var us := JobUploads(stem, service, JobFiles(pages, items));
            StartsWith(us[i].key, S3Folder(JobFolder(stem, service))) && us[i].key != us[j].key
  {
    var fs := JobFiles(pages, items);
    var folder := S3Folder(JobFolder(stem, service));
    JobFilesDistinct(pages, items);
    JobUploadKey(stem, service, fs[i]);
    JobUploadKey(stem, service, fs[j]);
    if folder + FileName(stem, fs[i]) == folder + FileName(stem, fs[j]) {
      CancelPrefix(folder, FileName(stem, fs[i]), FileName(stem, fs[j]));
      FileNameInjective(stem, fs[i], fs[j]);
    }
  }
}
