# AI-Information-Extractor: naming, admission and rendering logic in Dafny

AI-Information-Extractor scrapes web pages and parses PDF documents. It uploads
the results to an S3 bucket and renders them as Markdown. Almost all of it is
glue around HTTP, BeautifulSoup, PyMuPDF, camelot, docling, Apify and boto3.
This project models the small pure string logic left between those calls:

- **URL admission.** `is_valid_url` in both scrapers. It is an exact,
  case-sensitive `http://`/`https://` prefix test followed by a case-insensitive
  suffix test against nine file extensions.
- **Open-source web scraper** (`OSWebScrap.py`):
  - numbering of saved images (`image_{k}.jpg`, k the tag's 1-based position);
  - the layout of `tables.txt`;
  - the whitespace normaliser and the `![alt](url)` link list of
    `scrape_text_data_with_images`;
  - the Markdown report of `convert_to_markdown`.
- **Enterprise web scraper** (`EnterpriseWebScrap.py`):
  - image numbering and skipping in `save_images`;
  - the file written by `generate_markdown`.
- **Open-source PDF pipeline** (`open_source_parsing.py`):
  - the `page_{n}_…` file names of the text, image, table and list passes;
  - the flat `pdf_processing_pipeline/pdf_os_pipeline/parsed_data/` keys;
  - the accuracy ≥ 80 table filter and the bullet-line filter;
  - the log line of `upload_file_to_s3`;
  - the order of the logs returned by `extract_all_from_pdf`.
- **Docling pipeline** (`docklingextraction.py`):
  - the `<stem>-<service>` job folder and its S3 folder;
  - page, table, picture and Markdown file names;
  - the two independent element counters;
  - the distinctness of everything one job uploads.

Whatever a library returns becomes an input:
- the `<img>` tags with their `src` and `alt`;
- whether each download succeeded;
- the page text and the table cells;
- PyMuPDF's page texts and image-list entries;
- camelot's tables with their page and accuracy;
- docling's page numbers and item kinds;
- the outcome of each upload.

`urljoin` and `os.path.relpath` are opaque function parameters.

Modules:
- `Wrappers`: `Option`.
- `Strings`: ASCII whitespace, strip, lower-casing, `join`, `splitlines` and
  decimal rendering with its parsing inverse.
- `Paths`: POSIX `os.path.join` and `basename`.
- `Selection`: the numbers handed out by a loop that skips elements without renumbering.
- `LineBlocks`: a file written as consecutive blocks of lines.
- `TextCleanup`: the whitespace normaliser.
- `OSWebScrap`, `EnterpriseWebScrap`, `OpenSourceParsing`, `DoclingExtraction`:
  one per source file.

## Model

| member | source | states |
|---|---|---|
| OSWebScrap.RejectsWithoutWebScheme | OSWebScrap.py:10-12 | a URL that does not start with exactly `http://` or `https://` is rejected |
| OSWebScrap.SchemeIsCaseSensitive | OSWebScrap.py:10-12 | `HTTP://` and `Https://` are rejected where `http://` is admitted, so the scheme test is case-sensitive (unlike section 3.1 of RFC 3986) |
| OSWebScrap.RejectsDisallowedExtension | OSWebScrap.py:6-16 | any URL ending in a suffix whose lower-cased form is one of the nine extensions is rejected, whatever its case |
| OSWebScrap.ExtensionExamples | OSWebScrap.py:14-16 | `X.PDF` is rejected, while `x.pdf?dl=1` is admitted because only the very end is compared |
| OSWebScrap.DecidedBySchemeAndLowerCase | OSWebScrap.py:8-18 | behind a valid scheme, two URL tails with the same lower-case form get the same verdict; nothing else matters |
| Selection.NumbersInRange | OSWebScrap.py:33-47 | every number handed out by a loop that skips elements but numbers by position is the 1-based position of a kept element |
| Selection.NumbersIncreasing | OSWebScrap.py:33-47 | those numbers strictly increase, so none repeats |
| Selection.NumbersComplete | OSWebScrap.py:33-47 | every kept element's 1-based position is handed out |
| OSWebScrap.ImageFileNameInjective | OSWebScrap.py:43 | `image_{n}.jpg` determines n |
| OSWebScrap.SavedImageNumbersSpec | OSWebScrap.py:33-47 | the saved numbers are the 1-based positions of exactly the tags that have a non-empty `src` and were fetched, strictly increasing, so skipped tags leave gaps |
| OSWebScrap.SavedImagesMember | OSWebScrap.py:33-47 | a path is returned exactly when it is `output_dir/image_{k+1}.jpg` for a tag at 0-based position k that has a `src` and was fetched |
| Paths.PathJoinInjective | OSWebScrap.py:43 | joining two relative names onto the same folder gives equal paths only for equal names |
| OSWebScrap.SavedImagesDistinct | OSWebScrap.py:43-47 | no two returned image paths are equal |
| OSWebScrap.TxtRowLinesAt | OSWebScrap.py:64-65 | row r of a table is written as its cells joined by ` \| ` |
| OSWebScrap.TableTxtBlocksAt | OSWebScrap.py:55-66 | table k (from 0) gets the block numbered k + 1 |
| OSWebScrap.TableTxtBlockRow | OSWebScrap.py:63-66 | a table's block is its heading, one line per row and one blank line; row r is line 1 + r |
| OSWebScrap.TablesTxtReadBack | OSWebScrap.py:54-66 | splitting `tables.txt` into lines gives back exactly the lines written, when no cell holds a line break |
| OSWebScrap.TablesTxtLayout | OSWebScrap.py:55-66 | `Table {k+1}:`, the rows and a blank line sit at the start of table k's block, and the blocks fill the file |
| OSWebScrap.ImageLinksCount | OSWebScrap.py:84-91 | there is exactly one link per tag with a `src` |
| OSWebScrap.ImageLinksAt | OSWebScrap.py:84-91 | link j belongs to the j-th tag with a `src`: it carries that tag's alt (or `Image {idx+1}` for its own 0-based position idx) and its resolved URL |
| OSWebScrap.ImageLinksPrefix | OSWebScrap.py:84-91 | links are only ever appended: the links of the first n tags begin the links of all tags |
| OSWebScrap.TextWithImagesVisibleText | OSWebScrap.py:97-102 | the document's visible characters are the page text's, then `##Images`, then the links' |
| TextCleanup.SplitDoubleSpacePieces | OSWebScrap.py:98 | no piece of `split("  ")` contains a double space, and the first piece is a prefix of the line |
| TextCleanup.JoinSplitDoubleSpace | OSWebScrap.py:98 | joining the pieces back with two spaces gives the line again |
| TextCleanup.CleanTextLines | OSWebScrap.py:97-99 | every line of the cleaned text is non-empty, stripped and free of double spaces; the lines are the chunks in source order |
| TextCleanup.CleanTextKeepsVisibleText | OSWebScrap.py:97-99 | cleaning changes only whitespace: the non-whitespace characters and their order are kept |
| OSWebScrap.MarkdownImageLines | OSWebScrap.py:111-114 | image j (from 0) is written as `![Image {j+1}](relpath)` followed by a blank line |
| OSWebScrap.MarkdownRowLinesAt | OSWebScrap.py:120-121 | row r of a table is `\| c1 \| … \| cm \|` |
| OSWebScrap.MarkdownTableBlockRow | OSWebScrap.py:119-122 | a table section is `### Table n`, a blank line, the rows and a blank line |
| OSWebScrap.MarkdownReadBack | OSWebScrap.py:108-122 | splitting the report into lines gives back exactly the lines written, when no path or cell holds a line break |
| OSWebScrap.MarkdownImagesLayout | OSWebScrap.py:108-117 | the report opens with the title, `## Images`, one line per image in input order, then `## Tables` |
| OSWebScrap.MarkdownTablesLayout | OSWebScrap.py:116-122 | table k's section, numbered k + 1, starts after the preamble and the sections before it |
| EnterpriseWebScrap.SameAdmissionAsOpenSource | EnterpriseWebScrap.py:9-22 | this scraper admits exactly the URLs the other one admits |
| EnterpriseWebScrap.SavedNumbersSpec | EnterpriseWebScrap.py:47-57 | the saved numbers are the 1-based positions of exactly the successful downloads, strictly increasing, at most one per URL |
| EnterpriseWebScrap.SavedImages | EnterpriseWebScrap.py:47-57 | the loop records one path per successful download |
| EnterpriseWebScrap.SavedImagesAt | EnterpriseWebScrap.py:51-55 | the j-th saved path is `folder/image_{k}.jpg` for the j-th saved number k |
| EnterpriseWebScrap.SaveImages | EnterpriseWebScrap.py:45-59 | the loop returns the saved paths, no more of them than URLs |
| EnterpriseWebScrap.SavedImagesDistinct | EnterpriseWebScrap.py:51-55 | no two saved paths are equal |
| EnterpriseWebScrap.ImagesSectionEmpty | EnterpriseWebScrap.py:71-74 | the `## Extracted Images` section is written exactly when the URL list is non-empty |
| EnterpriseWebScrap.ImageRefsAsLines | EnterpriseWebScrap.py:73-74 | the image references are `![Image k](url)` lines each followed by a blank line, k from 1 |
| EnterpriseWebScrap.GenerateMarkdownAsLines | EnterpriseWebScrap.py:64-74 | the file is the title, the content heading, the text and the image section, each followed by a blank line |
| EnterpriseWebScrap.GenerateMarkdownReadBack | EnterpriseWebScrap.py:64-74 | for single-line text and URLs, the lines of the file are exactly those parts |
| EnterpriseWebScrap.MarkdownLinesLayout | EnterpriseWebScrap.py:66-74 | the written parts number 6 without URLs and 8 + 2n with n of them; the header and text come first, then the images heading and `![Image {j+1}](url_j)` at part 8 + 2j (a text holding line breaks makes the file itself longer) |
| OpenSourceParsing.ParsedKeyIsFlat | open_source_parsing.py:46 | every key starts with the prefix, and no `/` follows it: there is no per-document folder |
| OpenSourceParsing.UploadOfKey | open_source_parsing.py:43-46 | for a plain file name the key is the prefix followed by that name |
| OpenSourceParsing.UploadKeysDistinct | open_source_parsing.py:46 | different plain file names get different keys |
| OpenSourceParsing.UploadLogKind | open_source_parsing.py:19-25 | the log line starts with `Uploaded ` exactly when the upload succeeded; success ends with `s3://bucket/key`, failure starts with `Error uploading file {path}: ` |
| OpenSourceParsing.UploadLogs | open_source_parsing.py:19-25 | there is one log line per attempted upload |
| OpenSourceParsing.UploadLogsAt | open_source_parsing.py:19-25 | one log line per attempted upload, each from that upload and its own outcome |
| OpenSourceParsing.PageNameInjective | open_source_parsing.py:43 | `page_{n}` followed by a tail that does not start with a digit determines n and the tail |
| OpenSourceParsing.ImageFileNameInjective | open_source_parsing.py:63 | `page_{p}_img_{i}.{ext}` determines p, i and ext |
| OpenSourceParsing.PassNamesDiffer | open_source_parsing.py:43-89 | text, image, table and list files never share a name |
| OpenSourceParsing.TextNamesAt | open_source_parsing.py:41-43 | the i-th text file (from 0) is `page_{i+1}_text.txt` |
| OpenSourceParsing.TextNamesDistinct | open_source_parsing.py:41-43 | different pages get different text files |
| OpenSourceParsing.TextUploadAt | open_source_parsing.py:41-46 | one text upload per page, in page order: upload i (from 0) is `page_{i+1}_text.txt` written into the folder and keyed by the prefix and that name, for every page including the last |
| OpenSourceParsing.TextUploadKeysDistinct | open_source_parsing.py:41-46 | no two pages' text uploads share a key |
| OpenSourceParsing.PageImageNamesMember | open_source_parsing.py:56-66 | a page's image files are exactly `page_{p}_img_{i+1}.{ext}` for the entries i that yielded an image |
| OpenSourceParsing.ImageNamesMember | open_source_parsing.py:53-66 | a name is written by the image pass exactly when it is `page_{p+1}_img_{i+1}.{ext}` for an extracted entry i on page p (both from 0); skipped entries still count |
| OpenSourceParsing.ImageNamesCount | open_source_parsing.py:53-66 | the image pass writes as many files as there are extracted entries over all pages |
| OpenSourceParsing.PageImageNamesDistinct | open_source_parsing.py:56-66 | the entries of one page get pairwise different files |
| OpenSourceParsing.ImageNamesDistinct | open_source_parsing.py:53-66 | no file of the image pass is written twice, so with the two rows above there is exactly one file per extracted entry |
| OpenSourceParsing.ImageNamesPrefix | open_source_parsing.py:53-56 | pages are processed in order: the files of the first n pages begin the files of the pass |
| OpenSourceParsing.TableNamesMember | open_source_parsing.py:74-77 | the table pass writes exactly `page_{page}_table.csv` for the tables with accuracy ≥ 80 |
| OpenSourceParsing.AccuracyThreshold | open_source_parsing.py:74 | a lone table is written exactly when its accuracy is at least 80 |
| OpenSourceParsing.TableNamesAt | open_source_parsing.py:74-77 | one file per qualifying table, in camelot's order: file j is `page_{page}_table.csv` of the j-th table with accuracy ≥ 80, so two qualifying tables on one page give two files |
| OpenSourceParsing.SamePageSameKey | open_source_parsing.py:74-77 | any two qualifying tables on one page, wherever they stand in camelot's list, give two uploads under the same key, the later overwriting the earlier |
| OpenSourceParsing.ListLinesKeep | open_source_parsing.py:87 | every line whose stripped form starts with `-`, `*`, `•` or `○` is kept, stripped |
| OpenSourceParsing.ListLinesSource | open_source_parsing.py:87 | every kept line is the stripped form of such a line |
| OpenSourceParsing.ListLinesCount | open_source_parsing.py:87 | there are exactly as many kept lines as list lines: duplicates are kept |
| OpenSourceParsing.ListLinesAt | open_source_parsing.py:87 | the comprehension keeps order: kept line j is the stripped j-th list line |
| Selection.FilteredAt | open_source_parsing.py:87 | a comprehension `[f(x) for x in xs if keep(x)]` has one result per kept element, result j being `f` of the j-th kept element |
| OpenSourceParsing.ListLinesShape | open_source_parsing.py:87 | every kept line is non-empty, stripped, starts with a marker and holds no line break |
| OpenSourceParsing.ListFileReadBack | open_source_parsing.py:87-91 | splitting a lists file into lines gives back exactly the list lines, in order |
| OpenSourceParsing.ListNamesMember | open_source_parsing.py:84-92 | `page_{n}_lists.txt` is written exactly for the pages with at least one list line |
| OpenSourceParsing.ListNamesAt | open_source_parsing.py:84-92 | one list file per page that has list lines, in page order: file j is `page_{n}_lists.txt` for the j-th such page n |
| OpenSourceParsing.ListNamesDistinct | open_source_parsing.py:84-92 | no page's list file is written or uploaded twice |
| OpenSourceParsing.UploadsParsed | open_source_parsing.py:46-92 | every upload of a pass goes to the flat prefix under its file's basename |
| OpenSourceParsing.AllUploadsParsed | open_source_parsing.py:95-105 | every upload of the whole extraction goes to the flat prefix under its file's basename |
| OpenSourceParsing.PassLogsInOrder | open_source_parsing.py:101-104 | the concatenated logs of the four passes are the logs of the concatenated uploads |
| OpenSourceParsing.ExtractAllLogsConcat | open_source_parsing.py:95-105 | for every document, with or without uploads, the logs are the text logs, then the image, table and list logs, one per attempted upload in attempt order |
| OpenSourceParsing.ExtractAllLogsInOrder | open_source_parsing.py:95-105 | the result is text logs, then image, table and list logs: line i logs upload i with outcome i |
| DoclingExtraction.JobFolder | docklingextraction.py:47 | the job folder starts with `stem-` and ends with the service type |
| DoclingExtraction.S3FolderShape | docklingextraction.py:47-48 | the S3 folder is `pdf_processing_pipeline/markdown_outputs/` + `stem-service` + `/` |
| DoclingExtraction.ServicesGetDistinctFolders | docklingextraction.py:47-48 | for a fixed stem, different service types give different S3 folders |
| DoclingExtraction.JobFolderNotInjective | docklingextraction.py:47 | two different (stem, service) pairs can share a job folder |
| DoclingExtraction.TailInjective | docklingextraction.py:56-89 | the part of a name after `stem-` determines which file it is |
| DoclingExtraction.FileNameInjective | docklingextraction.py:56-89 | within one job, different files have different names |
| DoclingExtraction.PageFiles | docklingextraction.py:55-60 | one page image per entry of the pages map |
| DoclingExtraction.PageFilesMember | docklingextraction.py:55-60 | a page image `stem-{page_no}.png` is written exactly for each page number in the pages map |
| DoclingExtraction.PageFilesDistinct | docklingextraction.py:55-56 | distinct page numbers give distinct page images |
| DoclingExtraction.TableCount | docklingextraction.py:65-67 | the table counter never exceeds the number of items |
| DoclingExtraction.PictureCount | docklingextraction.py:74-75 | the picture counter never exceeds the number of items |
| DoclingExtraction.ElementFiles | docklingextraction.py:63-80 | one element image per table item and per picture item, other items writing nothing |
| DoclingExtraction.SaveElementImages | docklingextraction.py:63-80 | the counters end at the numbers of tables and pictures, with one file per table or picture |
| DoclingExtraction.ElementFilesMember | docklingextraction.py:63-80 | the element images are exactly `table-1..T` and `picture-1..P`, counted independently |
| DoclingExtraction.ElementFilesPrefix | docklingextraction.py:63-80 | the images of the first items begin the images of all items: the loop only appends |
| DoclingExtraction.ElementFileOfItem | docklingextraction.py:65-76 | the i-th item, when a table or picture, is numbered one past the items of its kind before it, and its image stands right after the images of the items before it |
| DoclingExtraction.ElementFilesDistinct | docklingextraction.py:63-80 | no two element images are the same file |
| DoclingExtraction.JobFiles | docklingextraction.py:55-92 | a job writes one file per page, table and picture, plus two Markdown files |
| DoclingExtraction.MarkdownFiles | docklingextraction.py:83-92 | exactly two Markdown files are written, with embedded images first and referenced images second, after all images |
| DoclingExtraction.JobFilesDistinct | docklingextraction.py:55-92 | all files of one job are pairwise distinct |
| DoclingExtraction.JobUploadKey | docklingextraction.py:60-92 | every key is the job's S3 folder followed by the file's own name |
| DoclingExtraction.JobKeysInFolder | docklingextraction.py:48-92 | every upload of a job, the last Markdown file included, is keyed inside the job's S3 folder |
| DoclingExtraction.JobKeysDistinct | docklingextraction.py:48-92 | no two uploads of a job share a key |

## Left out

- Network, HTML, PDF and docling work is not modelled: `requests.get`, BeautifulSoup, PyMuPDF, camelot, docling conversion, PIL encoding, the Apify actor and boto3. Their results are inputs, and an upload's or download's success is an input flag or outcome.
- `download_pdf` and `extract_webpage_data` are only network calls and are not modelled.
- The bytes written to files are not modelled: page text, CSV cells, image data and docling's Markdown. The `tables.txt`, Markdown and lists files, which the code builds from strings, are modelled.
- Directory creation and the existence checks on output folders are not modelled.
- `print`, `logging` and `time.time()` are not modelled, including the messages `is_valid_url` prints. The return values are modelled.
- Python's Unicode `strip`, `isspace`, `splitlines` and `lower` are modelled on ASCII:
  - whitespace is the ten ASCII characters `str.isspace` accepts;
  - `\n` is the only line break;
  - only `A`–`Z` are lower-cased.
- `urljoin` and `os.path.relpath` are filesystem- or URL-dependent and enter as opaque functions.
- `Path.stem` is not derived; the stem is an input. `str(Path)` normalisation is not modelled: local paths use `os.path.join` semantics.
- Docling's `pages` map enters as its sequence of page numbers. Distinct page numbers are required where distinctness is proved, because a map's keys are distinct.
- camelot's `table.page` is modelled as a natural number rendered in decimal.
- No job registry, latest-job lookup or per-job locking exists in the code, and none is modelled.
- The return value of `upload_file_to_s3` is ignored by the docling pipeline, so its logs are not modelled there.
- Only runs that complete are modelled. The model has no outcome for a run that raises part-way, and these abort paths are left out:
  - a local `open` or write failing: open_source_parsing.py:44, 64 and 90, OSWebScrap.py:54 and 125;
  - `fitz.open`, `camelot.read_pdf` or docling's `convert` raising: open_source_parsing.py:40, 52, 72 and 83, docklingextraction.py:42;
  - `element.get_image(...)` returning `None`, so that `.save` raises: docklingextraction.py:70 and 78;
  - `response.raise_for_status()` raising on the page fetch: OSWebScrap.py:23 and 75.
- camelot's float `accuracy` is modelled as a `real`, which has no NaN. A NaN accuracy fails `>= 80` in Python, so such a table is skipped, but the model cannot express that input.
- The Streamlit front end and the FastAPI endpoints are not part of this model.
- OSWebScrap.TablesTxtReadBack: stated only for cells without line breaks. A cell text with a `\n` would split a row across lines.
- OSWebScrap.MarkdownReadBack: stated only for cells and image paths without line breaks, for the same reason.
- EnterpriseWebScrap.GenerateMarkdownReadBack: stated only for single-line text and URLs. `GenerateMarkdownAsLines` covers every input.
- DoclingExtraction.JobUploadKey: assumes a stem without `/`, which holds for every `Path.stem`.
- DoclingExtraction.JobKeysDistinct: also assumes a stem without `/`, which holds for every `Path.stem`.
- DoclingExtraction.JobKeysInFolder: also assumes a stem without `/`, for the same reason.
