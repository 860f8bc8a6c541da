# Chunking and retrieval shaping of a document chatbot, in Dafny

This project models the pure core of a retrieval-augmented document chatbot.
The chatbot has a Streamlit front end and a FastAPI back end. The model
covers how uploaded documents are cut into chunks, how those chunks are
tagged, and how retrieved chunks are filtered and assembled into an
answer's context. The format readers, the vector index and the language
model are collaborators. Their outputs arrive as plain values.

Modules, following the program's files:

- `Wrappers` (`wrappers.dfy`): `Option` and `Result`.
- `Seqs` (`seqs.dfy`): flattening, prefixes, subsequences and counting.
- `Text` (`text.dfy`): the Python string operations the code relies on,
  over ASCII.
  - `strip`/`isspace` treat space, `\t` to `\r` and `\x1c` to `\x1f` as
    whitespace.
  - `lower` changes only `A` to `Z`.
  - Also modelled: the `in` substring test, `split`/`join` on one
    character, and slicing with negative bounds.
  - The filter that keeps the stripped form of every non-blank string,
    shared by the TXT reader and the `file_id` parser.
- `PathExt` (`path_ext.dfy`): POSIX `os.path.splitext`. Leading dots of the
  last component do not start an extension.
- `Chunks` (`chunks.dfy`): the `(chunk, page)` pairs, documents and
  metadata.
- `LinePacker` (`line_packer.dfy`): the greedy paragraph/line packer that
  `extract_text_from_docx`, `_txt` and `_csv` each repeat. It is modelled
  once. A second "unit group" view of the same decisions carries the
  partition theorem.
- `PageWindows` (`page_windows.dfy`): the per-page sliding window of
  `extract_pdf_chunks_with_page_numbers`.
- `Ingestor` (`ingestor.dfy`): how the DOCX and TXT readers prepare units,
  and the extension dispatch of `DocumentIngestor.extract`.
- `MainApp` (`main_app.dfy`), for `main.py`:
  - the role-keyword filter with its fallback;
  - CSV row chunks with the `Period` quarter;
  - the chunk metadata of uploads.
- `QueryApi` (`query_api.dfy`), for `fastapi_app.py`:
  - `file_id` parsing;
  - per-index gathering and the global cap;
  - context assembly;
  - the error responses of `/query`;
  - the file-type icons;
  - upload metadata and `file_id`.

## Behaviour of the code worth knowing

- **Packer flatten law.** The packer gives back its units, in order and
  without splits, only when no unit is empty. An empty unit met with an
  empty buffer disappears, and CSV `to_string` lines may be empty.
  `LinePacker.PackPartitionsUnits` therefore requires `NoEmptyUnit`. The
  DOCX and TXT unit lists always meet it (`Ingestor.TextUnitsPartition`).
- **Database dumps.** `extract` returns the whole SQLite dump as one chunk
  tagged 1; it is not line-packed.
- **Character-window coverage.** Whitespace-only windows are dropped, so
  what the PDF chunker guarantees is that every non-whitespace character
  lies in an emitted chunk.
- **Window loop termination.** On a page with text, the PDF window loop
  ends only when `chunk_size > chunk_overlap`; nothing rejects or clamps
  other sizes. A document without any page text returns no chunk whatever
  the sizes. The model asks for `size > overlap` only when some page has
  text (`PageWindows.NoPageTextNoChunks` covers the other case).
- **Negative sizes.** A negative `chunk_size` follows Python's slice rules.
- **Quarters.** Any `Period` that splits on `.` into exactly two parts is
  rewritten as year, space and quarter. Anything else passes through
  unchanged.
- **Errors.** Failures are HTTP statuses with the code's detail texts
  (400, 404, 500). An exception raised outside any handler is the
  framework's plain 500.
- **Icon table.** The icon strings in fastapi_app.py are each emoji's UTF-8
  bytes read back as Mac Roman characters, and that text is what
  `filetype_icon` returns. The model uses those exact code points; for
  example, the PDF icon is U+F8FF U+00FC U+00EC U+00D1.

## Model

| member | source | states |
|---|---|---|
| LinePacker.PackFrom | document_ingestor.py:20-33 | every emitted chunk is non-empty, since only a non-empty buffer is appended |
| LinePacker.PackChunks | document_ingestor.py:20-34 | the chunk texts are exactly the packer's output, tagged 1..n in order, each non-empty; no units give no chunks |
| LinePacker.OverlapIgnored | document_ingestor.py:16-34 | the result does not depend on `chunk_overlap` |
| LinePacker.PackFromIsJoinedGroups | document_ingestor.py:22-33 | the string-level loop emits exactly the newline-joins of the unit groups the greedy decisions form |
| LinePacker.GroupFromFlattens | document_ingestor.py:22-33 | concatenating the groups gives back the open group followed by the remaining units: nothing split, duplicated or lost |
| LinePacker.GroupFromBound | document_ingestor.py:23-31 | a group of two or more units joins to at most `chunk_size` characters |
| LinePacker.GroupFromGreedy | document_ingestor.py:23-26 | each group's join plus a newline plus the next group's first unit exceeds `chunk_size` |
| LinePacker.PackPartitionsUnits | document_ingestor.py:20-34 | with non-empty units the chunks are the joins of a partition of the units into non-empty groups: flatten law, length bound and greedy maximality |
| LinePacker.PackLongChunkIsUnit | document_ingestor.py:23-31 | for any units, a chunk longer than `chunk_size` is a single whole input unit |
| PageWindows.WindowsFrom | pdf_chunk_helper.py:13-19 | every window kept for a page carries that page and is not whitespace-only |
| PageWindows.PdfChunks | pdf_chunk_helper.py:8-20 | chunks are non-blank, tagged with pages 1..number of pages, in non-decreasing page order |
| PageWindows.WindowLength | pdf_chunk_helper.py:15-16 | a window starting inside the text is the plain slice up to `min(start + size, len)` and at most `size` long |
| PageWindows.PdfChunkShape | pdf_chunk_helper.py:13-19 | every chunk is the window of its page's text at a start on the grid 0, step, 2*step, ... below the text length, at most `chunk_size` long |
| PageWindows.EmptyPageNoChunks | pdf_chunk_helper.py:11-14 | a page whose text is empty or missing contributes no chunk |
| PageWindows.NoPageTextNoChunks | pdf_chunk_helper.py:8-20 | pages without any text give no chunk for every `chunk_size` and `chunk_overlap`, including those the window loop could not finish on a page with text |
| PageWindows.WindowEmitted | pdf_chunk_helper.py:14-19 | a grid start inside the text whose window is not blank is emitted |
| PageWindows.CoveringStart | pdf_chunk_helper.py:14-19 | gives the grid start whose first `size - overlap` characters contain a given position |
| PageWindows.PdfChunksCover | pdf_chunk_helper.py:13-19 | with `0 <= overlap < size`, each non-whitespace character of page i+1 lies, at its own offset, inside an emitted chunk tagged i+1 |
| PathExt.RFind | document_ingestor.py:99 | the last occurrence of a character, or -1 when it is absent |
| PathExt.SplitExt | document_ingestor.py:99 | `splitext` splits the path into root and extension that concatenate back; the extension is empty or one dot followed by no dot and no `/` |
| PathExt.SplitExtOfAppend | document_ingestor.py:99 | appending a well-formed extension to a root whose last component has a non-dot character is undone by `splitext` |
| Ingestor.KindOfExt | document_ingestor.py:100-115 | exactly the eight listed lower-case extensions select a reader: `.pdf`, `.docx`, `.txt`, `.csv` and `.db` their own, and `.jpg`, `.jpeg`, `.png` the image reader |
| Ingestor.DocxUnits | document_ingestor.py:18 | the kept paragraphs form a subsequence of the paragraphs, none blank, holding every non-blank paragraph unstripped |
| Ingestor.DocxUnitsCount | document_ingestor.py:18 | each non-blank paragraph is kept as often as it occurs, a blank one never |
| Text.StripNonBlank | document_ingestor.py:39 | the kept strings are trimmed and non-empty, and none is kept exactly when every input is blank |
| Text.StripNonBlankOne | document_ingestor.py:39 | one string contributes its stripped form, or nothing when it is blank |
| Text.StripNonBlankAppend | document_ingestor.py:39 | the filter distributes over concatenation, so order is kept and every non-blank line survives, stripped |
| Ingestor.Extract | document_ingestor.py:97-115 | it fails exactly for an unlisted lower-cased extension, with that extension in the message; a PDF gives the window chunker's chunks; DOCX, TXT and CSV give the packer's chunks of the non-blank paragraphs, the stripped non-blank lines and the raw lines; images and databases give their one text tagged 1 |
| Ingestor.ExtractPdfCovers | document_ingestor.py:100-101 | with `0 <= chunk_overlap < chunk_size`, every non-whitespace character of a PDF page lies, at its own offset, in an extracted chunk tagged with that page |
| Ingestor.ExtractPacksWholeUnits | document_ingestor.py:102-105 | the chunks of a DOCX or TXT file are the newline-joins of groups that concatenate back to the reader's units in order |
| Ingestor.PackedExtractPages | document_ingestor.py:97-109 | a name whose extension lower-cases to `.docx`, `.txt` or `.csv` selects a packing reader, whose chunks are tagged with their positions from 1 |
| Ingestor.ExtractTextlessPdf | pdf_chunk_helper.py:8-20 | a file whose extension lower-cases to `.pdf` and whose pages hold no text extracts to no chunk, whatever the sizes |
| Ingestor.ExtractPagesPositive | document_ingestor.py:97-115 | every successful extraction tags chunks with pages of at least 1 |
| Ingestor.KindOfAppend | document_ingestor.py:99 | the reader is chosen from the lower-cased last extension of the name |
| Ingestor.UpperCasePdf | document_ingestor.py:99-101 | a name ending in `.PDF` goes to the PDF reader |
| Ingestor.TextUnitsPartition | document_ingestor.py:16-55 | the DOCX and TXT units are never empty, so their chunks partition them |
| MainApp.FirstHit | main.py:59-63 | gives the index of the first keyword occurring in the question, with none before it occurring; none when no keyword occurs |
| MainApp.ChooseKeyword | main.py:57-63 | the chosen keyword is the first listed one contained in the lower-cased question (no earlier keyword occurs); none is chosen exactly when no keyword occurs |
| MainApp.InternalMembersNeverChosen | main.py:57-63 | "internal members" is never chosen, because "internal member" precedes it and occurs wherever it does |
| MainApp.FilterByKeyword | main.py:66 | a subsequence of the documents holding every mentioning document and only those |
| MainApp.FilterCount | main.py:66 | each mentioning document keeps its multiplicity and the others vanish |
| MainApp.RoleFilter | main.py:64-69 | the result is a subsequence of the retrieved documents and empty exactly when they are |
| MainApp.RoleFilterCases | main.py:64-69 | no keyword gives all documents; a keyword some document mentions gives exactly the mentioning ones; a keyword nobody mentions gives all documents |
| MainApp.LastKeyIndex | main.py:146 | gives the last position holding the key below a bound, or reports that no position does |
| MainApp.ZipMapLookup | main.py:146 | the dictionary built from the zipped pairs holds a key exactly when some position below the bound does, with the value at the last such position |
| MainApp.FieldIsDictGet | main.py:146-147 | the field lookup equals `dict(zip(header, row)).get(key, '')` |
| MainApp.QuarterOfMonth | main.py:152-153 | 03, 06, 09 and 12 become Q1, Q2, Q3 and Q4, and every other month passes through |
| MainApp.QuarterOfDotted | main.py:149-153 | a period `year.month` without other dots becomes `year` plus a space plus the month's quarter |
| MainApp.QuarterPassThrough | main.py:149-155 | a period with no dot or with two or more dots is kept as it is |
| MainApp.QuarterOfJune | main.py:150-153 | `2023.06` gives `2023 Q2` |
| MainApp.QuarterOfOtherMonth | main.py:150-153 | a period `year.month` whose month is not a quarter end keeps the month, e.g. `2023.11` gives `2023 11` |
| MainApp.RowTextLines | main.py:156 | a row chunk's lines are the comma-joined row, then the quarter line exactly when the quarter is non-empty |
| MainApp.RowEntry | main.py:146-159 | a row chunk's text is the comma-joined row followed by the quarter line when there is a quarter; its metadata holds exactly the filename, the position, the `Period` field and the derived quarter |
| MainApp.CsvUpload | main.py:140-159 | a CSV with a header yields one chunk per later record, the `i`-th being `RowEntry` of the header and record `i + 1` (the row chunk text and the filename, position, period and quarter metadata); an empty file is an upload error |
| MainApp.PageMetadata | main.py:165 | the metadata records the filename, the position and the extractor's page, falling back to position plus one |
| MainApp.ExtractUpload | main.py:160-166 | other uploads go through `extract` with 200/100 and fail exactly for unsupported extensions; on success there is one entry per extracted chunk, holding its text, the filename, its position and its page |
| MainApp.PackedPagesMatchFallback | main.py:163-165 | for files whose extension lower-cases to `.docx`, `.txt` or `.csv` the extractor's page equals the fallback page |
| MainApp.Upload | main.py:140-162 | a name ending in `.csv` (any case) takes the row path, every other name takes `extract` |
| MainApp.LowerExtIsSuffix | main.py:140 | the lower-cased extension is a suffix of the lower-cased name |
| MainApp.UploadNeverPacksCsv | main.py:140-162 | a file `extract` would read as CSV always takes the row path |
| QueryApi.ParseFileIds | fastapi_app.py:93-94 | parsed ids are non-empty, comma-free and carry no surrounding whitespace |
| QueryApi.SplitAllBlank | fastapi_app.py:94 | every piece of a split is blank exactly when the string holds only separators and whitespace |
| QueryApi.ParseFileIdsEmpty | fastapi_app.py:94-99 | the parse is empty exactly when `file_id` holds only commas and whitespace |
| Text.StripNonBlankClean | fastapi_app.py:94 | trimmed non-empty ids pass the stripping filter unchanged |
| Text.StripNonBlankKeepsAbsent | fastapi_app.py:94 | a character no piece holds is in no kept id |
| QueryApi.ParseJoined | fastapi_app.py:94 | parsing the comma-join of comma-free pieces gives exactly their stripped non-blank forms, in order |
| QueryApi.ParseJoinedIds | fastapi_app.py:94 | parsing the comma-join of a non-empty list of trimmed, comma-free ids gives the list back |
| QueryApi.TargetIds | fastapi_app.py:92-97 | a non-empty `file_id` is parsed; otherwise every index directory is searched, and a missing index directory is a 500 |
| QueryApi.Top | fastapi_app.py:108 | one index contributes a prefix of its ranking of at most 10 documents |
| QueryApi.Gather | fastapi_app.py:101-110 | at most 10 documents per id, each from the ranking of one of the requested, loadable indexes |
| QueryApi.GatherAppend | fastapi_app.py:102-110 | gathering over concatenated id lists concatenates the results |
| QueryApi.GatherIsFlatten | fastapi_app.py:102-110 | the gathered list is the per-index contributions flattened in id order, with missing indexes contributing nothing |
| QueryApi.Cap | fastapi_app.py:123 | the kept documents are a prefix of the gathered ones, of length min(10, n) |
| QueryApi.ContextLines | fastapi_app.py:119-124 | without an image and with single-line contents, the context's lines are exactly the kept documents' contents |
| QueryApi.Icon | fastapi_app.py:143-154 | the default icon, the source's question-mark string, is returned exactly when the lower-cased extension is not one of the eight listed |
| QueryApi.IconFollowsKind | fastapi_app.py:143-154 | the icon is a function of the file kind `extract` dispatches on, so the three image extensions share one |
| QueryApi.IconIgnoresCase | fastapi_app.py:154 | the icon of an extension equals that of its lower-cased form |
| QueryApi.UploadMetadata | fastapi_app.py:60-64 | chunk metadata carries positions 0..n-1, the filename and the lower-cased extension |
| QueryApi.FileId | fastapi_app.py:69 | the index name followed by the extension is the filename |
| QueryApi.UploadNaming | fastapi_app.py:60-78 | the naming written for an upload of `root + ext`: the index name is `root`, the file type the lower-cased `ext`, and the icon that of its kind |
| QueryApi.SourceIcon | fastapi_app.py:134-135 | a source without a file type gets the default icon and a string file type gets its icon; it fails, with a 500, exactly when the file type is not a string |
| QueryApi.WithIcons | fastapi_app.py:134-135 | each source becomes its metadata with the icon entry set, failing exactly when some file type is not a string |
| QueryApi.OcrStage | fastapi_app.py:112-121 | without an image the OCR text is empty; with one, it is the OCR output, or a 400 "Failed to process image" when OCR fails |
| QueryApi.Respond | fastapi_app.py:111-140 | an OCR failure is its 400; otherwise a chain failure is 500 "LLM failed"; it succeeds exactly when OCR, the chain and every source icon succeed. The context is the OCR text followed by the newline-join of the kept documents; the sources are the kept documents' metadata with icons; the answer defaults to "No answer generated." |
| QueryApi.RespondSources | fastapi_app.py:125-135 | each source of a successful response is the matching kept document's metadata with only its `icon` entry set |
| QueryApi.Query | fastapi_app.py:82-140 | a blank question is a 400 before anything else; without a `file_id` a missing index directory is a 500; an empty target list is a 404; otherwise the response is assembled from the gathered documents |
| QueryApi.QueryRejects | fastapi_app.py:93-99 | a `file_id` of commas and whitespace is rejected with 404 |
| Text.StripTrims | fastapi_app.py:94 | `strip` yields a trimmed string or nothing and fixes trimmed strings |
| Text.StripKeepsAbsent | fastapi_app.py:94 | stripping introduces no character |
| Text.Split | fastapi_app.py:94 | a split has one more piece than separators, none containing the separator |
| Text.JoinSplit | fastapi_app.py:94 | joining the pieces of a split restores the string |
| Text.SplitJoin | fastapi_app.py:94 | splitting the join of separator-free pieces restores the pieces |
| Text.Slice | pdf_chunk_helper.py:16 | an in-range Python slice is the plain subsequence |

## Left out

- **Format readers.** pdfplumber, python-docx, pandas `to_string`,
  pytesseract, `csv.reader` and the SQLite dump are library and I/O calls.
  Their outputs are the fields of `Ingestor.ReaderOutput` and the CSV
  records of `MainApp.CsvUpload`.
- **Index and model calls.** The embedding model, FAISS (building, saving,
  loading and similarity search) and the Gemini answer chain are foreign
  calls.
  - An index's search result is a ranking parameter. `QueryApi.Top` takes
    its first 10.
  - The chain's outcome is a `Result` parameter.
  - The index directory listing is an `Option` parameter; `None` stands for
    a missing directory.
- **Streamlit and FastAPI plumbing.** Rendering, session state, chat
  history display, CORS and the welcome route display data and compute
  nothing.
- **Streamlit URL and local-path ingestion.** This is main.py:171-203. It
  is I/O around the same `extract` call and the same page fallback that
  `MainApp.ExtractUpload` models.
- **Batches of uploads.** Only one file is modelled. The source wraps the
  whole upload loop in one handler, so any failure stops the batch.
- **The `/upload` extraction pipeline.** This is fastapi_app.py:51-59 and
  79-80, and it never indexes a file. `extract` returns a list of
  `(chunk, page)` pairs. Calling `.strip()` on a non-empty list raises
  `AttributeError`. For an empty list, the 400 of line 53 is raised inside
  the `try`. The `except` at line 79 turns both into a 500 "Failed to
  process file", so lines 55-78 never run. The model states only the
  naming those lines would produce (`QueryApi.UploadMetadata`,
  `QueryApi.FileId`, `QueryApi.UploadNaming`), not a successful upload.
- QueryApi.Respond — its success clauses describe a response the source
  does not reach as written. `get_conversational_chain` builds the chain
  with `create_stuff_documents_chain` (main.py:31-38), whose prompt takes
  `context` and `question`. fastapi_app.py:128-130 instead calls that
  chain like a legacy chain, with an `input_documents` key and
  `return_only_outputs`, and then calls `.get` on the result. That call
  raises, and lines 131-132 turn it into a 500 "LLM failed: …". The model
  keeps the chain's outcome as an unconstrained `Result` parameter, so
  `Respond` states what the handler computes from each outcome; only its
  failure outcome matches the chain the source builds.
- **Other encodings and I/O.** Unicode whitespace, case folding,
  base64/image decoding, file writes and removal are left out. Strings are
  sequences of characters, and `strip`/`lower` act on ASCII only.
- **Error detail text.** `str(e)` of an arbitrary exception is a string
  parameter. The one empty-file CSV failure uses the empty text that
  `StopIteration` prints.
- **A non-string file type.** Such a value in a retrieved source's metadata
  makes `lower()` fail outside any handler. The model gives the framework's
  default 500 response.
