/** The `/query` and `/upload` shaping of the HTTP API (fastapi_app.py):
    `file_id` parsing, the per-index gathering and global cap of retrieved
    documents, the context assembly, the error responses and the file-type
    icons. Index search, OCR and the language model are parameters. */
module QueryApi {
  import opened Wrappers
  import opened Seqs
  import opened Text
  import opened Chunks
  import opened PathExt
  import opened Ingestor

  /** An `HTTPException`: status code and detail text. */
  datatype HttpError = HttpError(status: int, detail: string)

  // ---------------------------------------------------------------------
  // file_id parsing

  /** The ids named by a non-empty `file_id` field: its comma-separated
      pieces, stripped, with the blank ones dropped. */
  function ParseFileIds(fileId: string): (ids: seq<string>)
    ensures forall id :: id in ids ==> Trimmed(id) && ',' !in id
  {
    var parts := Split(fileId, ',');
    StripNonBlankKeepsAbsent(parts, ',');
    StripNonBlank(parts)
  }

  predicate SepOrSpace(s: string, sep: char)
  {
    forall i :: 0 <= i < |s| ==> s[i] == sep || IsSpace(s[i])
  }

  /** Every piece of a split is blank exactly when the string holds only
      separators and whitespace. */
  lemma {:induction false} SplitAllBlank(s: string, sep: char)
    ensures AllBlank(Split(s, sep)) <==> SepOrSpace(s, sep)
    decreases |s|
  {
    if |s| > 0 {
      SplitAllBlank(s[1..], sep);
      var rest := Split(s[1..], sep);
      var parts := Split(s, sep);
      assert SepOrSpace(s, sep) <==> (s[0] == sep || IsSpace(s[0])) && SepOrSpace(s[1..], sep) by {
        assert forall i :: 1 <= i < |s| ==> s[i] == s[1..][i - 1];
      }
      if s[0] == sep {
        assert parts == [""] + rest;
        assert AllBlank(parts) <==> AllBlank(rest) by {
          assert IsBlank(parts[0]);
          assert forall k :: 1 <= k < |parts| ==> parts[k] == rest[k - 1];
          assert forall k :: 0 <= k < |rest| ==> rest[k] == parts[k + 1];
        }
      } else {
        assert parts == [[s[0]] + rest[0]] + rest[1..];
        BlankCons(s[0], rest[0]);
        assert AllBlank(parts) <==> IsSpace(s[0]) && AllBlank(rest) by {
          assert forall k :: 1 <= k < |parts| ==> parts[k] == rest[k];
          if AllBlank(parts) {
            assert IsBlank(parts[0]);
          }
          if IsSpace(s[0]) && AllBlank(rest) {
            assert IsBlank(rest[0]);
            forall k | 0 <= k < |parts| ensures IsBlank(parts[k]) {
              if k > 0 {
                assert IsBlank(rest[k]);
              }
            }
          }
        }
      }
    }
  }

  /** The parse is empty exactly when `file_id` holds only commas and
      whitespace. */
  lemma ParseFileIdsEmpty(fileId: string)
    ensures ParseFileIds(fileId) == [] <==> SepOrSpace(fileId, ',')
  {
    SplitAllBlank(fileId, ',');
  }

  /** The comma-join of comma-free pieces is parsed into exactly the
      stripped non-blank pieces, in order. */
  lemma ParseJoined(parts: seq<string>)
    requires |parts| >= 1
    requires forall p :: p in parts ==> ',' !in p
    ensures ParseFileIds(Join(parts, ',')) == StripNonBlank(parts)
  {
    SplitJoin(parts, ',');
  }

  /** The frontend joins the selected ids with commas; a non-empty selection
      of non-empty, comma-free, trimmed ids is parsed back unchanged. */
  lemma ParseJoinedIds(ids: seq<string>)
    requires |ids| >= 1
    requires forall id :: id in ids ==> Trimmed(id) && ',' !in id
    ensures ParseFileIds(Join(ids, ',')) == ids
  {
    ParseJoined(ids);
    StripNonBlankClean(ids);
  }

  /** What an uncaught exception becomes: the framework's plain 500. */
  const InternalError := HttpError(500, "Internal Server Error")

  /** The indexes to search: the parsed `file_id` when it is non-empty, else
      every index directory. The listing is a parameter; `None` stands for a
      missing index directory, whose listing raises outside any handler. */
  function TargetIds(fileId: Option<string>, indexDirs: Option<seq<string>>): (r: Result<seq<string>, HttpError>)
    ensures fileId.Some? && fileId.value != "" ==> r == Success(ParseFileIds(fileId.value))
    ensures (fileId.None? || fileId.value == "") && indexDirs.Some? ==> r == Success(indexDirs.value)
    ensures (fileId.None? || fileId.value == "") && indexDirs.None? ==> r == Failure(InternalError)
  {
    if fileId.Some? && fileId.value != "" then Success(ParseFileIds(fileId.value))
    else if indexDirs.None? then Failure(InternalError)
    else Success(indexDirs.value)
  }

  // ---------------------------------------------------------------------
  // Retrieval and context

  /** `max_chunks`: the per-index search depth and the global cap. */
  const MaxChunks: nat := 10

  /** `similarity_search(..., k=max_chunks)`: the first `MaxChunks` of an
      index's ranking. */
  function Top(ranking: seq<Doc>): (r: seq<Doc>)
    ensures IsPrefix(r, ranking)
    ensures |r| == Min(MaxChunks, |ranking|)
  {
    if |ranking| <= MaxChunks then ranking else ranking[..MaxChunks]
  }

  /** The documents gathered from the indexes in order: an id absent from
      `rankings` (a missing index, or one whose load or search fails) is
      skipped. */
  function Gather(ids: seq<string>, rankings: map<string, seq<Doc>>): (docs: seq<Doc>)
    ensures |docs| <= MaxChunks * |ids|
    ensures forall d :: d in docs ==> exists f :: f in ids && f in rankings && d in rankings[f]
  {
    if |ids| == 0 then []
    else
      var here := if ids[0] in rankings then Top(rankings[ids[0]]) else [];
      var rest := Gather(ids[1..], rankings);
      assert forall f :: f in ids[1..] ==> f in ids;
      here + rest
  }

  /** Gathering distributes over a concatenation of id lists. */
  lemma {:induction false} GatherAppend(a: seq<string>, b: seq<string>, rankings: map<string, seq<Doc>>)
    ensures Gather(a + b, rankings) == Gather(a, rankings) + Gather(b, rankings)
    decreases |a|
  {
    if |a| == 0 {
      assert a + b == b;
    } else {
      assert (a + b)[0] == a[0];
      assert (a + b)[1..] == a[1..] + b;
      GatherAppend(a[1..], b, rankings);
    }
  }

  /** The per-index contributions flattened in id order. */
  lemma {:induction false} GatherIsFlatten(ids: seq<string>, rankings: map<string, seq<Doc>>)
    ensures Gather(ids, rankings) ==
      Flatten(seq(|ids|, k requires 0 <= k < |ids| => if ids[k] in rankings then Top(rankings[ids[k]]) else []))
    decreases |ids|
  {
    if |ids| > 0 {
      GatherIsFlatten(ids[1..], rankings);
      var f := seq(|ids|, k requires 0 <= k < |ids| => if ids[k] in rankings then Top(rankings[ids[k]]) else []);
      var g := seq(|ids| - 1, k requires 0 <= k < |ids| - 1 => if ids[1..][k] in rankings then Top(rankings[ids[1..][k]]) else []);
      assert f[1..] == g;
    }
  }

  /** `docs[:max_chunks]`. */
  function Cap(docs: seq<Doc>): (r: seq<Doc>)
    ensures IsPrefix(r, docs)
    ensures |r| == Min(MaxChunks, |docs|)
  {
    docs[..Min(MaxChunks, |docs|)]
  }

  function Contents(docs: seq<Doc>): (r: seq<string>)
    ensures |r| == |docs|
    ensures forall k :: 0 <= k < |docs| ==> r[k] == docs[k].content
  {
    seq(|docs|, k requires 0 <= k < |docs| => docs[k].content)
  }

  /** The context returned to the caller: the OCR text followed, with no
      separator, by the kept documents' contents joined by line breaks. */
  function Context(ocrText: string, docs: seq<Doc>): string
  {
    ocrText + Join(Contents(docs), '\n')
  }

  /** Without an image, and when no content spans several lines, the
      context's lines are exactly the documents' contents. */
  lemma ContextLines(docs: seq<Doc>)
    requires |docs| >= 1
    requires forall d :: d in docs ==> '\n' !in d.content
    ensures Split(Context("", docs), '\n') == Contents(docs)
  {
    var cs := Contents(docs);
    assert forall c :: c in cs ==> '\n' !in c by {
      forall c | c in cs ensures '\n' !in c {
        var k :| 0 <= k < |cs| && cs[k] == c;
        assert docs[k] in docs;
      }
    }
    assert Context("", docs) == Join(cs, '\n');
    SplitJoin(cs, '\n');
  }

  // ---------------------------------------------------------------------
  // File-type icons

  /** The icon strings exactly as the source file holds them: each emoji's
      UTF-8 bytes read back as Mac Roman characters. */
  const PdfIcon: string := "\U{F8FF}\U{FC}\U{EC}\U{D1}"
  const DocxIcon: string := "\U{F8FF}\U{FC}\U{EC}\U{F9}"
  const TxtIcon: string := "\U{F8FF}\U{FC}\U{EC}\U{C9}"
  const ImageIcon: string := "\U{F8FF}\U{FC}\U{F1}\U{BA}\U{D4}\U{220F}\U{E8}"
  const CsvIcon: string := "\U{F8FF}\U{FC}\U{EC}\U{E4}"
  const DbIcon: string := "\U{F8FF}\U{FC}\U{F3}\U{D1}\U{D4}\U{220F}\U{E8}"
  const DefaultIcon: string := "\U{201A}\U{F9}\U{EC}"

  /** `filetype_icon(ext)`: the icon table looked up with the lower-cased
      extension, the question mark for anything else. */
  function Icon(ext: string): (icon: string)
    ensures icon == DefaultIcon <==> Lower(ext) !in SupportedExts
  {
    var e := Lower(ext);
    if e == ".pdf" then PdfIcon
    else if e == ".docx" then DocxIcon
    else if e == ".txt" then TxtIcon
    else if e in [".jpg", ".jpeg", ".png"] then ImageIcon
    else if e == ".csv" then CsvIcon
    else if e == ".db" then DbIcon
    else DefaultIcon
  }

  /** The icon of each kind `extract` distinguishes. */
  function KindIcon(k: Option<FileKind>): string
  {
    match k
    case Some(Pdf) => PdfIcon
    case Some(Docx) => DocxIcon
    case Some(Txt) => TxtIcon
    case Some(Image) => ImageIcon
    case Some(Csv) => CsvIcon
    case Some(Db) => DbIcon
    case None => DefaultIcon
  }

  /** The icon table and the extraction dispatch agree: the icon is a
      function of the file kind, so it ignores case and the three image
      extensions share one icon. */
  lemma IconFollowsKind(ext: string)
    ensures Icon(ext) == KindIcon(KindOfExt(Lower(ext)))
  {
  }

  lemma IconIgnoresCase(ext: string)
    ensures Icon(ext) == Icon(Lower(ext))
  {
    LowerIdempotent(ext);
  }

  // ---------------------------------------------------------------------
  // Upload metadata

  /** The metadata of an uploaded file's `n` chunks. */
  function UploadMetadata(filename: string, n: nat): (metas: seq<Metadata>)
    ensures |metas| == n
    ensures forall i :: 0 <= i < n ==>
      && "chunk" in metas[i] && metas[i]["chunk"] == Num(i)
      && "filetype" in metas[i] && metas[i]["filetype"] == Str(LowerExt(filename))
      && "filename" in metas[i] && metas[i]["filename"] == Str(filename)
  {
    seq(n, i requires 0 <= i < n =>
      map["filename" := Str(filename), "chunk" := Num(i), "filetype" := Str(LowerExt(filename))])
  }

  /** The index name of an upload: the filename without its extension. */
  function FileId(filename: string): (id: string)
    ensures id + Ext(filename) == filename
  {
    Root(filename)
  }

  /** Uploading `root + ext` (a well-formed extension after a name with a
      non-dot character) indexes it under `root`, records the lower-cased
      `ext` as its file type and shows the icon of that extension's kind. */
  lemma UploadNaming(root: string, ext: string)
    requires |ext| >= 1 && ext[0] == '.' && '.' !in ext[1..] && '/' !in ext
    requires HasNonDot(BaseName(root))
    ensures FileId(root + ext) == root
    ensures LowerExt(root + ext) == Lower(ext)
    ensures Icon(LowerExt(root + ext)) == KindIcon(KindOfExt(Lower(ext)))
  {
    SplitExtOfAppend(root, ext);
    IconFollowsKind(Lower(ext));
    LowerIdempotent(ext);
  }

  // ---------------------------------------------------------------------
  // The query endpoint

  datatype QueryRequest = QueryRequest(question: string, imageBase64: Option<string>, fileId: Option<string>)

  datatype QueryResponse = QueryResponse(context: string, answer: string, sources: seq<Metadata>)

  /** The icon of a source's `filetype`; a non-string value fails on
      `lower()`, outside any handler. */
  function SourceIcon(m: Metadata): (r: Result<string, HttpError>)
    ensures "filetype" !in m ==> r == Success(DefaultIcon)
    ensures "filetype" in m && m["filetype"].Str? ==> r == Success(Icon(m["filetype"].s))
    ensures r.Failure? <==> "filetype" in m && m["filetype"].Num?
    ensures r.Failure? ==> r.error == InternalError
  {
    if "filetype" !in m then Success(Icon(""))
    else match m["filetype"]
      case Str(e) => Success(Icon(e))
      case Num(_) => Failure(InternalError)
  }

  /** Each source gains an `icon` entry. */
  function WithIcons(metas: seq<Metadata>): (r: Result<seq<Metadata>, HttpError>)
    ensures r.Success? ==> |r.value| == |metas|
    ensures r.Success? ==> forall k :: 0 <= k < |metas| ==>
      SourceIcon(metas[k]).Success? && r.value[k] == metas[k]["icon" := Str(SourceIcon(metas[k]).value)]
    ensures r.Failure? <==> exists k :: 0 <= k < |metas| && SourceIcon(metas[k]).Failure?
  {
    if |metas| == 0 then Success([])
    else
      match SourceIcon(metas[0])
      case Failure(e) => Failure(e)
      case Success(icon) =>
        match WithIcons(metas[1..])
        case Failure(e) =>
          assert forall k :: 1 <= k < |metas| ==> metas[k] == metas[1..][k - 1];
          Failure(e)
        case Success(rest) =>
          assert forall k :: 1 <= k < |metas| ==> metas[k] == metas[1..][k - 1];
          Success([metas[0]["icon" := Str(icon)]] + rest)
  }

  const QuestionRequired: HttpError := HttpError(400, "Question is required.")
  const NoDocuments: HttpError := HttpError(404, "No documents found to search.")
  const NoAnswer: string := "No answer generated."

  /** The OCR text added to the context: empty without an image, the OCR
      output with one, a 400 when decoding or reading the image fails. */
  function OcrStage(imageBase64: Option<string>, ocr: Result<string, string>): (r: Result<string, HttpError>)
    ensures imageBase64.None? || imageBase64.value == "" ==> r == Success("")
    ensures imageBase64.Some? && imageBase64.value != "" && ocr.Success? ==> r == Success(ocr.value)
    ensures imageBase64.Some? && imageBase64.value != "" && ocr.Failure? ==>
      r == Failure(HttpError(400, "Failed to process image: " + ocr.error))
    ensures r.Failure? ==> r.error.status == 400
  {
    if imageBase64.Some? && imageBase64.value != "" then
      match ocr
      case Failure(e) => Failure(HttpError(400, "Failed to process image: " + e))
      case Success(t) => Success(t)
    else Success("")
  }

  /** The metadata of each document, in order. */
  function Metas(docs: seq<Doc>): (ms: seq<Metadata>)
    ensures |ms| == |docs|
    ensures forall k :: 0 <= k < |docs| ==> ms[k] == docs[k].metadata
  {
    seq(|docs|, k requires 0 <= k < |docs| => docs[k].metadata)
  }

  /** The part of the query endpoint after the search: the context, the
      answer and the sources of the first `MaxChunks` gathered documents.
      OCR runs first, then the answer chain, then the icons. */
  function Respond(imageBase64: Option<string>, docs: seq<Doc>,
                   ocr: Result<string, string>, llm: Result<Option<string>, string>): (r: Result<QueryResponse, HttpError>)
    ensures OcrStage(imageBase64, ocr).Failure? ==> r == Failure(OcrStage(imageBase64, ocr).error)
    ensures OcrStage(imageBase64, ocr).Success? && llm.Failure? ==> r == Failure(HttpError(500, "LLM failed: " + llm.error))
    ensures r.Success? <==> OcrStage(imageBase64, ocr).Success? && llm.Success? && WithIcons(Metas(Cap(docs))).Success?
    ensures r.Success? ==> WithIcons(Metas(Cap(docs))) == Success(r.value.sources)
    ensures r.Success? ==> r.value.context == Context(OcrStage(imageBase64, ocr).value, Cap(docs))
    ensures r.Success? ==> |r.value.sources| == |Cap(docs)| <= MaxChunks
    ensures r.Success? && llm == Success(None) ==> r.value.answer == NoAnswer
    ensures r.Success? && llm.value.Some? ==> r.value.answer == llm.value.value
  {
    var ocrText := OcrStage(imageBase64, ocr);
    if ocrText.Failure? then Failure(ocrText.error)
    else
      var kept := Cap(docs);
      match llm
      case Failure(e) => Failure(HttpError(500, "LLM failed: " + e))
      case Success(out) =>
        match WithIcons(Metas(kept))
        case Failure(e) => Failure(e)
        case Success(sources) => Success(QueryResponse(Context(ocrText.value, kept), out.GetOr(NoAnswer), sources))
  }

  /** A successful response's sources are the kept documents' metadata, in
      order, each with only its `icon` entry set. */
  lemma RespondSources(imageBase64: Option<string>, docs: seq<Doc>,
                       ocr: Result<string, string>, llm: Result<Option<string>, string>, k: nat, key: string)
    requires Respond(imageBase64, docs, ocr, llm).Success?
    requires k < |Cap(docs)|
    ensures var src := Respond(imageBase64, docs, ocr, llm).value.sources[k];
            var meta := Cap(docs)[k].metadata;
            && "icon" in src && src["icon"] == Str(SourceIcon(meta).value)
            && (key != "icon" ==> (key in src <==> key in meta))
            && (key != "icon" && key in meta ==> src[key] == meta[key])
  {
    var ms := Metas(Cap(docs));
    assert ms[k] == Cap(docs)[k].metadata;
  }

  /** The `/query` endpoint. The collaborators are parameters: `indexDirs`
      lists the index directory (`None` when it does not exist), `rankings` is each loadable index's ranking for the
      question, `ocr` the outcome of decoding and reading the image, and
      `llm` the outcome of the answer chain (`None` when its output has no
      `output_text`). */
  function Query(req: QueryRequest, indexDirs: Option<seq<string>>, rankings: map<string, seq<Doc>>,
                 ocr: Result<string, string>, llm: Result<Option<string>, string>): (r: Result<QueryResponse, HttpError>)
    ensures IsBlank(req.question) ==> r == Failure(QuestionRequired)
    ensures !IsBlank(req.question) && TargetIds(req.fileId, indexDirs).Failure? ==>
      r == Failure(TargetIds(req.fileId, indexDirs).error)
    ensures !IsBlank(req.question) && TargetIds(req.fileId, indexDirs) == Success([]) ==> r == Failure(NoDocuments)
    ensures !IsBlank(req.question) && TargetIds(req.fileId, indexDirs).Success? && TargetIds(req.fileId, indexDirs).value != [] ==>
      r == Respond(req.imageBase64, Gather(TargetIds(req.fileId, indexDirs).value, rankings), ocr, llm)
  {
    if req.question == "" || Strip(req.question) == "" then Failure(QuestionRequired)
    else
      match TargetIds(req.fileId, indexDirs)
      case Failure(e) => Failure(e)
      case Success(ids) =>
        if ids == [] then Failure(NoDocuments)
        else Respond(req.imageBase64, Gather(ids, rankings), ocr, llm)
  }

  /** A question made only of whitespace, or a `file_id` made only of commas
      and whitespace, is rejected before any search. */
  lemma QueryRejects(req: QueryRequest, indexDirs: Option<seq<string>>, rankings: map<string, seq<Doc>>,
                     ocr: Result<string, string>, llm: Result<Option<string>, string>)
    requires !IsBlank(req.question)
    requires req.fileId.Some? && req.fileId.value != ""
    requires SepOrSpace(req.fileId.value, ',')
    ensures Query(req, indexDirs, rankings, ocr, llm) == Failure(NoDocuments)
  {
    ParseFileIdsEmpty(req.fileId.value);
  }
}
