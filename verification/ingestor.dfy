/** `DocumentIngestor` (document_ingestor.py): the unit preparation of the
    DOCX and TXT readers and the extension dispatch of `extract`. The format
    readers themselves are outside the model; their outputs arrive as a
    `ReaderOutput`. */
module Ingestor {
  import opened Wrappers
  import opened Seqs
  import opened Text
  import opened Chunks
  import opened LinePacker
  import opened PathExt
  import opened PageWindows

  datatype FileKind = Pdf | Docx | Txt | Image | Csv | Db

  /** The extensions `extract` accepts, lower-case. */
  const SupportedExts: seq<string> := [".pdf", ".docx", ".txt", ".jpg", ".jpeg", ".png", ".csv", ".db"]

  /** The `if/elif` chain of `extract`, on the lower-cased extension. */
  function KindOfExt(ext: string): (k: Option<FileKind>)
    ensures k.Some? <==> ext in SupportedExts
    ensures k == Some(Pdf) <==> ext == ".pdf"
    ensures k == Some(Docx) <==> ext == ".docx"
    ensures k == Some(Txt) <==> ext == ".txt"
    ensures k == Some(Image) <==> ext in [".jpg", ".jpeg", ".png"]
    ensures k == Some(Csv) <==> ext == ".csv"
    ensures k == Some(Db) <==> ext == ".db"
  {
    if ext == ".pdf" then Some(Pdf)
    else if ext == ".docx" then Some(Docx)
    else if ext == ".txt" then Some(Txt)
    else if ext in [".jpg", ".jpeg", ".png"] then Some(Image)
    else if ext == ".csv" then Some(Csv)
    else if ext == ".db" then Some(Db)
    else None
  }

  /** `os.path.splitext(file_path)[1].lower()`. */
  function LowerExt(path: string): string
  {
    Lower(Ext(path))
  }

  function KindOf(path: string): Option<FileKind>
  {
    KindOfExt(LowerExt(path))
  }

  /** What the format readers produce for the file: the PDF pages' extracted
      text (`None` for a page without a text layer), the DOCX paragraphs'
      text, the TXT file's lines, the OCR text of an image, the CSV's
      `to_string` lines and the SQLite dump text. */
  datatype ReaderOutput = ReaderOutput(
    pdfPages: seq<Option<string>>,
    docxParagraphs: seq<string>,
    txtLines: seq<string>,
    imageText: string,
    csvLines: seq<string>,
    dbText: string)

  /** The DOCX reader's units: the paragraphs whose text is not blank,
      unstripped and in order. */
  function DocxUnits(paragraphs: seq<string>): (units: seq<string>)
    ensures IsSubseq(units, paragraphs)
    ensures forall u :: u in units ==> !IsBlank(u)
    ensures forall p :: p in paragraphs && !IsBlank(p) ==> p in units
  {
    if |paragraphs| == 0 then []
    else if Strip(paragraphs[0]) != "" then [paragraphs[0]] + DocxUnits(paragraphs[1..])
    else DocxUnits(paragraphs[1..])
  }

  /** A non-blank paragraph is kept as often as it occurs; a blank one never. */
  lemma {:induction false} DocxUnitsCount(paragraphs: seq<string>, p: string)
    ensures Count(DocxUnits(paragraphs), p) == if IsBlank(p) then 0 else Count(paragraphs, p)
    decreases |paragraphs|
  {
    if |paragraphs| > 0 {
      DocxUnitsCount(paragraphs[1..], p);
      var rest := DocxUnits(paragraphs[1..]);
      if Strip(paragraphs[0]) != "" {
        assert ([paragraphs[0]] + rest)[1..] == rest;
      }
    }
  }

  /** The extractor: dispatch on the lower-cased extension to a reader and
      its chunker. A PDF with text needs `chunk_size > chunk_overlap` for the
      window loop to end. */
  function Extract(path: string, size: int, overlap: int, read: ReaderOutput): (r: Result<seq<Chunk>, string>)
    requires KindOf(path) == Some(Pdf) ==> size > overlap || NoPageText(read.pdfPages)
    ensures r.Failure? <==> LowerExt(path) !in SupportedExts
    ensures r.Failure? ==> r.error == "Unsupported file type: " + LowerExt(path)
    ensures KindOf(path) == Some(Pdf) ==> r == Success(PdfChunks(read.pdfPages, size, overlap))
    ensures KindOf(path) == Some(Docx) ==> r == Success(PackChunks(DocxUnits(read.docxParagraphs), size, overlap))
    ensures KindOf(path) == Some(Txt) ==> r == Success(PackChunks(StripNonBlank(read.txtLines), size, overlap))
    ensures KindOf(path) == Some(Csv) ==> r == Success(PackChunks(read.csvLines, size, overlap))
    ensures KindOf(path) == Some(Image) ==> r == Success([Chunk(read.imageText, 1)])
    ensures KindOf(path) == Some(Db) ==> r == Success([Chunk(read.dbText, 1)])
    ensures KindOf(path) in {Some(Docx), Some(Txt), Some(Csv)} ==>
      r.Success? && forall i :: 0 <= i < |r.value| ==> r.value[i].page == i + 1 && r.value[i].text != ""
    ensures KindOf(path) == Some(Pdf) ==>
      r.Success? && forall c :: c in r.value ==> 1 <= c.page <= |read.pdfPages| && !IsBlank(c.text)
  {
    match KindOf(path)
    case Some(Pdf) => Success(PdfChunks(read.pdfPages, size, overlap))
    case Some(Docx) => Success(PackChunks(DocxUnits(read.docxParagraphs), size, overlap))
    case Some(Txt) => Success(PackChunks(StripNonBlank(read.txtLines), size, overlap))
    case Some(Image) => Success([Chunk(read.imageText, 1)])
    case Some(Csv) => Success(PackChunks(read.csvLines, size, overlap))
    case Some(Db) => Success([Chunk(read.dbText, 1)])
    case None => Failure("Unsupported file type: " + LowerExt(path))
  }

  /** A name whose extension lower-cases to a packed format extracts to
      chunks tagged with their positions from 1. */
  lemma PackedExtractPages(root: string, ext: string, size: int, overlap: int, read: ReaderOutput)
    requires |ext| >= 1 && ext[0] == '.' && '.' !in ext[1..] && '/' !in ext
    requires Lower(ext) in [".docx", ".txt", ".csv"]
    requires HasNonDot(BaseName(root))
    ensures KindOf(root + ext) in {Some(Docx), Some(Txt), Some(Csv)}
    ensures var r := Extract(root + ext, size, overlap, read);
            r.Success? && forall i :: 0 <= i < |r.value| ==> r.value[i].page == i + 1
  {
    KindOfAppend(root, ext);
  }

  /** A PDF without any page text extracts to no chunk, whatever the sizes. */
  lemma ExtractTextlessPdf(root: string, ext: string, size: int, overlap: int, read: ReaderOutput)
    requires |ext| >= 1 && ext[0] == '.' && '.' !in ext[1..] && '/' !in ext
    requires Lower(ext) == ".pdf"
    requires HasNonDot(BaseName(root))
    requires NoPageText(read.pdfPages)
    ensures Extract(root + ext, size, overlap, read) == Success([])
  {
    KindOfAppend(root, ext);
    NoPageTextNoChunks(read.pdfPages, 0, size, overlap);
  }

  /** Extracting a PDF loses no text: with `0 <= chunk_overlap < chunk_size`,
      every non-whitespace character of page `i + 1` lies, at its own offset,
      in a chunk tagged `i + 1`. */
  lemma ExtractPdfCovers(root: string, ext: string, size: int, overlap: int, read: ReaderOutput, i: nat, p: nat)
    requires |ext| >= 1 && ext[0] == '.' && '.' !in ext[1..] && '/' !in ext
    requires Lower(ext) == ".pdf"
    requires HasNonDot(BaseName(root))
    requires 0 <= overlap < size
    requires i < |read.pdfPages| && p < |PageText(read.pdfPages[i])| && !IsSpace(PageText(read.pdfPages[i])[p])
    ensures KindOf(root + ext) == Some(Pdf)
    ensures var text := PageText(read.pdfPages[i]);
            var s := CoveringStart(p, 0, size - overlap);
            var w := Window(text, s, size);
            && Extract(root + ext, size, overlap, read).Success?
            && Chunk(w, i + 1) in Extract(root + ext, size, overlap, read).value
            && 0 <= s <= p < s + |w| && w == text[s..s + |w|]
  {
    KindOfAppend(root, ext);
    PdfChunksCover(read.pdfPages, size, overlap, i, p);
  }

  /** Extracting a DOCX or TXT file packs whole units: the chunk texts are the
      newline-joins of groups that, concatenated, give back the reader's
      units in order. */
  lemma ExtractPacksWholeUnits(root: string, ext: string, size: int, overlap: int, read: ReaderOutput)
    requires |ext| >= 1 && ext[0] == '.' && '.' !in ext[1..] && '/' !in ext
    requires Lower(ext) in [".docx", ".txt"]
    requires HasNonDot(BaseName(root))
    ensures KindOf(root + ext) in {Some(Docx), Some(Txt)}
    ensures var units := if Lower(ext) == ".docx" then DocxUnits(read.docxParagraphs) else StripNonBlank(read.txtLines);
            var gs := Groups(units, size);
            && Extract(root + ext, size, overlap, read).Success?
            && Texts(Extract(root + ext, size, overlap, read).value) == JoinEach(gs)
            && Flatten(gs) == units
  {
    KindOfAppend(root, ext);
    TextUnitsPartition(read, size);
  }

  /** Every successful extraction tags its chunks with pages from 1 on. */
  lemma ExtractPagesPositive(path: string, size: int, overlap: int, read: ReaderOutput)
    requires KindOf(path) == Some(Pdf) ==> size > overlap || NoPageText(read.pdfPages)
    ensures Extract(path, size, overlap, read).Success? ==>
              forall c :: c in Extract(path, size, overlap, read).value ==> c.page >= 1
  {
    var res := Extract(path, size, overlap, read);
    var k := KindOf(path);
    if k == Some(Docx) || k == Some(Txt) || k == Some(Csv) {
      var r := res.value;
      forall c | c in r
        ensures c.page >= 1
      {
        var i :| 0 <= i < |r| && r[i] == c;
        assert r[i].page == i + 1;
      }
    } else if k == Some(Image) || k == Some(Db) {
      assert |res.value| == 1 && res.value[0].page == 1;
    } else if k == Some(Pdf) {
      assert forall c :: c in res.value ==> 1 <= c.page <= |read.pdfPages|;
    } else {
      assert res.Failure?;
    }
  }

  /** Appending a well-formed extension to a name selects the reader of
      that extension, lower-cased. */
  lemma KindOfAppend(root: string, ext: string)
    requires |ext| >= 1 && ext[0] == '.' && '.' !in ext[1..] && '/' !in ext
    requires HasNonDot(BaseName(root))
    ensures KindOf(root + ext) == KindOfExt(Lower(ext))
  {
    SplitExtOfAppend(root, ext);
  }

  /** The extension is matched without regard to case: a name ending in
      `.PDF` goes to the PDF reader. */
  lemma UpperCasePdf(root: string)
    requires HasNonDot(BaseName(root))
    ensures KindOf(root + ".PDF") == Some(Pdf)
  {
    var e := ".PDF";
    KindOfAppend(root, e);
    assert Lower(e) == ".pdf" by {
      assert Lower(e)[1] == 'p' && Lower(e)[2] == 'd' && Lower(e)[3] == 'f';
    }
  }

  /** The DOCX and TXT extractors never see an empty unit, so the packer's
      partition theorem applies to them: no paragraph or line is split,
      duplicated or lost. */
  lemma TextUnitsPartition(read: ReaderOutput, size: int)
    ensures var units := DocxUnits(read.docxParagraphs);
            Flatten(Groups(units, size)) == units && Pack(units, size) == JoinEach(Groups(units, size))
    ensures var units := StripNonBlank(read.txtLines);
            Flatten(Groups(units, size)) == units && Pack(units, size) == JoinEach(Groups(units, size))
  {
    var d := DocxUnits(read.docxParagraphs);
    assert NoEmptyUnit(d) by {
      forall u | u in d ensures u != "" {
        assert !IsBlank(u);
      }
    }
    PackPartitionsUnits(d, size);
    PackPartitionsUnits(StripNonBlank(read.txtLines), size);
  }
}
