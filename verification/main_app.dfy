/** The retrieval and upload shaping of the Streamlit application (main.py):
    the role-keyword filter applied to the retrieved documents, the CSV row
    chunks with their `Period` quarter, and the chunk metadata of uploads. */
module MainApp {
  import opened Wrappers
  import opened Seqs
  import opened Text
  import opened Chunks
  import opened PathExt
  import opened Ingestor

  // ---------------------------------------------------------------------
  // Role-keyword filter

  /** The role keywords, in the order they are tried. */
  const Keywords: seq<string> := ["internal member", "internal members", "supervisor", "external member", "examiner"]

  /** Index of the first keyword occurring in `q`, if any. */
  function FirstHit(kws: seq<string>, q: string): (r: Option<nat>)
    ensures r.Some? ==> r.value < |kws| && Contains(q, kws[r.value])
    ensures r.Some? ==> forall j :: 0 <= j < r.value ==> !Contains(q, kws[j])
    ensures r.None? ==> forall j :: 0 <= j < |kws| ==> !Contains(q, kws[j])
    decreases |kws|
  {
    if |kws| == 0 then None
    else if Contains(q, kws[0]) then Some(0)
    else
      match FirstHit(kws[1..], q)
      case None => None
      case Some(j) => Some(j + 1)
  }

  /** The keyword the question selects: the first one occurring in the
      lower-cased question. */
  function ChooseKeyword(question: string): (kw: Option<string>)
    ensures kw.Some? ==> kw.value in Keywords && Contains(Lower(question), kw.value)
    ensures kw.None? <==> forall k :: k in Keywords ==> !Contains(Lower(question), k)
    ensures kw.Some? ==>
              exists j :: 0 <= j < |Keywords| && Keywords[j] == kw.value &&
                          forall i :: 0 <= i < j ==> !Contains(Lower(question), Keywords[i])
  {
    var h := FirstHit(Keywords, Lower(question));
    if h.Some? then Some(Keywords[h.value]) else None
  }

  /** "internal members" is never selected: "internal member" comes first in
      the list and occurs wherever "internal members" does. */
  lemma InternalMembersNeverChosen(question: string)
    ensures ChooseKeyword(question) != Some("internal members")
  {
    var lq := Lower(question);
    if Contains(lq, "internal members") {
      assert "internal members" == "internal member" + "s";
      ContainsPrefixOf(lq, "internal member", "s");
    }
    var h := FirstHit(Keywords, lq);
    if h.Some? {
      assert h.value != 1;
      assert Keywords[h.value] != "internal members";
    }
  }

  /** Whether a document's lower-cased content contains the keyword. */
  predicate Mentions(d: Doc, kw: string)
  {
    Contains(Lower(d.content), kw)
  }

  /** The documents mentioning the keyword, in their original order. */
  function FilterByKeyword(docs: seq<Doc>, kw: string): (r: seq<Doc>)
    ensures IsSubseq(r, docs)
    ensures forall d :: d in r ==> d in docs && Mentions(d, kw)
    ensures forall d :: d in docs && Mentions(d, kw) ==> d in r
    decreases |docs|
  {
    if |docs| == 0 then []
    else
      var rest := FilterByKeyword(docs[1..], kw);
      if Mentions(docs[0], kw) then
        assert ([docs[0]] + rest)[1..] == rest;
        [docs[0]] + rest
      else rest
  }

  /** The filter keeps every copy of a mentioning document and no copy of
      any other. */
  lemma {:induction false} FilterCount(docs: seq<Doc>, kw: string, d: Doc)
    ensures Count(FilterByKeyword(docs, kw), d) == if Mentions(d, kw) then Count(docs, d) else 0
    decreases |docs|
  {
    if |docs| > 0 {
      FilterCount(docs[1..], kw, d);
      var rest := FilterByKeyword(docs[1..], kw);
      if Mentions(docs[0], kw) {
        assert ([docs[0]] + rest)[1..] == rest;
      }
    }
  }

  /** `filtered_docs` of `user_input`: the keyword's hits, or every document
      when no keyword is selected or nothing mentions it. */
  function RoleFilter(question: string, docs: seq<Doc>): (r: seq<Doc>)
    ensures IsSubseq(r, docs)
    ensures r == [] <==> docs == []
  {
    SubseqRefl(docs);
    match ChooseKeyword(question)
    case None => docs
    case Some(kw) =>
      var hits := FilterByKeyword(docs, kw);
      if hits == [] then docs else hits
  }

  /** The three outcomes of the filter. */
  lemma RoleFilterCases(question: string, docs: seq<Doc>)
    ensures ChooseKeyword(question).None? ==> RoleFilter(question, docs) == docs
    ensures var kw := ChooseKeyword(question);
            kw.Some? && (exists d :: d in docs && Mentions(d, kw.value)) ==>
              RoleFilter(question, docs) == FilterByKeyword(docs, kw.value)
    ensures var kw := ChooseKeyword(question);
            kw.Some? && (forall d :: d in docs ==> !Mentions(d, kw.value)) ==>
              RoleFilter(question, docs) == docs
  {
    var kw := ChooseKeyword(question);
    if kw.Some? {
      var hits := FilterByKeyword(docs, kw.value);
      if hits != [] {
        assert hits[0] in docs && Mentions(hits[0], kw.value);
      }
    }
  }

  // ---------------------------------------------------------------------
  // CSV rows

  /** The last position below `n` holding `key`. */
  function LastKeyIndex(header: seq<string>, key: string, n: nat): (r: Option<nat>)
    requires n <= |header|
    ensures r.Some? ==> r.value < n && header[r.value] == key
    ensures r.Some? ==> forall j :: r.value < j < n ==> header[j] != key
    ensures r.None? ==> forall j :: 0 <= j < n ==> header[j] != key
  {
    if n == 0 then None
    else if header[n - 1] == key then Some(n - 1)
    else LastKeyIndex(header, key, n - 1)
  }

  /** The row's value under `key` in the dictionary built by pairing header
      names with row cells, or the empty string: pairing stops at the shorter
      sequence and a repeated header keeps its last column. */
  function Field(header: seq<string>, row: seq<string>, key: string): string
  {
    var n := Min(|header|, |row|);
    var i := LastKeyIndex(header, key, n);
    if i.Some? then row[i.value] else ""
  }

  /** The dictionary `dict(zip(header, row))` builds from its first `n`
      pairs, inserted in order. */
  function ZipMap(header: seq<string>, row: seq<string>, n: nat): map<string, string>
    requires n <= |header| && n <= |row|
  {
    if n == 0 then map[] else ZipMap(header, row, n - 1)[header[n - 1] := row[n - 1]]
  }

  lemma {:induction false} ZipMapLookup(header: seq<string>, row: seq<string>, key: string, n: nat)
    requires n <= |header| && n <= |row|
    ensures var i := LastKeyIndex(header, key, n);
            (key in ZipMap(header, row, n) <==> i.Some?) &&
            (i.Some? ==> ZipMap(header, row, n)[key] == row[i.value])
  {
    if n > 0 {
      ZipMapLookup(header, row, key, n - 1);
    }
  }

  /** `Field` agrees with looking the key up in the zipped dictionary. */
  lemma FieldIsDictGet(header: seq<string>, row: seq<string>, key: string)
    ensures var m := ZipMap(header, row, Min(|header|, |row|));
            Field(header, row, key) == if key in m then m[key] else ""
  {
    ZipMapLookup(header, row, key, Min(|header|, |row|));
  }

  /** The month-to-quarter table, other months passing through. */
  function QuarterOfMonth(month: string): (q: string)
    ensures month == "03" ==> q == "Q1"
    ensures month == "06" ==> q == "Q2"
    ensures month == "09" ==> q == "Q3"
    ensures month == "12" ==> q == "Q4"
    ensures month !in ["03", "06", "09", "12"] ==> q == month
  {
    if month == "03" then "Q1"
    else if month == "06" then "Q2"
    else if month == "09" then "Q3"
    else if month == "12" then "Q4"
    else month
  }

  /** The quarter derived from a `Period` value: empty for an empty period;
      `year + " " + quarter-of-month` when it splits on `.` into exactly two
      parts; otherwise (the unpacking fails) the period itself. */
  function Quarter(period: string): string
  {
    if period == "" then ""
    else
      var parts := Split(period, '.');
      if |parts| == 2 then parts[0] + " " + QuarterOfMonth(parts[1]) else period
  }

  lemma QuarterOfDotted(year: string, month: string)
    requires '.' !in year && '.' !in month
    ensures Quarter(year + "." + month) == year + " " + QuarterOfMonth(month)
  {
    SplitPeel(year, month, '.');
    SplitNoSep(month, '.');
  }

  lemma QuarterPassThrough(period: string)
    requires Count(period, '.') != 1
    ensures Quarter(period) == period
  {
  }

  /** A quarter-end month is renamed, e.g. `2023.06` gives `2023 Q2`. */
  lemma QuarterOfJune(year: string)
    requires '.' !in year
    ensures Quarter(year + ".06") == year + " Q2"
  {
    assert year + ".06" == year + "." + "06";
    QuarterOfDotted(year, "06");
  }

  /** Every other month passes through, e.g. `2023.11` gives `2023 11`. */
  lemma QuarterOfOtherMonth(year: string, month: string)
    requires '.' !in year && '.' !in month
    requires month !in ["03", "06", "09", "12"]
    ensures Quarter(year + "." + month) == year + " " + month
  {
    QuarterOfDotted(year, month);
  }

  const QuarterLabel: string := "Period_as_quarter: "

  /** The text of a CSV row chunk. */
  function RowText(row: seq<string>, quarter: string): string
  {
    Join(row, ',') + (if quarter != "" then "\n" + QuarterLabel + quarter else "")
  }

  /** A row chunk's lines are the comma-joined row, then the quarter line
      exactly when there is a quarter (`SplitJoin` then gives the row's
      fields back from the first line when none holds a comma). */
  lemma RowTextLines(row: seq<string>, quarter: string)
    requires forall f :: f in row ==> '\n' !in f
    requires '\n' !in quarter
    ensures var lines := Split(RowText(row, quarter), '\n');
            && lines == [Join(row, ',')] + (if quarter != "" then [QuarterLabel + quarter] else [])
  {
    var j := Join(row, ',');
    JoinKeepsAbsent(row, ',', '\n');
    var lines := Split(RowText(row, quarter), '\n');
    if quarter != "" {
      assert RowText(row, quarter) == j + "\n" + QuarterLabel + quarter;
      assert '\n' !in QuarterLabel;
      LabelledLine(j, QuarterLabel, quarter);
      assert lines == [j, QuarterLabel + quarter];
    } else {
      assert RowText(row, quarter) == j;
      SplitNoSep(j, '\n');
      assert lines == [j];
    }
    assert lines[0] == j;
  }

  lemma LabelledLine(j: string, head: string, value: string)
    requires '\n' !in j && '\n' !in head && '\n' !in value
    ensures Split(j + "\n" + head + value, '\n') == [j, head + value]
  {
    var t := head + value;
    assert j + "\n" + head + value == j + ['\n'] + t;
    SplitPeel(j, t, '\n');
    SplitNoSep(t, '\n');
  }

  /** A chunk text with its metadata, as appended to the index inputs. */
  datatype Entry = Entry(text: string, meta: Metadata)

  /** The chunk of the `i`-th data row: its text is the row chunk text with
      the row's derived quarter, and its metadata records the file, the
      position, the `Period` field and the quarter. */
  function RowEntry(filename: string, header: seq<string>, row: seq<string>, i: nat): (e: Entry)
    ensures e.text == RowText(row, Quarter(Field(header, row, "Period")))
    ensures IsPrefix(Join(row, ','), e.text)
    ensures e.meta.Keys == {"filename", "chunk", "period", "quarter"}
    ensures e.meta["filename"] == Str(filename) && e.meta["chunk"] == Num(i)
    ensures e.meta["period"] == Str(Field(header, row, "Period"))
    ensures e.meta["quarter"] == Str(Quarter(Field(header, row, "Period")))
  {
    var period := Field(header, row, "Period");
    var quarter := Quarter(period);
    Entry(RowText(row, quarter),
      map["filename" := Str(filename), "chunk" := Num(i), "period" := Str(period), "quarter" := Str(quarter)])
  }

  /** The prefix of the error shown when an upload fails. */
  const UploadError: string := " Something went wrong with upload: "

  /** An uploaded CSV: the first record is the header, each later record one
      chunk. A file without any record fails (`next` on an empty reader
      raises an exception whose text is empty). */
  function CsvUpload(filename: string, records: seq<seq<string>>): (r: Result<seq<Entry>, string>)
    ensures r.Failure? <==> records == []
    ensures r.Failure? ==> r.error == UploadError
    ensures r.Success? ==> |r.value| == |records| - 1
    ensures r.Success? ==> forall i :: 0 <= i < |r.value| ==>
      && "chunk" in r.value[i].meta && r.value[i].meta["chunk"] == Num(i)
      && IsPrefix(Join(records[i + 1], ','), r.value[i].text)
      && "quarter" in r.value[i].meta && r.value[i].meta["quarter"] == Str(Quarter(Field(records[0], records[i + 1], "Period")))
    ensures r.Success? ==> forall i :: 0 <= i < |r.value| ==> r.value[i] == RowEntry(filename, records[0], records[i + 1], i)
  {
    if records == [] then Failure(UploadError)
    else Success(seq(|records| - 1, i requires 0 <= i < |records| - 1 => RowEntry(filename, records[0], records[i + 1], i)))
  }

  // ---------------------------------------------------------------------
  // Other uploads

  /** The metadata of the `i`-th extracted chunk: the extractor's page when
      it has one, else `i + 1`. */
  function PageMetadata(filename: string, i: nat, page: Option<int>): (m: Metadata)
    ensures m.Keys == {"filename", "chunk", "page"}
    ensures m["chunk"] == Num(i) && m["filename"] == Str(filename)
    ensures page.Some? ==> m["page"] == Num(page.value)
    ensures page.None? ==> m["page"] == Num(i + 1)
  {
    map["filename" := Str(filename), "chunk" := Num(i), "page" := Num(page.GetOr(i + 1))]
  }

  /** The entries of extracted chunks: each chunk's text with its position
      and its page. */
  function ChunkEntries(filename: string, chunks: seq<Chunk>): (es: seq<Entry>)
    requires forall c :: c in chunks ==> c.page >= 1
    ensures |es| == |chunks|
    ensures forall i :: 0 <= i < |es| ==> es[i] == Entry(chunks[i].text, PageMetadata(filename, i, Some(chunks[i].page)))
    ensures forall i :: 0 <= i < |es| ==>
      && "chunk" in es[i].meta && es[i].meta["chunk"] == Num(i)
      && "page" in es[i].meta && es[i].meta["page"] == Num(chunks[i].page) && chunks[i].page >= 1
  {
    assert forall i :: 0 <= i < |chunks| ==> chunks[i] in chunks;
    seq(|chunks|, i requires 0 <= i < |chunks| =>
      Entry(chunks[i].text, PageMetadata(filename, i, Some(chunks[i].page))))
  }

  /** A non-CSV upload: `extract` with chunk size 200 and overlap 100. */
  function ExtractUpload(filename: string, read: ReaderOutput): (r: Result<seq<Entry>, string>)
    ensures r.Failure? <==> LowerExt(filename) !in SupportedExts
    ensures r.Failure? ==> r.error == UploadError + "Unsupported file type: " + LowerExt(filename)
    ensures r.Success? ==> forall i :: 0 <= i < |r.value| ==>
      && "chunk" in r.value[i].meta && r.value[i].meta["chunk"] == Num(i)
      && "page" in r.value[i].meta && r.value[i].meta["page"].Num? && r.value[i].meta["page"].n >= 1
    ensures r.Success? ==> Extract(filename, 200, 100, read).Success?
    ensures r.Success? ==>
      var cs := Extract(filename, 200, 100, read).value;
      |r.value| == |cs| && forall i :: 0 <= i < |cs| ==> r.value[i] == Entry(cs[i].text, PageMetadata(filename, i, Some(cs[i].page)))
  {
    var res := Extract(filename, 200, 100, read);
    ExtractPagesPositive(filename, 200, 100, read);
    match res
    case Failure(e) => Failure(UploadError + e)
    case Success(chunks) => Success(ChunkEntries(filename, chunks))
  }

  /** For the packed formats the extractor's page equals the fallback the
      metadata would have used: chunk position plus one. */
  lemma PackedPagesMatchFallback(root: string, ext: string, read: ReaderOutput)
    requires |ext| >= 1 && ext[0] == '.' && '.' !in ext[1..] && '/' !in ext
    requires Lower(ext) in [".docx", ".txt", ".csv"]
    requires HasNonDot(BaseName(root))
    ensures var r := ExtractUpload(root + ext, read);
            r.Success? && forall i :: 0 <= i < |r.value| ==>
              "page" in r.value[i].meta && r.value[i].meta["page"] == PageMetadata(root + ext, i, None)["page"]
  {
    var f := root + ext;
    PackedExtractPages(root, ext, 200, 100, read);
    var chunks := Extract(f, 200, 100, read).value;
    var r := ExtractUpload(f, read);
    assert r == Success(ChunkEntries(f, chunks));
  }

  /** One uploaded file: CSV by name, every other file through `extract`. */
  function Upload(filename: string, records: seq<seq<string>>, read: ReaderOutput): (r: Result<seq<Entry>, string>)
    ensures EndsWith(Lower(filename), ".csv") ==> r == CsvUpload(filename, records)
    ensures !EndsWith(Lower(filename), ".csv") ==> r == ExtractUpload(filename, read)
  {
    if EndsWith(Lower(filename), ".csv") then CsvUpload(filename, records)
    else ExtractUpload(filename, read)
  }

  /** The lower-cased extension is a suffix of the lower-cased name. */
  lemma LowerExtIsSuffix(filename: string)
    ensures EndsWith(Lower(filename), LowerExt(filename))
  {
    var root := SplitExt(filename).0;
    var e := Ext(filename);
    assert root + e == filename;
    LowerAppend(root, e);
  }

  /** The CSV test on the name catches every file `extract` would read as
      CSV, so the packer never sees an uploaded CSV. */
  lemma UploadNeverPacksCsv(filename: string)
    requires !EndsWith(Lower(filename), ".csv")
    ensures KindOf(filename) != Some(Csv)
  {
    var e := LowerExt(filename);
    LowerExtIsSuffix(filename);
    assert e == ".csv" ==> EndsWith(Lower(filename), ".csv");
  }
}
