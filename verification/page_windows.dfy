/** The per-page sliding-window chunker (pdf_chunk_helper.py). Each page's
    text is cut into windows of at most `chunk_size` characters. They start
    at 0 and then every `chunk_size - chunk_overlap` characters, as long as
    the start lies inside the text. Windows that are blank after stripping
    are dropped, and every kept window carries its 1-based page. */
module PageWindows {
  import opened Wrappers
  import opened Seqs
  import opened Text
  import opened Chunks

  /** A page's text; a page with no text layer reads as the empty string. */
  function PageText(page: Option<string>): string
  {
    page.GetOr("")
  }

  /** The window starting at `start`. */
  function Window(text: string, start: int, size: int): string
  {
    Slice(text, start, Min(start + size, |text|))
  }

  /** The window loop for one page, from `start` on, while `start` lies
      inside the text. It ends only when the step `size - overlap` is
      positive, or at once when `start` is already past the text. A window
      is kept when its strip is non-empty, which by the contract of `Strip`
      is exactly when the window is not blank. */
  function WindowsFrom(text: string, page: int, size: int, overlap: int, start: nat): (r: seq<Chunk>)
    requires size > overlap || start >= |text|
    ensures forall c :: c in r ==> c.page == page && !IsBlank(c.text)
    decreases |text| - start
  {
    if start >= |text| then []
    else
      var rest := WindowsFrom(text, page, size, overlap, start + (size - overlap));
      var w := Window(text, start, size);
      if !IsBlank(w) then [Chunk(w, page)] + rest else rest
  }

  function Windows(text: string, page: int, size: int, overlap: int): seq<Chunk>
    requires size > overlap || text == ""
  {
    WindowsFrom(text, page, size, overlap, 0)
  }

  /** No page has any text (each is empty or has no text layer). */
  predicate NoPageText(pages: seq<Option<string>>)
  {
    forall k :: 0 <= k < |pages| ==> PageText(pages[k]) == ""
  }

  /** The loop over the pages, numbered from 1, for the pages that follow
      the first `before` ones. */
  function PdfChunksFrom(pages: seq<Option<string>>, before: nat, size: int, overlap: int): (r: seq<Chunk>)
    requires size > overlap || NoPageText(pages)
    ensures forall c :: c in r ==> before < c.page <= before + |pages| && !IsBlank(c.text)
    ensures forall i, j :: 0 <= i < j < |r| ==> r[i].page <= r[j].page
    decreases |pages|
  {
    if |pages| == 0 then []
    else
      assert size > overlap || PageText(pages[0]) == "";
      assert forall k :: 0 <= k < |pages| - 1 ==> pages[1..][k] == pages[k + 1];
      var head := Windows(PageText(pages[0]), before + 1, size, overlap);
      var tail := PdfChunksFrom(pages[1..], before + 1, size, overlap);
      var r := head + tail;
      assert forall i :: 0 <= i < |r| ==> r[i] in (if i < |head| then head else tail);
      r
  }

  /** The PDF chunker over the pages' extracted texts: no chunk is blank,
      tags are 1-based page numbers, in page order. */
  function PdfChunks(pages: seq<Option<string>>, size: int, overlap: int): (r: seq<Chunk>)
    requires size > overlap || NoPageText(pages)
    ensures forall c :: c in r ==> 1 <= c.page <= |pages| && !IsBlank(c.text)
    ensures forall i, j :: 0 <= i < j < |r| ==> r[i].page <= r[j].page
  {
    PdfChunksFrom(pages, 0, size, overlap)
  }

  /** A document without any page text gives no chunk, whatever the sizes,
      even those for which the window loop would not end on a non-empty page. */
  lemma {:induction false} NoPageTextNoChunks(pages: seq<Option<string>>, before: nat, size: int, overlap: int)
    requires NoPageText(pages)
    ensures PdfChunksFrom(pages, before, size, overlap) == []
    decreases |pages|
  {
    if |pages| > 0 {
      assert forall k :: 0 <= k < |pages| - 1 ==> pages[1..][k] == pages[k + 1];
      NoPageTextNoChunks(pages[1..], before + 1, size, overlap);
      assert PageText(pages[0]) == "";
    }
  }

  // ---------------------------------------------------------------------
  // Shape of the emitted windows.

  /** `s` is one of the starts `start, start + step, start + 2*step, ...`. */
  ghost predicate OnGridFrom(s: int, start: int, step: int)
    requires step > 0
    decreases s - start
  {
    if s <= start then s == start else OnGridFrom(s, start + step, step)
  }

  lemma {:induction false} OnGridAbove(s: int, start: int, step: int)
    requires step > 0 && OnGridFrom(s, start, step)
    ensures s >= start
    decreases s - start
  {
    if s > start {
      OnGridAbove(s, start + step, step);
    }
  }

  /** `w` is the window at one of the starts `start, start + step, ...`
      that lie below `len(text)`. */
  ghost predicate GridWindow(text: string, size: int, overlap: int, start: int, w: string)
    requires size > overlap
    decreases |text| - start
  {
    start < |text| &&
    (w == Window(text, start, size) || GridWindow(text, size, overlap, start + (size - overlap), w))
  }

  /** `w` is the window at a start `s < len(text)` on the step grid from 0. */
  ghost predicate IsWindowOf(text: string, size: int, overlap: int, w: string)
    requires size > overlap
  {
    GridWindow(text, size, overlap, 0, w)
  }

  lemma {:induction false} WindowsFromShape(text: string, page: int, size: int, overlap: int, start: nat)
    requires size > overlap
    ensures forall c :: c in WindowsFrom(text, page, size, overlap, start) ==>
      GridWindow(text, size, overlap, start, c.text)
    decreases |text| - start
  {
    var step := size - overlap;
    if start < |text| {
      WindowsFromShape(text, page, size, overlap, start + step);
    }
  }

  /** A window of non-negative width starting inside the text is the plain
      slice up to `min(start + size, len)`, at most `size` long. */
  lemma WindowLength(text: string, start: nat, size: int)
    requires start < |text| && size >= 0
    ensures Window(text, start, size) == text[start..Min(start + size, |text|)]
    ensures |Window(text, start, size)| <= size
  {
  }

  lemma {:induction false} GridWindowBound(text: string, size: int, overlap: int, start: nat, w: string)
    requires size > overlap && size >= 0
    requires GridWindow(text, size, overlap, start, w)
    ensures |w| <= size
    decreases |text| - start
  {
    if w == Window(text, start, size) {
      WindowLength(text, start, size);
    } else {
      GridWindowBound(text, size, overlap, start + (size - overlap), w);
    }
  }

  lemma {:induction false} PdfChunksFromShape(pages: seq<Option<string>>, before: nat, size: int, overlap: int)
    requires size > overlap
    ensures forall c :: c in PdfChunksFrom(pages, before, size, overlap) ==>
      before < c.page <= before + |pages| && IsWindowOf(PageText(pages[c.page - 1 - before]), size, overlap, c.text)
    decreases |pages|
  {
    if |pages| > 0 {
      var text := PageText(pages[0]);
      var tail := PdfChunksFrom(pages[1..], before + 1, size, overlap);
      PdfChunksFromShape(pages[1..], before + 1, size, overlap);
      WindowsFromShape(text, before + 1, size, overlap, 0);
      forall c | c in tail
        ensures pages[c.page - 1 - before] == pages[1..][c.page - 1 - (before + 1)]
      {
      }
    }
  }

  /** Every chunk of the document is a step-aligned window of its page's
      text, and at most `size` long when `size` is non-negative. */
  lemma PdfChunkShape(pages: seq<Option<string>>, size: int, overlap: int)
    requires size > overlap
    ensures forall c :: c in PdfChunks(pages, size, overlap) ==>
      1 <= c.page <= |pages| && IsWindowOf(PageText(pages[c.page - 1]), size, overlap, c.text)
      && (size >= 0 ==> |c.text| <= size)
  {
    PdfChunksFromShape(pages, 0, size, overlap);
    forall c | c in PdfChunks(pages, size, overlap) && size >= 0
      ensures |c.text| <= size
    {
      GridWindowBound(PageText(pages[c.page - 1]), size, overlap, 0, c.text);
    }
  }

  /** A page with no text contributes no chunks. */
  lemma EmptyPageNoChunks(pages: seq<Option<string>>, size: int, overlap: int, i: nat)
    requires size > overlap
    requires i < |pages| && PageText(pages[i]) == ""
    ensures forall c :: c in PdfChunks(pages, size, overlap) ==> c.page != i + 1
  {
    PdfChunkShape(pages, size, overlap);
  }

  // ---------------------------------------------------------------------
  // Coverage.

  /** A grid start inside the text whose window is not blank is emitted. */
  lemma {:induction false} WindowEmitted(text: string, page: int, size: int, overlap: int, start: nat, s: nat)
    requires size > overlap
    requires OnGridFrom(s, start, size - overlap) && s < |text|
    requires !IsBlank(Window(text, s, size))
    ensures Chunk(Window(text, s, size), page) in WindowsFrom(text, page, size, overlap, start)
    decreases s - start
  {
    OnGridAbove(s, start, size - overlap);
    if s > start {
      WindowEmitted(text, page, size, overlap, start + (size - overlap), s);
    }
  }

  /** The grid start, from `start`, of the window whose first `step`
      characters hold position `p`. */
  function CoveringStart(p: int, start: int, step: int): (s: int)
    requires step > 0 && start <= p
    ensures OnGridFrom(s, start, step) && s <= p < s + step
    decreases p - start
  {
    if p < start + step then start else CoveringStart(p, start + step, step)
  }

  /** With `0 <= overlap < size`, every non-whitespace character of a page
      lies inside an emitted chunk tagged with that page, at its offset. */
  lemma WindowsCover(text: string, page: int, size: int, overlap: int, p: nat)
    requires 0 <= overlap < size
    requires p < |text| && !IsSpace(text[p])
    ensures var s := CoveringStart(p, 0, size - overlap);
            var w := Window(text, s, size);
            0 <= s <= p < s + |w| && w == text[s..s + |w|] && Chunk(w, page) in Windows(text, page, size, overlap)
  {
    var s := CoveringStart(p, 0, size - overlap);
    OnGridAbove(s, 0, size - overlap);
    var w := Window(text, s, size);
    WindowLength(text, s, size);
    assert w[p - s] == text[p];
    WindowEmitted(text, page, size, overlap, 0, s);
  }

  lemma {:induction false} PdfChunksFromCover(pages: seq<Option<string>>, before: nat, size: int, overlap: int, i: nat, p: nat)
    requires 0 <= overlap < size
    requires i < |pages| && p < |PageText(pages[i])| && !IsSpace(PageText(pages[i])[p])
    ensures var s := CoveringStart(p, 0, size - overlap);
            Chunk(Window(PageText(pages[i]), s, size), before + i + 1) in PdfChunksFrom(pages, before, size, overlap)
    decreases i
  {
    if i == 0 {
      WindowsCover(PageText(pages[0]), before + 1, size, overlap, p);
    } else {
      assert pages[1..][i - 1] == pages[i];
      PdfChunksFromCover(pages[1..], before + 1, size, overlap, i - 1, p);
    }
  }

  /** Coverage over a document: the non-whitespace character at position
      `p` of page `i + 1` lies inside an emitted chunk tagged `i + 1`,
      which is the page text's slice starting at a grid start `s <= p`. */
  lemma PdfChunksCover(pages: seq<Option<string>>, size: int, overlap: int, i: nat, p: nat)
    requires 0 <= overlap < size
    requires i < |pages| && p < |PageText(pages[i])| && !IsSpace(PageText(pages[i])[p])
    ensures var text := PageText(pages[i]);
            var s := CoveringStart(p, 0, size - overlap);
            var w := Window(text, s, size);
            && Chunk(w, i + 1) in PdfChunks(pages, size, overlap)
            && 0 <= s <= p < s + |w| && w == text[s..s + |w|]
  {
    PdfChunksFromCover(pages, 0, size, overlap, i, p);
    WindowsCover(PageText(pages[i]), i + 1, size, overlap, p);
  }
}
