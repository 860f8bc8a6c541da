/** The records that flow between extraction, indexing and retrieval. */
module Chunks {

  /** An extracted span of text with the page (or synthetic 1-based counter)
      the extractor pairs it with: the `(chunk, page)` tuples of the source. */
  datatype Chunk = Chunk(text: string, page: int)

  /** A metadata value: the source stores strings and integers. */
  datatype MetaValue = Str(s: string) | Num(n: int)

  /** Per-chunk provenance, a string-keyed dictionary as in the source. */
  type Metadata = map<string, MetaValue>

  /** A retrieved document: the vector store's `page_content` and `metadata`. */
  datatype Doc = Doc(content: string, metadata: Metadata)

  /** The texts of a list of chunks, in order. */
  function Texts(cs: seq<Chunk>): (ts: seq<string>)
    ensures |ts| == |cs|
    ensures forall i :: 0 <= i < |cs| ==> ts[i] == cs[i].text
  {
    seq(|cs|, i requires 0 <= i < |cs| => cs[i].text)
  }

  /** Pairs each text with its position counted from 1. */
  function Tag(texts: seq<string>): (r: seq<Chunk>)
    ensures |r| == |texts|
    ensures forall i :: 0 <= i < |r| ==> r[i].text == texts[i] && r[i].page == i + 1
    ensures Texts(r) == texts
  {
    seq(|texts|, i requires 0 <= i < |texts| => Chunk(texts[i], i + 1))
  }
}
