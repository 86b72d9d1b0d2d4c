/** The stored knowledge chunk and how retrieval renders it into context text. */
module Knowledge {
  import opened Text

  /**
   * One stored chunk: `{_id, title, content, type, embedding}`. A missing
   * title or content is the empty string, which is what `d.title || ''`
   * and `d.content || ''` read it as.
   */
  datatype Chunk = Chunk(id: nat, title: string, content: string, kind: string, embedding: seq<real>)

  /** `d.content?.length ?? 0`, the key every length sort uses. */
  function ContentLength(d: Chunk): int { |d.content| }

  function Id(d: Chunk): nat { d.id }

  /** `(d.title ? `[${d.title}]\n` : '') + (d.content || '')` */
  function Block(d: Chunk): (b: string)
    ensures d.title == "" ==> b == d.content
    ensures |b| >= |d.content| && b[|b| - |d.content|..] == d.content
  {
    (if d.title != "" then "[" + d.title + "]\n" else "") + d.content
  }

  function Blocks(docs: seq<Chunk>): (r: seq<string>)
    ensures |r| == |docs|
    ensures forall i :: 0 <= i < |docs| ==> r[i] == Block(docs[i])
  {
    seq(|docs|, i requires 0 <= i < |docs| => Block(docs[i]))
  }

  /**
   * The joined blocks of docs start with the first doc's block and contain
   * every doc's content.
   */
  lemma BlocksJoined(docs: seq<Chunk>, sep: string)
    requires |docs| > 0
    ensures StartsWith(Join(Blocks(docs), sep), Block(docs[0]))
    ensures forall i :: 0 <= i < |docs| ==> Contains(Join(Blocks(docs), sep), docs[i].content)
  {
    var joined := Join(Blocks(docs), sep);
    JoinStartsWithFirst(Blocks(docs), sep);
    forall i | 0 <= i < |docs| ensures Contains(joined, docs[i].content) {
      var b := Block(docs[i]);
      ContainsAt(b, docs[i].content, |b| - |docs[i].content|);
      JoinContainsPart(Blocks(docs), i, sep);
      ContainsTransitive(joined, b, docs[i].content);
    }
  }
}
