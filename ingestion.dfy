/**
 * Ingestion: `indexContent` chunks trimmed content and stores one record per
 * chunk; `stripHtml` turns a fetched page into plain text; the `/knowledge`
 * and `/knowledge/url` handlers validate and normalise their input before
 * indexing it.
 */
module Ingestion {
  import opened Util
  import opened Text
  import opened Knowledge
  import opened Chunking
  import opened Embedding

  /** Content longer than this is chunked. */
  const ChunkThreshold: nat := RagChunkSize
  /** The status of a rejected request. */
  const BadRequest: nat := 400
  /** Page text shorter than this is rejected. */
  const MinPageText: nat := 50

  /** The knowledge collection as ingestion sees it: records are appended, and `_id`s are handed out in order. */
  class KnowledgeStore {
    var records: seq<Chunk>

    /** Every record's id is its position, so no two records share an id. */
    ghost predicate Valid()
      reads this
    {
      forall i :: 0 <= i < |records| ==> records[i].id == i
    }

    /** Valid records have pairwise distinct ids. */
    lemma IdsDistinct()
      requires Valid()
      ensures forall i, j :: 0 <= i < j < |records| ==> records[i].id != records[j].id
    {
    }

    constructor ()
      ensures records == [] && Valid()
    {
      records := [];
    }

    /** `new Knowledge({title, content, type, embedding}).save()` */
    method Save(title: string, content: string, kind: string, embedding: seq<real>)
      requires Valid()
      modifies this
      ensures records == old(records) + [Chunk(|old(records)|, title, content, kind, embedding)]
      ensures Valid()
    {
      records := records + [Chunk(|records|, title, content, kind, embedding)];
    }
  }

  // ------------------------------------------------ indexContent

  /** The chunks of trimmed content: the text itself up to the threshold, `chunkText` beyond it. */
  function ChunksFor(trimmed: string): seq<string> {
    if |trimmed| > ChunkThreshold then ChunkText(trimmed, RagChunkSize, RagChunkOverlap) else [trimmed]
  }

  /**
   * The request's title as the template literal writes it: a missing title
   * (`undefined`) is written out as "undefined".
   */
  function TitleText(title: Option<string>): string {
    if title.Some? then title.value else "undefined"
  }

  /** The title a record stores as given: a missing title is no field, which every reader takes as "". */
  function StoredTitle(title: Option<string>): string {
    if title.Some? then title.value else ""
  }

  /** `"<title> (part i/n)"` with 1-based i when there are several chunks, the title as given otherwise. */
  function PartTitle(title: Option<string>, i: nat, n: nat): string {
    if n > 1 then TitleText(title) + " (part " + NatToString(i + 1) + PartSuffix(n) else StoredTitle(title)
  }

  function PartSuffix(n: nat): string {
    "/" + NatToString(n) + ")"
  }

  /** The records stored for the chunks, the first one getting id `first`. */
  function IndexedRecords(title: Option<string>, chunks: seq<string>, kind: string,
                          provider: string -> ProviderReply, hash: string -> seq<Byte>, first: nat): (r: seq<Chunk>)
    requires NonEmptyDigests(hash)
    ensures |r| == |chunks|
    ensures forall i :: 0 <= i < |r| ==>
      r[i] == Chunk(first + i, PartTitle(title, i, |chunks|), chunks[i], kind, EmbedText(chunks[i], provider, hash))
  {
    seq(|chunks|, i requires 0 <= i < |chunks| =>
      Chunk(first + i, PartTitle(title, i, |chunks|), chunks[i], kind, EmbedText(chunks[i], provider, hash)))
  }

  /**
   * Blank content stores nothing and reports (0, 0); otherwise one record per
   * chunk is appended in chunk order, the count is the number of records
   * stored and the length is that of the trimmed content.
   */
  method IndexContent(store: KnowledgeStore, title: Option<string>, content: string, kind: string,
                      provider: string -> ProviderReply, hash: string -> seq<Byte>)
    returns (count: nat, totalLength: nat)
    requires NonEmptyDigests(hash) && store.Valid()
    modifies store
    ensures store.Valid()
    ensures Trim(content) == "" ==> count == 0 && totalLength == 0 && store.records == old(store.records)
    ensures Trim(content) != "" ==>
      totalLength == |Trim(content)| && count == |ChunksFor(Trim(content))| &&
      store.records == old(store.records) + IndexedRecords(title, ChunksFor(Trim(content)), kind, provider, hash, |old(store.records)|)
    ensures count == |store.records| - |old(store.records)|
  {
    var trimmed := Trim(content);
    if trimmed == "" {
      return 0, 0;
    }
    var chunks := ChunksFor(trimmed);
    var saved := SaveChunks(store, title, chunks, kind, provider, hash);
    return saved, |trimmed|;
  }

  /** The loop of `indexContent`: each chunk is embedded and saved under its part title, counting the saves. */
  method SaveChunks(store: KnowledgeStore, title: Option<string>, chunks: seq<string>, kind: string,
                    provider: string -> ProviderReply, hash: string -> seq<Byte>)
    returns (saved: nat)
    requires NonEmptyDigests(hash) && store.Valid()
    modifies store
    ensures store.Valid()
    ensures store.records == old(store.records) + IndexedRecords(title, chunks, kind, provider, hash, |old(store.records)|)
    ensures saved == |chunks|
  {
    ghost var before := store.records;
    ghost var all := IndexedRecords(title, chunks, kind, provider, hash, |before|);
    saved := 0;
    for i := 0 to |chunks|
      invariant store.Valid()
      invariant saved == i
      invariant store.records == before + all[..i]
    {
      var chunk := chunks[i];
      var chunkTitle := PartTitle(title, i, |chunks|);
      var embedding := EmbedText(chunk, provider, hash);
      SaveNext(store, chunkTitle, chunk, kind, embedding, before, all, i);
      saved := saved + 1;
    }
    assert all[..|chunks|] == all;
  }

  /** One turn of the loop: the i-th record is saved. */
  method SaveNext(store: KnowledgeStore, title: string, content: string, kind: string, embedding: seq<real>,
                  ghost before: seq<Chunk>, ghost all: seq<Chunk>, ghost i: nat)
    requires store.Valid() && i < |all| && store.records == before + all[..i]
    requires all[i] == Chunk(|before| + i, title, content, kind, embedding)
    modifies store
    ensures store.Valid() && store.records == before + all[..i + 1]
  {
    store.Save(title, content, kind, embedding);
    AppendPrefixSnoc(before, all, i);
  }

  /** Content that is not blank always yields at least one chunk, each non-empty and at most 8000 characters. */
  lemma ChunksForShape(content: string)
    requires Trim(content) != ""
    ensures |ChunksFor(Trim(content))| >= 1
    ensures forall c :: c in ChunksFor(Trim(content)) ==> c != "" && |c| <= ChunkThreshold
  {
    var t := Trim(content);
    if |t| > ChunkThreshold {
      ShortTextIsOneChunk(t, RagChunkSize, RagChunkOverlap);
      ChunksAreBoundedSlices(t, RagChunkSize, RagChunkOverlap);
      assert !IsSpace(t[0]);
    }
  }

  /** Trimmed content that fits is stored as exactly one record: the trimmed text under the bare title. */
  lemma ShortContentIsOneRecord(title: Option<string>, content: string, kind: string,
                                provider: string -> ProviderReply, hash: string -> seq<Byte>, first: nat)
    requires NonEmptyDigests(hash)
    requires 0 < |Trim(content)| <= ChunkThreshold
    ensures IndexedRecords(title, ChunksFor(Trim(content)), kind, provider, hash, first) ==
      [Chunk(first, StoredTitle(title), Trim(content), kind, EmbedText(Trim(content), provider, hash))]
  {
    var t := Trim(content);
    assert ChunksFor(t) == [t];
    assert PartTitle(title, 0, 1) == StoredTitle(title);
  }

  /** Different parts of a chunked text get different titles. */
  lemma PartTitlesDistinct(title: Option<string>, i: nat, j: nat, n: nat)
    requires n > 1 && i < n && j < n && i != j
    ensures PartTitle(title, i, n) != PartTitle(title, j, n)
  {
    var a, x, y, z := TitleText(title) + " (part ", NatToString(i + 1), NatToString(j + 1), PartSuffix(n);
    if PartTitle(title, i, n) == PartTitle(title, j, n) {
      SameFrameSameMiddle(a, x, y, z);
      NatToStringInjective(i + 1, j + 1);
    }
  }

  /** Equal texts with the same beginning and ending agree in between. */
  lemma SameFrameSameMiddle(a: string, x: string, y: string, z: string)
    requires a + x + z == a + y + z
    ensures x == y
  {
    assert x + z == y + z by {
      assert (a + x + z)[|a|..] == x + z;
      assert (a + y + z)[|a|..] == y + z;
    }
    SameEndingSamePrefix(x, y, z);
  }

  /** Equal texts with the same ending agree before it. */
  lemma SameEndingSamePrefix(x: string, y: string, z: string)
    requires x + z == y + z
    ensures x == y
  {
    assert x == (x + z)[..|x|];
    assert y == (y + z)[..|y|];
  }

  /**
   * The records `indexContent` stores for its chunks: one per chunk, in
   * chunk order, holding that chunk; the ids are consecutive from `first`;
   * a single chunk keeps the title as given, and several chunks get
   * pairwise distinct titles.
   */
  lemma IndexedRecordsLayout(title: Option<string>, chunks: seq<string>, kind: string,
                             provider: string -> ProviderReply, hash: string -> seq<Byte>, first: nat, r: seq<Chunk>)
    requires NonEmptyDigests(hash) && r == IndexedRecords(title, chunks, kind, provider, hash, first)
    ensures |r| == |chunks|
    ensures forall i :: 0 <= i < |r| ==> r[i].content == chunks[i] && r[i].kind == kind
    ensures forall i :: 0 <= i < |r| ==> first <= r[i].id < first + |chunks|
    ensures forall i, j :: 0 <= i < j < |r| ==> r[i].id < r[j].id
    ensures |chunks| == 1 ==> r[0].title == StoredTitle(title)
    ensures forall i, j :: 0 <= i < j < |r| ==> r[i].title != r[j].title
  {
    forall i, j | 0 <= i < j < |r| ensures r[i].title != r[j].title {
      PartTitlesDistinct(title, i, j, |chunks|);
    }
  }

  // ------------------------------------------------ stripHtml

  /** The first position at or after `from` where w occurs. */
  function FirstOccurrence(s: string, w: string, from: nat): (r: Option<nat>)
    requires from <= |s|
    ensures r.Some? ==> from <= r.value && OccursAt(s, w, r.value)
    ensures r.Some? ==> forall k :: from <= k < r.value ==> !OccursAt(s, w, k)
    ensures r.None? ==> forall k :: from <= k <= |s| ==> !OccursAt(s, w, k)
    decreases |s| - from
  {
    if OccursAt(s, w, from) then Some(from)
    else if from == |s| then None
    else FirstOccurrence(s, w, from + 1)
  }

  /** `<tag` followed by a word boundary, in the lower-cased text ls. */
  predicate OpensAt(ls: string, i: nat, tag: string) {
    OccursAt(ls, "<" + tag, i) && (i + 1 + |tag| == |ls| || !IsWordChar(ls[i + 1 + |tag|]))
  }

  /**
   * `replace(/<tag\b[^<]*(?:(?!<\/tag>)<[^<]*)*<\/tag>/gi, ' ')` from position
   * i: an opening `<tag` that has a closing `</tag>` after it is replaced,
   * up to the first such closing, by one space; an opening without a closing
   * is left alone. ls is the lower-cased copy of s that the matching reads.
   */
  function RemoveBlocksFrom(s: string, ls: string, tag: string, i: nat): string
    requires |ls| == |s| && i <= |s|
    decreases |s| - i
  {
    if i == |s| then ""
    else if OpensAt(ls, i, tag) && FirstOccurrence(ls, "</" + tag + ">", i + 1 + |tag|).Some? then
      var close := FirstOccurrence(ls, "</" + tag + ">", i + 1 + |tag|).value;
      " " + RemoveBlocksFrom(s, ls, tag, close + |tag| + 3)
    else [s[i]] + RemoveBlocksFrom(s, ls, tag, i + 1)
  }

  function RemoveBlocks(s: string, tag: string): string {
    RemoveBlocksFrom(s, Lower(s), tag, 0)
  }

  /**
   * `replace(/<[^>]+>/g, ' ')` from position i: a `<` whose next `>` is not
   * the very next character starts a tag that, through that `>`, becomes
   * one space.
   */
  function RemoveTagsFrom(s: string, i: nat): string
    requires i <= |s|
    decreases |s| - i
  {
    if i == |s| then ""
    else if s[i] == '<' && FirstOccurrence(s, ">", i + 1).Some? && FirstOccurrence(s, ">", i + 1).value > i + 1 then
      " " + RemoveTagsFrom(s, FirstOccurrence(s, ">", i + 1).value + 1)
    else [s[i]] + RemoveTagsFrom(s, i + 1)
  }

  function RemoveTags(s: string): string {
    RemoveTagsFrom(s, 0)
  }

  /**
   * `stripHtml`: script and style blocks, then tags, become spaces;
   * whitespace runs collapse; the ends are trimmed. No tag is left in the
   * result and no whitespace is doubled or at either end.
   */
  function StripHtml(html: string): (r: string)
    ensures NoDoubleSpace(r)
    ensures r == [] || (!IsSpace(r[0]) && !IsSpace(r[|r| - 1]))
  {
    var text := RemoveTags(RemoveBlocks(RemoveBlocks(html, "script"), "style"));
    CollapseTrimNoDouble(text);
    Trim(CollapseSpaces(text))
  }

  /** No tag is left in the text `stripHtml` extracts. */
  lemma StripHtmlNoTag(html: string)
    ensures NoTagLeft(StripHtml(html))
  {
    var blocks := RemoveBlocks(RemoveBlocks(html, "script"), "style");
    var text := RemoveTags(blocks);
    RemoveTagsFromNoTag(blocks, 0);
    CollapseNoTag(text);
    TrimNoTag(CollapseSpaces(text));
  }

  lemma TrimNoTag(s: string)
    requires NoTagLeft(s)
    ensures NoTagLeft(Trim(s))
  {
    SliceNoTag(s, LeadingSpaces(s), LeadingSpaces(s) + |Trim(s)|);
  }

  /** No `>` after position k. */
  predicate NoCloseAfter(s: string, k: int) {
    forall j :: 0 <= j < |s| && k < j ==> s[j] != '>'
  }

  /**
   * Nothing `<[^>]+>` matches is left: every `<` is followed directly by
   * `>`, or no `>` comes anywhere after it.
   */
  predicate NoTagLeft(s: string) {
    forall k :: 0 <= k < |s| && s[k] == '<' ==> (k + 1 < |s| && s[k + 1] == '>') || NoCloseAfter(s, k)
  }

  lemma OccursGreater(s: string, k: int)
    ensures OccursAt(s, ">", k) <==> 0 <= k < |s| && s[k] == '>'
  {
    if 0 <= k < |s| {
      assert s[k..k + 1] == [s[k]];
    }
  }

  /** A character in front of a tag-free text leaves it tag-free unless it is a `<` that now opens a tag. */
  lemma ConsNoTag(c: char, t: string)
    requires NoTagLeft(t)
    requires c == '<' ==> (|t| > 0 && t[0] == '>') || NoCloseAfter(t, -1)
    ensures NoTagLeft([c] + t)
  {
    var s := [c] + t;
    forall k | 0 <= k < |s| && s[k] == '<' ensures (k + 1 < |s| && s[k + 1] == '>') || NoCloseAfter(s, k) {
      if k == 0 {
        if !(|t| > 0 && t[0] == '>') {
          forall j | 0 < j < |s| ensures s[j] != '>' { assert s[j] == t[j - 1]; }
        }
      } else {
        assert t[k - 1] == '<';
        if !(k < |t| && t[k] == '>') {
          assert NoCloseAfter(t, k - 1);
          forall j | k < j < |s| ensures s[j] != '>' { assert s[j] == t[j - 1]; }
        }
      }
    }
  }

  /** Any slice of a tag-free text is tag-free. */
  lemma SliceNoTag(s: string, a: nat, b: nat)
    requires a <= b <= |s| && NoTagLeft(s)
    ensures NoTagLeft(s[a..b])
  {
    var t := s[a..b];
    forall k | 0 <= k < |t| && t[k] == '<' ensures (k + 1 < |t| && t[k + 1] == '>') || NoCloseAfter(t, k) {
      assert s[a + k] == '<';
      if k + 1 < |t| && t[k + 1] != '>' {
        assert s[a + k + 1] == t[k + 1];
        assert NoCloseAfter(s, a + k);
        forall j | k < j < |t| ensures t[j] != '>' { assert t[j] == s[a + j]; }
      }
    }
  }

  /** Without a `>` in the input from i on, the tag rule puts none in its output. */
  lemma {:induction false} RemoveTagsFromNoClose(s: string, i: nat)
    requires i <= |s| && NoCloseAfter(s, i - 1)
    ensures NoCloseAfter(RemoveTagsFrom(s, i), -1)
    decreases |s| - i
  {
    if i < |s| {
      var f := FirstOccurrence(s, ">", i + 1);
      if f.Some? {
        OccursGreater(s, f.value);
        assert false;
      }
      RemoveTagsFromNoClose(s, i + 1);
      var t := RemoveTagsFrom(s, i + 1);
      forall j | 0 <= j < |t| + 1 ensures ([s[i]] + t)[j] != '>' {
        if j > 0 { assert ([s[i]] + t)[j] == t[j - 1]; }
      }
    }
  }

  /** The tag rule leaves no tag behind. */
  lemma {:induction false} RemoveTagsFromNoTag(s: string, i: nat)
    requires i <= |s|
    ensures NoTagLeft(RemoveTagsFrom(s, i))
    decreases |s| - i
  {
    if i < |s| {
      var f := FirstOccurrence(s, ">", i + 1);
      if s[i] == '<' && f.Some? && f.value > i + 1 {
        RemoveTagsFromNoTag(s, f.value + 1);
        ConsNoTag(' ', RemoveTagsFrom(s, f.value + 1));
      } else {
        var t := RemoveTagsFrom(s, i + 1);
        RemoveTagsFromNoTag(s, i + 1);
        if s[i] == '<' {
          if f.Some? {
            OccursGreater(s, i + 1);
            assert t[0] == '>';
          } else {
            forall j | i < j < |s| ensures s[j] != '>' { OccursGreater(s, j); }
            RemoveTagsFromNoClose(s, i + 1);
          }
        }
        ConsNoTag(s[i], t);
      }
    }
  }

  /** Collapsing whitespace puts no `>` where there was none. */
  lemma {:induction false} CollapseKeepsNoClose(s: string)
    requires NoCloseAfter(s, -1)
    ensures NoCloseAfter(CollapseSpaces(s), -1)
    decreases |s|
  {
    if s != [] {
      var n := if IsSpace(s[0]) then LeadingSpaces(s) else 1;
      assert NoCloseAfter(s[n..], -1) by {
        forall j | 0 <= j < |s[n..]| ensures s[n..][j] != '>' { assert s[n..][j] == s[n + j]; }
      }
      CollapseKeepsNoClose(s[n..]);
    }
  }

  /** Collapsing whitespace keeps a text tag-free. */
  lemma {:induction false} CollapseNoTag(s: string)
    requires NoTagLeft(s)
    ensures NoTagLeft(CollapseSpaces(s))
    decreases |s|
  {
    if s != [] {
      if IsSpace(s[0]) {
        var n := LeadingSpaces(s);
        var t := CollapseSpaces(s[n..]);
        assert CollapseSpaces(s) == [' '] + t;
        SliceNoTag(s, n, |s|);
        CollapseNoTag(s[n..]);
        ConsNoTag(' ', t);
      } else {
        var t := CollapseSpaces(s[1..]);
        assert CollapseSpaces(s) == [s[0]] + t;
        SliceNoTag(s, 1, |s|);
        CollapseNoTag(s[1..]);
        if s[0] == '<' {
          OpenBeforeCollapse(s);
        }
        ConsNoTag(s[0], t);
      }
    }
  }

  /** A `<` that is no tag stays none once the text after it is collapsed. */
  lemma OpenBeforeCollapse(s: string)
    requires |s| > 0 && s[0] == '<' && NoTagLeft(s)
    ensures (|CollapseSpaces(s[1..])| > 0 && CollapseSpaces(s[1..])[0] == '>') || NoCloseAfter(CollapseSpaces(s[1..]), -1)
  {
    var u := s[1..];
    if |u| > 0 && u[0] == '>' {
      assert CollapseSpaces(u)[0] == '>';
    } else {
      assert NoCloseAfter(u, -1) by {
        assert NoCloseAfter(s, 0);
        forall j | 0 <= j < |u| ensures u[j] != '>' { assert u[j] == s[j + 1]; }
      }
      CollapseKeepsNoClose(u);
    }
  }

  /** No closing tag `</tag>` is left, whatever the tag: no script or style block survives whole. */
  lemma StripHtmlLeavesNoClosingTag(html: string, tag: string)
    ensures !Contains(StripHtml(html), "</" + tag + ">")
  {
    StripHtmlNoTag(html);
    NoTagNoClosingTag(StripHtml(html), tag);
  }

  /** A tag-free text has no closing tag: its `<` is followed by `/`, and a `>` comes after. */
  lemma NoTagNoClosingTag(r: string, tag: string)
    requires NoTagLeft(r)
    ensures !Contains(r, "</" + tag + ">")
  {
    var w := "</" + tag + ">";
    assert w[0] == '<' && w[1] == '/' && w[|w| - 1] == '>';
    forall j | 0 <= j <= |r| ensures !OccursAt(r, w, j) {
      if j + |w| <= |r| {
        if r[j] == '<' && r[j + 1] == '/' {
          assert r[j + |w| - 1] != '>';
          assert r[j..j + |w|][|w| - 1] != w[|w| - 1];
        } else {
          assert r[j..j + |w|][0] != w[0] || r[j..j + |w|][1] != w[1];
        }
      }
    }
  }

  lemma {:induction false} RemoveBlocksFromPlain(s: string, ls: string, tag: string, i: nat)
    requires |ls| == |s| && i <= |s|
    requires forall k :: i <= k < |ls| ==> ls[k] != '<'
    ensures RemoveBlocksFrom(s, ls, tag, i) == s[i..]
    decreases |s| - i
  {
    if i < |s| {
      assert !OccursAt(ls, "<" + tag, i) by {
        assert ("<" + tag)[0] == '<';
      }
      RemoveBlocksFromPlain(s, ls, tag, i + 1);
      assert s[i..] == [s[i]] + s[i + 1..];
    }
  }

  lemma {:induction false} RemoveTagsFromPlain(s: string, i: nat)
    requires i <= |s|
    requires forall k :: i <= k < |s| ==> s[k] != '<'
    ensures RemoveTagsFrom(s, i) == s[i..]
    decreases |s| - i
  {
    if i < |s| {
      RemoveTagsFromPlain(s, i + 1);
      assert s[i..] == [s[i]] + s[i + 1..];
    }
  }

  /** Text without a `<` has no markup to strip: only its whitespace is normalised. */
  lemma PlainTextOnlyNormalised(html: string)
    requires forall k :: 0 <= k < |html| ==> html[k] != '<'
    ensures StripHtml(html) == Trim(CollapseSpaces(html))
  {
    PlainTextHasNoMarkup(html);
  }

  lemma PlainTextHasNoMarkup(html: string)
    requires forall k :: 0 <= k < |html| ==> html[k] != '<'
    ensures RemoveTags(RemoveBlocks(RemoveBlocks(html, "script"), "style")) == html
  {
    PlainBlocks(html, "script");
    PlainBlocks(html, "style");
    RemoveTagsFromPlain(html, 0);
  }

  lemma PlainBlocks(s: string, tag: string)
    requires forall k :: 0 <= k < |s| ==> s[k] != '<'
    ensures RemoveBlocks(s, tag) == s
  {
    var ls := Lower(s);
    assert forall k :: 0 <= k < |ls| ==> ls[k] != '<';
    RemoveBlocksFromPlain(s, ls, tag, 0);
  }

  // ------------------------------------------------ route handlers

  /** A handler's reply: 201 with its body, or an error status with its message. */
  datatype Response =
    | Created(message: string, title: Option<string>, chunks: nat, contentLength: nat, note: Option<string>)
    | Failure(status: nat, error: string)

  /** `(type === 'pdf' || type === 'website') ? type : 'text'`; a missing type is the empty string. */
  function NormalizeType(kind: string): (r: string)
    ensures r == "pdf" || r == "website" || r == "text"
    ensures r != "text" ==> r == kind
    ensures kind != "pdf" && kind != "website" ==> r == "text"
  {
    if kind == "pdf" || kind == "website" then kind else "text"
  }

  /** `url.startsWith('http') ? url : `https://${url}`` */
  function NormalizeUrl(url: string): (r: string)
    ensures StartsWith(r, "http")
    ensures StartsWith(url, "http") ==> r == url
    ensures !StartsWith(url, "http") ==> r == "https://" + url
  {
    if StartsWith(url, "http") then url
    else
      assert OccursAt("https://" + url, "http", 0) by {
        assert ("https://" + url)[..4] == "http";
      }
      "https://" + url
  }

  /** Normalising twice changes nothing. */
  lemma NormalizeUrlIdempotent(url: string)
    ensures NormalizeUrl(NormalizeUrl(url)) == NormalizeUrl(url)
  {
  }

  /**
   * `POST /knowledge`: content that is missing, not a string, or blank is a
   * 400 and stores nothing; otherwise it is indexed under the normalised
   * type and the reply reports the chunks stored and the trimmed length.
   */
  method AddKnowledge(store: KnowledgeStore, title: Option<string>, content: Option<string>, kind: string,
                      provider: string -> ProviderReply, hash: string -> seq<Byte>)
    returns (resp: Response)
    requires NonEmptyDigests(hash) && store.Valid()
    modifies store
    ensures store.Valid()
    ensures content.None? || Trim(content.value) == "" ==>
      resp == Failure(400, "Content cannot be empty") && store.records == old(store.records)
    ensures content.Some? && Trim(content.value) != "" ==>
      store.records == old(store.records) +
        IndexedRecords(title, ChunksFor(Trim(content.value)), NormalizeType(kind), provider, hash, |old(store.records)|)
    ensures resp.Created? ==>
      resp.chunks == |store.records| - |old(store.records)| > 0 && content.Some? && resp.contentLength == |Trim(content.value)|
    ensures content.Some? && Trim(content.value) != "" && |ChunksFor(Trim(content.value))| > 0 ==> resp.Created?
  {
    var typeVal := NormalizeType(kind);
    if content.None? || |Trim(content.value)| == 0 {
      return Failure(400, "Content cannot be empty");
    }
    var count, totalLength := IndexContent(store, title, content.value, typeVal, provider, hash);
    if count == 0 {
      return Failure(400, "No content to index");
    }
    var message := if count > 1 then "Knowledge indexed (" + NatToString(count) + " chunks)" else "Knowledge indexed successfully";
    var note := if totalLength > ChunkThreshold then "Content split into " + NatToString(count) + " chunks for better retrieval"
                else "Full content embedded";
    return Created(message, None, count, totalLength, Some(note));
  }

  /** What fetching a page did: a body (a string or not), a 404, an unknown host, or another error. */
  datatype PageFetch = Page(data: Option<string>) | NotFound | Unreachable | FetchFailed(message: string)

  /** The title of an indexed page: the trimmed custom title, else the host name, else "Website". */
  function PageTitle(customTitle: Option<string>, host: string): (r: string)
    ensures r != ""
    ensures customTitle.Some? && Trim(customTitle.value) != "" ==> r == Trim(customTitle.value)
  {
    if customTitle.Some? && Trim(customTitle.value) != "" then Trim(customTitle.value)
    else if host != "" then host
    else "Website"
  }

  /** The text the route extracts from a fetched page. */
  function PageText(f: PageFetch): string
    requires f.Page?
  {
    StripHtml(PageBody(f))
  }

  /** `url && typeof url === 'string'`: a URL string that is not empty. */
  predicate GivenUrl(url: Option<string>) {
    url.Some? && url.value != ""
  }

  /**
   * `POST /knowledge/url`: a missing or empty URL is a 400; the fetched
   * page's text is indexed as a website, with a 201, exactly when it has at
   * least 50 characters; fetch errors map to 404, 400 or 500. Nothing is
   * stored unless the page is indexed.
   */
  method AddUrl(store: KnowledgeStore, url: Option<string>, customTitle: Option<string>,
                fetch: string -> PageFetch, hostname: string -> string,
                provider: string -> ProviderReply, hash: string -> seq<Byte>)
    returns (resp: Response)
    requires NonEmptyDigests(hash) && store.Valid()
    modifies store
    ensures store.Valid()
    ensures !GivenUrl(url) ==> resp == Failure(400, "URL is required")
    ensures GivenUrl(url) && fetch(NormalizeUrl(url.value)) == NotFound ==> resp == Failure(404, "URL not found")
    ensures GivenUrl(url) && fetch(NormalizeUrl(url.value)) == Unreachable ==> resp == Failure(400, "Invalid or unreachable URL")
    ensures (GivenUrl(url) && fetch(NormalizeUrl(url.value)).Page? &&
             |PageText(fetch(NormalizeUrl(url.value)))| < MinPageText) ==>
      resp == Failure(400, "Could not extract enough text from URL")
    ensures (GivenUrl(url) && fetch(NormalizeUrl(url.value)).Page? &&
             |PageText(fetch(NormalizeUrl(url.value)))| >= MinPageText) ==>
      resp.Created?
    ensures GivenUrl(url) && fetch(NormalizeUrl(url.value)).FetchFailed? ==>
      resp == Failure(500, if fetch(NormalizeUrl(url.value)).message != "" then fetch(NormalizeUrl(url.value)).message
                           else "Failed to fetch or index URL")
    ensures resp.Created? ==>
      (GivenUrl(url) && fetch(NormalizeUrl(url.value)).Page? &&
       IndexedPage(store.records, old(store.records), resp, PageText(fetch(NormalizeUrl(url.value))),
                   PageTitle(customTitle, hostname(NormalizeUrl(url.value))), provider, hash))
    ensures !resp.Created? ==> store.records == old(store.records)
  {
    if url.None? || url.value == "" {
      return Failure(400, "URL is required");
    }
    var normalizedUrl := NormalizeUrl(url.value);
    var response := fetch(normalizedUrl);
    match response
    case NotFound => return Failure(404, "URL not found");
    case Unreachable => return Failure(400, "Invalid or unreachable URL");
    case FetchFailed(m) => return Failure(500, if m != "" then m else "Failed to fetch or index URL");
    case Page(data) =>
      var html := if data.Some? then data.value else "";
      var title := PageTitle(customTitle, hostname(normalizedUrl));
      resp := IndexPage(store, StripHtml(html), title, provider, hash);
  }

  /** Page text of at least 50 characters gives at least one chunk. */
  lemma PageTextChunks(text: string)
    requires text == [] || (!IsSpace(text[0]) && !IsSpace(text[|text| - 1]))
    requires |text| >= MinPageText
    ensures Trim(text) == text && |ChunksFor(text)| > 0
  {
    TrimOfTrimmed(text);
    ChunksForShape(text);
  }

  /** What a created reply for a page promises about the store and the reply. */
  ghost predicate IndexedPage(records: seq<Chunk>, before: seq<Chunk>, resp: Response, text: string, title: string,
                              provider: string -> ProviderReply, hash: string -> seq<Byte>)
    requires NonEmptyDigests(hash)
  {
    |text| >= MinPageText && resp.Created? && resp.title == Some(title) && resp.contentLength == |text| &&
    resp.chunks == |records| - |before| > 0 &&
    records == before + IndexedRecords(Some(title), ChunksFor(text), "website", provider, hash, |before|)
  }

  /** The page branch of `POST /knowledge/url`, once the page's text is extracted. */
  method IndexPage(store: KnowledgeStore, text: string, title: string,
                   provider: string -> ProviderReply, hash: string -> seq<Byte>)
    returns (resp: Response)
    requires NonEmptyDigests(hash) && store.Valid()
    requires text == [] || (!IsSpace(text[0]) && !IsSpace(text[|text| - 1]))
    modifies store
    ensures store.Valid()
    ensures |text| < MinPageText ==> resp == Failure(400, "Could not extract enough text from URL")
    ensures |text| >= MinPageText ==> resp.Created?
    ensures resp.Created? ==> IndexedPage(store.records, old(store.records), resp, text, title, provider, hash)
    ensures !resp.Created? ==> store.records == old(store.records)
  {
    var content := Trim(text);
    TrimOfTrimmed(text);
    if content == "" || |content| < MinPageText {
      return Failure(400, "Could not extract enough text from URL");
    }
    var count, totalLength := IndexContent(store, Some(title), content, "website", provider, hash);
    if count == 0 {
      PageTextChunks(content);
      return Failure(BadRequest, "No content to index");
    }
    var message := if count > 1 then "Website indexed (" + NatToString(count) + " chunks)" else "Website indexed successfully";
    return Created(message, Some(title), count, totalLength, None);
  }

  /** `typeof response.data === 'string' ? response.data : ''` */
  function PageBody(f: PageFetch): string
    requires f.Page?
  {
    if f.data.Some? then f.data.value else ""
  }
}
