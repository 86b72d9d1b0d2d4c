/**
 * Context assembly for retrieval: rebalancing comparison results so that
 * each university is represented (`ensureDiverseContext`) and building the
 * bounded context string (`buildContextText`).
 */
module Context {
  import opened Util
  import opened Text
  import opened Knowledge
  import opened Universities

  const MaxDocsAfterMerge: nat := 24
  const MaxContextChars: nat := 60000
  const ComparisonHeader: string := "Context for comparison (use BOTH sections below):\n"
  const BlockSeparator: string := "\n\n"

  /** The docs `docUniversity` assigns to u, in input order. */
  function GroupOf(docs: seq<Chunk>, u: Uni): (g: seq<Chunk>)
    ensures multiset(g) <= multiset(docs)
    ensures |g| <= |docs|
  {
    if docs == [] then []
    else
      var init := docs[..|docs| - 1];
      var x := docs[|docs| - 1];
      assert docs == init + [x];
      GroupOf(init, u) + (if DocUniversity(x) == Some(u) then [x] else [])
  }

  /** A group holds exactly the docs classified as its university. */
  lemma {:induction false} GroupOfMembers(docs: seq<Chunk>, u: Uni)
    ensures forall x :: x in GroupOf(docs, u) <==> x in docs && DocUniversity(x) == Some(u)
  {
    if docs != [] {
      var init := docs[..|docs| - 1];
      GroupOfMembers(init, u);
      assert docs == init + [docs[|docs| - 1]];
    }
  }

  /** Longest content first, stably. */
  function ByLength(s: seq<Chunk>): seq<Chunk> {
    SortDesc(s, ContentLength)
  }

  /** The `byUni` dictionary: one group per mentioned university, each filled in document order. */
  method GroupByUniversity(docs: seq<Chunk>, mentioned: seq<Uni>) returns (byUni: map<Uni, seq<Chunk>>)
    ensures forall u :: u in byUni <==> u in mentioned
    ensures forall u :: u in byUni ==> byUni[u] == GroupOf(docs, u)
  {
    byUni := map u | u in mentioned :: [];
    var i := 0;
    while i < |docs|
      invariant 0 <= i <= |docs|
      invariant forall u :: u in byUni <==> u in mentioned
      invariant forall u :: u in byUni ==> byUni[u] == GroupOf(docs[..i], u)
    {
      byUni := AddToGroup(byUni, docs[i], mentioned, docs[..i]);
      assert docs[..i + 1] == docs[..i] + [docs[i]];
      i := i + 1;
    }
    assert docs[..|docs|] == docs;
  }

  /** One turn of the grouping loop: `d` joins the group of its university, if that one is mentioned. */
  method AddToGroup(byUni: map<Uni, seq<Chunk>>, d: Chunk, ghost mentioned: seq<Uni>, ghost seen: seq<Chunk>)
    returns (byUni': map<Uni, seq<Chunk>>)
    requires forall u :: u in byUni <==> u in mentioned
    requires forall u :: u in byUni ==> byUni[u] == GroupOf(seen, u)
    ensures forall u :: u in byUni' <==> u in mentioned
    ensures forall u :: u in byUni' ==> byUni'[u] == GroupOf(seen + [d], u)
  {
    assert (seen + [d])[..|seen|] == seen;
    var c := DocUniversity(d);
    byUni' := byUni;
    if c.Some? && c.value in byUni {
      byUni' := byUni[c.value := byUni[c.value] + [d]];
    }
  }

  // ---------------------------------------------- ensureDiverseContext

  /** `Math.max(8, Math.floor(24 / n))` */
  function PerUni(n: nat): nat
    requires n > 0
  {
    Max(8, MaxDocsAfterMerge / n)
  }

  /** With two or three universities all picks fit in 24. */
  lemma PerUniFits(n: nat)
    requires 2 <= n <= 3
    ensures n * PerUni(n) <= MaxDocsAfterMerge
  {
    if n == 2 { assert PerUni(2) == 12; } else { assert PerUni(3) == 8; }
  }

  /** The pick of one university: the `per` longest docs of its group. */
  function Pick(docs: seq<Chunk>, u: Uni, per: nat): seq<Chunk> {
    Take(ByLength(GroupOf(docs, u)), per)
  }

  /** The picks of the mentioned universities, in mentioned order. */
  function Tagged(docs: seq<Chunk>, m: seq<Uni>, per: nat): seq<Chunk>
    decreases |m|
  {
    if m == [] then [] else Tagged(docs, m[..|m| - 1], per) + Pick(docs, m[|m| - 1], per)
  }

  /** `docs.filter(d => !tagged.has(d))` */
  function Untagged(docs: seq<Chunk>, tagged: seq<Chunk>): seq<Chunk> {
    Filter(docs, d => d !in tagged)
  }

  /**
   * The rebalanced list for the mentioned universities m: the picks followed
   * by every other doc, longest first, cut to 24; the docs unchanged when
   * nothing was picked.
   */
  function Rebalanced(docs: seq<Chunk>, m: seq<Uni>): seq<Chunk>
    requires |m| > 0
  {
    var tagged := Tagged(docs, m, PerUni(|m|));
    if |tagged| == 0 then docs else Arranged(docs, tagged)
  }

  /** `[...result, ...rest].slice(0, 24)` */
  function Arranged(docs: seq<Chunk>, tagged: seq<Chunk>): seq<Chunk> {
    Take(tagged + ByLength(Untagged(docs, tagged)), MaxDocsAfterMerge)
  }

  /** What `ensureDiverseContext` returns. */
  function DiverseContext(docs: seq<Chunk>, question: string): seq<Chunk> {
    var m := MentionedUniversities(question);
    if |m| < 2 then docs else Rebalanced(docs, m)
  }

  method EnsureDiverseContext(docs: seq<Chunk>, question: string) returns (r: seq<Chunk>)
    ensures r == DiverseContext(docs, question)
    ensures |MentionedUniversities(question)| < 2 ==> r == docs
  {
    var mentioned := MentionedUniversities(question);
    if |mentioned| < 2 {
      return docs;
    }
    r := Rebalance(docs, mentioned);
  }

  /** The comparison branch of `ensureDiverseContext`, for the mentioned universities. */
  method Rebalance(docs: seq<Chunk>, mentioned: seq<Uni>) returns (r: seq<Chunk>)
    requires |mentioned| > 0
    ensures r == Rebalanced(docs, mentioned)
    ensures r == docs || |r| <= MaxDocsAfterMerge
  {
    var perUni := Max(8, MaxDocsAfterMerge / |mentioned|);
    var result := CollectPicks(docs, mentioned, perUni);
    var rest := SortDesc(Untagged(docs, result), ContentLength);
    if |result| > 0 {
      r := Take(result + rest, MaxDocsAfterMerge);
    } else {
      r := docs;
    }
  }

  /** The `result` loop: each mentioned university's longest docs, in mentioned order. */
  method CollectPicks(docs: seq<Chunk>, mentioned: seq<Uni>, perUni: nat) returns (result: seq<Chunk>)
    ensures result == Tagged(docs, mentioned, perUni)
  {
    var byUni := GroupByUniversity(docs, mentioned);
    result := [];
    var j := 0;
    while j < |mentioned|
      invariant 0 <= j <= |mentioned|
      invariant result == Tagged(docs, mentioned[..j], perUni)
    {
      var u := mentioned[j];
      var group := SortDesc(byUni[u], ContentLength);
      TaggedStep(docs, mentioned, j, perUni);
      result := result + Take(group, perUni);
      j := j + 1;
    }
    assert mentioned[..|mentioned|] == mentioned;
  }

  lemma TaggedStep(docs: seq<Chunk>, m: seq<Uni>, j: nat, per: nat)
    requires j < |m|
    ensures Tagged(docs, m[..j + 1], per) == Tagged(docs, m[..j], per) + Pick(docs, m[j], per)
  {
    assert m[..j + 1][..j] == m[..j];
  }

  /** A pick holds docs of its university only, and no more than `per` of them. */
  lemma PickClassified(docs: seq<Chunk>, u: Uni, per: nat)
    ensures |Pick(docs, u, per)| <= per
    ensures forall x :: x in Pick(docs, u, per) ==> x in docs && DocUniversity(x) == Some(u)
  {
    var sorted := ByLength(GroupOf(docs, u));
    GroupOfMembers(docs, u);
    forall x | x in Pick(docs, u, per) ensures x in docs && DocUniversity(x) == Some(u) {
      assert x in multiset(sorted);
    }
  }

  /** Every pick is an input doc classified as one of the mentioned universities. */
  lemma {:induction false} TaggedFromGroups(docs: seq<Chunk>, m: seq<Uni>, per: nat)
    ensures forall x :: x in Tagged(docs, m, per) ==>
      x in docs && DocUniversity(x).Some? && DocUniversity(x).value in m
    decreases |m|
  {
    if m != [] {
      TaggedFromGroups(docs, m[..|m| - 1], per);
      PickClassified(docs, m[|m| - 1], per);
    }
  }

  /** Each university contributes at most `per` picks. */
  lemma {:induction false} TaggedLength(docs: seq<Chunk>, m: seq<Uni>, per: nat)
    ensures |Tagged(docs, m, per)| <= |m| * per
    decreases |m|
  {
    if m != [] {
      TaggedLength(docs, m[..|m| - 1], per);
      PickClassified(docs, m[|m| - 1], per);
      assert |m| * per == (|m| - 1) * per + per;
    }
  }

  /** A pick is duplicate-free when the docs are. */
  lemma PickDistinct(docs: seq<Chunk>, u: Uni, per: nat)
    requires NoDuplicates(docs)
    ensures NoDuplicates(Pick(docs, u, per))
  {
    var g := GroupOf(docs, u);
    var sorted := ByLength(g);
    var pick := Pick(docs, u, per);
    assert sorted == pick + sorted[|pick|..];
    assert multiset(pick) <= multiset(sorted) == multiset(g) <= multiset(docs);
    SubMultisetNoDuplicates(docs, pick);
  }

  /** No doc is picked twice: a doc belongs to one university only. */
  lemma {:induction false} TaggedDistinct(docs: seq<Chunk>, m: seq<Uni>, per: nat)
    requires NoDuplicates(docs) && NoDuplicates(m)
    ensures NoDuplicates(Tagged(docs, m, per))
    decreases |m|
  {
    if m != [] {
      var init := m[..|m| - 1];
      var u := m[|m| - 1];
      assert NoDuplicates(init);
      assert u !in init;
      TaggedDistinct(docs, init, per);
      TaggedFromGroups(docs, init, per);
      PickDistinct(docs, u, per);
      PickClassified(docs, u, per);
      ConcatNoDuplicates(Tagged(docs, init, per), Pick(docs, u, per));
    }
  }

  /** Removing a duplicate-free part of a duplicate-free sequence and putting it back loses nothing. */
  lemma SplitOffPart<T(!new)>(s: seq<T>, t: seq<T>, rest: seq<T>)
    requires NoDuplicates(s) && NoDuplicates(t) && forall x :: x in t ==> x in s
    requires rest == Filter(s, x => x !in t)
    ensures multiset(t) + multiset(rest) == multiset(s)
  {
    FilterSubMultiset(s, x => x !in t);
    SubMultisetNoDuplicates(s, rest);
    forall x ensures (multiset(t) + multiset(rest))[x] == multiset(s)[x] {
      NoDuplicatesCount(s, x);
      NoDuplicatesCount(t, x);
      NoDuplicatesCount(rest, x);
    }
  }

  /** Every doc the rebalancing returns is one of its input docs. */
  lemma RebalancedDrawsFromInput(docs: seq<Chunk>, m: seq<Uni>)
    requires |m| > 0
    ensures forall x :: x in Rebalanced(docs, m) ==> x in docs
  {
    var tagged := Tagged(docs, m, PerUni(|m|));
    TaggedFromGroups(docs, m, PerUni(|m|));
    var rest := ByLength(Untagged(docs, tagged));
    var all := tagged + rest;
    forall x | x in Take(all, MaxDocsAfterMerge) ensures x in docs {
      assert x in all;
      if x in rest { assert x in multiset(rest); }
    }
  }

  /** Up to 24 distinct docs are only reordered, never dropped or repeated. */
  lemma RebalancedKeepsSmallInput(docs: seq<Chunk>, m: seq<Uni>)
    requires |m| > 0 && NoDuplicates(m)
    requires NoDuplicates(docs) && |docs| <= MaxDocsAfterMerge
    ensures multiset(Rebalanced(docs, m)) == multiset(docs)
  {
    var per := PerUni(|m|);
    var tagged := Tagged(docs, m, per);
    if |tagged| > 0 {
      TaggedFromGroups(docs, m, per);
      TaggedDistinct(docs, m, per);
      var filtered := Untagged(docs, tagged);
      SplitOffPart(docs, tagged, filtered);
      var all := tagged + ByLength(filtered);
      assert multiset(all) == multiset(docs);
      assert |all| == |docs|;
      assert Take(all, MaxDocsAfterMerge) == all;
    }
  }

  lemma {:induction false} PickInTagged(docs: seq<Chunk>, m: seq<Uni>, per: nat, u: Uni, x: Chunk)
    requires u in m && x in Pick(docs, u, per)
    ensures x in Tagged(docs, m, per)
    decreases |m|
  {
    var init := m[..|m| - 1];
    if m[|m| - 1] != u {
      assert u in init;
      PickInTagged(docs, init, per, u, x);
    }
  }

  /** When the picks fit in 24 they all survive the cut. */
  lemma TaggedKept(docs: seq<Chunk>, m: seq<Uni>)
    requires |m| > 0 && |Tagged(docs, m, PerUni(|m|))| <= MaxDocsAfterMerge
    ensures forall x :: x in Tagged(docs, m, PerUni(|m|)) ==> x in Rebalanced(docs, m)
  {
    var tagged := Tagged(docs, m, PerUni(|m|));
    TakeKeepsShortPrefix(tagged, ByLength(Untagged(docs, tagged)), MaxDocsAfterMerge);
  }

  /**
   * When there are picks and they fit in 24, they lead the result in pick
   * order, and the rest of the result is the longest of the docs not
   * picked: the unclassified docs and each group's overflow.
   */
  lemma RebalancedLayout(docs: seq<Chunk>, m: seq<Uni>)
    requires |m| > 0
    requires 0 < |Tagged(docs, m, PerUni(|m|))| <= MaxDocsAfterMerge
    ensures var tagged := Tagged(docs, m, PerUni(|m|)); var r := Rebalanced(docs, m);
      |tagged| <= |r| && r[..|tagged|] == tagged
      && r[|tagged|..] == Take(ByLength(Untagged(docs, tagged)), MaxDocsAfterMerge - |tagged|)
      && forall k :: |tagged| <= k < |r| ==> r[k] in docs && r[k] !in tagged
  {
    ArrangedLayout(docs, Tagged(docs, m, PerUni(|m|)));
  }

  lemma ArrangedLayout(docs: seq<Chunk>, tagged: seq<Chunk>)
    requires |tagged| <= MaxDocsAfterMerge
    ensures var r := Arranged(docs, tagged);
      |tagged| <= |r| && r[..|tagged|] == tagged
      && r[|tagged|..] == Take(ByLength(Untagged(docs, tagged)), MaxDocsAfterMerge - |tagged|)
      && forall k :: |tagged| <= k < |r| ==> r[k] in docs && r[k] !in tagged
  {
    var rest := ByLength(Untagged(docs, tagged));
    TakeAfterPrefix(tagged, rest, MaxDocsAfterMerge);
    RestFromUntagged(docs, tagged, Arranged(docs, tagged), MaxDocsAfterMerge - |tagged|);
  }

  /** What follows the picks comes from the docs that were not picked. */
  lemma RestFromUntagged(docs: seq<Chunk>, tagged: seq<Chunk>, r: seq<Chunk>, n: nat)
    requires |tagged| <= |r| && r[|tagged|..] == Take(ByLength(Untagged(docs, tagged)), n)
    ensures forall k :: |tagged| <= k < |r| ==> r[k] in docs && r[k] !in tagged
  {
    var rest := ByLength(Untagged(docs, tagged));
    forall k | |tagged| <= k < |r| ensures r[k] in docs && r[k] !in tagged {
      assert r[k] == r[|tagged|..][k - |tagged|] == rest[k - |tagged|];
      assert r[k] in multiset(rest);
    }
  }

  /**
   * With two or three universities the picks fit in 24, so every one of them
   * that has a doc is represented in the result.
   */
  lemma RebalancedCoversEachUniversity(docs: seq<Chunk>, m: seq<Uni>, u: Uni)
    requires 2 <= |m| <= 3 && u in m && GroupOf(docs, u) != []
    ensures exists x :: x in Rebalanced(docs, m) && DocUniversity(x) == Some(u)
  {
    var per := PerUni(|m|);
    PerUniFits(|m|);
    TaggedLength(docs, m, per);
    var sorted := ByLength(GroupOf(docs, u));
    assert |sorted| > 0;
    var x := sorted[0];
    assert x in Pick(docs, u, per);
    PickClassified(docs, u, per);
    PickInTagged(docs, m, per, u, x);
    TaggedKept(docs, m);
    assert x in Rebalanced(docs, m) && DocUniversity(x) == Some(u);
  }

  /**
   * `ensureDiverseContext` as a whole: fewer than two universities mentioned
   * leaves the docs as they are; otherwise the result draws only from the
   * docs, keeps every doc of a list of at most 24 distinct docs and, with
   * two or three universities, keeps a doc of each one that has any.
   */
  lemma DiverseContextProperties(docs: seq<Chunk>, question: string)
    ensures var m := MentionedUniversities(question); var r := DiverseContext(docs, question);
      (|m| < 2 ==> r == docs)
      && (forall x :: x in r ==> x in docs)
      && (NoDuplicates(docs) && |docs| <= MaxDocsAfterMerge ==> multiset(r) == multiset(docs))
      && (2 <= |m| <= 3 ==> forall u :: u in m && GroupOf(docs, u) != [] ==>
            exists x :: x in r && DocUniversity(x) == Some(u))
  {
    var m := MentionedUniversities(question);
    if |m| >= 2 {
      RebalancedDrawsFromInput(docs, m);
      if NoDuplicates(docs) && |docs| <= MaxDocsAfterMerge {
        RebalancedKeepsSmallInput(docs, m);
      }
      if |m| <= 3 {
        forall u | u in m && GroupOf(docs, u) != []
          ensures exists x :: x in Rebalanced(docs, m) && DocUniversity(x) == Some(u)
        {
          RebalancedCoversEachUniversity(docs, m, u);
        }
      }
    }
  }

  // -------------------------------------------------- buildContextText

  /**
   * The blocks a budget loop keeps: a block is taken while the running
   * length before it (starting from len) is below cap.
   */
  function TakeBlocks(blocks: seq<string>, cap: int, len: int): (r: seq<string>)
    ensures |r| <= |blocks| && r == blocks[..|r|]
    decreases |blocks|
  {
    if blocks == [] || len >= cap then []
    else [blocks[0]] + TakeBlocks(blocks[1..], cap, len + |blocks[0]|)
  }

  /**
   * The budget rule: every kept block started below the cap, and the loop
   * stopped early only once the running length reached it.
   */
  lemma {:induction false} TakeBlocksBudget(blocks: seq<string>, cap: int, len: int)
    ensures var r := TakeBlocks(blocks, cap, len);
      (forall k :: 0 <= k < |r| ==> len + TotalLength(r[..k]) < cap)
      && (|r| < |blocks| ==> len + TotalLength(r) >= cap)
    decreases |blocks|
  {
    if blocks != [] && len < cap {
      var b := blocks[0];
      var t := TakeBlocks(blocks[1..], cap, len + |b|);
      TakeBlocksBudget(blocks[1..], cap, len + |b|);
      var r := [b] + t;
      assert r[1..] == t;
      forall k | 0 <= k < |r| ensures len + TotalLength(r[..k]) < cap {
        if k > 0 {
          assert r[..k][1..] == t[..k - 1];
        }
      }
    }
  }

  /** The budget loop of both modes, over the blocks of docs. */
  method CollectBlocks(docs: seq<Chunk>, cap: int) returns (parts: seq<string>)
    ensures parts == TakeBlocks(Blocks(docs), cap, 0)
  {
    parts := [];
    var len := 0;
    var i := 0;
    while i < |docs|
      invariant 0 <= i <= |docs|
      invariant parts + TakeBlocks(Blocks(docs)[i..], cap, len) == TakeBlocks(Blocks(docs), cap, 0)
    {
      if len >= cap {
        break;
      }
      var block := Block(docs[i]);
      assert Blocks(docs)[i..][1..] == Blocks(docs)[i + 1..];
      parts := parts + [block];
      len := len + |block|;
      i := i + 1;
    }
  }

  /** `Math.floor(60000 / n) - 1000` */
  function CapPerUni(n: nat): int
    requires n > 0
  {
    MaxContextChars / n - 1000
  }

  /** At most five universities leave each of them at least 11000 characters. */
  lemma CapPerUniBound(n: nat)
    requires 0 < n <= 5
    ensures CapPerUni(n) >= 11000
  {
    if n == 1 { assert CapPerUni(1) == 59000; }
    else if n == 2 { assert CapPerUni(2) == 29000; }
    else if n == 3 { assert CapPerUni(3) == 19000; }
    else if n == 4 { assert CapPerUni(4) == 14000; }
    else { assert CapPerUni(5) == 11000; }
  }

  /** The section of u, if its group keeps at least one block. */
  function Section(docs: seq<Chunk>, u: Uni, cap: int): seq<string> {
    GroupSection(GroupOf(docs, u), u, cap)
  }

  /** A group's budgeted blocks, longest first, under the university's label. */
  function GroupSection(group: seq<Chunk>, u: Uni, cap: int): seq<string> {
    var blocks := TakeBlocks(Blocks(ByLength(group)), cap, 0);
    if blocks == [] then [] else ["=== " + Label(u) + " ===\n" + Join(blocks, BlockSeparator)]
  }

  function Sections(docs: seq<Chunk>, m: seq<Uni>, cap: int): seq<string>
    decreases |m|
  {
    if m == [] then [] else Sections(docs, m[..|m| - 1], cap) + Section(docs, m[|m| - 1], cap)
  }

  /** Single mode: the budgeted blocks in input order. */
  function SingleContext(docs: seq<Chunk>): string {
    Join(TakeBlocks(Blocks(docs), MaxContextChars, 0), BlockSeparator)
  }

  /** Comparison mode for the mentioned universities m. */
  function ComparisonContext(docs: seq<Chunk>, m: seq<Uni>): string
    requires |m| > 0
  {
    Join([ComparisonHeader] + Sections(docs, m, CapPerUni(|m|)), BlockSeparator)
  }

  /** What `buildContextText` returns. */
  function ContextText(docs: seq<Chunk>, question: string): string {
    var m := MentionedUniversities(question);
    if |m| < 2 then SingleContext(docs) else ComparisonContext(docs, m)
  }

  method BuildContextText(docs: seq<Chunk>, question: string) returns (text: string)
    ensures text == ContextText(docs, question)
  {
    var mentioned := MentionedUniversities(question);
    if |mentioned| < 2 {
      var parts := CollectBlocks(docs, MaxContextChars);
      return Join(parts, BlockSeparator);
    }
    text := BuildComparisonText(docs, mentioned);
  }

  /** The comparison branch of `buildContextText`. */
  method BuildComparisonText(docs: seq<Chunk>, mentioned: seq<Uni>) returns (text: string)
    requires |mentioned| > 0
    ensures text == ComparisonContext(docs, mentioned)
  {
    var capPerUni := CapPerUni(|mentioned|);
    var sections := CollectSections(docs, mentioned, capPerUni);
    text := Join([ComparisonHeader] + sections, BlockSeparator);
  }

  /** The section loop: one section per mentioned university whose group keeps a block. */
  method CollectSections(docs: seq<Chunk>, mentioned: seq<Uni>, cap: int) returns (sections: seq<string>)
    ensures sections == Sections(docs, mentioned, cap)
  {
    var byUni := GroupByUniversity(docs, mentioned);
    sections := [];
    var j := 0;
    while j < |mentioned|
      invariant 0 <= j <= |mentioned|
      invariant sections == Sections(docs, mentioned[..j], cap)
    {
      sections := AppendSection(sections, byUni, mentioned, j, cap, docs);
      j := j + 1;
    }
    assert mentioned[..|mentioned|] == mentioned;
  }

  /** One turn of the section loop: the section of u follows those of the universities before it. */
  method AppendSection(sections: seq<string>, byUni: map<Uni, seq<Chunk>>, mentioned: seq<Uni>, j: nat, cap: int,
                       ghost docs: seq<Chunk>)
    returns (sections': seq<string>)
    requires j < |mentioned|
    requires forall u :: u in byUni <==> u in mentioned
    requires forall u :: u in byUni ==> byUni[u] == GroupOf(docs, u)
    requires sections == Sections(docs, mentioned[..j], cap)
    ensures sections' == Sections(docs, mentioned[..j + 1], cap)
  {
    var u := mentioned[j];
    assert mentioned[..j + 1][..j] == mentioned[..j];
    var section := BuildSection(byUni[u], u, cap);
    sections' := sections + section;
  }

  /** One university's section: its budgeted blocks under its label, or nothing. */
  method BuildSection(group: seq<Chunk>, u: Uni, cap: int) returns (section: seq<string>)
    ensures section == GroupSection(group, u, cap)
  {
    var sorted := SortDesc(group, ContentLength);
    var blocks := CollectBlocks(sorted, cap);
    if |blocks| > 0 {
      section := ["=== " + Label(u) + " ===\n" + Join(blocks, BlockSeparator)];
    } else {
      section := [];
    }
  }

  /**
   * Single mode: the context is the blocks in input order, joined, up to the
   * first block that starts at or past 60000 characters; so it is a prefix
   * of all the blocks joined, and it stops early only once the budget is spent.
   */
  lemma SingleModeIsBudgetedPrefix(docs: seq<Chunk>)
    ensures var kept := TakeBlocks(Blocks(docs), MaxContextChars, 0);
      SingleContext(docs) == Join(kept, BlockSeparator)
      && StartsWith(Join(Blocks(docs), BlockSeparator), SingleContext(docs))
      && (forall k :: 0 <= k < |kept| ==> TotalLength(kept[..k]) < MaxContextChars)
      && (|kept| < |docs| ==> TotalLength(kept) >= MaxContextChars)
  {
    var kept := TakeBlocks(Blocks(docs), MaxContextChars, 0);
    TakeBlocksBudget(Blocks(docs), MaxContextChars, 0);
    JoinPrefix(Blocks(docs), |kept|, BlockSeparator);
  }

  /** The mentioned universities that have at least one doc, in mentioned order. */
  function UnisWithDocs(docs: seq<Chunk>, m: seq<Uni>): seq<Uni>
    decreases |m|
  {
    if m == [] then []
    else UnisWithDocs(docs, m[..|m| - 1]) + (if GroupOf(docs, m[|m| - 1]) != [] then [m[|m| - 1]] else [])
  }

  /** With a positive cap a nonempty group yields one section headed by the label, an empty one none. */
  lemma GroupSectionHead(group: seq<Chunk>, u: Uni, cap: int)
    requires cap > 0
    ensures |GroupSection(group, u, cap)| == (if group == [] then 0 else 1)
    ensures group != [] ==> StartsWith(GroupSection(group, u, cap)[0], "=== " + Label(u) + " ===\n")
  {
    var blocks := Blocks(ByLength(group));
    assert |ByLength(group)| == |group|;
    if group != [] {
      assert TakeBlocks(blocks, cap, 0) != [];
      var head := "=== " + Label(u) + " ===\n";
      var sec := head + Join(TakeBlocks(blocks, cap, 0), BlockSeparator);
      assert sec[..|head|] == head;
    }
  }

  /**
   * With a positive cap every university with a doc gets exactly one section,
   * headed by its label, in mentioned order; a university without docs gets none.
   */
  lemma {:induction false} SectionsPerUniversity(docs: seq<Chunk>, m: seq<Uni>, cap: int)
    requires cap > 0
    ensures var s := Sections(docs, m, cap); var us := UnisWithDocs(docs, m);
      |s| == |us| && forall k :: 0 <= k < |s| ==> StartsWith(s[k], "=== " + Label(us[k]) + " ===\n")
    decreases |m|
  {
    if m != [] {
      var init := m[..|m| - 1];
      var u := m[|m| - 1];
      SectionsPerUniversity(docs, init, cap);
      GroupSectionHead(GroupOf(docs, u), u, cap);
    }
  }

  /**
   * Comparison mode: the header comes first, then one section per mentioned
   * university that has a doc, in mentioned order; the per-university cap
   * is at least 11000 characters when at most five universities are mentioned.
   */
  lemma ComparisonModeLayout(docs: seq<Chunk>, m: seq<Uni>)
    requires 0 < |m| <= 5
    ensures var s := Sections(docs, m, CapPerUni(|m|)); var us := UnisWithDocs(docs, m);
      CapPerUni(|m|) >= 11000
      && StartsWith(ComparisonContext(docs, m), ComparisonHeader)
      && |s| == |us| && forall k :: 0 <= k < |s| ==> StartsWith(s[k], "=== " + Label(us[k]) + " ===\n")
  {
    var s := Sections(docs, m, CapPerUni(|m|));
    CapPerUniBound(|m|);
    SectionsPerUniversity(docs, m, CapPerUni(|m|));
    JoinPrefix([ComparisonHeader] + s, 1, BlockSeparator);
    assert ([ComparisonHeader] + s)[..1] == [ComparisonHeader];
  }

  /** `buildContextText` uses comparison mode exactly when two or more universities are mentioned. */
  lemma ContextTextModes(docs: seq<Chunk>, question: string)
    ensures var m := MentionedUniversities(question);
      (|m| < 2 ==> ContextText(docs, question) == SingleContext(docs))
      && (|m| >= 2 ==> ContextText(docs, question) == ComparisonContext(docs, m)
                       && StartsWith(ContextText(docs, question), ComparisonHeader))
  {
    var m := MentionedUniversities(question);
    if |m| >= 2 {
      ComparisonModeLayout(docs, m);
    }
  }
}
