/**
 * `getRelevantContext`: the retrieval cascade that turns a question into
 * context text. The knowledge collection, its search indexes and the
 * embedding provider are an abstract `Store`; every call into it may fail,
 * and a failure the source does not catch locally ends the cascade with no
 * context instead of an exception.
 */
module Retrieval {
  import opened Util
  import opened Text
  import opened Knowledge
  import opened Universities
  import opened Institution
  import opened Context

  const VectorNumCandidates: nat := 300
  const VectorLimitSingle: nat := 20
  const VectorLimitComparisonPerUni: nat := 12
  const NumCandidatesComparison: nat := 150
  /** The `limit` of the text search that fills in a university missing from comparison results. */
  const RepairLimit: nat := 8
  /** The `limit` of the text search that replaces impure single-university results. */
  const PurityFallbackLimit: nat := 10
  const TextFallbackLimit: nat := 15
  const MaxFallbackWords: nat := 8

  /** The three aggregation pipelines a vector search is tried with. */
  datatype VectorQuery =
    | VectorSearch(vector: seq<real>, numCandidates: nat, limit: nat)
    | KnnBeta(vector: seq<real>, k: nat)
    | SearchVector(vector: seq<real>, limit: nat)

  /**
   * `Knowledge.find(q).limit(limit)`: a doc matches when its title or content
   * contains one of `anyOf`, ignoring case, and, when `target` is present,
   * also contains the target. Every search string is escaped before it
   * becomes a regular expression, so each one is matched literally.
   */
  datatype FindQuery = FindQuery(anyOf: seq<string>, target: Option<string>, limit: nat)

  /** The collection and the embedding provider. `Failed` is a thrown error. */
  datatype Store = Store(
    count: Outcome<nat>,
    embed: string -> Outcome<seq<real>>,
    aggregate: VectorQuery -> Outcome<seq<Chunk>>,
    find: FindQuery -> Outcome<seq<Chunk>>)

  /** Context text and the docs it was built from. */
  datatype Retrieved = Retrieved(text: string, docs: seq<Chunk>)

  const NoContext: Retrieved := Retrieved("", [])

  // ------------------------------------------------ what a find query means

  /** t occurs in the doc's title or content, ignoring case. */
  predicate InText(d: Chunk, t: string) {
    Contains(Lower(d.title), Lower(t)) || Contains(Lower(d.content), Lower(t))
  }

  predicate DocMatches(d: Chunk, q: FindQuery) {
    (exists t :: t in q.anyOf && InText(d, t)) && (q.target.Some? ==> InText(d, q.target.value))
  }

  /** A find that returns at most `limit` docs, each matching the query. */
  ghost predicate Honours(find: FindQuery -> Outcome<seq<Chunk>>) {
    forall q :: find(q).Ok? ==> |find(q).value| <= q.limit && forall d :: d in find(q).value ==> DocMatches(d, q)
  }

  function IdsOf(docs: seq<Chunk>): set<nat> {
    set d | d in docs :: Id(d)
  }

  lemma IdsOfAppend(a: seq<Chunk>, b: seq<Chunk>)
    ensures IdsOf(a + b) == IdsOf(a) + IdsOf(b)
  {
    forall i | i in IdsOf(a + b) ensures i in IdsOf(a) + IdsOf(b) {
      var d :| d in a + b && Id(d) == i;
    }
    forall i | i in IdsOf(a) + IdsOf(b) ensures i in IdsOf(a + b) {
      if i in IdsOf(a) {
        var d :| d in a && Id(d) == i;
        assert d in a + b;
      } else {
        var d :| d in b && Id(d) == i;
        assert d in a + b;
      }
    }
  }

  // ------------------------------------------------ fetchDocsForUniversity

  function NotExcluded(exclude: set<nat>): Chunk -> bool {
    d => Id(d) !in exclude
  }

  /** The text search for u's search terms, with twice the wanted number of results. */
  function TermQuery(u: Uni, limit: nat): FindQuery {
    FindQuery(SearchTerms(u), None, 2 * limit)
  }

  /**
   * What `fetchDocsForUniversity(u, exclude, limit)` resolves to: the first
   * `limit` docs of the search whose ids are not excluded, in search order.
   * The loop breaks only after a push, so a limit of 0 still yields one doc.
   */
  function Fetched(find: FindQuery -> Outcome<seq<Chunk>>, u: Uni, exclude: set<nat>, limit: nat): Outcome<seq<Chunk>> {
    match find(TermQuery(u, limit))
    case Failed => Failed
    case Ok(found) => Ok(Take(Filter(found, NotExcluded(exclude)), Max(limit, 1)))
  }

  /** Once the kept prefix is full, the rest of the input changes nothing. */
  lemma CapReached(s: seq<Chunk>, j: nat, p: Chunk -> bool, cap: nat)
    requires j <= |s| && |Filter(s[..j], p)| == cap
    ensures Take(Filter(s, p), cap) == Filter(s[..j], p)
  {
    assert s == s[..j] + s[j..];
    FilterSplit(s[..j], s[j..], p);
  }

  /** One turn of the fetch loop: the next doc is kept unless its id is excluded. */
  lemma FetchStep(docs: seq<Chunk>, j: nat, exclude: set<nat>)
    requires j < |docs|
    ensures Filter(docs[..j + 1], NotExcluded(exclude)) ==
      Filter(docs[..j], NotExcluded(exclude)) + (if Id(docs[j]) in exclude then [] else [docs[j]])
  {
    FilterSnoc(docs[..j], docs[j], NotExcluded(exclude));
    assert docs[..j + 1] == docs[..j] + [docs[j]];
  }

  method FetchDocsForUniversity(find: FindQuery -> Outcome<seq<Chunk>>, uniKey: Uni, excludeIds: set<nat>, limit: nat)
    returns (r: Outcome<seq<Chunk>>)
    ensures r == Fetched(find, uniKey, excludeIds, limit)
  {
    var found := find(TermQuery(uniKey, limit));
    if found.Failed? {
      return Failed;
    }
    var docs := found.value;
    var out: seq<Chunk> := [];
    var j := 0;
    while j < |docs|
      invariant j <= |docs|
      invariant out == Filter(docs[..j], NotExcluded(excludeIds))
      invariant |out| < Max(limit, 1)
    {
      var d := docs[j];
      FetchStep(docs, j, excludeIds);
      j := j + 1;
      if Id(d) in excludeIds {
        continue;
      }
      out := out + [d];
      if |out| >= limit {
        CapReached(docs, j, NotExcluded(excludeIds), Max(limit, 1));
        return Ok(out);
      }
    }
    assert docs[..j] == docs;
    return Ok(out);
  }

  /**
   * The fetched docs are at most `limit` (one when `limit` is 0), none has an
   * excluded id, all come from the search, and every unexcluded search result
   * is kept when there are no more than `limit` of them.
   */
  lemma FetchedShape(find: FindQuery -> Outcome<seq<Chunk>>, u: Uni, exclude: set<nat>, limit: nat)
    requires find(TermQuery(u, limit)).Ok?
    ensures Fetched(find, u, exclude, limit).Ok?
    ensures |Fetched(find, u, exclude, limit).value| <= Max(limit, 1)
    ensures forall d :: d in Fetched(find, u, exclude, limit).value ==>
      Id(d) !in exclude && d in find(TermQuery(u, limit)).value
    ensures |Filter(find(TermQuery(u, limit)).value, NotExcluded(exclude))| <= Max(limit, 1) ==>
      forall d :: d in find(TermQuery(u, limit)).value && Id(d) !in exclude ==> d in Fetched(find, u, exclude, limit).value
  {
    var kept := Filter(find(TermQuery(u, limit)).value, NotExcluded(exclude));
    var r := Fetched(find, u, exclude, limit).value;
    forall d | d in r ensures Id(d) !in exclude && d in find(TermQuery(u, limit)).value {
      assert d in kept;
    }
  }

  /** Against a store whose searches honour their queries, every fetched doc mentions one of u's search terms. */
  lemma FetchedMentionsUniversity(find: FindQuery -> Outcome<seq<Chunk>>, u: Uni, exclude: set<nat>, limit: nat)
    requires Honours(find)
    requires Fetched(find, u, exclude, limit).Ok?
    ensures forall d :: d in Fetched(find, u, exclude, limit).value ==> exists t :: t in SearchTerms(u) && InText(d, t)
  {
    var q := TermQuery(u, limit);
    FetchedShape(find, u, exclude, limit);
    forall d | d in Fetched(find, u, exclude, limit).value ensures exists t :: t in SearchTerms(u) && InText(d, t) {
      assert d in find(q).value;
      assert DocMatches(d, q);
    }
  }

  // ------------------------------------------------ comparison merge

  /** What one university's sub-query contributes: nothing when its embedding is empty or a call fails. */
  function Batch(store: Store, u: Uni): seq<Chunk> {
    match store.embed(ExpandedQuery(u))
    case Failed => []
    case Ok(e) =>
      if |e| == 0 then []
      else
        match store.aggregate(VectorSearch(e, NumCandidatesComparison, VectorLimitComparisonPerUni))
        case Failed => []
        case Ok(found) => found
  }

  /** The sub-query results of the universities in m, one after another. */
  function Batches(store: Store, m: seq<Uni>): seq<Chunk> {
    if m == [] then [] else Batches(store, m[..|m| - 1]) + Batch(store, m[|m| - 1])
  }

  lemma {:induction false} BatchesMembers(store: Store, m: seq<Uni>, d: Chunk)
    requires d in Batches(store, m)
    ensures exists k :: 0 <= k < |m| && d in Batch(store, m[k])
  {
    var init := m[..|m| - 1];
    if d in Batches(store, init) {
      BatchesMembers(store, init, d);
      var k :| 0 <= k < |init| && d in Batch(store, init[k]);
      assert m[k] == init[k];
    }
  }

  /** The first doc of each id, in order: what the `seenIds` check lets through. */
  function FirstById(s: seq<Chunk>): (r: seq<Chunk>)
    ensures DistinctBy(r, Id)
    ensures IdsOf(r) == IdsOf(s)
    ensures forall d :: d in r ==> d in s
    ensures |r| <= |s|
  {
    if s == [] then []
    else
      var init, x := s[..|s| - 1], s[|s| - 1];
      assert s == init + [x];
      IdsOfAppend(init, [x]);
      var r := FirstById(init);
      if Id(x) in IdsOf(r) then r
      else
        IdsOfAppend(r, [x]);
        assert forall i :: 0 <= i < |r| ==> Id(r[i]) in IdsOf(r);
        r + [x]
  }

  lemma FirstByIdSnoc(s: seq<Chunk>, x: Chunk)
    ensures FirstById(s + [x]) == if Id(x) in IdsOf(FirstById(s)) then FirstById(s) else FirstById(s) + [x]
  {
    assert (s + [x])[..|s|] == s;
  }

  /** What the comparison search leaves: the merged docs, longest first, cut at 24. */
  function MergedComparison(store: Store, m: seq<Uni>): seq<Chunk> {
    Take(ByLength(FirstById(Batches(store, m))), MaxDocsAfterMerge)
  }

  /** Adds the docs of one batch whose ids have not been seen, noting their ids. */
  method AddUnseen(docs: seq<Chunk>, seenIds: set<nat>, batch: seq<Chunk>, ghost before: seq<Chunk>)
    returns (docs': seq<Chunk>, seenIds': set<nat>)
    requires docs == FirstById(before) && seenIds == IdsOf(docs)
    ensures docs' == FirstById(before + batch) && seenIds' == IdsOf(docs')
  {
    docs', seenIds' := docs, seenIds;
    var j := 0;
    assert before + batch[..0] == before;
    while j < |batch|
      invariant j <= |batch|
      invariant docs' == FirstById(before + batch[..j]) && seenIds' == IdsOf(docs')
    {
      ghost var seen := before + batch[..j];
      docs', seenIds' := KeepIfUnseen(docs', seenIds', batch[j], seen);
      AppendPrefixSnoc(before, batch, j);
      j := j + 1;
    }
    assert batch[..j] == batch;
  }

  /** One turn of the merge loop: `d` is kept unless its id was seen. */
  method KeepIfUnseen(docs: seq<Chunk>, seenIds: set<nat>, d: Chunk, ghost seen: seq<Chunk>)
    returns (docs': seq<Chunk>, seenIds': set<nat>)
    requires docs == FirstById(seen) && seenIds == IdsOf(docs)
    ensures docs' == FirstById(seen + [d]) && seenIds' == IdsOf(docs')
  {
    FirstByIdSnoc(seen, d);
    docs', seenIds' := docs, seenIds;
    if Id(d) !in seenIds {
      IdsOfAppend(docs, [d]);
      seenIds' := seenIds + {Id(d)};
      docs' := docs + [d];
    }
  }

  /** The per-university vector searches of a comparison question, merged by id. */
  method MergeComparison(store: Store, mentioned: seq<Uni>) returns (docs: seq<Chunk>)
    ensures docs == FirstById(Batches(store, mentioned))
  {
    docs := [];
    var seenIds: set<nat> := {};
    ghost var all: seq<Chunk> := [];
    var i := 0;
    while i < |mentioned|
      invariant i <= |mentioned|
      invariant all == Batches(store, mentioned[..i])
      invariant docs == FirstById(all) && seenIds == IdsOf(docs)
    {
      var uni := mentioned[i];
      var uniDocs: seq<Chunk> := [];
      var uniEmbedding := store.embed(ExpandedQuery(uni));
      if uniEmbedding.Ok? && |uniEmbedding.value| > 0 {
        var found := store.aggregate(VectorSearch(uniEmbedding.value, NumCandidatesComparison, VectorLimitComparisonPerUni));
        if found.Ok? {
          uniDocs := found.value;
        }
      }
      docs, seenIds := AddUnseen(docs, seenIds, uniDocs, all);
      all := all + uniDocs;
      assert mentioned[..i + 1][..i] == mentioned[..i];
      i := i + 1;
    }
    assert mentioned[..i] == mentioned;
  }

  /**
   * The merged comparison docs: at most 24, no id twice, longest content
   * first, each from some mentioned university's sub-query; when no more than
   * 24 docs came back, every id that came back is present.
   */
  lemma MergedComparisonShape(store: Store, m: seq<Uni>)
    ensures |MergedComparison(store, m)| <= MaxDocsAfterMerge
    ensures DistinctBy(MergedComparison(store, m), Id)
    ensures SortedDesc(MergedComparison(store, m), ContentLength)
    ensures forall d :: d in MergedComparison(store, m) ==> exists k :: 0 <= k < |m| && d in Batch(store, m[k])
    ensures |FirstById(Batches(store, m))| <= MaxDocsAfterMerge ==>
      IdsOf(MergedComparison(store, m)) == IdsOf(Batches(store, m))
  {
    var merged := FirstById(Batches(store, m));
    SortDescSorted(merged, ContentLength);
    SortDescDistinct(merged, ContentLength, Id);
    TakeSortedDistinct(ByLength(merged), MaxDocsAfterMerge, ContentLength, Id);
    MergedFromBatches(store, m);
    if |merged| <= MaxDocsAfterMerge {
      SameElementsSameIds(ByLength(merged), merged);
    }
  }

  lemma MergedFromBatches(store: Store, m: seq<Uni>)
    ensures forall d :: d in MergedComparison(store, m) ==> exists k :: 0 <= k < |m| && d in Batch(store, m[k])
  {
    var merged := FirstById(Batches(store, m));
    var sorted := ByLength(merged);
    forall d | d in MergedComparison(store, m) ensures exists k :: 0 <= k < |m| && d in Batch(store, m[k]) {
      assert d in sorted;
      assert d in multiset(sorted);
      BatchesMembers(store, m, d);
    }
  }

  /** A permutation has the same ids. */
  lemma SameElementsSameIds(a: seq<Chunk>, b: seq<Chunk>)
    requires multiset(a) == multiset(b)
    ensures IdsOf(a) == IdsOf(b)
  {
    assert forall d :: d in a <==> d in multiset(a);
    assert forall d :: d in b <==> d in multiset(b);
  }

  // ------------------------------------------------ vector stage

  /** The single-university search: that university's expanded query, longest first, cut at 20. */
  function SingleDocs(store: Store, u: Uni): seq<Chunk> {
    match store.embed(ExpandedQuery(u))
    case Failed => []
    case Ok(e) =>
      if |e| == 0 then []
      else
        match store.aggregate(VectorSearch(e, VectorNumCandidates, VectorLimitSingle))
        case Failed => []
        case Ok(found) => Take(ByLength(found), VectorLimitSingle)
  }

  /** The search with the question's own embedding, tried with three pipelines in turn. */
  function GenericDocs(store: Store, questionEmbedding: seq<real>): seq<Chunk> {
    match store.aggregate(VectorSearch(questionEmbedding, VectorNumCandidates, VectorLimitSingle))
    case Ok(found) => found
    case Failed =>
      match store.aggregate(KnnBeta(questionEmbedding, VectorLimitSingle))
      case Ok(found) => Take(found, VectorLimitSingle)
      case Failed =>
        match store.aggregate(SearchVector(questionEmbedding, VectorLimitSingle))
        case Ok(found) => found
        case Failed => []
  }

  /** The docs the vector searches yield for a question with a non-empty embedding. */
  function VectorDocs(store: Store, question: string, questionEmbedding: seq<real>): seq<Chunk> {
    var m := MentionedUniversities(question);
    var merged := if |m| >= 2 then MergedComparison(store, m) else [];
    var single := if merged == [] && |m| == 1 then SingleDocs(store, m[0]) else merged;
    if single == [] then GenericDocs(store, questionEmbedding) else single
  }

  method VectorSearchDocs(store: Store, question: string, questionEmbedding: seq<real>) returns (docs: seq<Chunk>)
    ensures docs == VectorDocs(store, question, questionEmbedding)
  {
    var mentioned := MentionedUniversities(question);
    docs := [];
    if |mentioned| >= 2 {
      docs := MergeComparison(store, mentioned);
      docs := Take(ByLength(docs), MaxDocsAfterMerge);
    }
    if |docs| == 0 && |mentioned| == 1 {
      var uni := mentioned[0];
      var uniEmbedding := store.embed(ExpandedQuery(uni));
      if uniEmbedding.Ok? && |uniEmbedding.value| > 0 {
        var found := store.aggregate(VectorSearch(uniEmbedding.value, VectorNumCandidates, VectorLimitSingle));
        if found.Ok? {
          docs := Take(ByLength(found.value), VectorLimitSingle);
        }
      }
    }
    if |docs| == 0 {
      var first := store.aggregate(VectorSearch(questionEmbedding, VectorNumCandidates, VectorLimitSingle));
      if first.Ok? {
        docs := first.value;
      } else {
        var second := store.aggregate(KnnBeta(questionEmbedding, VectorLimitSingle));
        if second.Ok? {
          docs := Take(second.value, VectorLimitSingle);
        } else {
          var third := store.aggregate(SearchVector(questionEmbedding, VectorLimitSingle));
          if third.Ok? {
            docs := third.value;
          }
        }
      }
    }
  }

  // ------------------------------------------------ comparison repair

  /**
   * The repair loop from position i of m: a university with no classified doc
   * among the original results gets the text-search docs whose ids have not
   * been seen. A failing search is not caught here.
   */
  function RepairFrom(find: FindQuery -> Outcome<seq<Chunk>>, orig: seq<Chunk>, m: seq<Uni>, i: nat,
                      docs: seq<Chunk>, seen: set<nat>): Outcome<seq<Chunk>>
    requires i <= |m|
    decreases |m| - i
  {
    if i == |m| then Ok(docs)
    else if GroupOf(orig, m[i]) != [] then RepairFrom(find, orig, m, i + 1, docs, seen)
    else
      match Fetched(find, m[i], seen, RepairLimit)
      case Failed => Failed
      case Ok(extra) => RepairFrom(find, orig, m, i + 1, docs + extra, seen + IdsOf(extra))
  }

  function Repaired(find: FindQuery -> Outcome<seq<Chunk>>, docs: seq<Chunk>, m: seq<Uni>): Outcome<seq<Chunk>> {
    RepairFrom(find, docs, m, 0, docs, IdsOf(docs))
  }

  /** Appends the fetched docs one by one, noting each id. */
  method AppendFetched(docs: seq<Chunk>, seenIds: set<nat>, extra: seq<Chunk>) returns (docs': seq<Chunk>, seenIds': set<nat>)
    ensures docs' == docs + extra && seenIds' == seenIds + IdsOf(extra)
  {
    docs', seenIds' := docs, seenIds;
    var j := 0;
    while j < |extra|
      invariant j <= |extra|
      invariant docs' == docs + extra[..j] && seenIds' == seenIds + IdsOf(extra[..j])
    {
      IdsOfAppend(extra[..j], [extra[j]]);
      assert extra[..j + 1] == extra[..j] + [extra[j]];
      seenIds' := seenIds' + {Id(extra[j])};
      docs' := docs' + [extra[j]];
      j := j + 1;
    }
    assert extra[..j] == extra;
  }

  method RepairComparison(find: FindQuery -> Outcome<seq<Chunk>>, vectorDocs: seq<Chunk>, mentioned: seq<Uni>)
    returns (r: Outcome<seq<Chunk>>)
    ensures r == Repaired(find, vectorDocs, mentioned)
  {
    var byUni := GroupByUniversity(vectorDocs, mentioned);
    var seenIds := IdsOf(vectorDocs);
    var docs := vectorDocs;
    var i := 0;
    while i < |mentioned|
      invariant i <= |mentioned|
      invariant RepairFrom(find, vectorDocs, mentioned, i, docs, seenIds) == Repaired(find, vectorDocs, mentioned)
    {
      var u := mentioned[i];
      assert u in byUni;
      if |byUni[u]| == 0 {
        var extra := FetchDocsForUniversity(find, u, seenIds, RepairLimit);
        if extra.Failed? {
          return Failed;
        }
        docs, seenIds := AppendFetched(docs, seenIds, extra.value);
      }
      i := i + 1;
    }
    return Ok(docs);
  }

  /**
   * Repair only appends: the docs so far stay in front, and no appended doc
   * carries an id that was already seen.
   */
  lemma {:induction false} RepairFromAppends(find: FindQuery -> Outcome<seq<Chunk>>, orig: seq<Chunk>, m: seq<Uni>, i: nat,
                                             docs: seq<Chunk>, seen: set<nat>)
    requires i <= |m|
    requires RepairFrom(find, orig, m, i, docs, seen).Ok?
    ensures |RepairFrom(find, orig, m, i, docs, seen).value| >= |docs|
    ensures RepairFrom(find, orig, m, i, docs, seen).value[..|docs|] == docs
    ensures forall k :: |docs| <= k < |RepairFrom(find, orig, m, i, docs, seen).value| ==>
      Id(RepairFrom(find, orig, m, i, docs, seen).value[k]) !in seen
    decreases |m| - i
  {
    if i < |m| {
      if GroupOf(orig, m[i]) != [] {
        RepairFromAppends(find, orig, m, i + 1, docs, seen);
      } else {
        var extra := Fetched(find, m[i], seen, RepairLimit).value;
        FetchedShape(find, m[i], seen, RepairLimit);
        var docs2, seen2 := docs + extra, seen + IdsOf(extra);
        RepairFromAppends(find, orig, m, i + 1, docs2, seen2);
        var r := RepairFrom(find, orig, m, i, docs, seen).value;
        assert r == RepairFrom(find, orig, m, i + 1, docs2, seen2).value;
        assert r[..|docs|] == r[..|docs2|][..|docs|];
        forall k | |docs| <= k < |r| ensures Id(r[k]) !in seen {
          if k < |docs2| {
            assert r[k] == extra[k - |docs|];
            assert r[k] in extra;
          }
        }
      }
    }
  }

  /** Comparison repair keeps the vector results in front and adds only docs with new ids. */
  lemma RepairedAppends(find: FindQuery -> Outcome<seq<Chunk>>, docs: seq<Chunk>, m: seq<Uni>)
    requires Repaired(find, docs, m).Ok?
    ensures |Repaired(find, docs, m).value| >= |docs|
    ensures Repaired(find, docs, m).value[..|docs|] == docs
    ensures forall k :: |docs| <= k < |Repaired(find, docs, m).value| ==> Id(Repaired(find, docs, m).value[k]) !in IdsOf(docs)
  {
    RepairFromAppends(find, docs, m, 0, docs, IdsOf(docs));
  }

  lemma {:induction false} RepairFromCovered(find: FindQuery -> Outcome<seq<Chunk>>, orig: seq<Chunk>, m: seq<Uni>, i: nat,
                                             docs: seq<Chunk>, seen: set<nat>)
    requires i <= |m|
    requires forall k :: i <= k < |m| ==> GroupOf(orig, m[k]) != []
    ensures RepairFrom(find, orig, m, i, docs, seen) == Ok(docs)
    decreases |m| - i
  {
    if i < |m| {
      RepairFromCovered(find, orig, m, i + 1, docs, seen);
    }
  }

  /** When every mentioned university already has a classified doc, repair searches nothing and changes nothing. */
  lemma RepairedCovered(find: FindQuery -> Outcome<seq<Chunk>>, docs: seq<Chunk>, m: seq<Uni>)
    requires forall k :: 0 <= k < |m| ==> GroupOf(docs, m[k]) != []
    ensures Repaired(find, docs, m) == Ok(docs)
  {
    RepairFromCovered(find, docs, m, 0, docs, IdsOf(docs));
  }

  // ------------------------------------------------ single-university purity

  /**
   * The docs classified as the one mentioned university; failing that, a text
   * search for it; failing that too, the docs unchanged.
   */
  function Purified(find: FindQuery -> Outcome<seq<Chunk>>, docs: seq<Chunk>, want: Uni): Outcome<seq<Chunk>> {
    var filtered := GroupOf(docs, want);
    if |filtered| > 0 then Ok(filtered)
    else
      match Fetched(find, want, {}, PurityFallbackLimit)
      case Failed => Failed
      case Ok(fallback) => Ok(if |fallback| > 0 then fallback else docs)
  }

  /** When any doc is about the wanted university, exactly those docs are kept, in order. */
  lemma PurifiedKeepsOnlyWanted(find: FindQuery -> Outcome<seq<Chunk>>, docs: seq<Chunk>, want: Uni, x: Chunk)
    requires x in docs && DocUniversity(x) == Some(want)
    ensures Purified(find, docs, want) == Ok(GroupOf(docs, want))
    ensures forall d :: d in Purified(find, docs, want).value <==> d in docs && DocUniversity(d) == Some(want)
  {
    GroupOfMembers(docs, want);
    assert x in GroupOf(docs, want);
  }

  // ------------------------------------------------ text fallback

  /** `institutionRegex`: the name, plus the common misspelling of two of the names. */
  function InstitutionPatterns(name: string): (r: seq<string>)
    ensures name in r
    ensures forall p :: p in r ==> p == name || (name == "jimma" && p == "jima") || (name == "hawassa" && p == "hawasa")
  {
    [name] + (if name == "jimma" then ["jima"] else []) + (if name == "hawassa" then ["hawasa"] else [])
  }

  predicate LongerThanOne(w: string) { |w| > 1 }

  /** The question's words longer than one character, punctuation read as space. */
  function SearchWords(question: string): seq<string> {
    Filter(Runs(PunctuationToSpace(question), IsSpace), LongerThanOne)
  }

  /** The search for the question itself or one of its first eight words, restricted to the target university if any. */
  function WordQuery(question: string): FindQuery {
    var target := match ExtractUniversityName(question) case None => None case Some(u) => Some(Key(u));
    FindQuery([question] + Take(SearchWords(question), MaxFallbackWords), target, TextFallbackLimit)
  }

  function DirectQuery(name: string): FindQuery {
    FindQuery(InstitutionPatterns(name), None, TextFallbackLimit)
  }

  /** `askedInst && askedInst.length >= 2` */
  predicate Asked(a: Option<string>) {
    a.Some? && |a.value| >= 2
  }

  /** The text-search context: the docs' blocks joined by blank lines, with no length budget. */
  function TextContext(docs: seq<Chunk>): string {
    Join(Blocks(docs), BlockSeparator)
  }

  /** The final safety check of the text fallback, made only when an institution was extracted. */
  function Checked(question: string, asked: Option<string>, docs: seq<Chunk>): Retrieved {
    var text := TextContext(docs);
    if asked.Some? && asked.value != "" && !ContextMatchesQuestion(question, text, docs) then NoContext
    else Retrieved(text, docs)
  }

  /**
   * The text fallback. An asked institution that no doc mentions ends it with
   * no context; otherwise the docs mentioning it are used, and without an
   * asked institution the word search is.
   */
  function TextFallback(store: Store, question: string): Outcome<Retrieved> {
    var asked := ExtractAskedInstitution(question);
    if Asked(asked) then
      match store.find(DirectQuery(asked.value))
      case Failed => Failed
      case Ok(direct) => if direct == [] then Ok(NoContext) else Ok(Checked(question, asked, direct))
    else
      match store.find(WordQuery(question))
      case Failed => Failed
      case Ok(found) => if found == [] then Ok(NoContext) else Ok(Checked(question, asked, found))
  }

  method TextFallbackSearch(store: Store, question: string) returns (r: Outcome<Retrieved>)
    ensures r == TextFallback(store, question)
  {
    var askedInst := ExtractAskedInstitution(question);
    var textDocs: seq<Chunk> := [];
    if askedInst.Some? && |askedInst.value| >= 2 {
      var directMatch := store.find(DirectQuery(askedInst.value));
      if directMatch.Failed? {
        return Failed;
      }
      if |directMatch.value| == 0 {
        return Ok(NoContext);
      }
      textDocs := directMatch.value;
    }
    if |textDocs| == 0 {
      var found := store.find(WordQuery(question));
      if found.Failed? {
        return Failed;
      }
      textDocs := found.value;
    }
    if |textDocs| == 0 {
      return Ok(NoContext);
    }
    var contextText := TextContext(textDocs);
    if |textDocs| > 0 && askedInst.Some? && askedInst.value != "" && !ContextMatchesQuestion(question, contextText, textDocs) {
      return Ok(NoContext);
    }
    return Ok(Retrieved(contextText, textDocs));
  }

  /** An asked institution that the direct search does not find gives no context, whatever else the store holds. */
  lemma AskedWithoutMatchNoContext(store: Store, question: string)
    requires Asked(ExtractAskedInstitution(question))
    requires store.find(DirectQuery(ExtractAskedInstitution(question).value)) == Ok([])
    ensures TextFallback(store, question) == Ok(NoContext)
  {
  }

  /**
   * Against a store whose searches honour their queries, text-fallback context
   * for an asked institution comes from at most 15 docs, each mentioning that
   * institution or its listed misspelling.
   */
  lemma TextFallbackMentionsAsked(store: Store, question: string)
    requires Honours(store.find)
    requires Asked(ExtractAskedInstitution(question))
    requires TextFallback(store, question).Ok?
    ensures |TextFallback(store, question).value.docs| <= TextFallbackLimit
    ensures forall d :: d in TextFallback(store, question).value.docs ==>
      exists p :: p in InstitutionPatterns(ExtractAskedInstitution(question).value) && InText(d, p)
  {
    var q := DirectQuery(ExtractAskedInstitution(question).value);
    var r := TextFallback(store, question).value;
    if r.docs != [] {
      assert r.docs == store.find(q).value;
      forall d | d in r.docs ensures exists p :: p in InstitutionPatterns(ExtractAskedInstitution(question).value) && InText(d, p) {
        assert DocMatches(d, q);
      }
    }
  }

  // ------------------------------------------------ getRelevantContext

  /** Comparison repair and single-university purity, applied to the vector results. */
  function Refined(store: Store, question: string, vectorDocs: seq<Chunk>): Outcome<seq<Chunk>> {
    var m := MentionedUniversities(question);
    var repaired := if |vectorDocs| > 0 && |m| >= 2 then Repaired(store.find, vectorDocs, m) else Ok(vectorDocs);
    match repaired
    case Failed => Failed
    case Ok(docs) => if |docs| > 0 && |m| == 1 then Purified(store.find, docs, m[0]) else Ok(docs)
  }

  /** Rebalanced docs become checked context; without docs the text fallback runs. */
  function FromDocs(store: Store, question: string, docs: seq<Chunk>): Outcome<Retrieved> {
    var diverse := if |docs| > 0 then DiverseContext(docs, question) else docs;
    if |diverse| > 0 then
      var text := ContextText(diverse, question);
      Ok(if ContextMatchesQuestion(question, text, diverse) then Retrieved(text, diverse) else NoContext)
    else TextFallback(store, question)
  }

  /** The cascade for a non-empty collection. */
  function FromStore(store: Store, question: string): Outcome<Retrieved> {
    var qe := store.embed(question);
    var vectorDocs := if qe.Ok? && |qe.value| > 0 then VectorDocs(store, question, qe.value) else [];
    match Refined(store, question, vectorDocs)
    case Failed => Failed
    case Ok(docs) => FromDocs(store, question, docs)
  }

  /** The retrieval cascade; `Failed` is an error that reaches the outer handler. */
  function Retrieve(store: Store, question: string): Outcome<Retrieved> {
    match store.count
    case Failed => Failed
    case Ok(n) => if n == 0 then Ok(NoContext) else FromStore(store, question)
  }

  /** What `getRelevantContext` resolves to: the context text, or '' on any uncaught error. */
  function RelevantContext(store: Store, question: string): string {
    match Retrieve(store, question)
    case Failed => ""
    case Ok(r) => r.text
  }

  method GetRelevantContext(store: Store, question: string) returns (context: string)
    ensures context == RelevantContext(store, question)
  {
    var totalDocs := store.count;
    if totalDocs.Failed? || totalDocs.value == 0 {
      return "";
    }
    var questionEmbedding := store.embed(question);
    var docs: seq<Chunk> := [];
    if questionEmbedding.Ok? && |questionEmbedding.value| > 0 {
      docs := VectorSearchDocs(store, question, questionEmbedding.value);
    }
    ghost var vectorDocs := docs;
    var mentioned := MentionedUniversities(question);
    if |docs| > 0 && |mentioned| >= 2 {
      var repaired := RepairComparison(store.find, docs, mentioned);
      if repaired.Failed? {
        return "";
      }
      docs := repaired.value;
    }
    if |docs| > 0 && |mentioned| == 1 {
      var want := mentioned[0];
      var filtered := GroupOf(docs, want);
      if |filtered| > 0 {
        docs := filtered;
      } else {
        var fallback := FetchDocsForUniversity(store.find, want, {}, PurityFallbackLimit);
        if fallback.Failed? {
          return "";
        }
        if |fallback.value| > 0 {
          docs := fallback.value;
        }
      }
    }
    assert Refined(store, question, vectorDocs) == Ok(docs);
    if |docs| > 0 {
      docs := EnsureDiverseContext(docs, question);
    }
    if |docs| > 0 {
      var contextText := BuildContextText(docs, question);
      if !ContextMatchesQuestion(question, contextText, docs) {
        return "";
      }
      return contextText;
    }
    var fallback := TextFallbackSearch(store, question);
    if fallback.Failed? {
      return "";
    }
    return fallback.value.text;
  }

  // ------------------------------------------------ properties of the cascade

  /** An empty collection, or a failing count, gives no context. */
  lemma EmptyStoreNoContext(store: Store, question: string)
    requires store.count.Failed? || store.count == Ok(0)
    ensures RelevantContext(store, question) == ""
  {
  }

  /** Without a usable question embedding, only the text fallback runs. */
  lemma NoEmbeddingTextOnly(store: Store, question: string)
    requires store.count.Ok? && store.count.value > 0
    requires store.embed(question).Failed? || store.embed(question) == Ok([])
    ensures Retrieve(store, question) == TextFallback(store, question)
  {
  }

  /**
   * Context is never handed out for a different institution than the one
   * asked about: non-empty context passed `contextMatchesQuestion` against the
   * docs it was built from, and it is either the budgeted context of those
   * docs or their text-fallback join.
   */
  lemma ContextMatchesAskedInstitution(store: Store, question: string)
    requires Retrieve(store, question).Ok? && Retrieve(store, question).value.text != ""
    ensures ContextMatchesQuestion(question, Retrieve(store, question).value.text, Retrieve(store, question).value.docs)
    ensures Retrieve(store, question).value.docs != []
    ensures Retrieve(store, question).value.text == ContextText(Retrieve(store, question).value.docs, question)
         || Retrieve(store, question).value.text == TextContext(Retrieve(store, question).value.docs)
  {
    var qe := store.embed(question);
    var vectorDocs := if qe.Ok? && |qe.value| > 0 then VectorDocs(store, question, qe.value) else [];
    var docs := Refined(store, question, vectorDocs).value;
    assert Retrieve(store, question) == FromDocs(store, question, docs);
    var diverse := if |docs| > 0 then DiverseContext(docs, question) else docs;
    if |diverse| == 0 {
      TextFallbackChecked(store, question);
    }
  }

  /** Non-empty text-fallback context is the join of its docs and passed the safety check. */
  lemma TextFallbackChecked(store: Store, question: string)
    requires TextFallback(store, question).Ok? && TextFallback(store, question).value.text != ""
    ensures ContextMatchesQuestion(question, TextFallback(store, question).value.text, TextFallback(store, question).value.docs)
    ensures TextFallback(store, question).value.docs != []
    ensures TextFallback(store, question).value.text == TextContext(TextFallback(store, question).value.docs)
  {
    var asked := ExtractAskedInstitution(question);
    var q := if Asked(asked) then DirectQuery(asked.value) else WordQuery(question);
    assert TextFallback(store, question) == Ok(Checked(question, asked, store.find(q).value));
    CheckedPasses(question, asked, store.find(q).value);
  }

  /** What the safety check lets through matches the question. */
  lemma CheckedPasses(question: string, asked: Option<string>, docs: seq<Chunk>)
    requires asked == ExtractAskedInstitution(question)
    requires Checked(question, asked, docs).text != ""
    ensures Checked(question, asked, docs) == Retrieved(TextContext(docs), docs)
    ensures ContextMatchesQuestion(question, TextContext(docs), docs)
  {
    if asked.None? || asked.value == "" {
      assert StrictKey(question).None?;
    }
  }
}
