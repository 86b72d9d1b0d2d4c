/**
 * `chunkText`: a sliding window over long text that backs off to the last
 * paragraph or sentence break in the second half of the window, with the
 * next window overlapping the previous one.
 */
module Chunking {
  import opened Util
  import opened Text

  const RagChunkSize: nat := 8000
  const RagChunkOverlap: nat := 400

  /** The latest paragraph (`\n\n`) or sentence (`. `, `.\n`) break in a window, or -1. */
  function BreakAt(chunk: string): (r: int)
    ensures r == -1 || 0 <= r <= |chunk| - 2
  {
    Max(LastIndexOf(chunk, "\n\n"), Max(LastIndexOf(chunk, ". "), LastIndexOf(chunk, ".\n")))
  }

  /** A break found is a paragraph or sentence break, and no break lies after it. */
  lemma BreakAtIsLastBreak(chunk: string)
    ensures var r := BreakAt(chunk);
      (r >= 0 ==> OccursAt(chunk, "\n\n", r) || OccursAt(chunk, ". ", r) || OccursAt(chunk, ".\n", r))
      && forall j :: r < j <= |chunk| - 2 ==>
           !OccursAt(chunk, "\n\n", j) && !OccursAt(chunk, ". ", j) && !OccursAt(chunk, ".\n", j)
  {
    LastIndexOfIsLast(chunk, "\n\n");
    LastIndexOfIsLast(chunk, ". ");
    LastIndexOfIsLast(chunk, ".\n");
  }

  /**
   * Where the window starting at `start` ends: at `start + max` (or the end
   * of the text), pulled back to just after a break found past the middle
   * of the window when the text goes on.
   */
  function WindowEnd(text: string, start: nat, max: nat): (e: nat)
    requires start < |text| && max > 0
    ensures start < e <= |text| && e - start <= max
    ensures e < |text| ==> 2 * (e - start) > max
  {
    var end := Min(start + max, |text|);
    var breakAt := BreakAt(text[start..end]);
    if end < |text| && 2 * breakAt > max then start + breakAt + 1 else end
  }

  /**
   * Where each window of a text of length n ends, indexed by its start: it
   * ends after its start, within `max` characters and, unless the text ends
   * there, past the middle of the window.
   */
  predicate ValidCuts(n: nat, max: nat, cuts: seq<int>) {
    |cuts| == n &&
    forall s :: 0 <= s < n ==>
      s < cuts[s] <= n && cuts[s] - s <= max && (cuts[s] < n ==> 2 * (cuts[s] - s) > max)
  }

  /** The window end for every start below n. */
  function CutsUpTo(text: string, max: nat, n: nat): (c: seq<int>)
    requires max > 0 && n <= |text|
    ensures |c| == n
    ensures forall s :: 0 <= s < n ==>
      s < c[s] <= |text| && c[s] - s <= max && (c[s] < |text| ==> 2 * (c[s] - s) > max)
  {
    if n == 0 then [] else CutsUpTo(text, max, n - 1) + [WindowEnd(text, n - 1, max)]
  }

  /** Each entry is where the window from that start ends. */
  lemma {:induction false} CutsUpToAt(text: string, max: nat, n: nat, s: nat)
    requires max > 0 && s < n <= |text|
    ensures CutsUpTo(text, max, n)[s] == WindowEnd(text, s, max)
  {
    if s < n - 1 {
      CutsUpToAt(text, max, n - 1, s);
    }
  }

  /** The window end for every possible start. */
  function Cuts(text: string, max: nat): (c: seq<int>)
    requires max > 0
    ensures ValidCuts(|text|, max, c)
  {
    CutsUpTo(text, max, |text|)
  }

  /** The `[start, end)` windows the loop visits from `start` on. */
  function Bounds(n: nat, max: nat, overlap: nat, cuts: seq<int>, start: nat): (b: seq<(int, int)>)
    requires 2 * overlap < max && ValidCuts(n, max, cuts)
    ensures forall k :: 0 <= k < |b| ==> start <= b[k].0 < b[k].1 <= n && b[k].1 - b[k].0 <= max
    decreases n - start
  {
    if start >= n then []
    else
      var e := cuts[start];
      [(start, e)] + (if e < n then Bounds(n, max, overlap, cuts, e - overlap) else [])
  }

  /** The windows of `text`. */
  function TextBounds(text: string, max: nat, overlap: nat): seq<(int, int)>
    requires 2 * overlap < max
  {
    Bounds(|text|, max, overlap, Cuts(text, max), 0)
  }

  /** The trimmed text of each window. */
  function Pieces(text: string, b: seq<(int, int)>): (r: seq<string>)
    ensures |r| == |b|
  {
    seq(|b|, k requires 0 <= k < |b| => if 0 <= b[k].0 <= b[k].1 <= |text| then Trim(text[b[k].0..b[k].1]) else "")
  }

  /** `out.filter(Boolean)` */
  function NonEmpty(s: seq<string>): seq<string> {
    Filter(s, c => c != "")
  }

  /** What `chunkText(text, max, overlap)` returns. */
  function ChunkText(text: string, max: nat, overlap: nat): seq<string>
    requires 2 * overlap < max
  {
    if text == [] then []
    else if |text| <= max then [text]
    else NonEmpty(Pieces(text, TextBounds(text, max, overlap)))
  }

  method ChunkTextLoop(text: string, max: nat, overlap: nat) returns (chunks: seq<string>)
    requires 2 * overlap < max
    ensures chunks == ChunkText(text, max, overlap)
    ensures text == [] ==> chunks == []
    ensures 0 < |text| <= max ==> chunks == [text]
  {
    if text == [] || |text| <= max {
      return if text != [] then [text] else [];
    }
    ghost var cuts := Cuts(text, max);
    CutsAreWindowEnds(text, max);
    var out := SlideWindows(text, max, overlap, cuts);
    chunks := NonEmpty(out);
  }

  /** The loop of `chunkText`: one trimmed piece per window, the windows given by `cuts`. */
  method SlideWindows(text: string, max: nat, overlap: nat, ghost cuts: seq<int>) returns (out: seq<string>)
    requires 2 * overlap < max && ValidCuts(|text|, max, cuts)
    requires forall s {:trigger WindowEnd(text, s, max)} :: 0 <= s < |text| ==> cuts[s] == WindowEnd(text, s, max)
    ensures out == Pieces(text, Bounds(|text|, max, overlap, cuts, 0))
  {
    out := [];
    ghost var done: seq<(int, int)> := [];
    var start: nat := 0;
    while start < |text|
      invariant done + Bounds(|text|, max, overlap, cuts, start) == Bounds(|text|, max, overlap, cuts, 0)
      invariant out == Pieces(text, done)
      decreases |text| - start
    {
      var chunk, end := NextWindow(text, start, max, cuts);
      BoundsAdvance(|text|, max, overlap, cuts, done, start);
      out := PushTrimmed(out, chunk, text, done, (start, end));
      done := done + [(start, end)];
      start := end - (if end < |text| then overlap else 0);
      if start >= |text| {
        break;
      }
    }
    assert Bounds(|text|, max, overlap, cuts, start) == [];
  }

  lemma CutsAreWindowEnds(text: string, max: nat)
    requires max > 0
    ensures forall s {:trigger WindowEnd(text, s, max)} :: 0 <= s < |text| ==> Cuts(text, max)[s] == WindowEnd(text, s, max)
  {
    forall s | 0 <= s < |text|
      ensures Cuts(text, max)[s] == WindowEnd(text, s, max)
    {
      CutsUpToAt(text, max, |text|, s);
    }
  }

  /** One turn of the loop: the window from `start`, backed off to a break when there is one. */
  method NextWindow(text: string, start: nat, max: nat, ghost cuts: seq<int>) returns (chunk: string, end: nat)
    requires start < |text| && max > 0 && ValidCuts(|text|, max, cuts)
    requires forall s {:trigger WindowEnd(text, s, max)} :: 0 <= s < |text| ==> cuts[s] == WindowEnd(text, s, max)
    ensures end == cuts[start] && chunk == text[start..end]
  {
    assert cuts[start] == WindowEnd(text, start, max);
    end := Min(start + max, |text|);
    chunk := text[start..end];
    if end < |text| {
      var lastPara := LastIndexOf(chunk, "\n\n");
      var lastSentence := Max(LastIndexOf(chunk, ". "), LastIndexOf(chunk, ".\n"));
      var breakAt := Max(lastPara, lastSentence);
      if 2 * breakAt > max {
        chunk := text[start..start + breakAt + 1];
        end := start + breakAt + 1;
      }
    }
  }

  /** One window further: the window from `start` joins those already visited. */
  lemma BoundsAdvance(n: nat, max: nat, overlap: nat, cuts: seq<int>, done: seq<(int, int)>, start: nat)
    requires 2 * overlap < max && ValidCuts(n, max, cuts) && start < n
    requires done + Bounds(n, max, overlap, cuts, start) == Bounds(n, max, overlap, cuts, 0)
    ensures var e := cuts[start]; var next := e - (if e < n then overlap else 0);
      next >= 0 && (done + [(start, e)]) + Bounds(n, max, overlap, cuts, next) == Bounds(n, max, overlap, cuts, 0)
  {
    var e := cuts[start];
    var rest := if e < n then Bounds(n, max, overlap, cuts, e - overlap) else [];
    assert Bounds(n, max, overlap, cuts, start) == [(start, e)] + rest;
    AppendAssoc(done, [(start, e)], rest);
  }

  /** `out.push(chunk.trim())`, where `chunk` is the text of window `b`. */
  method PushTrimmed(out: seq<string>, chunk: string, ghost text: string, ghost done: seq<(int, int)>, ghost b: (int, int))
    returns (out': seq<string>)
    requires 0 <= b.0 <= b.1 <= |text| && chunk == text[b.0..b.1] && out == Pieces(text, done)
    ensures out' == Pieces(text, done + [b])
  {
    PiecesSnoc(text, done, b);
    out' := out + [Trim(chunk)];
  }

  lemma PiecesSnoc(text: string, done: seq<(int, int)>, b: (int, int))
    requires 0 <= b.0 <= b.1 <= |text|
    ensures Pieces(text, done + [b]) == Pieces(text, done) + [Trim(text[b.0..b.1])]
  {
  }

  // ------------------------------------------------------------ properties

  /**
   * The windows from `start` tile the rest of the text: the first starts at
   * `start`, the last ends at the end of the text, each next one starts
   * `overlap` characters before the previous one ended, so starts strictly
   * increase.
   */
  /** The windows from `start` start there and end with the text. */
  lemma {:induction false} BoundsFirstLast(n: nat, max: nat, overlap: nat, cuts: seq<int>, start: nat)
    requires 2 * overlap < max && ValidCuts(n, max, cuts) && start < n
    ensures var b := Bounds(n, max, overlap, cuts, start);
      |b| > 0 && b[0].0 == start && b[|b| - 1].1 == n
    decreases n - start
  {
    var e := cuts[start];
    if e < n {
      BoundsFirstLast(n, max, overlap, cuts, e - overlap);
    }
  }

  /**
   * Every window but the last ends before the text does, past its own
   * middle, and the next one starts `overlap` characters before that end.
   */
  lemma {:induction false} BoundsStep(n: nat, max: nat, overlap: nat, cuts: seq<int>, start: nat)
    requires 2 * overlap < max && ValidCuts(n, max, cuts) && start < n
    ensures var b := Bounds(n, max, overlap, cuts, start);
      forall k :: 0 <= k < |b| - 1 ==>
        b[k].1 < n && 2 * (b[k].1 - b[k].0) > max && b[k + 1].0 == b[k].1 - overlap
  {
    var b := Bounds(n, max, overlap, cuts, start);
    forall k | 0 <= k < |b| - 1
      ensures b[k].1 < n && 2 * (b[k].1 - b[k].0) > max && b[k + 1].0 == b[k].1 - overlap
    {
      BoundsStepAt(n, max, overlap, cuts, start, k);
    }
  }

  /** The same for window k alone. */
  lemma {:induction false} BoundsStepAt(n: nat, max: nat, overlap: nat, cuts: seq<int>, start: nat, k: nat)
    requires 2 * overlap < max && ValidCuts(n, max, cuts) && start < n
    requires k + 1 < |Bounds(n, max, overlap, cuts, start)|
    ensures var b := Bounds(n, max, overlap, cuts, start);
      b[k].1 < n && 2 * (b[k].1 - b[k].0) > max && b[k + 1].0 == b[k].1 - overlap
    decreases n - start
  {
    var e := cuts[start];
    var b := Bounds(n, max, overlap, cuts, start);
    assert e < n;
    var rest := Bounds(n, max, overlap, cuts, e - overlap);
    assert b == [(start, e)] + rest;
    if k == 0 {
      BoundsFirstLast(n, max, overlap, cuts, e - overlap);
      assert b[1] == rest[0];
    } else {
      BoundsStepAt(n, max, overlap, cuts, e - overlap, k - 1);
      assert b[k] == rest[k - 1] && b[k + 1] == rest[k];
    }
  }

  /** Position i lies in one of the windows b. */
  predicate InSomeWindow(b: seq<(int, int)>, i: nat) {
    exists k :: 0 <= k < |b| && b[k].0 <= i < b[k].1
  }

  /** Every position from `start` on lies in some window. */
  lemma {:induction false} BoundsCover(n: nat, max: nat, overlap: nat, cuts: seq<int>, start: nat, i: nat)
    requires 2 * overlap < max && ValidCuts(n, max, cuts) && start <= i < n
    ensures InSomeWindow(Bounds(n, max, overlap, cuts, start), i)
    decreases n - start
  {
    var e := cuts[start];
    var b := Bounds(n, max, overlap, cuts, start);
    if i < e {
      assert b[0] == (start, e);
      assert b[0].0 <= i < b[0].1;
    } else {
      var rest := Bounds(n, max, overlap, cuts, e - overlap);
      assert b == [(start, e)] + rest;
      BoundsCover(n, max, overlap, cuts, e - overlap, i);
      var k :| 0 <= k < |rest| && rest[k].0 <= i < rest[k].1;
      assert b[k + 1] == rest[k];
      assert b[k + 1].0 <= i < b[k + 1].1;
    }
  }

  /**
   * The windows tile the positions from 0 to n: the first starts at 0, the
   * last ends at n, each next one starts `overlap` positions before the
   * previous one ended, starts strictly increase, and every position lies in one.
   */
  lemma BoundsTile(n: nat, max: nat, overlap: nat, cuts: seq<int>)
    requires 2 * overlap < max && ValidCuts(n, max, cuts) && n > 0
    ensures var b := Bounds(n, max, overlap, cuts, 0);
      |b| > 0 && b[0].0 == 0 && b[|b| - 1].1 == n
      && (forall k :: 0 <= k < |b| - 1 ==> b[k + 1].0 == b[k].1 - overlap && b[k].0 < b[k + 1].0)
      && forall i :: 0 <= i < n ==> InSomeWindow(b, i)
  {
    BoundsFirstLast(n, max, overlap, cuts, 0);
    BoundsStep(n, max, overlap, cuts, 0);
    forall i | 0 <= i < n
      ensures InSomeWindow(Bounds(n, max, overlap, cuts, 0), i)
    {
      BoundsCover(n, max, overlap, cuts, 0, i);
    }
  }

  /** The same for the windows of a text. */
  lemma TextBoundsTile(text: string, max: nat, overlap: nat)
    requires 2 * overlap < max && text != []
    ensures var b := TextBounds(text, max, overlap);
      |b| > 0 && b[0].0 == 0 && b[|b| - 1].1 == |text|
      && (forall k :: 0 <= k < |b| - 1 ==> b[k + 1].0 == b[k].1 - overlap && b[k].0 < b[k + 1].0)
      && forall i :: 0 <= i < |text| ==> InSomeWindow(b, i)
  {
    BoundsTile(|text|, max, overlap, Cuts(text, max));
  }

  /**
   * Every chunk is non-empty and at most `max` characters long; a text longer
   * than `max` yields trimmed slices of windows of at most `max` characters.
   */
  lemma ChunksAreBoundedSlices(text: string, max: nat, overlap: nat)
    requires 2 * overlap < max
    ensures forall c :: c in ChunkText(text, max, overlap) ==> c != "" && |c| <= max
    ensures |text| > max ==> forall c :: c in ChunkText(text, max, overlap) ==>
      exists i, j :: 0 <= i < j <= |text| && j - i <= max && c == Trim(text[i..j])
  {
    if |text| > max {
      var b := TextBounds(text, max, overlap);
      var p := Pieces(text, b);
      forall c | c in ChunkText(text, max, overlap)
        ensures c != "" && |c| <= max
        ensures exists i, j :: 0 <= i < j <= |text| && j - i <= max && c == Trim(text[i..j])
      {
        assert c in p;
        var k :| 0 <= k < |p| && p[k] == c;
        assert c == Trim(text[b[k].0..b[k].1]);
      }
    }
  }

  /**
   * The back-off rule: a window is shortened only when the text goes on and
   * a break lies past its middle; it then ends just after the break's `.`
   * or first newline, leaving the space or newline that follows to the next
   * window. Otherwise it ends at `start + max` or at the end of the text.
   */
  lemma BackOffCutsAtBreak(text: string, start: nat, max: nat)
    requires start < |text| && max > 0
    ensures var e := WindowEnd(text, start, max); var hard := Min(start + max, |text|);
      var breakAt := BreakAt(text[start..hard]);
      (e != hard <==> hard < |text| && 2 * breakAt > max)
      && (e != hard ==>
            e == start + breakAt + 1 && e < hard &&
            (text[e - 1] == '.' || text[e - 1] == '\n') && (text[e] == ' ' || text[e] == '\n'))
  {
    var hard := Min(start + max, |text|);
    var chunk := text[start..hard];
    var breakAt := BreakAt(chunk);
    BreakAtIsLastBreak(chunk);
    if hard < |text| && 2 * breakAt > max {
      assert chunk[breakAt] == text[start + breakAt] && chunk[breakAt + 1] == text[start + breakAt + 1];
      if OccursAt(chunk, "\n\n", breakAt) {
        assert chunk[breakAt..breakAt + 2] == "\n\n";
        assert chunk[breakAt] == '\n' && chunk[breakAt + 1] == '\n';
      } else if OccursAt(chunk, ". ", breakAt) {
        assert chunk[breakAt..breakAt + 2] == ". ";
        assert chunk[breakAt] == '.' && chunk[breakAt + 1] == ' ';
      } else {
        assert chunk[breakAt..breakAt + 2] == ".\n";
        assert chunk[breakAt] == '.' && chunk[breakAt + 1] == '\n';
      }
    }
  }

  /** The trivial cases: no chunk for empty text, the text itself when it fits. */
  lemma ShortTextIsOneChunk(text: string, max: nat, overlap: nat)
    requires 2 * overlap < max
    ensures text == [] ==> ChunkText(text, max, overlap) == []
    ensures 0 < |text| <= max ==> ChunkText(text, max, overlap) == [text]
    ensures text != [] ==> |ChunkText(text, max, overlap)| >= 1 || AllSpace(text)
  {
    if |text| > max && !AllSpace(text) {
      var i :| 0 <= i < |text| && !IsSpace(text[i]);
      VisibleCharGivesChunk(text, max, overlap, i);
    }
  }

  /** A long text with a non-space character yields at least one chunk. */
  lemma VisibleCharGivesChunk(text: string, max: nat, overlap: nat, i: nat)
    requires 2 * overlap < max && |text| > max
    requires i < |text| && !IsSpace(text[i])
    ensures |ChunkText(text, max, overlap)| >= 1
  {
    var b := TextBounds(text, max, overlap);
    BoundsCover(|text|, max, overlap, Cuts(text, max), 0, i);
    var k :| 0 <= k < |b| && b[k].0 <= i < b[k].1;
    var p := Pieces(text, b);
    WindowPieceNonEmpty(text, b, k, i);
    assert p[k] in NonEmpty(p);
  }

  /** The piece of a window holding a non-space character is not empty. */
  lemma WindowPieceNonEmpty(text: string, b: seq<(int, int)>, k: nat, i: nat)
    requires k < |b| && 0 <= b[k].0 <= i < b[k].1 <= |text| && !IsSpace(text[i])
    ensures Pieces(text, b)[k] != ""
  {
    var w := text[b[k].0..b[k].1];
    assert w[i - b[k].0] == text[i];
    TrimEmptyIffAllSpace(w);
  }
}
