/**
 * String primitives with JavaScript's semantics: whitespace as `\s` and
 * `trim()` see it, word characters as `\w` and `\b` see them, ASCII
 * lower-casing, substring search (`includes`), `split`, `join` and the
 * whitespace-collapsing `replace(/\s+/g, ' ')`.
 */
module Text {
  import opened Util

  /** The WhiteSpace and LineTerminator code points: the set both `\s` and `trim()` use. */
  predicate IsSpace(c: char) {
    c == ' ' || c == '\t' || c == '\n' || c == '\r' || c == '\U{000B}' || c == '\U{000C}'
    || c == '\U{00A0}' || c == '\U{1680}' || ('\U{2000}' <= c <= '\U{200A}')
    || c == '\U{2028}' || c == '\U{2029}' || c == '\U{202F}' || c == '\U{205F}'
    || c == '\U{3000}' || c == '\U{FEFF}'
  }

  /** `\w` without the `u` flag. */
  predicate IsWordChar(c: char) {
    ('a' <= c <= 'z') || ('A' <= c <= 'Z') || ('0' <= c <= '9') || c == '_'
  }

  /** `[a-z]` */
  predicate IsLowerLetter(c: char) { 'a' <= c <= 'z' }

  function LowerChar(c: char): char {
    if 'A' <= c <= 'Z' then (c as int + 32) as char else c
  }

  /** `toLowerCase()`, on ASCII letters. */
  function Lower(s: string): (r: string)
    ensures |r| == |s|
    ensures forall i :: 0 <= i < |s| ==> r[i] == LowerChar(s[i])
  {
    seq(|s|, i requires 0 <= i < |s| => LowerChar(s[i]))
  }

  /** `[A-Z]` */
  predicate IsUpperLetter(c: char) { 'A' <= c <= 'Z' }

  /**
   * Lower-casing leaves no upper-case letter, turns each one into its
   * lower-case letter, keeps every other character, and is idempotent.
   */
  lemma LowerFolds(s: string)
    ensures forall i :: 0 <= i < |s| ==> !IsUpperLetter(Lower(s)[i])
    ensures forall i :: 0 <= i < |s| && IsUpperLetter(s[i]) ==> IsLowerLetter(Lower(s)[i])
    ensures forall i :: 0 <= i < |s| && !IsUpperLetter(s[i]) ==> Lower(s)[i] == s[i]
    ensures Lower(Lower(s)) == Lower(s)
  {
  }

  lemma LowerConcat(a: string, b: string)
    ensures Lower(a + b) == Lower(a) + Lower(b)
  {
  }

  // ---------------------------------------------------------------- search

  /** w occurs in s starting at index i. */
  predicate OccursAt(s: string, w: string, i: int) {
    0 <= i && i + |w| <= |s| && s[i..i + |w|] == w
  }

  /** `s.includes(w)` */
  predicate Contains(s: string, w: string) {
    exists i | 0 <= i <= |s| :: OccursAt(s, w, i)
  }

  /** `s.startsWith(w)` */
  predicate StartsWith(s: string, w: string) {
    OccursAt(s, w, 0)
  }

  lemma ContainsAt(s: string, w: string, i: int)
    requires OccursAt(s, w, i)
    ensures Contains(s, w)
  {
  }

  /** An occurrence inside s[a..b] is an occurrence in s. */
  lemma ContainsInSlice(s: string, a: nat, b: nat, w: string)
    requires a <= b <= |s|
    requires Contains(s[a..b], w)
    ensures Contains(s, w)
  {
    var i :| 0 <= i <= b - a && OccursAt(s[a..b], w, i);
    forall k | 0 <= k < |w| ensures s[a + i + k] == w[k] {
      assert s[a..b][i + k] == s[a + i + k];
    }
    assert s[a + i..a + i + |w|] == w;
    assert OccursAt(s, w, a + i);
  }

  lemma ContainsLeft(a: string, b: string, w: string)
    requires Contains(a, w)
    ensures Contains(a + b, w)
  {
    assert (a + b)[..|a|] == a;
    ContainsInSlice(a + b, 0, |a|, w);
  }

  lemma ContainsRight(a: string, b: string, w: string)
    requires Contains(b, w)
    ensures Contains(a + b, w)
  {
    assert (a + b)[|a|..|a + b|] == b;
    ContainsInSlice(a + b, |a|, |a + b|, w);
  }

  /** The longer word contains the shorter one, so containing it contains the shorter. */
  lemma ContainsTransitive(s: string, w: string, v: string)
    requires Contains(s, w) && Contains(w, v)
    ensures Contains(s, v)
  {
    var i :| 0 <= i <= |s| && OccursAt(s, w, i);
    assert s[i..i + |w|] == w;
    ContainsInSlice(s, i, i + |w|, v);
  }

  /** The index of the last occurrence of w in s, or -1: `s.lastIndexOf(w)`. */
  function LastIndexOf(s: string, w: string): (r: int)
    ensures r == -1 || 0 <= r <= |s| - |w|
  {
    LastIndexBefore(s, w, |s| - |w|)
  }

  function LastIndexBefore(s: string, w: string, i: int): (r: int)
    requires i <= |s| - |w|
    ensures r == -1 || 0 <= r <= i
    decreases i + 1
  {
    if i < 0 then -1
    else if OccursAt(s, w, i) then i
    else LastIndexBefore(s, w, i - 1)
  }

  /** `lastIndexOf` finds an occurrence when it returns one, and none lies after it. */
  lemma LastIndexOfIsLast(s: string, w: string)
    ensures var r := LastIndexOf(s, w);
      (r >= 0 ==> OccursAt(s, w, r)) && forall j :: r < j <= |s| - |w| ==> !OccursAt(s, w, j)
  {
    LastIndexBeforeIsLast(s, w, |s| - |w|);
  }

  lemma {:induction false} LastIndexBeforeIsLast(s: string, w: string, i: int)
    requires i <= |s| - |w|
    ensures var r := LastIndexBefore(s, w, i);
      (r >= 0 ==> OccursAt(s, w, r)) && forall j :: r < j <= i ==> !OccursAt(s, w, j)
    decreases i + 1
  {
    if i >= 0 && !OccursAt(s, w, i) {
      LastIndexBeforeIsLast(s, w, i - 1);
    }
  }

  // ------------------------------------------------------------ whitespace

  predicate AllSpace(s: string) {
    forall k :: 0 <= k < |s| ==> IsSpace(s[k])
  }

  /** The length of the leading run of whitespace. */
  function LeadingSpaces(s: string): (n: nat)
    ensures n <= |s|
    ensures forall k :: 0 <= k < n ==> IsSpace(s[k])
    ensures n < |s| ==> !IsSpace(s[n])
  {
    if s != [] && IsSpace(s[0]) then 1 + LeadingSpaces(s[1..]) else 0
  }

  /** The length of the trailing run of whitespace. */
  function TrailingSpaces(s: string): (n: nat)
    ensures n <= |s|
    ensures forall k :: |s| - n <= k < |s| ==> IsSpace(s[k])
    ensures n < |s| ==> !IsSpace(s[|s| - 1 - n])
  {
    if s != [] && IsSpace(s[|s| - 1]) then 1 + TrailingSpaces(s[..|s| - 1]) else 0
  }

  /** The first index at or after i that is not whitespace (or |s|): where a greedy `\s*` ends. */
  function SkipSpaces(s: string, i: nat): (k: nat)
    requires i <= |s|
    ensures i <= k <= |s|
    ensures forall j :: i <= j < k ==> IsSpace(s[j])
    ensures k < |s| ==> !IsSpace(s[k])
  {
    var n := LeadingSpaces(s[i..]);
    assert forall j :: i <= j < i + n ==> s[j] == s[i..][j - i];
    i + n
  }

  function TrimStart(s: string): string { s[LeadingSpaces(s)..] }

  function TrimEnd(s: string): string { s[..|s| - TrailingSpaces(s)] }

  /** `s.trim()`: the slice between the leading and the trailing whitespace. */
  function Trim(s: string): (r: string)
    ensures |r| <= |s|
    ensures r == [] || (!IsSpace(r[0]) && !IsSpace(r[|r| - 1]))
    ensures LeadingSpaces(s) + |r| <= |s|
    ensures r == s[LeadingSpaces(s)..LeadingSpaces(s) + |r|]
  {
    var a := LeadingSpaces(s);
    var t := s[a..];
    var r := t[..|t| - TrailingSpaces(t)];
    assert r == s[a..a + |r|];
    r
  }

  /** Trim removes whitespace only: nothing else is lost. */
  lemma TrimEmptyIffAllSpace(s: string)
    ensures Trim(s) == [] <==> AllSpace(s)
  {
    var a := LeadingSpaces(s);
    if a == |s| {
      assert Trim(s) == [];
    } else {
      var t := s[a..];
      assert !IsSpace(t[0]);
      assert TrailingSpaces(t) < |t|;
      assert Trim(s) != [];
    }
  }

  lemma TrimIdempotent(s: string)
    ensures Trim(Trim(s)) == Trim(s)
  {
    var r := Trim(s);
    if r != [] {
      assert LeadingSpaces(r) == 0;
      assert TrailingSpaces(r) == 0;
    }
  }

  lemma ContainsTrimmed(s: string, w: string)
    requires Contains(Trim(s), w)
    ensures Contains(s, w)
  {
    var a := LeadingSpaces(s);
    ContainsInSlice(s, a, a + |Trim(s)|, w);
  }

  /** No two adjacent whitespace characters. */
  predicate NoDoubleSpace(s: string) {
    forall i :: 0 <= i < |s| - 1 ==> !(IsSpace(s[i]) && IsSpace(s[i + 1]))
  }

  /** `s.replace(/\s+/g, ' ')` */
  function CollapseSpaces(s: string): (r: string)
    ensures |r| <= |s|
    ensures s == [] <==> r == []
    ensures s != [] ==> r[0] == (if IsSpace(s[0]) then ' ' else s[0])
    decreases |s|
  {
    if s == [] then []
    else if IsSpace(s[0]) then [' '] + CollapseSpaces(s[LeadingSpaces(s)..])
    else [s[0]] + CollapseSpaces(s[1..])
  }

  lemma {:induction false} CollapseSpacesNoDouble(s: string)
    ensures NoDoubleSpace(CollapseSpaces(s))
    decreases |s|
  {
    if s != [] {
      if IsSpace(s[0]) {
        var rest := s[LeadingSpaces(s)..];
        CollapseSpacesNoDouble(rest);
        // the run was maximal, so what follows the single space is not whitespace
        assert rest != [] ==> !IsSpace(rest[0]);
      } else {
        CollapseSpacesNoDouble(s[1..]);
      }
    }
  }

  lemma SliceNoDouble(s: string, a: nat, b: nat)
    requires a <= b <= |s|
    requires NoDoubleSpace(s)
    ensures NoDoubleSpace(s[a..b])
  {
    forall i | 0 <= i < b - a - 1 ensures !(IsSpace(s[a..b][i]) && IsSpace(s[a..b][i + 1])) {
      assert s[a..b][i] == s[a + i] && s[a..b][i + 1] == s[a + i + 1];
    }
  }

  /** `s.replace(/\s+/g, ' ').trim()` has no run of two or more whitespace characters. */
  lemma CollapseTrimNoDouble(s: string)
    ensures NoDoubleSpace(Trim(CollapseSpaces(s)))
  {
    var c := CollapseSpaces(s);
    CollapseSpacesNoDouble(s);
    SliceNoDouble(c, LeadingSpaces(c), LeadingSpaces(c) + |Trim(c)|);
  }

  // ---------------------------------------------------------- word regexes

  /** `\b` at index i: exactly one of the characters around i is a word character. */
  predicate Boundary(s: string, i: int) {
    0 <= i <= |s| && ((i > 0 && IsWordChar(s[i - 1])) != (i < |s| && IsWordChar(s[i])))
  }

  /** The end of the run of `[a-z]` that starts at i. */
  function LetterRunEnd(s: string, i: nat): (k: nat)
    requires i <= |s|
    ensures i <= k <= |s|
    ensures forall j :: i <= j < k ==> IsLowerLetter(s[j])
    ensures k < |s| ==> !IsLowerLetter(s[k])
    decreases |s| - i
  {
    if i < |s| && IsLowerLetter(s[i]) then LetterRunEnd(s, i + 1) else i
  }

  /**
   * `s.replace(/\bfrom\b/g, to)`: the matches are found left to right on the
   * original string, and the scan resumes after each replaced match.
   */
  function ReplaceWord(s: string, from: string, to: string): string
    requires |from| > 0
  {
    ReplaceWordFrom(s, from, to, 0)
  }

  function ReplaceWordFrom(s: string, from: string, to: string, i: nat): string
    requires |from| > 0
    decreases |s| - i
  {
    if i >= |s| then []
    else if Boundary(s, i) && OccursAt(s, from, i) && Boundary(s, i + |from|) then
      to + ReplaceWordFrom(s, from, to, i + |from|)
    else [s[i]] + ReplaceWordFrom(s, from, to, i + 1)
  }

  /** Without an occurrence of the word there is nothing to replace. */
  lemma ReplaceWordAbsent(s: string, from: string, to: string)
    requires |from| > 0 && !Contains(s, from)
    ensures ReplaceWord(s, from, to) == s
  {
    ReplaceWordFromAbsent(s, from, to, 0);
  }

  lemma {:induction false} ReplaceWordFromAbsent(s: string, from: string, to: string, i: nat)
    requires |from| > 0 && !Contains(s, from) && i <= |s|
    ensures ReplaceWordFrom(s, from, to, i) == s[i..]
    decreases |s| - i
  {
    if i < |s| {
      assert !OccursAt(s, from, i);
      ReplaceWordFromAbsent(s, from, to, i + 1);
      assert s[i..] == [s[i]] + s[i + 1..];
    }
  }

  /**
   * A whole-word occurrence of from at i, and no other occurrence at all, is
   * replaced by to and the rest of s is kept.
   */
  lemma ReplaceWordOnce(s: string, from: string, to: string, i: nat)
    requires |from| > 0
    requires Boundary(s, i) && OccursAt(s, from, i) && Boundary(s, i + |from|)
    requires forall j :: 0 <= j <= |s| && j != i ==> !OccursAt(s, from, j)
    ensures ReplaceWord(s, from, to) == s[..i] + to + s[i + |from|..]
  {
    ReplaceWordFromSkips(s, from, to, 0, i);
    ReplaceWordFromNone(s, from, to, i + |from|);
    assert ReplaceWordFrom(s, from, to, i) == to + s[i + |from|..];
    assert s[0..i] == s[..i];
  }

  /** Where from does not occur, the scan copies the characters it passes. */
  lemma {:induction false} ReplaceWordFromSkips(s: string, from: string, to: string, k: nat, i: nat)
    requires |from| > 0 && k <= i <= |s|
    requires forall j :: k <= j < i ==> !OccursAt(s, from, j)
    ensures ReplaceWordFrom(s, from, to, k) == s[k..i] + ReplaceWordFrom(s, from, to, i)
    decreases i - k
  {
    if k < i {
      assert !OccursAt(s, from, k);
      ReplaceWordFromSkips(s, from, to, k + 1, i);
      var rest := ReplaceWordFrom(s, from, to, i);
      assert s[k..i] == [s[k]] + s[k + 1..i];
      assert [s[k]] + (s[k + 1..i] + rest) == ([s[k]] + s[k + 1..i]) + rest;
    }
  }

  lemma {:induction false} ReplaceWordFromNone(s: string, from: string, to: string, k: nat)
    requires |from| > 0 && k <= |s|
    requires forall j :: k <= j <= |s| ==> !OccursAt(s, from, j)
    ensures ReplaceWordFrom(s, from, to, k) == s[k..]
    decreases |s| - k
  {
    if k < |s| {
      assert !OccursAt(s, from, k);
      ReplaceWordFromNone(s, from, to, k + 1);
      assert s[k..] == [s[k]] + s[k + 1..];
    }
  }

  /** A string without upper-case ASCII letters is its own lower case. */
  lemma LowerOfLowercase(s: string)
    requires forall k :: 0 <= k < |s| ==> !('A' <= s[k] <= 'Z')
    ensures Lower(s) == s
  {
  }

  /** A string that neither starts nor ends with whitespace is its own trim. */
  lemma TrimOfTrimmed(s: string)
    requires s == [] || (!IsSpace(s[0]) && !IsSpace(s[|s| - 1]))
    ensures Trim(s) == s
  {
    if s != [] {
      assert LeadingSpaces(s) == 0;
      assert TrailingSpaces(s) == 0;
    }
  }

  // ------------------------------------------------------- split and join

  /** The length of the run of non-separator characters that starts s. */
  function RunLength(s: string, isSep: char -> bool): (n: nat)
    ensures n <= |s|
    ensures forall k :: 0 <= k < n ==> !isSep(s[k])
    ensures n < |s| ==> isSep(s[n])
  {
    if s != [] && !isSep(s[0]) then 1 + RunLength(s[1..], isSep) else 0
  }

  /**
   * The maximal non-empty runs of non-separator characters. For a separator
   * class C this is `s.split(/C+/)` without its empty first or last piece,
   * which every caller filters out by a minimum length.
   */
  function Runs(s: string, isSep: char -> bool): (r: seq<string>)
    ensures forall k :: 0 <= k < |r| ==> |r[k]| > 0
    decreases |s|
  {
    if s == [] then []
    else if isSep(s[0]) then Runs(s[1..], isSep)
    else
      var n := RunLength(s, isSep);
      [s[..n]] + Runs(s[n..], isSep)
  }

  /** Every character of a run is a non-separator character of s. */
  lemma {:induction false} RunsChars(s: string, isSep: char -> bool)
    ensures forall k, j :: 0 <= k < |Runs(s, isSep)| && 0 <= j < |Runs(s, isSep)[k]| ==>
      !isSep(Runs(s, isSep)[k][j]) && Runs(s, isSep)[k][j] in s
    decreases |s|
  {
    if s != [] {
      if isSep(s[0]) {
        RunsChars(s[1..], isSep);
        assert forall c :: c in s[1..] ==> c in s;
      } else {
        var n := RunLength(s, isSep);
        RunsChars(s[n..], isSep);
        assert forall c :: c in s[n..] ==> c in s;
        assert forall c :: c in s[..n] ==> c in s;
      }
    }
  }

  /** `parts.join(sep)` */
  function Join(parts: seq<string>, sep: string): string {
    if |parts| == 0 then ""
    else if |parts| == 1 then parts[0]
    else parts[0] + sep + Join(parts[1..], sep)
  }

  lemma {:induction false} JoinSnoc(parts: seq<string>, x: string, sep: string)
    requires |parts| > 0
    ensures Join(parts + [x], sep) == Join(parts, sep) + sep + x
  {
    if |parts| == 1 {
      assert parts + [x] == [parts[0], x];
    } else {
      assert (parts + [x])[1..] == parts[1..] + [x];
      JoinSnoc(parts[1..], x, sep);
    }
  }

  /** Joining a prefix of the parts gives a prefix of joining them all. */
  lemma {:induction false} JoinPrefix(parts: seq<string>, k: nat, sep: string)
    requires k <= |parts|
    ensures StartsWith(Join(parts, sep), Join(parts[..k], sep))
    decreases |parts|
  {
    if k == 0 {
    } else if |parts| == 1 {
      assert parts[..k] == parts;
    } else if k == 1 {
      assert parts[..1] == [parts[0]];
    } else {
      JoinPrefix(parts[1..], k - 1, sep);
      assert parts[..k][1..] == parts[1..][..k - 1];
      var rest := Join(parts[1..], sep);
      var pre := Join(parts[1..][..k - 1], sep);
      assert rest[..|pre|] == pre;
      assert Join(parts[..k], sep) == parts[0] + sep + pre;
      assert (parts[0] + sep + rest)[..|parts[0] + sep + pre|] == parts[0] + sep + pre;
    }
  }

  /** A join starts with the first part. */
  lemma JoinStartsWithFirst(parts: seq<string>, sep: string)
    requires |parts| > 0
    ensures StartsWith(Join(parts, sep), parts[0])
  {
    JoinPrefix(parts, 1, sep);
    assert parts[..1] == [parts[0]];
  }

  /** Every part occurs in the join. */
  lemma {:induction false} JoinContainsPart(parts: seq<string>, i: nat, sep: string)
    requires i < |parts|
    ensures Contains(Join(parts, sep), parts[i])
    decreases |parts|
  {
    if |parts| == 1 {
      assert parts[0][0..|parts[0]|] == parts[0];
      ContainsAt(parts[0], parts[0], 0);
    } else {
      var rest := Join(parts[1..], sep);
      if i == 0 {
        assert (parts[0] + sep)[0..|parts[0]|] == parts[0];
        ContainsAt(parts[0] + sep, parts[0], 0);
        ContainsLeft(parts[0] + sep, rest, parts[0]);
      } else {
        JoinContainsPart(parts[1..], i - 1, sep);
        ContainsRight(parts[0] + sep, rest, parts[i]);
      }
    }
  }

  /** The total number of characters in parts. */
  function TotalLength(parts: seq<string>): nat {
    if parts == [] then 0 else |parts[0]| + TotalLength(parts[1..])
  }

  lemma {:induction false} TotalLengthSnoc(parts: seq<string>, x: string)
    ensures TotalLength(parts + [x]) == TotalLength(parts) + |x|
  {
    if parts != [] {
      assert (parts + [x])[1..] == parts[1..] + [x];
      TotalLengthSnoc(parts[1..], x);
    }
  }

  /** The decimal digits of n, as `String(n)` writes them. */
  function NatToString(n: nat): (r: string)
    ensures |r| > 0
  {
    if n < 10 then [DigitChar(n)] else NatToString(n / 10) + [DigitChar(n % 10)]
  }

  function DigitChar(d: nat): char
    requires d < 10
  {
    ('0' as int + d) as char
  }

  predicate IsDigit(c: char) { '0' <= c <= '9' }

  lemma {:induction false} NatToStringDigits(n: nat)
    ensures forall k :: 0 <= k < |NatToString(n)| ==> IsDigit(NatToString(n)[k])
  {
    if n >= 10 {
      NatToStringDigits(n / 10);
    }
  }

  /** Different numbers are written differently. */
  lemma {:induction false} NatToStringInjective(a: nat, b: nat)
    requires NatToString(a) == NatToString(b)
    ensures a == b
  {
    var s := NatToString(a);
    if a >= 10 && b >= 10 {
      assert NatToString(a / 10) == s[..|s| - 1] == NatToString(b / 10);
      NatToStringInjective(a / 10, b / 10);
      assert DigitChar(a % 10) == s[|s| - 1] == DigitChar(b % 10);
    }
  }

  /** `s.replace(/[^\w\s]/g, ' ')` */
  function PunctuationToSpace(s: string): (r: string)
    ensures |r| == |s|
    ensures forall k :: 0 <= k < |r| ==> r[k] == (if IsWordChar(s[k]) || IsSpace(s[k]) then s[k] else ' ')
  {
    seq(|s|, k requires 0 <= k < |s| => if IsWordChar(s[k]) || IsSpace(s[k]) then s[k] else ' ')
  }

  /**
   * After the replacement only word characters and whitespace are left,
   * word characters stay where they were, every other character becomes
   * whitespace, and a second replacement changes nothing.
   */
  lemma PunctuationToSpaceShape(s: string)
    ensures forall k :: 0 <= k < |s| ==> IsWordChar(PunctuationToSpace(s)[k]) || IsSpace(PunctuationToSpace(s)[k])
    ensures forall k :: 0 <= k < |s| ==> (IsWordChar(PunctuationToSpace(s)[k]) <==> IsWordChar(s[k]))
    ensures forall k :: 0 <= k < |s| && IsWordChar(s[k]) ==> PunctuationToSpace(s)[k] == s[k]
    ensures PunctuationToSpace(PunctuationToSpace(s)) == PunctuationToSpace(s)
  {
  }
}
