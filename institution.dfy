/**
 * The "wrong institution" safety check: which institution a question asks
 * about (`extractAskedInstitution`), its canonical spelling
 * (`normalizeInstitutionName`) and whether retrieved context is about it
 * (`contextMatchesQuestion`).
 */
module Institution {
  import opened Util
  import opened Text
  import opened Knowledge

  /** `s.replace(/\buniverstiy\b/g, 'university')` */
  function FixUniversityTypo(s: string): string {
    ReplaceWord(s, "universtiy", "university")
  }

  /** `normalizeInstitutionName`: lower-cased, trimmed, typos fixed, "jima"/"hawasa" spelled out. */
  function NormalizeInstitutionName(name: string): (r: string)
    ensures r != "jima" && r != "hawasa"
  {
    var n := FixUniversityTypo(Trim(Lower(name)));
    if n == "jima" || n == "jimma" then "jimma"
    else if n == "hawasa" || n == "hawassa" then "hawassa"
    else n
  }

  /** The two spellings of each of Jimma and Hawassa normalise to one key, whatever the case and padding. */
  lemma NormalizeMergesSpellings(name: string)
    ensures var n := Trim(Lower(name));
      (n == "jima" || n == "jimma" ==> NormalizeInstitutionName(name) == "jimma")
      && (n == "hawasa" || n == "hawassa" ==> NormalizeInstitutionName(name) == "hawassa")
  {
    var n := Trim(Lower(name));
    if |n| < 10 {
      assert !Contains(n, "universtiy");
      ReplaceWordAbsent(n, "universtiy", "university");
    }
  }

  /** A lower-case, trimmed name without the typo is left as it is. */
  lemma NormalizeKeepsCleanName(name: string)
    requires forall k :: 0 <= k < |name| ==> !('A' <= name[k] <= 'Z')
    requires name == [] || (!IsSpace(name[0]) && !IsSpace(name[|name| - 1]))
    requires !Contains(name, "universtiy")
    requires name !in ["jima", "hawasa"]
    ensures NormalizeInstitutionName(name) == name
  {
    LowerOfLowercase(name);
    TrimOfTrimmed(name);
    ReplaceWordAbsent(name, "universtiy", "university");
  }

  /**
   * The documented typo fix: a name whose trimmed lower case holds "universtiy"
   * once, as a whole word at i, is normalised with "university" in its place.
   */
  lemma NormalizeFixesTypo(name: string, i: nat)
    requires var n := Trim(Lower(name));
      Boundary(n, i) && OccursAt(n, "universtiy", i) && Boundary(n, i + 10)
      && forall j :: 0 <= j <= |n| && j != i ==> !OccursAt(n, "universtiy", j)
    ensures var n := Trim(Lower(name));
      NormalizeInstitutionName(name) == n[..i] + "university" + n[i + 10..]
  {
    var n := Trim(Lower(name));
    ReplaceWordOnce(n, "universtiy", "university", i);
    var f := n[..i] + "university" + n[i + 10..];
    assert f[i..i + 10] == "university";
    assert |f| >= 10;
  }

  // ------------------------------------------- extractAskedInstitution

  /**
   * Where the keyword of `(?:about|regarding|information\s+about)` that starts
   * at p ends; at most one of the three can start at a given index.
   */
  function AboutKeywordEnd(q: string, p: nat): (r: Option<nat>)
    requires p <= |q|
    ensures r.Some? ==> p < r.value <= |q|
  {
    if OccursAt(q, "about", p) then Some(p + 5)
    else if OccursAt(q, "regarding", p) then Some(p + 9)
    else if OccursAt(q, "information", p) then
      var k := SkipSpaces(q, p + 11);
      if k > p + 11 && OccursAt(q, "about", k) then Some(k + 5) else None
    else None
  }

  /** The first index at or after e holding '.' or '?', or |q|: where `[^.?]+` must stop. */
  function StopIndex(q: string, e: nat): (m: nat)
    requires e <= |q|
    ensures e <= m <= |q|
    ensures forall k :: e <= k < m ==> q[k] != '.' && q[k] != '?'
    ensures m < |q| ==> q[m] == '.' || q[m] == '?'
    decreases |q| - e
  {
    if e == |q| || q[e] == '.' || q[e] == '?' then e else StopIndex(q, e + 1)
  }

  /**
   * The match of `(?:about|...)\s+([^.?]+?)(?:\s*$|\s*\?|\.)` that starts at
   * p, as its trimmed capture. After the keyword (ending at e) comes at least
   * one whitespace character and at least one capture character before the
   * first '.' or '?' (at m). The lazy capture then stops at m or at the
   * whitespace in front of it, and so, once trimmed, is q[e..m] trimmed.
   */
  function AboutAt(q: string, p: nat): Option<string>
    requires p <= |q|
  {
    match AboutKeywordEnd(q, p)
    case None => None
    case Some(e) =>
      var m := StopIndex(q, e);
      if e < |q| && IsSpace(q[e]) && e + 2 <= m then Some(Trim(q[e..m])) else None
  }

  /** The leftmost match at or after p. */
  function AboutFrom(q: string, p: nat): (r: Option<string>)
    requires p <= |q|
    ensures r.Some? ==> forall k :: 0 <= k < |r.value| ==> r.value[k] != '.' && r.value[k] != '?'
    decreases |q| - p
  {
    match AboutAt(q, p)
    case Some(x) =>
      var e := AboutKeywordEnd(q, p).value;
      var m := StopIndex(q, e);
      assert x == q[e..m][LeadingSpaces(q[e..m])..LeadingSpaces(q[e..m]) + |x|];
      Some(x)
    case None => if p == |q| then None else AboutFrom(q, p + 1)
  }

  /**
   * `phrase.replace(/\s+university\s*$/i, '').trim() || phrase` on a trimmed
   * phrase: a final "university" after whitespace is cut off with that
   * whitespace; an empty remainder keeps the phrase.
   */
  function DropUniversitySuffix(phrase: string): string {
    var n := |phrase|;
    var cut :=
      if n > 10 && phrase[n - 10..] == "university" && IsSpace(phrase[n - 11])
      then Trim(phrase[..n - 10]) else Trim(phrase);
    if cut == "" then phrase else cut
  }

  /** `university` at i, followed by a word boundary. */
  predicate UniversityAt(q: string, i: nat) {
    OccursAt(q, "university", i) && Boundary(q, i + 10)
  }

  /**
   * The match of `\b([a-z]+(?:\s+[a-z]+)?)\s+university\b` at p, as its
   * capture. The optional second word is tried first; `[a-z]+` is followed
   * by whitespace or nothing, so no shorter word can help and the match is
   * deterministic.
   */
  function UniversityWordsAt(q: string, p: nat): (r: Option<string>)
    requires p <= |q|
    ensures r.Some? ==> CapturedWords(r.value) && exists i :: p < i <= |q| && UniversityAt(q, i)
  {
    if !(p < |q| && Boundary(q, p) && IsLowerLetter(q[p])) then None
    else
      var a := LetterRunEnd(q, p);
      var b := SkipSpaces(q, a);
      if b == a then None
      else
        var c := LetterRunEnd(q, b);
        var d := SkipSpaces(q, c);
        if c > b && d > c && UniversityAt(q, d) then Some(q[p..c])
        else if UniversityAt(q, b) then Some(q[p..a])
        else None
  }

  /** The capture of the words pattern: lower-case letters and whitespace, starting and ending with a letter. */
  predicate CapturedWords(x: string) {
    |x| > 0 && IsLowerLetter(x[0]) && IsLowerLetter(x[|x| - 1])
    && forall k :: 0 <= k < |x| ==> IsLowerLetter(x[k]) || IsSpace(x[k])
  }

  /** The leftmost match of the words pattern at or after p: a word or two in front of a whole-word "university". */
  function UniversityWordsFrom(q: string, p: nat): (r: Option<string>)
    requires p <= |q|
    ensures r.Some? ==> CapturedWords(r.value) && exists i :: p < i <= |q| && UniversityAt(q, i)
    decreases |q| - p
  {
    match UniversityWordsAt(q, p)
    case Some(x) => Some(x)
    case None => if p == |q| then None else UniversityWordsFrom(q, p + 1)
  }

  /** The match of `\b(astu|aau|aastu)\b` at p, alternatives in that order. */
  function ShortNameAt(q: string, p: nat): (r: Option<string>)
    requires p <= |q|
    ensures r.Some? ==> r.value in ShortNames && WholeWordAt(q, r.value, p)
    ensures r.None? ==> forall w :: w in ShortNames ==> !WholeWordAt(q, w, p)
  {
    if !Boundary(q, p) then None
    else if OccursAt(q, "astu", p) && Boundary(q, p + 4) then Some("astu")
    else if OccursAt(q, "aau", p) && Boundary(q, p + 3) then Some("aau")
    else if OccursAt(q, "aastu", p) && Boundary(q, p + 5) then Some("aastu")
    else None
  }

  const ShortNames: seq<string> := ["astu", "aau", "aastu"]

  /** w occurs in q at i as a whole word. */
  predicate WholeWordAt(q: string, w: string, i: int) {
    Boundary(q, i) && OccursAt(q, w, i) && Boundary(q, i + |w|)
  }

  /** The leftmost whole-word short name at or after p; None exactly when there is none. */
  function ShortNameFrom(q: string, p: nat): (r: Option<string>)
    requires p <= |q|
    ensures r.Some? ==> r.value in ShortNames && exists i :: p <= i <= |q| && WholeWordAt(q, r.value, i)
    ensures r.None? ==> forall i, w :: p <= i <= |q| && w in ShortNames ==> !WholeWordAt(q, w, i)
    decreases |q| - p
  {
    match ShortNameAt(q, p)
    case Some(x) => Some(x)
    case None => if p == |q| then None else ShortNameFrom(q, p + 1)
  }

  /** The universities the knowledge base does not cover, each with the name it is reported under. */
  const KnownOtherUniversities: seq<(string, string)> :=
    [("unity university", "unity"), ("bahir dar university", "bahir dar"), ("hope university", "hope")]

  function KnownOtherFrom(q: string, k: nat): Option<string>
    requires k <= |KnownOtherUniversities|
    decreases |KnownOtherUniversities| - k
  {
    if k == |KnownOtherUniversities| then None
    else if Contains(q, KnownOtherUniversities[k].0) then Some(KnownOtherUniversities[k].1)
    else KnownOtherFrom(q, k + 1)
  }

  /** `extractAskedInstitution`: the institution a question is about, normalised, or None. */
  function ExtractAskedInstitution(question: string): (r: Option<string>)
    ensures r.Some? ==> r.value != "jima" && r.value != "hawasa"
  {
    var q := FixUniversityTypo(Trim(Lower(question)));
    match KnownOtherFrom(q, 0)
    case Some(name) => Some(NormalizeInstitutionName(name))
    case None =>
      match AboutFrom(q, 0)
      case Some(phrase) =>
        Some(NormalizeInstitutionName(if Contains(phrase, "university") then DropUniversitySuffix(phrase) else phrase))
      case None =>
        match UniversityWordsFrom(q, 0)
        case Some(x) => Some(NormalizeInstitutionName(Trim(x)))
        case None =>
          match ShortNameFrom(q, 0)
          case Some(x) => Some(NormalizeInstitutionName(x))
          case None => None
  }

  /** A question naming a university the knowledge base does not cover reports that university. */
  lemma KnownOtherReported(question: string, k: nat)
    requires k < |KnownOtherUniversities|
    requires var q := FixUniversityTypo(Trim(Lower(question)));
      Contains(q, KnownOtherUniversities[k].0) && forall j :: 0 <= j < k ==> !Contains(q, KnownOtherUniversities[j].0)
    ensures ExtractAskedInstitution(question) == Some(KnownOtherUniversities[k].1)
  {
    var q := FixUniversityTypo(Trim(Lower(question)));
    var name := KnownOtherUniversities[k].1;
    KnownOtherFirst(q, 0, k);
    NormalizeKeepsCleanName(name);
  }

  lemma {:induction false} KnownOtherFirst(q: string, i: nat, k: nat)
    requires i <= k < |KnownOtherUniversities|
    requires Contains(q, KnownOtherUniversities[k].0) && forall j :: i <= j < k ==> !Contains(q, KnownOtherUniversities[j].0)
    ensures KnownOtherFrom(q, i) == Some(KnownOtherUniversities[k].1)
    decreases k - i
  {
    if i < k {
      KnownOtherFirst(q, i + 1, k);
    }
  }

  /**
   * The last fallback: a question with no "university", "about" or "regarding"
   * reports a whole-word "astu", "aau" or "aastu" it contains, and nothing when
   * it contains none of them.
   */
  lemma ShortNameFallback(question: string)
    requires var q := FixUniversityTypo(Trim(Lower(question)));
      !Contains(q, "university") && !Contains(q, "about") && !Contains(q, "regarding")
    ensures var q := FixUniversityTypo(Trim(Lower(question)));
      var r := ExtractAskedInstitution(question);
      (r.Some? ==> r.value in ShortNames && exists i :: 0 <= i <= |q| && WholeWordAt(q, r.value, i))
      && (r.None? <==> forall i, w :: 0 <= i <= |q| && w in ShortNames ==> !WholeWordAt(q, w, i))
  {
    var q := FixUniversityTypo(Trim(Lower(question)));
    KnownOthersNeedUniversity(q, 0);
    NoKeywordNoAbout(q, 0);
    NoUniversityNoWords(q);
    var x := ShortNameFrom(q, 0);
    assert ExtractAskedInstitution(question) == if x.Some? then Some(NormalizeInstitutionName(x.value)) else None;
    if x.Some? {
      ShortNameIsClean(x.value);
    }
  }

  lemma NoUniversityNoWords(q: string)
    requires !Contains(q, "university")
    ensures UniversityWordsFrom(q, 0) == None
  {
  }

  /** The short names are their own normal form. */
  lemma ShortNameIsClean(x: string)
    requires x in ShortNames
    ensures NormalizeInstitutionName(x) == x
  {
    assert !Contains(x, "universtiy");
    NormalizeKeepsCleanName(x);
  }

  /** Every listed other university contains "university", so a question without it names none of them. */
  lemma {:induction false} KnownOthersNeedUniversity(q: string, k: nat)
    requires k <= |KnownOtherUniversities| && !Contains(q, "university")
    ensures KnownOtherFrom(q, k) == None
    decreases |KnownOtherUniversities| - k
  {
    if k < |KnownOtherUniversities| {
      var name := KnownOtherUniversities[k].0;
      assert OccursAt(name, "university", |name| - 10);
      if Contains(q, name) {
        ContainsTransitive(q, name, "university");
      }
      KnownOthersNeedUniversity(q, k + 1);
    }
  }

  /** Without "about" and "regarding" no keyword of the about pattern matches. */
  lemma {:induction false} NoKeywordNoAbout(q: string, p: nat)
    requires p <= |q| && !Contains(q, "about") && !Contains(q, "regarding")
    ensures AboutFrom(q, p) == None
    decreases |q| - p
  {
    assert !OccursAt(q, "about", p) && !OccursAt(q, "regarding", p);
    if OccursAt(q, "information", p) {
      var k := SkipSpaces(q, p + 11);
      assert !OccursAt(q, "about", k);
    }
    if p < |q| {
      NoKeywordNoAbout(q, p + 1);
    }
  }

  // --------------------------------------------- contextMatchesQuestion

  /** `/^(addis\s+ababa|aau|adama|astu|aastu|hawassa|hawasa|jimma|jima)$/`, or a key starting "addis abab". */
  predicate KnownKey(key: string) {
    key in ["aau", "adama", "astu", "aastu", "hawassa", "hawasa", "jimma", "jima"]
    || (|key| > 10 && key[..5] == "addis" && key[|key| - 5..] == "ababa" && AllSpace(key[5..|key| - 5]))
    || StartsWith(key, "addis abab")
  }

  /** The exact patterns searched for in the context, in the source's order (one is listed twice). */
  function ExactPatterns(key: string): seq<string> {
    [key + " university", "university of " + key, key + " university", key]
  }

  predicate TitleMatches(title: string, key: string) {
    var t := Lower(title);
    Contains(t, key + " university") || Contains(t, "university of " + key) || t == key
  }

  /**
   * The normalised key of the asked institution, or None when the check is
   * waived: no institution, one shorter than two characters, or a known key.
   */
  function StrictKey(question: string): Option<string> {
    match ExtractAskedInstitution(question)
    case None => None
    case Some(asked) =>
      if |asked| < 2 then None
      else
        var key := Lower(Trim(CollapseSpaces(asked)));
        if KnownKey(key) then None else Some(key)
  }

  /** One of the exact patterns occurs in the lower-cased context. */
  predicate PatternInContext(contextLower: string, key: string) {
    exists k | 0 <= k < 4 :: Contains(contextLower, ExactPatterns(key)[k])
  }

  /**
   * `contextMatchesQuestion`: the context may be used unless the question
   * asks about an institution that is not one of the known keys and that no
   * exact pattern finds in the context and no chunk's title names.
   */
  function ContextMatchesQuestion(question: string, contextText: string, docs: seq<Chunk>): bool {
    match StrictKey(question)
    case None => true
    case Some(key) => PatternInContext(Lower(contextText), key) || exists d | d in docs :: TitleMatches(d.title, key)
  }

  /** The longer patterns contain the key, so the pattern search is a search for the key itself. */
  lemma PatternInContextIff(c: string, key: string)
    ensures PatternInContext(c, key) <==> Contains(c, key)
  {
    assert OccursAt(key + " university", key, 0);
    assert OccursAt("university of " + key, key, 14);
    if Contains(c, key + " university") { ContainsTransitive(c, key + " university", key); }
    if Contains(c, "university of " + key) { ContainsTransitive(c, "university of " + key, key); }
    assert ExactPatterns(key)[3] == key;
  }

  /**
   * The check fails exactly when a strict key exists, the context does not
   * contain it at all and no chunk's title is the key, "key university" or
   * "university of key": the longer patterns only matter in titles.
   */
  lemma ContextMatchesIff(question: string, contextText: string, docs: seq<Chunk>)
    ensures ContextMatchesQuestion(question, contextText, docs) <==>
      match StrictKey(question)
      case None => true
      case Some(key) => Contains(Lower(contextText), key) || exists d | d in docs :: TitleMatches(d.title, key)
  {
    if StrictKey(question).Some? {
      PatternInContextIff(Lower(contextText), StrictKey(question).value);
    }
  }
}
