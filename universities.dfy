/**
 * The university registry and the three ways retrieval recognises a
 * university: in a question (`extractUniversityName`), in a stored chunk
 * (`docUniversity`) and as the list of universities a question is about
 * (`getMentionedUniversities`, with its "only X" / "not X" rules).
 */
module Universities {
  import opened Util
  import opened Text
  import opened Knowledge

  /** The five university keys, in the order the default scan tries them. */
  datatype Uni = Aastu | Aau | Adama | Hawassa | Jimma

  /** The key the source uses for the university in every table. */
  function Key(u: Uni): string {
    match u
    case Aastu => "aastu"
    case Aau => "aau"
    case Adama => "adama"
    case Hawassa => "hawassa"
    case Jimma => "jimma"
  }

  /** The position of u in the default scan. */
  function Priority(u: Uni): nat {
    match u
    case Aastu => 0
    case Aau => 1
    case Adama => 2
    case Hawassa => 3
    case Jimma => 4
  }

  const AllUnis: seq<Uni> := [Aastu, Aau, Adama, Hawassa, Jimma]

  lemma AllUnisComplete(u: Uni)
    ensures u in AllUnis && AllUnis[Priority(u)] == u
  {
  }

  /** The query embedded for the per-university vector search. */
  function ExpandedQuery(u: Uni): string {
    match u
    case Aau => "Addis Ababa University AAU Ethiopia programs admission history capital"
    case Adama => "Adama Science and Technology University ASTU Ethiopia programs admission Nazret"
    case Aastu => "Addis Ababa Science and Technology University AASTU Ethiopia programs"
    case Hawassa => "Hawassa University Ethiopia programs admission Sidama"
    case Jimma => "Jimma University Ethiopia programs admission Oromia"
  }

  /** The phrases the per-university text search looks for, case-insensitively, in title or content. */
  function SearchTerms(u: Uni): (r: seq<string>)
    ensures |r| > 0 && forall k :: 0 <= k < |r| ==> r[k] != ""
  {
    match u
    case Aau => ["addis ababa university", "aau"]
    case Adama => ["adama science", "adama university", "astu"]
    case Aastu => ["aastu", "addis ababa science and technology"]
    case Hawassa => ["hawassa university", "hawasa university", "hawassa"]
    case Jimma => ["jimma university", "jima university", "jimma"]
  }

  /** The header of u's section in comparison context. */
  function Label(u: Uni): string {
    match u
    case Aau => "Addis Ababa University (AAU)"
    case Adama => "Adama Science and Technology University (ASTU)"
    case Aastu => "Addis Ababa Science and Technology University (AASTU)"
    case Hawassa => "Hawassa University"
    case Jimma => "Jimma University"
  }

  // ------------------------------------------------ extractUniversityName

  /** The university a question names, tried in the source's order; None when it names none. */
  function ExtractUniversityName(question: string): (r: Option<Uni>)
    ensures r.None? ==> forall u, w :: w in ExtractTerms(u) ==> !Contains(Lower(question), w)
    ensures r.Some? ==> exists w :: w in ExtractTerms(r.value) && Contains(Lower(question), w)
  {
    var q := Lower(question);
    if Contains(q, "addis ababa science") || Contains(q, "addis ababa and technology") || Contains(q, "aastu") then Some(Aastu)
    else if Contains(q, "addis abab") || Contains(q, "addis ababa university") || Contains(q, "aau") || Contains(q, "addis ababa") then Some(Aau)
    else if Contains(q, "adama science") || Contains(q, "adama") || Contains(q, "astu") then Some(Adama)
    else if Contains(q, "hawassa") || Contains(q, "hawasa") then Some(Hawassa)
    else if Contains(q, "jimma") || Contains(q, "jima") then Some(Jimma)
    else None
  }

  /** The substrings that make ExtractUniversityName consider u. */
  function ExtractTerms(u: Uni): seq<string> {
    match u
    case Aastu => ["addis ababa science", "addis ababa and technology", "aastu"]
    case Aau => ["addis abab", "addis ababa university", "aau", "addis ababa"]
    case Adama => ["adama science", "adama", "astu"]
    case Hawassa => ["hawassa", "hawasa"]
    case Jimma => ["jimma", "jima"]
  }

  /**
   * The if-chain's precedence: no university tried before the returned one has
   * any of its terms in the question.
   */
  lemma ExtractPrecedence(question: string)
    ensures var r := ExtractUniversityName(question);
      r.Some? ==> forall v, w :: Priority(v) < Priority(r.value) && w in ExtractTerms(v) ==> !Contains(Lower(question), w)
  {
    var q := Lower(question);
    var r := ExtractUniversityName(question);
    if r.Some? {
      forall v, w | Priority(v) < Priority(r.value) && w in ExtractTerms(v) ensures !Contains(q, w) {
        match v
        case Aastu =>
        case Aau => assert r.value != Aau;
        case Adama => assert r.value in {Hawassa, Jimma};
        case Hawassa => assert r.value == Jimma;
        case Jimma =>
      }
    }
  }

  /**
   * A question that names AASTU (or "addis ababa science") selects AASTU, although
   * it also contains "astu" and may contain "addis ababa": the AASTU test comes first.
   */
  lemma AastuNamedIsAastu(question: string)
    requires Contains(Lower(question), "aastu") || Contains(Lower(question), "addis ababa science")
    ensures ExtractUniversityName(question) == Some(Aastu)
  {
  }

  // ------------------------------------------------------ docUniversity

  /**
   * `docUniversity` exactly as written: the title is tried first, then
   * `title + ' ' + content`. Its title test for "aastu" comes after the test
   * for "astu", which every title containing "aastu" already passes.
   */
  function DocUniversityAsWritten(d: Chunk): Option<Uni> {
    var title := Lower(d.title);
    var t := title + " " + Lower(d.content);
    if Contains(title, "adama") || Contains(title, "astu") then Some(Adama)
    else if Contains(title, "aau") || Contains(title, "addis ababa university") then Some(Aau)
    else if Contains(title, "aastu") then Some(Aastu)
    else if Contains(title, "hawassa") || Contains(title, "hawasa") then Some(Hawassa)
    else if Contains(title, "jimma") || Contains(title, "jima") then Some(Jimma)
    else TextUniversity(t)
  }

  /** The second half of `docUniversity`: the combined title-and-content text. */
  function TextUniversity(t: string): Option<Uni> {
    if Contains(t, "aastu") then Some(Aastu)
    else if Contains(t, "adama") || (Contains(t, "astu") && !Contains(t, "aastu")) then Some(Adama)
    else if Contains(t, "addis ababa") || Contains(t, "aau") then Some(Aau)
    else if Contains(t, "hawassa") || Contains(t, "hawasa") then Some(Hawassa)
    else if Contains(t, "jimma") || Contains(t, "jima") then Some(Jimma)
    else None
  }

  /** "aastu" contains "astu". */
  lemma AastuContainsAstu()
    ensures Contains("aastu", "astu")
  {
    assert OccursAt("aastu", "astu", 1);
  }

  /** As written, a title that names AASTU classifies the chunk as Adama (ASTU): the AASTU title branch is dead. */
  lemma AsWrittenAastuTitleIsAdama(d: Chunk)
    requires Contains(Lower(d.title), "aastu")
    ensures DocUniversityAsWritten(d) == Some(Adama)
  {
    AastuContainsAstu();
    ContainsTransitive(Lower(d.title), "aastu", "astu");
  }

  /** A concrete chunk that shows it: title "AASTU programs". */
  lemma AsWrittenMisclassifiesAastuTitle()
    ensures DocUniversityAsWritten(Chunk(0, "AASTU programs", "", "text", [])) == Some(Adama)
  {
    var title := Lower("AASTU programs");
    assert title[0..5] == "aastu";
    assert OccursAt(title, "aastu", 0);
    AsWrittenAastuTitleIsAdama(Chunk(0, "AASTU programs", "", "text", []));
  }

  /**
   * `docUniversity` as intended: AASTU in the title is recognised before the
   * "astu" test, the order the combined-text half already uses.
   */
  function DocUniversity(d: Chunk): (r: Option<Uni>)
    ensures Contains(Lower(d.title), "aastu") ==> r == Some(Aastu)
  {
    var title := Lower(d.title);
    var t := title + " " + Lower(d.content);
    if Contains(title, "aastu") then Some(Aastu)
    else if Contains(title, "adama") || Contains(title, "astu") then Some(Adama)
    else if Contains(title, "aau") || Contains(title, "addis ababa university") then Some(Aau)
    else if Contains(title, "hawassa") || Contains(title, "hawasa") then Some(Hawassa)
    else if Contains(title, "jimma") || Contains(title, "jima") then Some(Jimma)
    else TextUniversity(t)
  }

  /** Some university term occurs in the lower-cased title. */
  predicate TitleHasTerm(title: string) {
    var l := Lower(title);
    Contains(l, "aastu") || Contains(l, "adama") || Contains(l, "astu") || Contains(l, "aau")
    || Contains(l, "addis ababa university") || Contains(l, "hawassa") || Contains(l, "hawasa")
    || Contains(l, "jimma") || Contains(l, "jima")
  }

  /** The title is weighted over the content: when it names a university, the content is irrelevant. */
  lemma TitleDecides(d: Chunk, e: Chunk)
    requires d.title == e.title && TitleHasTerm(d.title)
    ensures DocUniversity(d) == DocUniversity(e) != None
  {
  }

  /** A chunk whose title names no university but whose text mentions AASTU is AASTU's, never Adama's. */
  lemma AastuInTextIsAastu(d: Chunk)
    requires !TitleHasTerm(d.title)
    requires Contains(Lower(d.content), "aastu")
    ensures DocUniversity(d) == Some(Aastu)
  {
    ContainsRight(Lower(d.title) + " ", Lower(d.content), "aastu");
  }

  /** The two versions differ only on titles that contain "aastu". */
  lemma DocUniversityAgreesElsewhere(d: Chunk)
    requires !Contains(Lower(d.title), "aastu")
    ensures DocUniversity(d) == DocUniversityAsWritten(d)
  {
  }

  // ------------------------------------------ getMentionedUniversities

  /**
   * A regular expression `\b?(w|...)\s+(w|...)\s+...(w|...)\b?`: groups of
   * alternative words separated by whitespace runs, with an optional word
   * boundary before and after. Every word is non-empty and starts with a
   * non-space character, so a greedy `\s+` never has to give a character
   * back and "match at i" is a deterministic predicate.
   */
  datatype Phrase = Phrase(lead: bool, groups: seq<seq<string>>, trail: bool)

  predicate PhraseAt(s: string, i: nat, p: Phrase)
    requires i <= |s|
  {
    (p.lead ==> Boundary(s, i)) && GroupsAt(s, i, p.groups, p.trail)
  }

  /** The groups match from i on: a word of the first, then a whitespace run and the rest. */
  predicate GroupsAt(s: string, i: nat, groups: seq<seq<string>>, trail: bool)
    requires i <= |s|
    decreases |groups|, 0
  {
    if groups == [] then trail ==> Boundary(s, i)
    else exists w | w in groups[0] :: OccursAt(s, w, i) && RestAt(s, i + |w|, groups[1..], trail)
  }

  /** After a word ending at e: the end of the phrase, or a whitespace run and the next groups. */
  predicate RestAt(s: string, e: int, rest: seq<seq<string>>, trail: bool)
    decreases |rest|, 1
  {
    0 <= e <= |s| &&
    if rest == [] then (trail ==> Boundary(s, e))
    else var k := SkipSpaces(s, e); k > e && GroupsAt(s, k, rest, trail)
  }

  /** `re.test(s)`: the phrase matches somewhere. */
  predicate Matches(s: string, p: Phrase) {
    exists i | 0 <= i <= |s| :: PhraseAt(s, i, p)
  }

  predicate MatchesAny(s: string, ps: seq<Phrase>) {
    exists k | 0 <= k < |ps| :: Matches(s, ps[k])
  }

  /**
   * Line 48. Its third alternative, `only\s+(about\s+)?(astu|adama)\b`, has
   * no leading `\b`; it is written as two phrases, with and without "about".
   */
  const OnlyAdama: seq<Phrase> := [
    Phrase(true, [["only", "just"], ["astu", "adama", "adama science"]], true),
    Phrase(true, [["astu", "adama"], ["only", "just"]], true),
    Phrase(false, [["only"], ["astu", "adama"]], true),
    Phrase(false, [["only"], ["about"], ["astu", "adama"]], true)]

  /** Line 50. */
  const OnlyAau: seq<Phrase> := [
    Phrase(true, [["only", "just"], ["aau", "addis ababa"]], true),
    Phrase(true, [["aau", "addis ababa"], ["only", "just"]], true),
    Phrase(false, [["only"], ["aau", "addis ababa"]], true),
    Phrase(false, [["only"], ["about"], ["aau", "addis ababa"]], true)]

  /** Line 52. */
  const OnlyAastu: seq<Phrase> := [
    Phrase(true, [["only", "just"], ["aastu"]], true),
    Phrase(true, [["aastu"], ["only", "just"]], true)]

  /** Line 60: `\bnot\s+aau\b|\bnot\s+addis\s+ababa\b`. */
  const NotAau: seq<Phrase> := [
    Phrase(true, [["not"], ["aau"]], true),
    Phrase(true, [["not"], ["addis"], ["ababa"]], true)]

  /** Line 62: `\bnot\s+astu\b|\bnot\s+adama\b`. */
  const NotAdama: seq<Phrase> := [
    Phrase(true, [["not"], ["astu"]], true),
    Phrase(true, [["not"], ["adama"]], true)]

  predicate MentionsAdama(q: string) { Contains(q, "astu") || Contains(q, "adama") }

  predicate MentionsAau(q: string) { Contains(q, "aau") || Contains(q, "addis ababa") }

  /** The test of the default scan, lines 66-70, for one university. */
  predicate ScanHit(q: string, u: Uni) {
    match u
    case Aastu => Contains(q, "aastu") || (Contains(q, "addis ababa") && Contains(q, "science"))
    case Aau => Contains(q, "aau") || Contains(q, "addis ababa") || Contains(q, "addis abab")
    case Adama => Contains(q, "astu") || Contains(q, "adama")
    case Hawassa => Contains(q, "hawassa") || Contains(q, "hawasa")
    case Jimma => Contains(q, "jimma") || Contains(q, "jima")
  }

  /** The universities of us that the scan finds, in the order of us. */
  function Scan(q: string, us: seq<Uni>): (r: seq<Uni>)
    ensures forall u :: u in r <==> u in us && ScanHit(q, u)
    ensures |r| <= |us|
  {
    if us == [] then []
    else (if ScanHit(q, us[0]) then [us[0]] else []) + Scan(q, us[1..])
  }

  /** The rule of lines 47-63 that decides the question, if one does. */
  function ExclusiveRule(q: string): Option<Uni> {
    if MatchesAny(q, OnlyAdama) then Some(Adama)
    else if MatchesAny(q, OnlyAau) then Some(Aau)
    else if MatchesAny(q, OnlyAastu) then Some(Aastu)
    else if Contains(q, "only") && MentionsAdama(q) && !Contains(q, "aau") && !Contains(q, "addis ababa") then Some(Adama)
    else if Contains(q, "only") && MentionsAau(q) && !Contains(q, "astu") && !Contains(q, "adama") then Some(Aau)
    else if MatchesAny(q, NotAau) && MentionsAdama(q) then Some(Adama)
    else if MatchesAny(q, NotAdama) && MentionsAau(q) then Some(Aau)
    else None
  }

  /** `getMentionedUniversities`: the universities a question is about. */
  function MentionedUniversities(question: string): (r: seq<Uni>)
    ensures NoDuplicates(r) && |r| <= 5
  {
    var q := Trim(Lower(question));
    match ExclusiveRule(q)
    case Some(u) => [u]
    case None => Dedup(Scan(q, AllUnis))
  }

  /** Strictly increasing in scan priority: the order the default scan pushes in. */
  predicate InScanOrder(r: seq<Uni>) {
    forall i, j :: 0 <= i < j < |r| ==> Priority(r[i]) < Priority(r[j])
  }

  lemma {:induction false} ScanKeepsOrder(q: string, us: seq<Uni>)
    requires InScanOrder(us)
    ensures InScanOrder(Scan(q, us))
  {
    if us != [] {
      assert InScanOrder(us[1..]);
      ScanKeepsOrder(q, us[1..]);
      var rest := Scan(q, us[1..]);
      forall j | 0 <= j < |rest| ensures Priority(us[0]) < Priority(rest[j]) {
        assert rest[j] in us[1..];
      }
    }
  }

  /**
   * Without an exclusivity rule, the result names exactly the universities
   * the scan finds, each once and in the fixed order aastu, aau, adama,
   * hawassa, jimma.
   */
  lemma DefaultScanResult(question: string)
    requires ExclusiveRule(Trim(Lower(question))) == None
    ensures var r := MentionedUniversities(question);
      (forall u :: u in r <==> ScanHit(Trim(Lower(question)), u)) && InScanOrder(r)
  {
    var q := Trim(Lower(question));
    var s := Scan(q, AllUnis);
    ScanKeepsOrder(q, AllUnis);
    assert NoDuplicates(s);
    DedupOfDistinct(s);
    forall u ensures u in AllUnis { AllUnisComplete(u); }
  }

  // ------------------------------------------------ the exclusivity rules

  /** The pieces of an occurrence of `a + " " + b`. */
  lemma SpacedOccurrence(s: string, a: string, b: string, i: nat)
    requires OccursAt(s, a + " " + b, i)
    ensures OccursAt(s, a, i) && s[i + |a|] == ' ' && OccursAt(s, b, i + |a| + 1)
  {
    var w := a + " " + b;
    assert s[i..i + |w|] == w;
    assert s[i..i + |a|] == s[i..i + |w|][..|a|] == w[..|a|] == a;
    assert s[i + |a|] == s[i..i + |w|][|a|] == w[|a|];
    assert s[i + |a| + 1..i + |w|] == s[i..i + |w|][|a| + 1..] == w[|a| + 1..] == b;
  }

  lemma SkipOneSpace(s: string, e: nat)
    requires e + 1 < |s| && IsSpace(s[e]) && !IsSpace(s[e + 1])
    ensures SkipSpaces(s, e) == e + 1
  {
  }

  /**
   * A two-group phrase with both boundaries matches at an occurrence of
   * `a b` (one space) bounded by word boundaries, when a and b are words of
   * its groups and b starts with a non-space.
   */
  lemma TwoWordPhraseAt(s: string, p: Phrase, a: string, b: string, i: nat)
    requires |p.groups| == 2 && a in p.groups[0] && b in p.groups[1] && p.trail
    requires |b| > 0 && !IsSpace(b[0])
    requires OccursAt(s, a + " " + b, i) && Boundary(s, i) && Boundary(s, i + |a| + 1 + |b|)
    ensures Matches(s, p)
  {
    SpacedOccurrence(s, a, b, i);
    var e := i + |a|;
    assert s[e + 1] == b[0];
    SkipOneSpace(s, e);
    assert p.groups[1..][1..] == [];
    assert RestAt(s, e + 1 + |b|, p.groups[1..][1..], true);
    assert GroupsAt(s, e + 1, p.groups[1..], true);
    assert RestAt(s, e, p.groups[1..], true);
    assert GroupsAt(s, i, p.groups, true);
    assert PhraseAt(s, i, p);
  }

  lemma ExclusiveDecides(question: string, u: Uni)
    requires ExclusiveRule(Trim(Lower(question))) == Some(u)
    ensures MentionedUniversities(question) == [u]
  {
  }

  /**
   * "only astu", "just adama" and the like select ASTU alone, overriding every other university named.
   * The lemma takes the phrase with one space between the words; the rule
   * accepts any run of whitespace there, and that general case follows from
   * ExclusiveDecides and the phrase encoding of the rule, not from this lemma.
   */
  lemma OnlyAdamaPhraseSelectsAdama(question: string, lead: string, name: string, i: nat)
    requires lead == "only" || lead == "just"
    requires name == "astu" || name == "adama"
    requires var q := Trim(Lower(question));
      OccursAt(q, lead + " " + name, i) && Boundary(q, i) && Boundary(q, i + |lead| + 1 + |name|)
    ensures MentionedUniversities(question) == [Adama]
  {
    OnlyAdamaPhraseRule(Trim(Lower(question)), lead, name, i);
    ExclusiveDecides(question, Adama);
  }

  lemma OnlyAdamaPhraseRule(q: string, lead: string, name: string, i: nat)
    requires lead == "only" || lead == "just"
    requires name == "astu" || name == "adama"
    requires OccursAt(q, lead + " " + name, i) && Boundary(q, i) && Boundary(q, i + |lead| + 1 + |name|)
    ensures ExclusiveRule(q) == Some(Adama)
  {
    TwoWordPhraseAt(q, OnlyAdama[0], lead, name, i);
    assert MatchesAny(q, OnlyAdama);
  }

  /**
   * "only aau", "just aau" select AAU alone, unless an ASTU/Adama rule (tried first) also applies.
   * The lemma takes the phrase with one space between the words; the rule
   * accepts any run of whitespace there, and that general case follows from
   * ExclusiveDecides and the phrase encoding of the rule, not from this lemma.
   */
  lemma OnlyAauPhraseSelectsAau(question: string, lead: string, i: nat)
    requires lead == "only" || lead == "just"
    requires var q := Trim(Lower(question));
      !MatchesAny(q, OnlyAdama)
      && OccursAt(q, lead + " aau", i) && Boundary(q, i) && Boundary(q, i + |lead| + 4)
    ensures MentionedUniversities(question) == [Aau]
  {
    OnlyAauPhraseRule(Trim(Lower(question)), lead, i);
    ExclusiveDecides(question, Aau);
  }

  lemma OnlyAauPhraseRule(q: string, lead: string, i: nat)
    requires lead == "only" || lead == "just"
    requires !MatchesAny(q, OnlyAdama)
      && OccursAt(q, lead + " aau", i) && Boundary(q, i) && Boundary(q, i + |lead| + 4)
    ensures ExclusiveRule(q) == Some(Aau)
  {
    TwoWordPhraseAt(q, OnlyAau[0], lead, "aau", i);
    assert MatchesAny(q, OnlyAau);
  }

  /**
   * "only aastu", "just aastu" select AASTU alone, unless a rule tried before it applies.
   * The lemma takes the phrase with one space between the words; the rule
   * accepts any run of whitespace there, and that general case follows from
   * ExclusiveDecides and the phrase encoding of the rule, not from this lemma.
   */
  lemma OnlyAastuPhraseSelectsAastu(question: string, lead: string, i: nat)
    requires lead == "only" || lead == "just"
    requires var q := Trim(Lower(question));
      !MatchesAny(q, OnlyAdama) && !MatchesAny(q, OnlyAau)
      && OccursAt(q, lead + " aastu", i) && Boundary(q, i) && Boundary(q, i + |lead| + 6)
    ensures MentionedUniversities(question) == [Aastu]
  {
    OnlyAastuPhraseRule(Trim(Lower(question)), lead, i);
    ExclusiveDecides(question, Aastu);
  }

  lemma OnlyAastuPhraseRule(q: string, lead: string, i: nat)
    requires lead == "only" || lead == "just"
    requires !MatchesAny(q, OnlyAdama) && !MatchesAny(q, OnlyAau)
      && OccursAt(q, lead + " aastu", i) && Boundary(q, i) && Boundary(q, i + |lead| + 6)
    ensures ExclusiveRule(q) == Some(Aastu)
  {
    TwoWordPhraseAt(q, OnlyAastu[0], lead, "aastu", i);
    assert MatchesAny(q, OnlyAastu);
  }

  /** The words of group g of a match: one of them occurs in the text. */
  lemma {:induction false} GroupsAtContains(s: string, i: nat, groups: seq<seq<string>>, trail: bool, g: nat)
    requires i <= |s| && g < |groups|
    requires GroupsAt(s, i, groups, trail)
    ensures exists w | w in groups[g] :: Contains(s, w)
    decreases |groups|
  {
    var w :| w in groups[0] && OccursAt(s, w, i) && RestAt(s, i + |w|, groups[1..], trail);
    if g == 0 {
      assert Contains(s, w);
    } else {
      var k := SkipSpaces(s, i + |w|);
      assert groups[1..][g - 1] == groups[g];
      GroupsAtContains(s, k, groups[1..], trail, g - 1);
    }
  }

  lemma PhraseContains(s: string, p: Phrase, g: nat)
    requires g < |p.groups| && Matches(s, p)
    ensures exists w | w in p.groups[g] :: Contains(s, w)
  {
    var i :| 0 <= i <= |s| && PhraseAt(s, i, p);
    GroupsAtContains(s, i, p.groups, p.trail, g);
  }

  /** A phrase none of whose group-g words occurs does not match. */
  lemma NoWordNoMatch(s: string, p: Phrase, g: nat)
    requires g < |p.groups| && forall w | w in p.groups[g] :: !Contains(s, w)
    ensures !Matches(s, p)
  {
    if Matches(s, p) { PhraseContains(s, p, g); }
  }

  /** A question without the words "only" and "just" matches none of the phrase rules of lines 48-53. */
  lemma NoOnlyWordNoOnlyPhrase(q: string)
    requires !Contains(q, "only") && !Contains(q, "just")
    ensures NoOnlyPhrase(q)
  {
    NoWordNoMatch(q, OnlyAdama[0], 0);
    NoWordNoMatch(q, OnlyAdama[1], 1);
    NoWordNoMatch(q, OnlyAdama[2], 0);
    NoWordNoMatch(q, OnlyAdama[3], 0);
    NoWordNoMatch(q, OnlyAau[0], 0);
    NoWordNoMatch(q, OnlyAau[1], 1);
    NoWordNoMatch(q, OnlyAau[2], 0);
    NoWordNoMatch(q, OnlyAau[3], 0);
    NoWordNoMatch(q, OnlyAastu[0], 0);
    NoWordNoMatch(q, OnlyAastu[1], 1);
  }

  /** None of the "only"/"just" phrase rules of lines 48-53 matches. */
  predicate NoOnlyPhrase(q: string) {
    !MatchesAny(q, OnlyAdama) && !MatchesAny(q, OnlyAau) && !MatchesAny(q, OnlyAastu)
  }

  /**
   * "not aau" in a question that mentions ASTU or Adama selects ASTU alone,
   * unless an "only"/"just" phrase rule applies first. The substring rules
   * of lines 55-58 cannot apply: the question mentions both AAU and ASTU.
   */
  lemma NotAauSelectsAdama(question: string, i: nat)
    requires var q := Trim(Lower(question));
      NoOnlyPhrase(q)
      && OccursAt(q, "not aau", i) && Boundary(q, i) && Boundary(q, i + 7)
      && MentionsAdama(q)
    ensures MentionedUniversities(question) == [Adama]
  {
    NotAauRule(Trim(Lower(question)), i);
    ExclusiveDecides(question, Adama);
  }

  lemma NotAauRule(q: string, i: nat)
    requires NoOnlyPhrase(q)
      && OccursAt(q, "not aau", i) && Boundary(q, i) && Boundary(q, i + 7)
      && MentionsAdama(q)
    ensures ExclusiveRule(q) == Some(Adama)
  {
    SpacedOccurrence(q, "not", "aau", i);
    assert Contains(q, "aau");
    TwoWordPhraseAt(q, NotAau[0], "not", "aau", i);
    assert MatchesAny(q, NotAau);
  }

  /**
   * "not astu" or "not adama" in a question that mentions AAU selects AAU
   * alone, unless an "only"/"just" phrase rule or the "not aau" rule
   * applies first. The substring rules of lines 55-58 cannot apply: the
   * question mentions both AAU and ASTU.
   */
  lemma NotAdamaSelectsAau(question: string, name: string, i: nat)
    requires name == "astu" || name == "adama"
    requires var q := Trim(Lower(question));
      NoOnlyPhrase(q) && !MatchesAny(q, NotAau)
      && OccursAt(q, "not " + name, i) && Boundary(q, i) && Boundary(q, i + 4 + |name|)
      && MentionsAau(q)
    ensures MentionedUniversities(question) == [Aau]
  {
    NotAdamaRule(Trim(Lower(question)), name, i);
    ExclusiveDecides(question, Aau);
  }

  lemma NotAdamaRule(q: string, name: string, i: nat)
    requires name == "astu" || name == "adama"
    requires NoOnlyPhrase(q) && !MatchesAny(q, NotAau)
      && OccursAt(q, "not " + name, i) && Boundary(q, i) && Boundary(q, i + 4 + |name|)
      && MentionsAau(q)
    ensures ExclusiveRule(q) == Some(Aau)
  {
    SpacedOccurrence(q, "not", name, i);
    assert Contains(q, name);
    var p := if name == "astu" then NotAdama[0] else NotAdama[1];
    TwoWordPhraseAt(q, p, "not", name, i);
    assert MatchesAny(q, NotAdama);
  }

  lemma TermsListed()
    ensures "aastu" in ExtractTerms(Aastu)
    ensures "aau" in ExtractTerms(Aau) && "addis ababa" in ExtractTerms(Aau) && "addis abab" in ExtractTerms(Aau)
    ensures "astu" in ExtractTerms(Adama) && "adama" in ExtractTerms(Adama)
    ensures "hawassa" in ExtractTerms(Hawassa) && "hawasa" in ExtractTerms(Hawassa)
    ensures "jimma" in ExtractTerms(Jimma) && "jima" in ExtractTerms(Jimma)
  {
  }

  /** "adama science" contains "adama". */
  lemma NoAdamaNoAdamaScience(q: string)
    requires !Contains(q, "adama")
    ensures !Contains(q, "adama science")
  {
    assert OccursAt("adama science", "adama", 0);
    if Contains(q, "adama science") {
      ContainsTransitive(q, "adama science", "adama");
    }
  }

  /** With no university term in q, no exclusivity rule fires. */
  lemma NoTermNoRule(q: string)
    requires forall u, w :: w in ExtractTerms(u) ==> !Contains(q, w)
    ensures ExclusiveRule(q) == None
  {
    TermsListed();
    NoAdamaNoAdamaScience(q);
    NoWordNoMatch(q, OnlyAdama[0], 1);
    NoWordNoMatch(q, OnlyAdama[1], 0);
    NoWordNoMatch(q, OnlyAdama[2], 1);
    NoWordNoMatch(q, OnlyAdama[3], 2);
    NoWordNoMatch(q, OnlyAau[0], 1);
    NoWordNoMatch(q, OnlyAau[1], 0);
    NoWordNoMatch(q, OnlyAau[2], 1);
    NoWordNoMatch(q, OnlyAau[3], 2);
    NoWordNoMatch(q, OnlyAastu[0], 1);
    NoWordNoMatch(q, OnlyAastu[1], 0);
  }

  lemma {:induction false} ScanFindsNothing(q: string, us: seq<Uni>)
    requires forall u :: !ScanHit(q, u)
    ensures Scan(q, us) == []
  {
    if us != [] {
      ScanFindsNothing(q, us[1..]);
    }
  }

  /** A question that names no university, as ExtractUniversityName sees it, mentions none. */
  lemma NoNameNoMention(question: string)
    requires ExtractUniversityName(question) == None
    ensures MentionedUniversities(question) == []
  {
    var l := Lower(question);
    var q := Trim(l);
    forall u, w | w in ExtractTerms(u) ensures !Contains(q, w) {
      if Contains(q, w) { ContainsTrimmed(l, w); }
    }
    NoTermNoRule(q);
    TermsListed();
    forall u ensures !ScanHit(q, u) {
      if u.Aastu? { assert !Contains(q, "addis ababa"); }
    }
    ScanFindsNothing(q, AllUnis);

  }
}
