/**
 * Answer generation from retrieved context: the call to the generator with
 * its rate-limit retry policy and context truncation, the question's topic
 * terms, the extractive answer used when no generator answer is available,
 * and the policy that chooses between them.
 */
module Answer {
  import opened Util
  import opened Text

  const MaxContextChars := 60000
  const GeminiMaxRetries := 3
  const GeminiRetryDelayMs := 2000
  const ContextDelimiter: string := "\n\n--- Retrieved context (use this only) ---\n"
  const TruncationMarker: string := "\n...[truncated]"

  const AnswerPrefix: string := "Based on the uploaded documents: "
  const NotEnoughMessage: string := "The uploaded documents don't contain enough specific information for that question. Try asking about a particular university or program by name, or check the institution's official website."
  const NoInformationMessage: string := "I don't have information about that in the uploaded documents. Add PDFs, text, or website URLs about it in Admin \U{2192} Knowledge, or check the institution's official website."

  // ------------------------------------------------------------ generator

  /**
   * What one HTTP call to the generator gives: a reply, whose first candidate
   * text may be missing, or a thrown error, whose response status may be missing.
   */
  datatype Reply = Replied(text: Option<string>) | Error(status: Option<int>)

  /** The loop's result: the answer, how many calls were made and the waits between them. */
  datatype GeminiRun = GeminiRun(answer: Option<string>, calls: nat, delays: seq<int>)

  /** The context as sent: cut to its first 60000 characters plus a marker when longer. */
  function TruncateContext(context: string): string {
    if |context| > MaxContextChars then context[..MaxContextChars] + TruncationMarker else context
  }

  lemma TruncateContextShape(context: string)
    ensures StartsWith(TruncateContext(context), Take(context, MaxContextChars))
    ensures |TruncateContext(context)| <= MaxContextChars + |TruncationMarker|
    ensures |context| <= MaxContextChars ==> TruncateContext(context) == context
    ensures |context| > MaxContextChars ==> TruncateContext(context)[MaxContextChars..] == TruncationMarker
  {
    if |context| > MaxContextChars {
      assert TruncateContext(context)[..MaxContextChars] == context[..MaxContextChars];
    }
  }

  /** The system instruction: the prompt, the delimiter and the (truncated) context. */
  function SystemText(prompt: string, context: string): string {
    prompt + ContextDelimiter + TruncateContext(context)
  }

  /** `text?.trim()` followed by `text || null`: a missing or blank text is no answer. */
  function ReplyAnswer(text: Option<string>): (r: Option<string>)
    ensures r.Some? ==> r.value != "" && Trim(r.value) == r.value
    ensures r.None? <==> text.None? || AllSpace(text.value)
  {
    if text.None? then None
    else
      TrimEmptyIffAllSpace(text.value);
      TrimIdempotent(text.value);
      if Trim(text.value) == "" then None else Some(Trim(text.value))
  }

  /** What a single call's outcome answers, when the loop stops on it. */
  function Answered(reply: Reply): Option<string> {
    if reply.Replied? then ReplyAnswer(reply.text) else None
  }

  /** A thrown 429 (rate limited) before the last attempt: the only case that is retried. */
  predicate Retried(reply: Reply, attempt: nat) {
    reply.Error? && reply.status == Some(429) && attempt < GeminiMaxRetries
  }

  /**
   * The retry loop from `attempt` on; `send(systemText, question, k)` is the
   * outcome of the k-th identical request. Past the last attempt the loop
   * falls through to `return null`.
   */
  function AttemptsFrom(systemText: string, question: string, send: (string, string, nat) -> Reply, attempt: nat): GeminiRun
    requires 1 <= attempt <= GeminiMaxRetries + 1
    decreases GeminiMaxRetries + 1 - attempt
  {
    if attempt > GeminiMaxRetries then GeminiRun(None, GeminiMaxRetries, [])
    else
      var reply := send(systemText, question, attempt);
      if Retried(reply, attempt) then
        var rest := AttemptsFrom(systemText, question, send, attempt + 1);
        GeminiRun(rest.answer, rest.calls, [GeminiRetryDelayMs * attempt] + rest.delays)
      else GeminiRun(Answered(reply), attempt, [])
  }

  /** `generateAnswerWithGemini(context, question)` with the API key `key` ("" when unset). */
  function GeminiOutcome(key: string, prompt: string, context: string, question: string,
                         send: (string, string, nat) -> Reply): GeminiRun
  {
    if key == "" || context == "" then GeminiRun(None, 0, [])
    else AttemptsFrom(SystemText(prompt, context), question, send, 1)
  }

  /** The loop made every call up to the one it stopped on, and retried exactly the 429s before it. */
  lemma {:induction false} AttemptsFromPolicy(systemText: string, question: string,
                                              send: (string, string, nat) -> Reply, attempt: nat)
    requires 1 <= attempt <= GeminiMaxRetries
    ensures attempt <= AttemptsFrom(systemText, question, send, attempt).calls <= GeminiMaxRetries
    ensures forall k :: attempt <= k < AttemptsFrom(systemText, question, send, attempt).calls ==>
      Retried(send(systemText, question, k), k)
    ensures !Retried(send(systemText, question, AttemptsFrom(systemText, question, send, attempt).calls),
                     AttemptsFrom(systemText, question, send, attempt).calls)
    ensures AttemptsFrom(systemText, question, send, attempt).answer ==
      Answered(send(systemText, question, AttemptsFrom(systemText, question, send, attempt).calls))
    ensures |AttemptsFrom(systemText, question, send, attempt).delays| ==
      AttemptsFrom(systemText, question, send, attempt).calls - attempt
    ensures forall j :: 0 <= j < |AttemptsFrom(systemText, question, send, attempt).delays| ==>
      AttemptsFrom(systemText, question, send, attempt).delays[j] == GeminiRetryDelayMs * (attempt + j)
    decreases GeminiMaxRetries - attempt
  {
    var reply := send(systemText, question, attempt);
    if Retried(reply, attempt) {
      AttemptsFromPolicy(systemText, question, send, attempt + 1);
      var rest := AttemptsFrom(systemText, question, send, attempt + 1);
      var run := AttemptsFrom(systemText, question, send, attempt);
      assert run.delays == [GeminiRetryDelayMs * attempt] + rest.delays;
      forall j | 0 <= j < |run.delays| ensures run.delays[j] == GeminiRetryDelayMs * (attempt + j) {
        if j > 0 { assert run.delays[j] == rest.delays[j - 1]; }
      }
    }
  }

  /**
   * No key or no context: no call and no answer. Otherwise between one and
   * three calls, each retry follows a 429 and waits 2000 ms times the attempt
   * that failed, any other failure ends the loop at once, and the answer is
   * the trimmed text of the call the loop stopped on.
   */
  lemma GeminiRetryPolicy(key: string, prompt: string, context: string, question: string,
                          send: (string, string, nat) -> Reply)
    ensures key == "" || context == "" ==> GeminiOutcome(key, prompt, context, question, send) == GeminiRun(None, 0, [])
    ensures key != "" && context != "" ==>
      1 <= GeminiOutcome(key, prompt, context, question, send).calls <= GeminiMaxRetries &&
      (forall k :: 1 <= k < GeminiOutcome(key, prompt, context, question, send).calls ==>
        send(SystemText(prompt, context), question, k) == Error(Some(429))) &&
      !Retried(send(SystemText(prompt, context), question, GeminiOutcome(key, prompt, context, question, send).calls),
               GeminiOutcome(key, prompt, context, question, send).calls) &&
      GeminiOutcome(key, prompt, context, question, send).answer ==
        Answered(send(SystemText(prompt, context), question, GeminiOutcome(key, prompt, context, question, send).calls))
    ensures |GeminiOutcome(key, prompt, context, question, send).delays| <= GeminiMaxRetries - 1
    ensures forall j :: 0 <= j < |GeminiOutcome(key, prompt, context, question, send).delays| ==>
      GeminiOutcome(key, prompt, context, question, send).delays[j] == GeminiRetryDelayMs * (j + 1)
  {
    if key != "" && context != "" {
      AttemptsFromPolicy(SystemText(prompt, context), question, send, 1);
    }
  }

  /** The loop invariant: what remains from `attempt` on, after `delays`, completes the whole run. */
  ghost predicate Continues(systemText: string, question: string, send: (string, string, nat) -> Reply,
                            attempt: nat, delays: seq<int>, total: GeminiRun)
    requires 1 <= attempt <= GeminiMaxRetries + 1
  {
    AttemptsFrom(systemText, question, send, attempt).answer == total.answer &&
    AttemptsFrom(systemText, question, send, attempt).calls == total.calls &&
    delays + AttemptsFrom(systemText, question, send, attempt).delays == total.delays
  }

  lemma RetryStep(systemText: string, question: string, send: (string, string, nat) -> Reply,
                  attempt: nat, delays: seq<int>, total: GeminiRun)
    requires 1 <= attempt <= GeminiMaxRetries && Continues(systemText, question, send, attempt, delays, total)
    requires Retried(send(systemText, question, attempt), attempt)
    ensures Continues(systemText, question, send, attempt + 1, delays + [GeminiRetryDelayMs * attempt], total)
  {
    AppendAssoc(delays, [GeminiRetryDelayMs * attempt], AttemptsFrom(systemText, question, send, attempt + 1).delays);
  }

  lemma StopStep(systemText: string, question: string, send: (string, string, nat) -> Reply,
                 attempt: nat, delays: seq<int>, total: GeminiRun)
    requires 1 <= attempt <= GeminiMaxRetries && Continues(systemText, question, send, attempt, delays, total)
    requires !Retried(send(systemText, question, attempt), attempt)
    ensures total == GeminiRun(Answered(send(systemText, question, attempt)), attempt, delays)
  {
    assert delays + [] == delays;
  }

  /** The attempt loop of `generateAnswerWithGemini`. */
  method GenerateAnswerWithGemini(key: string, prompt: string, context: string, question: string,
                                  send: (string, string, nat) -> Reply)
    returns (answer: Option<string>, calls: nat, delays: seq<int>)
    ensures GeminiRun(answer, calls, delays) == GeminiOutcome(key, prompt, context, question, send)
  {
    if key == "" || context == "" {
      return None, 0, [];
    }
    var truncated := TruncateContext(context);
    var systemText := prompt + ContextDelimiter + truncated;
    ghost var total := AttemptsFrom(systemText, question, send, 1);
    var attempt := 1;
    delays := [];
    while attempt <= GeminiMaxRetries
      invariant 1 <= attempt <= GeminiMaxRetries + 1
      invariant Continues(systemText, question, send, attempt, delays, total)
      decreases GeminiMaxRetries + 1 - attempt
    {
      var reply := send(systemText, question, attempt);
      if reply.Replied? {
        StopStep(systemText, question, send, attempt, delays, total);
        return ReplyAnswer(reply.text), attempt, delays;
      }
      if reply.status == Some(429) && attempt < GeminiMaxRetries {
        var delay := GeminiRetryDelayMs * attempt;
        RetryStep(systemText, question, send, attempt, delays, total);
        delays := delays + [delay];
        attempt := attempt + 1;
      } else {
        StopStep(systemText, question, send, attempt, delays, total);
        return None, attempt, delays;
      }
    }
    return None, GeminiMaxRetries, delays;
  }

  // ---------------------------------------------------------- topic terms

  /** The university names searched for in a question, in this order. */
  const UniversityNames: seq<string> := ["addis ababa", "aau", "adama", "astu", "aastu", "hawassa", "hawasa", "jimma", "jima"]

  /** The names that the lower-cased question q contains, in list order. */
  function NamesIn(q: string, names: seq<string>): (r: seq<string>)
    ensures |r| <= |names|
    ensures forall n :: n in r <==> n in names && Contains(q, n)
  {
    Filter(names, (n: string) => Contains(q, n))
  }

  predicate LongTopicWord(w: string) { |w| > 3 }
  predicate LongBlock(b: string) { |b| >= 30 }
  predicate LongSentence(s: string) { |s| > 25 }
  predicate LongQuestionWord(w: string) { |w| > 2 }

  /** `q.replace(/[^\w\s]/g, ' ').split(/\s+/).filter(w => w.length > 3).slice(0, 5)` */
  function TopicWords(q: string): seq<string> {
    Take(Filter(Runs(PunctuationToSpace(q), IsSpace), LongTopicWord), 5)
  }

  /** At most five words, each a run of word characters longer than 3. */
  lemma TopicWordsShape(q: string)
    ensures |TopicWords(q)| <= 5
    ensures forall t :: t in TopicWords(q) ==> |t| > 3 && forall j :: 0 <= j < |t| ==> IsWordChar(t[j])
  {
    var p := PunctuationToSpace(q);
    var runs := Runs(p, IsSpace);
    var words := Filter(runs, LongTopicWord);
    RunsChars(p, IsSpace);
    forall t | t in TopicWords(q) ensures |t| > 3 && forall j :: 0 <= j < |t| ==> IsWordChar(t[j]) {
      assert t in words;
      var k :| 0 <= k < |runs| && runs[k] == t;
      forall j | 0 <= j < |t| ensures IsWordChar(t[j]) {
        assert !IsSpace(runs[k][j]) && runs[k][j] in p;
      }
    }
  }

  /** `getQuestionTopicTerms`: the university names the question contains, then its first five words longer than 3, without repeats. */
  function TopicTerms(question: string): seq<string> {
    Dedup(NamesIn(Lower(question), UniversityNames) + TopicWords(Lower(question)))
  }

  /**
   * The terms are distinct and at most fourteen; every listed name the
   * lower-cased question contains is one, and every other term is a run of
   * word characters longer than 3.
   */
  lemma TopicTermsShape(question: string)
    ensures NoDuplicates(TopicTerms(question))
    ensures |TopicTerms(question)| <= |UniversityNames| + 5
    ensures forall n :: n in UniversityNames && Contains(Lower(question), n) ==> n in TopicTerms(question)
    ensures forall t :: t in TopicTerms(question) ==>
      (t in UniversityNames && Contains(Lower(question), t)) ||
      (|t| > 3 && forall j :: 0 <= j < |t| ==> IsWordChar(t[j]))
  {
    TopicWordsShape(Lower(question));
  }

  // --------------------------------------------------- extractive answer

  /** The index of the first c at or after i, or |s|. */
  function IndexFrom(s: string, c: char, i: nat): (k: nat)
    requires i <= |s|
    ensures i <= k <= |s|
    ensures forall j :: i <= j < k ==> s[j] != c
    ensures k < |s| ==> s[k] == c
    decreases |s| - i
  {
    if i == |s| || s[i] == c then i else IndexFrom(s, c, i + 1)
  }

  /** `\s*\n` matches at i: the whitespace run starting at i contains a line break. */
  predicate NewlineInSpaceRun(s: string, i: nat)
    decreases |s| - i
  {
    i < |s| && IsSpace(s[i]) && (s[i] == '\n' || NewlineInSpaceRun(s, i + 1))
  }

  /** `\[[^\]]+\]\s*\n` matches at i: a `[title]` line. */
  predicate LabelLineAt(s: string, i: nat) {
    i < |s| && s[i] == '[' &&
    var j := IndexFrom(s, ']', i + 1);
    i + 1 < j < |s| && NewlineInSpaceRun(s, j + 1)
  }

  /** `\n(?=\[[^\]]+\]\s*\n)`: a line break just before a `[title]` line. */
  predicate BlockBreak(s: string, i: nat) {
    i < |s| && s[i] == '\n' && LabelLineAt(s, i + 1)
  }

  /** The first block break at or after i, or |s|. */
  function FirstBreak(s: string, i: nat): (k: nat)
    requires i <= |s|
    ensures i <= k <= |s|
    ensures k < |s| ==> BlockBreak(s, k)
    decreases |s| - i
  {
    if i == |s| || BlockBreak(s, i) then i else FirstBreak(s, i + 1)
  }

  /** `context.split(/\n(?=\[[^\]]+\]\s*\n)/)`: the matched line breaks are dropped. */
  function SplitBlocks(s: string): (r: seq<string>)
    ensures |r| > 0
    decreases |s|
  {
    var k := FirstBreak(s, 0);
    if k == |s| then [s] else [s[..k]] + SplitBlocks(s[k + 1..])
  }

  /** Splitting only drops the break characters: joining the parts with line breaks restores the text. */
  lemma {:induction false} SplitBlocksJoin(s: string)
    ensures Join(SplitBlocks(s), "\n") == s
    decreases |s|
  {
    var k := FirstBreak(s, 0);
    if k < |s| {
      SplitBlocksJoin(s[k + 1..]);
      assert SplitBlocks(s) == [s[..k]] + SplitBlocks(s[k + 1..]);
      assert s[k] == '\n';
      assert s == s[..k] + "\n" + s[k + 1..];
    }
  }

  /** The loop over the parts: each part trimmed, kept when at least 30 characters remain. */
  function KeptBlocks(parts: seq<string>): (r: seq<string>)
    ensures |r| <= |parts|
    ensures forall k :: 0 <= k < |r| ==> |r[k]| >= 30 && !IsSpace(r[k][0])
  {
    if parts == [] then []
    else
      var last := parts[|parts| - 1];
      KeptBlocks(parts[..|parts| - 1]) + (if |Trim(last)| >= 30 then [Trim(last)] else [])
  }

  /** The loop keeps exactly what trimming every part and filtering by length keeps, in order. */
  lemma {:induction false} KeptBlocksIsFilter(parts: seq<string>)
    ensures KeptBlocks(parts) == Filter(TrimAll(parts), LongBlock)
  {
    if parts != [] {
      var init := parts[..|parts| - 1];
      var last := parts[|parts| - 1];
      KeptBlocksIsFilter(init);
      assert TrimAll(parts) == TrimAll(init) + [Trim(last)];
      FilterSnoc(TrimAll(init), Trim(last), LongBlock);
    }
  }

  /** One step of the block-collecting loop. */
  method KeepBlock(blocks: seq<string>, part: string, ghost done: seq<string>) returns (blocks': seq<string>)
    requires blocks == KeptBlocks(done)
    ensures blocks' == KeptBlocks(done + [part])
  {
    assert (done + [part])[..|done|] == done;
    var trimmed := Trim(part);
    blocks' := blocks;
    if |trimmed| >= 30 {
      blocks' := blocks + [trimmed];
    }
  }

  /** The blocks of a context, or the whole context when no part is long enough. */
  function DocumentBlocks(context: string): seq<string> {
    var kept := KeptBlocks(SplitBlocks(context));
    if kept == [] then [context] else kept
  }

  /** `terms.some(t => s.includes(t))` */
  predicate MentionsAny(s: string, terms: seq<string>) {
    exists t | t in terms :: Contains(s, t)
  }

  /** The blocks that mention a topic term, when there are terms and some block does; otherwise all blocks. */
  function TopicFiltered(blocks: seq<string>, terms: seq<string>): (r: seq<string>)
    ensures forall b :: b in r ==> b in blocks
    ensures r == blocks || forall b :: b in r ==> MentionsAny(Lower(b), terms)
  {
    var topic := Filter(blocks, (b: string) => MentionsAny(Lower(b), terms));
    if |terms| > 0 && |topic| > 0 then topic else blocks
  }

  /** The end of the run of line breaks starting at i: where a greedy `\n*` stops. */
  function NewlineRunEnd(s: string, i: nat): (k: nat)
    requires i <= |s|
    ensures i <= k <= |s|
    decreases |s| - i
  {
    if i < |s| && s[i] == '\n' then NewlineRunEnd(s, i + 1) else i
  }

  /** Where a match of `\n*\[[^\]]+\]\n*` starting at i ends, or -1 when none starts there. */
  function LabelMatchEnd(s: string, i: nat): (e: int)
    requires i <= |s|
    ensures e == -1 || i + 3 <= e <= |s|
  {
    var a := NewlineRunEnd(s, i);
    if a < |s| && s[a] == '[' then
      var j := IndexFrom(s, ']', a + 1);
      if a + 1 < j < |s| then NewlineRunEnd(s, j + 1) else -1
    else -1
  }

  /** The global replacement of `\n*\[[^\]]+\]\n*` by one space, scanning from i. */
  function StripLabelsFrom(s: string, i: nat): string
    requires i <= |s|
    decreases |s| - i
  {
    if i == |s| then ""
    else
      var e := LabelMatchEnd(s, i);
      if e >= 0 then " " + StripLabelsFrom(s, e) else [s[i]] + StripLabelsFrom(s, i + 1)
  }

  function StripLabels(s: string): string {
    StripLabelsFrom(s, 0)
  }

  /** A text without `[` has no label to replace. */
  lemma StripLabelsWithoutBracket(s: string)
    requires '[' !in s
    ensures StripLabels(s) == s
  {
    StripLabelsFromWithoutBracket(s, 0);
  }

  lemma {:induction false} StripLabelsFromWithoutBracket(s: string, i: nat)
    requires '[' !in s && i <= |s|
    ensures StripLabelsFrom(s, i) == s[i..]
    decreases |s| - i
  {
    if i < |s| {
      var a := NewlineRunEnd(s, i);
      assert a < |s| ==> s[a] in s;
      StripLabelsFromWithoutBracket(s, i + 1);
      assert s[i..] == [s[i]] + s[i + 1..];
    }
  }

  /** The joined blocks with every label match replaced by a space, whitespace runs collapsed and the ends trimmed. */
  function CleanText(blocks: seq<string>): (r: string)
    ensures NoDoubleSpace(r)
  {
    CollapseTrimNoDouble(StripLabels(Join(blocks, "\n\n")));
    Trim(CollapseSpaces(StripLabels(Join(blocks, "\n\n"))))
  }

  predicate IsTerminator(c: char) { c == '.' || c == '!' || c == '?' }

  /** `parts.map(s => s.trim())` */
  function TrimAll(parts: seq<string>): (r: seq<string>)
    ensures |r| == |parts|
    ensures forall k :: 0 <= k < |r| ==> r[k] == Trim(parts[k])
  {
    if parts == [] then [] else TrimAll(parts[..|parts| - 1]) + [Trim(parts[|parts| - 1])]
  }

  /** `clean.split(/[.!?]+/).map(s => s.trim()).filter(s => s.length > 25)` */
  function Sentences(clean: string): (r: seq<string>)
    ensures forall s :: s in r ==> |s| > 25 && !IsSpace(s[0])
  {
    Filter(TrimAll(Runs(clean, IsTerminator)), LongSentence)
  }

  /** `question.toLowerCase().split(/\s+/).filter(w => w.length > 2)` */
  function QuestionWords(question: string): (r: seq<string>)
    ensures forall w :: w in r ==> |w| > 2
  {
    Filter(Runs(Lower(question), IsSpace), LongQuestionWord)
  }

  /** The sentences whose lower case contains a question word, in order. */
  function Relevant(sentences: seq<string>, words: seq<string>): (r: seq<string>)
    ensures |r| <= |sentences|
    ensures forall s :: s in r <==> s in sentences && MentionsAny(Lower(s), words)
  {
    Filter(sentences, (s: string) => MentionsAny(Lower(s), words))
  }

  /** At most six relevant sentences, or, when none is relevant, at most eight sentences. */
  function Shown(sentences: seq<string>, relevant: seq<string>): seq<string> {
    if |relevant| > 0 then Take(relevant, 6) else Take(sentences, 8)
  }

  /** The shown sentences joined by ". ", with a final "." when some were left out. */
  function RawAnswer(sentences: seq<string>, relevant: seq<string>): string {
    var shown := Shown(sentences, relevant);
    Join(shown, ". ") + (if |shown| < (if |relevant| > 0 then |relevant| else |sentences|) then "." else "")
  }

  /** `raw.length > 600 ? raw.slice(0, 600) + '...' : raw` */
  function CapAnswer(raw: string): string {
    if |raw| > 600 then raw[..600] + "..." else raw
  }

  /** The sentences of the blocks that the question's topic terms select. */
  function BlockSentences(blocks: seq<string>, question: string): seq<string> {
    Sentences(CleanText(TopicFiltered(blocks, TopicTerms(question))))
  }

  /** The reply for a capped answer: the not-enough message when it is blank, the prefixed answer otherwise. */
  function Finish(answer: string): (r: string)
    ensures r != ""
  {
    assert |NotEnoughMessage| > 0 && |AnswerPrefix| > 0;
    if Trim(answer) == "" then NotEnoughMessage else AnswerPrefix + answer
  }

  /** The answer built from the sentences and the relevant ones among them. */
  function AnswerFrom(sentences: seq<string>, relevant: seq<string>): string {
    Finish(CapAnswer(RawAnswer(sentences, relevant)))
  }

  /** The answer built from the sentences and the question words. */
  function AnswerFromSentences(sentences: seq<string>, words: seq<string>): string {
    AnswerFrom(sentences, Relevant(sentences, words))
  }

  /** The rest of `buildAnswerFromContext`, once the blocks are collected. */
  function AnswerFromBlocks(blocks: seq<string>, question: string): string {
    AnswerFromSentences(BlockSentences(blocks, question), QuestionWords(question))
  }

  /** `buildAnswerFromContext(context, question)` */
  function ExtractiveAnswer(context: string, question: string): string {
    AnswerFromBlocks(DocumentBlocks(context), question)
  }

  /** The cap keeps the first 600 characters and adds "..." only to a longer answer. */
  lemma CapAnswerBound(raw: string)
    ensures |CapAnswer(raw)| <= 603
    ensures StartsWith(CapAnswer(raw), Take(raw, 600))
    ensures |raw| <= 600 ==> CapAnswer(raw) == raw
    ensures |raw| > 600 ==> CapAnswer(raw)[600..] == "..."
  {
    if |raw| > 600 {
      assert CapAnswer(raw)[..600] == raw[..600];
    }
  }

  /**
   * The shown sentences: the first up to six relevant ones, each containing a
   * question word, or, when no sentence is relevant, the first up to eight
   * sentences; nothing is shown only when there is no sentence.
   */
  lemma ShownSelection(sentences: seq<string>, words: seq<string>)
    ensures |Relevant(sentences, words)| > 0 ==>
      |Shown(sentences, Relevant(sentences, words))| <= 6 &&
      forall s :: s in Shown(sentences, Relevant(sentences, words)) ==> s in sentences && MentionsAny(Lower(s), words)
    ensures |Relevant(sentences, words)| == 0 ==>
      Shown(sentences, Relevant(sentences, words)) == Take(sentences, 8)
    ensures Shown(sentences, Relevant(sentences, words)) == [] <==> sentences == []
  {
    var relevant := Relevant(sentences, words);
    if |relevant| > 0 {
      assert relevant[0] in relevant;
      forall s | s in Take(relevant, 6) ensures s in relevant {
      }
    }
  }

  /** A non-empty answer starts with a sentence, which starts with a visible character. */
  lemma AnswerVisible(sentences: seq<string>, relevant: seq<string>)
    requires forall s :: s in sentences ==> |s| > 25 && !IsSpace(s[0])
    requires forall s :: s in relevant ==> s in sentences
    requires sentences != []
    ensures Trim(CapAnswer(RawAnswer(sentences, relevant))) != ""
  {
    var shown := Shown(sentences, relevant);
    if |relevant| > 0 { assert relevant[0] in relevant; }
    assert shown[0] in sentences;
    JoinStartsWithFirst(shown, ". ");
    var answer := CapAnswer(RawAnswer(sentences, relevant));
    assert answer[0] == shown[0][0];
    TrimEmptyIffAllSpace(answer);
  }

  /** Without sentences the answer is the fixed not-enough message. */
  lemma NoSentenceNotEnough(sentences: seq<string>, words: seq<string>)
    requires sentences == []
    ensures AnswerFromSentences(sentences, words) == NotEnoughMessage
  {
    assert Relevant(sentences, words) == [];
  }

  /** With a sentence the answer is the prefix followed by at most 603 characters. */
  lemma SentencePrefixed(sentences: seq<string>, relevant: seq<string>)
    requires forall s :: s in sentences ==> |s| > 25 && !IsSpace(s[0])
    requires forall s :: s in relevant ==> s in sentences
    requires sentences != []
    ensures StartsWith(AnswerFrom(sentences, relevant), AnswerPrefix)
    ensures |AnswerFrom(sentences, relevant)| <= |AnswerPrefix| + 603
  {
    AnswerVisible(sentences, relevant);
    CapAnswerBound(RawAnswer(sentences, relevant));
    PrefixedAnswer(CapAnswer(RawAnswer(sentences, relevant)));
  }

  lemma PrefixedAnswer(answer: string)
    requires Trim(answer) != "" && |answer| <= 603
    ensures StartsWith(Finish(answer), AnswerPrefix) && |Finish(answer)| <= |AnswerPrefix| + 603
  {
    assert (AnswerPrefix + answer)[..|AnswerPrefix|] == AnswerPrefix;
  }

  /** The block-collecting loop of `buildAnswerFromContext`. */
  method CollectBlocks(context: string) returns (blocks: seq<string>)
    ensures blocks == DocumentBlocks(context)
  {
    var parts := SplitBlocks(context);
    blocks := [];
    var i := 0;
    while i < |parts|
      invariant 0 <= i <= |parts|
      invariant blocks == KeptBlocks(parts[..i])
    {
      blocks := KeepBlock(blocks, parts[i], parts[..i]);
      assert parts[..i + 1] == parts[..i] + [parts[i]];
      i := i + 1;
    }
    assert parts[..i] == parts;
    if blocks == [] {
      blocks := [context];
    }
  }

  /** `buildAnswerFromContext`: the blocks, then the sentence selection. */
  method BuildAnswerFromContext(context: string, question: string) returns (answer: string)
    ensures answer == ExtractiveAnswer(context, question)
    ensures answer != ""
  {
    var blocks := CollectBlocks(context);
    answer := AnswerFromBlocks(blocks, question);
  }

  // -------------------------------------------------------------- policy

  /**
   * `generateAnswer`: with context and a key, the generator's answer when it
   * gives one; with context otherwise, the extractive answer; without
   * context, the fixed no-information message. The answer is never empty.
   */
  method GenerateAnswer(key: string, prompt: string, context: string, question: string,
                        send: (string, string, nat) -> Reply)
    returns (answer: string)
    ensures context == "" ==> answer == NoInformationMessage
    ensures context != "" && key != "" && GeminiOutcome(key, prompt, context, question, send).answer.Some? ==>
      answer == GeminiOutcome(key, prompt, context, question, send).answer.value
    ensures context != "" && (key == "" || GeminiOutcome(key, prompt, context, question, send).answer.None?) ==>
      answer == ExtractiveAnswer(context, question)
    ensures answer != ""
  {
    if context != "" {
      if key != "" {
        var geminiAnswer, _, _ := GenerateAnswerWithGemini(key, prompt, context, question, send);
        if geminiAnswer.Some? {
          return geminiAnswer.value;
        }
      }
      answer := BuildAnswerFromContext(context, question);
      return;
    }
    return NoInformationMessage;
  }
}
