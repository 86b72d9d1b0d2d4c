# EthioUni retrieval and ingestion, modelled in Dafny

EthioUni is an assistant that answers questions about Ethiopian universities from documents an administrator has uploaded. This project models the backend core that does the work:

- **Ingestion** (`_backend/src/routes/knowledgeRoutes.ts`). Text and web pages are cleaned, cut into overlapping chunks and embedded. Each chunk is stored as one knowledge record titled "(part i/n)".
- **Retrieval** (`_backend/src/services/rag.ts`). The question is resolved to the universities it mentions. A cascade of vector and text searches collects documents. They are rebalanced per university and laid out as a bounded context text. A safety check returns no context when the question asks about an institution the documents do not cover.
- **Answering** (`_backend/src/services/voyage.ts`). Chunking, the deterministic fallback embedding, and the Gemini call with its 429 retry policy. When no generated answer exists, an extractive answer is built from the context's sentences.

The database, the embedding provider, the hash function, the page fetcher and the Gemini endpoint are parameters of the model:

- The knowledge store is a `Store` value. Its `count`, `embed`, `aggregate` and `find` are functions that either return a result or fail. Failing stands for throwing.
- Ingestion writes into a `KnowledgeStore` object whose `records` field grows by one record per saved chunk.
- Vector and text queries are data (`VectorQuery`, `FindQuery`). A lemma that needs their meaning assumes a database that honours a query's limit and match condition (`Honours`).

The modules follow the source:

| file | module | source |
|---|---|---|
| util.dfy | Util | sequence helpers: `Option`/`Outcome`, take, filter, de-duplication and the stable longest-first sort the source uses via `Array.prototype.sort` |
| text.dfy | Text | the string primitives the source relies on: `toLowerCase`, `includes`, `trim`, `lastIndexOf`, `\s+` collapsing, word splitting, `join`, decimal rendering |
| knowledge.dfy | Knowledge | the stored record and its `[title]\ncontent` block |
| universities.dfy | Universities | `extractUniversityName`, `docUniversity`, `getMentionedUniversities` and the per-university tables |
| institution.dfy | Institution | `normalizeInstitutionName`, `extractAskedInstitution`, `contextMatchesQuestion` |
| context.dfy | Context | `ensureDiverseContext`, `buildContextText` |
| retrieval.dfy | Retrieval | `fetchDocsForUniversity`, `getRelevantContext` |
| chunking.dfy | Chunking | `chunkText` |
| embedding.dfy | Embedding | `deterministicEmbedding`, `embedText` |
| answer.dfy | Answer | `generateAnswerWithGemini`, `getQuestionTopicTerms`, `buildAnswerFromContext`, `generateAnswer` |
| ingestion.dfy | Ingestion | `indexContent`, `stripHtml`, the `/knowledge` and `/knowledge/url` handlers |

Each looping function of the source is a method with a loop. The method is proved equal to a specification function, and the source's promises are lemmas about that function. Regular expressions are written out as explicit predicates:

- word boundaries become `Boundary`;
- `\s+` becomes runs of `IsSpace`;
- the block split of `buildAnswerFromContext` becomes `BlockBreak`.

## Model

| member | source | states |
|---|---|---|
| Text.LowerFolds | _backend/src/services/rag.ts:16 | lower-casing leaves no upper-case ASCII letter, turns each one into a lower-case letter, keeps every other character, and is idempotent |
| Text.LowerConcat | _backend/src/services/rag.ts:30 | lower-casing a concatenation is the concatenation of the lower-cased parts |
| Text.LastIndexOfIsLast | _backend/src/services/voyage.ts:72-73 | `lastIndexOf` is -1 or an occurrence, and no later occurrence exists |
| Text.Trim | _backend/src/routes/knowledgeRoutes.ts:14 | `trim()` returns a contiguous slice that starts after the leading white space and neither starts nor ends with white space |
| Text.TrimEmptyIffAllSpace | _backend/src/routes/knowledgeRoutes.ts:87 | a text trims to empty exactly when it is all white space |
| Text.TrimIdempotent | _backend/src/routes/knowledgeRoutes.ts:127 | trimming twice is trimming once |
| Text.CollapseSpaces | _backend/src/routes/knowledgeRoutes.ts:40 | collapsing white-space runs keeps emptiness, never lengthens, and maps a leading white-space run to one space |
| Text.CollapseSpacesNoDouble | _backend/src/routes/knowledgeRoutes.ts:40 | after collapsing, no two white-space characters are adjacent |
| Text.CollapseTrimNoDouble | _backend/src/routes/knowledgeRoutes.ts:40-41 | collapsing and then trimming leaves no two adjacent white-space characters |
| Text.ReplaceWordAbsent | _backend/src/services/rag.ts:187 | replacing a whole word that does not occur changes nothing |
| Text.ReplaceWordOnce | _backend/src/services/rag.ts:187 | a single whole-word occurrence is replaced and everything around it is kept |
| Text.Runs | _backend/src/services/rag.ts:506 | splitting on separators and dropping empty pieces yields only non-empty words |
| Text.RunsChars | _backend/src/services/rag.ts:506 | every character of every word is a non-separator taken from the input |
| Text.JoinSnoc | _backend/src/services/rag.ts:153 | joining one more part appends the separator and the part |
| Text.JoinPrefix | _backend/src/services/rag.ts:153 | joining a prefix of the parts gives a prefix of the joined text |
| Text.NatToString | _backend/src/routes/knowledgeRoutes.ts:24 | the decimal rendering of a number is never empty |
| Text.NatToStringDigits | _backend/src/routes/knowledgeRoutes.ts:24 | the decimal rendering uses digits only |
| Text.NatToStringInjective | _backend/src/routes/knowledgeRoutes.ts:24 | different numbers render differently |
| Text.PunctuationToSpaceShape | _backend/src/services/rag.ts:506 | after `replace(/[^\w\s]/g, ' ')` only word and white-space characters are left, word characters stay in place, a character is a word character after iff before, and a second replacement changes nothing |
| Util.Filter | _backend/src/services/rag.ts:446 | a filter keeps exactly the elements that satisfy the predicate and never lengthens the list |
| Util.Dedup | _backend/src/services/rag.ts:71 | `[...new Set(out)]` keeps every element once and nothing else |
| Util.SortDesc | _backend/src/services/rag.ts:122 | sorting by content length is a permutation of its input |
| Util.SortDescSorted | _backend/src/services/rag.ts:122 | the sorted list is in non-increasing content length |
| Util.SortDescDistinct | _backend/src/services/rag.ts:325 | sorting keeps the documents distinct by id |
| Universities.AllUnisComplete | _backend/src/services/rag.ts:74-89 | every university key appears in the fixed list of five, at the position given by its priority |
| Universities.SearchTerms | _backend/src/services/rag.ts:83-89 | every university has at least one search term and no term is empty |
| Universities.ExtractUniversityName | _backend/src/services/rag.ts:15-24 | no university is returned exactly when none of the target terms occurs in the lower-cased question; a returned university has one of its terms in the question |
| Universities.ExtractPrecedence | _backend/src/services/rag.ts:17-22 | no university tried before the returned one in the if-chain has any of its terms in the lower-cased question |
| Universities.AastuNamedIsAastu | _backend/src/services/rag.ts:17-20 | a question containing "aastu" or "addis ababa science" gives AASTU, although it also contains "astu" or "addis ababa" |
| Universities.AsWrittenAastuTitleIsAdama | _backend/src/services/rag.ts:31-33 | as written, every title containing "aastu" is classified as Adama, because "astu" is checked first |
| Universities.AsWrittenMisclassifiesAastuTitle | _backend/src/services/rag.ts:31-33 | the concrete title "AASTU programs" is classified as Adama by the code as written |
| Universities.DocUniversity | _backend/src/services/rag.ts:27-42 | corrected classifier: a title that contains "aastu" makes the document AASTU's |
| Universities.TitleDecides | _backend/src/services/rag.ts:31-35 | a title that holds any university term decides the university on its own; the content does not matter |
| Universities.AastuInTextIsAastu | _backend/src/services/rag.ts:36 | with no university term in the title, "aastu" in the content makes the document AASTU's |
| Universities.DocUniversityAgreesElsewhere | _backend/src/services/rag.ts:31-41 | the corrected classifier agrees with the code as written on every document whose title lacks "aastu" |
| Universities.Scan | _backend/src/services/rag.ts:65-70 | the default collection holds exactly the candidate universities the question hits, and no more of them than there are candidates |
| Universities.ScanKeepsOrder | _backend/src/services/rag.ts:66-70 | the default collection keeps the fixed order aastu, aau, adama, hawassa, jimma |
| Universities.MentionedUniversities | _backend/src/services/rag.ts:45-72 | the mentioned universities hold no duplicates and there are at most five |
| Universities.DefaultScanResult | _backend/src/services/rag.ts:64-71 | when no "only"/"just"/"not" rule fires, the result is exactly the universities the question hits, in the fixed order |
| Universities.ExclusiveDecides | _backend/src/services/rag.ts:48-63 | when an exclusive rule picks a university, that university is the whole answer |
| Universities.OnlyAdamaPhraseSelectsAdama | _backend/src/services/rag.ts:48-49 | a whole-word "only astu", "just adama" (and the other spellings) yields exactly Adama |
| Universities.OnlyAauPhraseSelectsAau | _backend/src/services/rag.ts:50-51 | a whole-word "only aau"/"just aau" yields exactly AAU when no Adama one-only phrase is present |
| Universities.OnlyAastuPhraseSelectsAastu | _backend/src/services/rag.ts:52-53 | a whole-word "only aastu"/"just aastu" yields exactly AASTU when no earlier one-only phrase is present |
| Universities.NotAauSelectsAdama | _backend/src/services/rag.ts:55-61 | a whole-word "not aau" together with an ASTU/Adama mention yields exactly Adama whenever no "only"/"just" phrase rule matches; the substring rules of lines 55-58 cannot fire on such a question |
| Universities.NotAdamaSelectsAau | _backend/src/services/rag.ts:55-63 | a whole-word "not astu"/"not adama" together with an AAU mention yields exactly AAU whenever no "only"/"just" phrase rule and no "not aau" rule matches |
| Universities.NoOnlyWordNoOnlyPhrase | _backend/src/services/rag.ts:48-53 | a question without the words "only" and "just" matches none of the three phrase rules |
| Universities.NoNameNoMention | _backend/src/services/rag.ts:15-72 | a question in which the target extractor finds no university mentions no university at all |
| Knowledge.Block | _backend/src/services/rag.ts:149 | a document's block is its content, preceded by a bracketed title line only when the title is non-empty |
| Knowledge.BlocksJoined | _backend/src/services/rag.ts:540 | the joined blocks start with the first document's block and contain every document's content |
| Institution.NormalizeInstitutionName | _backend/src/services/rag.ts:185-191 | the normalised name is never one of the misspellings "jima" or "hawasa" |
| Institution.NormalizeMergesSpellings | _backend/src/services/rag.ts:186-189 | both spellings of Jimma and of Hawassa normalise to the same name |
| Institution.NormalizeKeepsCleanName | _backend/src/services/rag.ts:185-191 | a lower-case, trimmed name without the typo and not a misspelling is returned unchanged |
| Institution.NormalizeFixesTypo | _backend/src/services/rag.ts:184-187 | a name holding the whole word "universtiy" once is normalised with "university" in its place |
| Institution.AboutKeywordEnd | _backend/src/services/rag.ts:206 | a keyword match ends after the position it starts at and within the question |
| Institution.StopIndex | _backend/src/services/rag.ts:206 | the lazy phrase stops at the first "." or "?" at or after the keyword, or at the end |
| Institution.AboutFrom | _backend/src/services/rag.ts:206-208 | an extracted "about …" phrase never holds "." or "?" |
| Institution.ExtractAskedInstitution | _backend/src/services/rag.ts:194-225 | a reported institution is never one of the misspellings "jima" or "hawasa" |
| Institution.UniversityWordsFrom | _backend/src/services/rag.ts:215 | a match captures one or two lower-case words and is followed by a whole-word "university" |
| Institution.ShortNameFrom | _backend/src/services/rag.ts:216 | a match is "astu", "aau" or "aastu" as a whole word of the question; no match means none of them occurs as a whole word |
| Institution.ShortNameFallback | _backend/src/services/rag.ts:213-224 | without "university", "about" and "regarding", the institution reported is a whole-word short name of the question, and none is reported exactly when it has none |
| Institution.KnownOtherReported | _backend/src/services/rag.ts:200-203 | the first listed other university that the question names is the one reported, without its " university" suffix |
| Institution.PatternInContextIff | _backend/src/services/rag.ts:242-253 | one of the four exact patterns occurs exactly when the bare key occurs |
| Institution.ContextMatchesIff | _backend/src/services/rag.ts:228-269 | ContextMatchesQuestion: the context matches exactly when no strict key is asked, or the key occurs in the lower-cased context, or a document title matches it |
| Context.GroupOf | _backend/src/services/rag.ts:115-118 | a university's group is a sub-multiset of the documents |
| Context.GroupOfMembers | _backend/src/services/rag.ts:115-118 | a document is in a university's group exactly when it is among the documents and classified as that university |
| Context.GroupByUniversity | _backend/src/services/rag.ts:113-118 | the grouping map has a key for exactly the mentioned universities, and each key holds that university's group in document order |
| Context.PerUniFits | _backend/src/services/rag.ts:120 | for two or three universities the per-university share times their number stays within the 24-document cap |
| Context.EnsureDiverseContext | _backend/src/services/rag.ts:110-128 | the loop computes the diversity reordering; with fewer than two mentioned universities the documents are returned unchanged |
| Context.Rebalance | _backend/src/services/rag.ts:113-127 | the reordering either returns the input (nothing tagged) or at most 24 documents |
| Context.CollectPicks | _backend/src/services/rag.ts:121-124 | the loop gathers, per mentioned university, its longest documents up to the share |
| Context.PickClassified | _backend/src/services/rag.ts:122-123 | a university's pick holds at most the share, all drawn from the input and classified as that university |
| Context.TaggedFromGroups | _backend/src/services/rag.ts:121-124 | every tagged document comes from the input and is classified as one of the mentioned universities |
| Context.TaggedLength | _backend/src/services/rag.ts:121-124 | at most share times the number of universities documents are tagged |
| Context.TaggedDistinct | _backend/src/services/rag.ts:121-124 | distinct input documents and distinct universities give distinct tagged documents |
| Context.RebalancedDrawsFromInput | _backend/src/services/rag.ts:125-127 | the reordering never invents a document |
| Context.RebalancedKeepsSmallInput | _backend/src/services/rag.ts:125-127 | with at most 24 distinct documents the reordering is a permutation of the input |
| Context.TaggedKept | _backend/src/services/rag.ts:127 | when the tagged documents fit the cap, all of them survive the final slice |
| Context.RebalancedLayout | _backend/src/services/rag.ts:119-127 | when there are picks and they fit the cap, the result starts with exactly the picks in pick order and continues with the longest-first remaining documents cut to the cap, each an input document that was not picked |
| Context.RebalancedCoversEachUniversity | _backend/src/services/rag.ts:110-128 | for two or three mentioned universities, each one that has a document keeps at least one |
| Context.DiverseContextProperties | _backend/src/services/rag.ts:110-128 | the reordering is the identity below two universities, draws only from the input, permutes a small distinct input, and covers each university that has documents |
| Context.TakeBlocks | _backend/src/services/rag.ts:145-152 | the budgeted blocks are a prefix of all blocks |
| Context.TakeBlocksBudget | _backend/src/services/rag.ts:147-151 | each kept block began while the running length was below the cap, and the loop stops early only once the cap is reached |
| Context.CollectBlocks | _backend/src/services/rag.ts:145-152 | the loop keeps exactly the budgeted prefix of the document blocks |
| Context.CapPerUniBound | _backend/src/services/rag.ts:156 | for one to five universities the per-university character cap is at least 11000 |
| Context.BuildContextText | _backend/src/services/rag.ts:139-182 | the context text is the single-mode or the comparison-mode layout, as the number of mentioned universities decides |
| Context.BuildComparisonText | _backend/src/services/rag.ts:156-181 | the comparison text is the header followed by one section per university, joined by blank lines |
| Context.CollectSections | _backend/src/services/rag.ts:166-180 | the loop builds exactly the per-university sections |
| Context.AppendSection | _backend/src/services/rag.ts:166-180 | one turn of the section loop adds exactly the next university's section |
| Context.BuildSection | _backend/src/services/rag.ts:168-179 | a section is the label line and the group's longest-first blocks within the cap, or nothing when no block is kept |
| Context.SingleModeIsBudgetedPrefix | _backend/src/services/rag.ts:143-154 | the single-mode context is a prefix of all blocks joined, built from blocks that each started below 60000 characters, and stopped early only once 60000 was reached |
| Context.GroupSectionHead | _backend/src/services/rag.ts:177-179 | a non-empty group gives exactly one section and it starts with that university's label line; an empty group gives none |
| Context.SectionsPerUniversity | _backend/src/services/rag.ts:166-180 | there is one section per mentioned university that has documents, in order, each headed by its label |
| Context.ComparisonModeLayout | _backend/src/services/rag.ts:156-181 | the comparison context starts with the header, each section is headed by its university's label, and each university gets at least 11000 characters |
| Context.ContextTextModes | _backend/src/services/rag.ts:141-143 | fewer than two mentioned universities select the single layout, otherwise the comparison layout with its header |
| Chunking.BreakAt | _backend/src/services/voyage.ts:72-74 | the break position is -1 or a position where a two-character break can start |
| Chunking.BreakAtIsLastBreak | _backend/src/services/voyage.ts:72-74 | the break is the last occurrence of a paragraph break or a sentence end in the window, and none occurs after it |
| Chunking.WindowEnd | _backend/src/services/voyage.ts:68-78 | a window ends after its start, within the text and at most `max` characters later; an early end is past half the window |
| Chunking.BackOffCutsAtBreak | _backend/src/services/voyage.ts:71-78 | the window is shortened exactly when it is not the last one and the break lies past half the size; then it ends just after a "." or newline that is followed by a space or newline |
| Chunking.CutsUpTo | _backend/src/services/voyage.ts:67-79 | the window ends for every start position satisfy the window bounds |
| Chunking.Cuts | _backend/src/services/voyage.ts:67-79 | the table of window ends is valid for the whole text |
| Chunking.Bounds | _backend/src/services/voyage.ts:66-83 | every window lies within the text, is non-empty and is at most `max` characters |
| Chunking.BoundsFirstLast | _backend/src/services/voyage.ts:66-83 | the windows start at the starting position and the last one reaches the end of the text |
| Chunking.BoundsStep | _backend/src/services/voyage.ts:81-82 | each window but the last ends before the text ends, past half the size, and the next one starts `overlap` characters before its end |
| Chunking.BoundsCover | _backend/src/services/voyage.ts:66-83 | every position from the start on lies in some window |
| Chunking.BoundsTile | _backend/src/services/voyage.ts:66-83 | the windows tile the text: from 0 to its end, strictly advancing, each overlapping the previous by `overlap`, covering every position |
| Chunking.TextBoundsTile | _backend/src/services/voyage.ts:66-83 | the same tiling stated for the windows of a non-empty text |
| Chunking.Pieces | _backend/src/services/voyage.ts:80 | one trimmed piece per window |
| Chunking.ChunkTextLoop | _backend/src/services/voyage.ts:63-85 | the loop computes the chunk list; empty text gives no chunk and a text within `max` is its own single chunk |
| Chunking.SlideWindows | _backend/src/services/voyage.ts:66-83 | the sliding loop pushes exactly the trimmed pieces of the windows, in order |
| Chunking.NextWindow | _backend/src/services/voyage.ts:68-79 | one step of the loop returns the window's end and its slice |
| Chunking.ChunksAreBoundedSlices | _backend/src/services/voyage.ts:63-85 | every chunk is non-empty and at most `max` characters, and for a long text each chunk is a trimmed slice of it |
| Chunking.ShortTextIsOneChunk | _backend/src/services/voyage.ts:65 | empty text gives no chunk, a text within `max` is returned whole, and a non-blank text gives at least one chunk |
| Chunking.VisibleCharGivesChunk | _backend/src/services/voyage.ts:66-84 | a long text with some non-space character yields at least one chunk |
| Chunking.WindowPieceNonEmpty | _backend/src/services/voyage.ts:80-84 | a window holding a non-space character yields a piece that survives the empty-chunk filter |
| Embedding.Signed16 | _backend/src/services/voyage.ts:44-47 | two bytes read big-endian as a signed 16-bit number lie in -32768..32767 |
| Embedding.PairsOf | _backend/src/services/voyage.ts:42-48 | one value per byte pair of a digest, a missing low byte read as 0 |
| Embedding.NormalizeAsWrittenLeavesRange | _backend/src/services/voyage.ts:47-48 | as written, the byte pair 0x80 0x00 normalises below -1 |
| Embedding.PairEightyZero | _backend/src/services/voyage.ts:44-48 | any digest with the bytes 0x80 0x00 at a pair position yields -32768 there and, as written, a value below -1 |
| Embedding.Normalize | _backend/src/services/voyage.ts:48 | corrected normalisation: always within -1..1, and equal to the source's division for every value above -32768 |
| Embedding.Normalized | _backend/src/services/voyage.ts:48 | one normalised value per signed value |
| Embedding.EmbedFromShape | _backend/src/services/voyage.ts:40-51 | the remaining rounds produce exactly the missing number of values, each a signed 16-bit number |
| Embedding.EmbedValuesShape | _backend/src/services/voyage.ts:35-53 | the embedding has exactly `dims` values, all signed 16-bit, and the first ones are the byte pairs of the text's own digest |
| Embedding.SecondRoundReseeds | _backend/src/services/voyage.ts:50 | when one digest is not enough, the next round hashes the seed extended by "*" and the count filled so far |
| Embedding.DeterministicEmbedding | _backend/src/services/voyage.ts:35-53 | the array has `dims` entries equal to the normalised digest values, in order |
| Embedding.FillRound | _backend/src/services/voyage.ts:42-49 | one digest round fills at least one entry, stops when the digest or the array runs out, and writes the digest's pairs in order |
| Embedding.Store | _backend/src/services/voyage.ts:48 | writing one value extends the filled prefix by its normalised value |
| Embedding.RoundDone | _backend/src/services/voyage.ts:40-51 | after a round the values still to come are those of the reseeded digest |
| Embedding.EmbedTextChoice | _backend/src/services/voyage.ts:87-112 | the input is cut to 16000 characters; a vector from the provider is returned as is, otherwise the local embedding of 1024 values within -1..1 |
| Answer.TruncateContextShape | _backend/src/services/voyage.ts:137 | the truncated context starts with the first 60000 characters, is at most 60000 plus the marker long, is unchanged when short and ends with the marker when cut |
| Answer.ReplyAnswer | _backend/src/services/voyage.ts:150-151 | a reply yields an answer exactly when its text exists and is not blank, and the answer is the trimmed, non-empty text |
| Answer.AttemptsFromPolicy | _backend/src/services/voyage.ts:147-165 | from any attempt on, every call before the last got a retried 429, the last did not, the answer is the last reply's, and each wait is 2000 ms times its attempt number |
| Answer.GeminiRetryPolicy | _backend/src/services/voyage.ts:135-166 | no key or no context makes no call; otherwise one to three calls, all but the last answered 429, the answer taken from the last reply, and at most two waits of 2000 and 4000 ms |
| Answer.RetryStep | _backend/src/services/voyage.ts:156-161 | a retried 429 moves the loop to the next attempt with one more wait recorded |
| Answer.StopStep | _backend/src/services/voyage.ts:150-151 | a reply that is not a retried 429 ends the loop with that reply's answer |
| Answer.GenerateAnswerWithGemini | _backend/src/services/voyage.ts:135-166 | the retry loop returns exactly the answer, call count and waits of the retry policy |
| Answer.NamesIn | _backend/src/services/voyage.ts:172-175 | the names kept are exactly the listed university names the question contains |
| Answer.TopicWordsShape | _backend/src/services/voyage.ts:176-177 | at most five topic words, each longer than three characters and made of word characters |
| Answer.TopicTermsShape | _backend/src/services/voyage.ts:169-179 | the topic terms hold no duplicates, every university name found in the question, and otherwise only long words |
| Answer.IndexFrom | _backend/src/services/voyage.ts:189 | the search for a "]" stops at the first one at or after the start, or at the end |
| Answer.FirstBreak | _backend/src/services/voyage.ts:189 | the first split point found is a newline followed by a "[title]" line |
| Answer.SplitBlocks | _backend/src/services/voyage.ts:189 | splitting yields at least one part |
| Answer.SplitBlocksJoin | _backend/src/services/voyage.ts:189 | joining the parts with newlines gives back the context (only the separating newlines are removed) |
| Answer.KeptBlocks | _backend/src/services/voyage.ts:190-194 | every kept block is at least 30 characters and starts with a non-space |
| Answer.KeptBlocksIsFilter | _backend/src/services/voyage.ts:190-194 | the kept blocks are the trimmed parts filtered by length |
| Answer.KeepBlock | _backend/src/services/voyage.ts:191-193 | one turn of the block loop keeps exactly the next trimmed part when it is long enough |
| Answer.CollectBlocks | _backend/src/services/voyage.ts:188-195 | the block loop yields the kept blocks, or the whole context when none is kept |
| Answer.TopicFiltered | _backend/src/services/voyage.ts:198-205 | the blocks used are drawn from the input and are either all of them or only blocks that mention a topic term |
| Answer.LabelMatchEnd | _backend/src/services/voyage.ts:208 | a label match spans at least "[x]" and stays within the text |
| Answer.StripLabelsWithoutBracket | _backend/src/services/voyage.ts:208 | a text without "[" has no label to strip |
| Answer.CleanText | _backend/src/services/voyage.ts:207-208 | the cleaned context has no two adjacent white-space characters |
| Answer.TrimAll | _backend/src/services/voyage.ts:209 | each sentence piece is trimmed, one for one |
| Answer.Sentences | _backend/src/services/voyage.ts:209 | every sentence kept is longer than 25 characters and starts with a non-space |
| Answer.QuestionWords | _backend/src/services/voyage.ts:210 | every question word kept is longer than two characters |
| Answer.Relevant | _backend/src/services/voyage.ts:211 | a sentence is relevant exactly when it is a sentence and mentions a question word |
| Answer.ShownSelection | _backend/src/services/voyage.ts:212 | with relevant sentences, at most six relevant ones are shown; otherwise the first eight sentences; nothing is shown only when there are no sentences |
| Answer.CapAnswerBound | _backend/src/services/voyage.ts:214 | the capped answer is at most 603 characters, starts with the first 600 of the raw answer, is unchanged when short and ends with "..." when cut |
| Answer.Finish | _backend/src/services/voyage.ts:215-218 | the finished answer is never empty |
| Answer.AnswerVisible | _backend/src/services/voyage.ts:212-215 | at least one sentence makes the capped answer non-blank |
| Answer.NoSentenceNotEnough | _backend/src/services/voyage.ts:215-217 | with no sentence the reply is the not-enough-information message |
| Answer.SentencePrefixed | _backend/src/services/voyage.ts:212-218 | with at least one sentence the reply starts with "Based on the uploaded documents: " and is at most that prefix plus 603 characters |
| Answer.PrefixedAnswer | _backend/src/services/voyage.ts:215-218 | a non-blank capped answer is returned behind the prefix |
| Answer.BuildAnswerFromContext | _backend/src/services/voyage.ts:185-219 | the extractive answer is computed as specified and is never empty |
| Answer.GenerateAnswer | _backend/src/services/voyage.ts:221-235 | no context gives the no-information message; a Gemini answer is returned when there is one; otherwise the extractive answer; the reply is never empty |
| Retrieval.IdsOfAppend | _backend/src/services/rag.ts:430-437 | the ids of two document lists together are the union of their ids |
| Retrieval.FetchDocsForUniversity | _backend/src/services/rag.ts:92-107 | the loop skips excluded ids, stops once the limit is reached (keeping at least one document), and reports a failed query as failure |
| Retrieval.FetchStep | _backend/src/services/rag.ts:101-103 | one turn of the loop keeps the document exactly when its id is not excluded |
| Retrieval.CapReached | _backend/src/services/rag.ts:104 | breaking when the kept count reaches the cap leaves exactly the capped prefix of the kept documents |
| Retrieval.FetchedShape | _backend/src/services/rag.ts:92-107 | the result holds at most max(limit, 1) documents, none excluded, all from the query result, and all non-excluded ones when they fit |
| Retrieval.FetchedMentionsUniversity | _backend/src/services/rag.ts:95-99 | with a database that honours queries, every fetched document mentions one of the university's search terms |
| Retrieval.BatchesMembers | _backend/src/services/rag.ts:301-324 | every merged candidate comes from one mentioned university's vector query |
| Retrieval.FirstById | _backend/src/services/rag.ts:314-320 | keeping the first document per id gives distinct ids, the same id set, only input documents and no more of them |
| Retrieval.FirstByIdSnoc | _backend/src/services/rag.ts:316-319 | a document is appended exactly when its id has not been seen |
| Retrieval.KeepIfUnseen | _backend/src/services/rag.ts:315-319 | one turn of the inner loop keeps the seen-id set equal to the ids kept |
| Retrieval.AddUnseen | _backend/src/services/rag.ts:314-320 | adding a batch keeps the first document per id over everything seen so far |
| Retrieval.MergeComparison | _backend/src/services/rag.ts:300-324 | the per-university loop yields the first document per id over all batches; a failed embedding or search contributes nothing |
| Retrieval.MergedComparisonShape | _backend/src/services/rag.ts:298-327 | the merged comparison documents are at most 24, distinct by id, longest first, drawn from the batches, and keep every id when at most 24 were found |
| Retrieval.VectorSearchDocs | _backend/src/services/rag.ts:294-417 | the vector stage tries comparison merge, then single-university retrieval, then the three generic pipelines in order, as specified |
| Retrieval.AppendFetched | _backend/src/services/rag.ts:435-438 | the extra documents are appended and their ids added to the seen set |
| Retrieval.RepairComparison | _backend/src/services/rag.ts:423-441 | the repair loop fetches by text, with limit 8, for each mentioned university that has no document, as specified |
| Retrieval.RepairFromAppends | _backend/src/services/rag.ts:431-440 | repair keeps the documents already present as a prefix and only appends documents whose ids were not seen |
| Retrieval.RepairedAppends | _backend/src/services/rag.ts:423-441 | the repaired list starts with the vector documents and adds only new ids |
| Retrieval.RepairFromCovered | _backend/src/services/rag.ts:432 | when every remaining university already has a document, repair changes nothing |
| Retrieval.RepairedCovered | _backend/src/services/rag.ts:423-441 | when every mentioned university has a document, no text search is made and the documents are unchanged |
| Retrieval.PurifiedKeepsOnlyWanted | _backend/src/services/rag.ts:444-449 | when some document is the wanted university's, exactly those documents are kept |
| Retrieval.InstitutionPatterns | _backend/src/services/rag.ts:479-485 | the patterns hold the name itself and, for jimma and hawassa only, the one-letter-shorter spelling |
| Retrieval.TextFallbackSearch | _backend/src/services/rag.ts:475-546 | the text fallback searches by the asked institution, else by the question and its first eight words, and checks the result, as specified |
| Retrieval.TextFallbackMentionsAsked | _backend/src/services/rag.ts:488-503 | with an asked institution, the fallback documents are at most 15 and each mentions one of its spellings |
| Retrieval.TextFallbackChecked | _backend/src/services/rag.ts:534-546 | a non-empty fallback context passes the institution check and is the joined blocks of its documents |
| Retrieval.CheckedPasses | _backend/src/services/rag.ts:540-546 | a check that lets the context through returns the joined blocks, which match the question |
| Retrieval.GetRelevantContext | _backend/src/services/rag.ts:271-550 | the method returns the context of the whole cascade, and the empty text when any database call throws |
| Retrieval.NoEmbeddingTextOnly | _backend/src/services/rag.ts:281-292 | without a question embedding the answer comes from the text fallback alone |
| Retrieval.ContextMatchesAskedInstitution | _backend/src/services/rag.ts:461-468 | a non-empty context always passes the institution check, comes from at least one document, and is the vector layout or the plain joined blocks of those documents |
| Retrieval.EmptyStoreNoContext | _backend/src/services/rag.ts:277-279 | an empty store, or a failing count, gives the empty context |
| Retrieval.AskedWithoutMatchNoContext | _backend/src/services/rag.ts:488-499 | an asked institution that no document mentions gives no context |
| Ingestion.KnowledgeStore.Save | _backend/src/routes/knowledgeRoutes.ts:26 | saving appends exactly one record with the next id and the given title, content, type and embedding, and changes nothing else |
| Ingestion.KnowledgeStore.IdsDistinct | _backend/src/routes/knowledgeRoutes.ts:26 | the stored records have pairwise distinct ids |
| Ingestion.IndexedRecordsLayout | _backend/src/routes/knowledgeRoutes.ts:21-28 | one record per chunk holding that chunk, ids increasing within first .. first + n - 1, the title as given for a single chunk and pairwise distinct titles for several |
| Ingestion.IndexContent | _backend/src/routes/knowledgeRoutes.ts:13-30 | blank content stores nothing and reports (0, 0); otherwise the trimmed content's chunks are stored in order, the count is the number of records added and the length is the trimmed length |
| Ingestion.SaveChunks | _backend/src/routes/knowledgeRoutes.ts:21-28 | the loop appends exactly the indexed records and counts every chunk |
| Ingestion.SaveNext | _backend/src/routes/knowledgeRoutes.ts:23-27 | one turn of the loop extends the saved prefix by the next record |
| Ingestion.ChunksForShape | _backend/src/routes/knowledgeRoutes.ts:17-19 | non-blank content gives at least one chunk and every chunk is non-empty and at most 8000 characters |
| Ingestion.PartTitlesDistinct | _backend/src/routes/knowledgeRoutes.ts:24 | when content is split, different parts get different titles, a missing title included |
| Ingestion.FirstOccurrence | _backend/src/routes/knowledgeRoutes.ts:37-38 | the closing tag found is its first occurrence from the position on, and none is reported only when there is none |
| Ingestion.StripHtml | _backend/src/routes/knowledgeRoutes.ts:35-42 | the extracted text has no two adjacent white-space characters and neither starts nor ends with white space |
| Ingestion.StripHtmlNoTag | _backend/src/routes/knowledgeRoutes.ts:39 | no tag is left: every `<` in the extracted text is followed directly by `>` or has no `>` anywhere after it, so `<[^>]+>` matches nowhere |
| Ingestion.StripHtmlLeavesNoClosingTag | _backend/src/routes/knowledgeRoutes.ts:37-39 | no closing tag `</tag>` of any name is left, so no script or style block survives whole |
| Ingestion.PlainTextOnlyNormalised | _backend/src/routes/knowledgeRoutes.ts:35-42 | text without "<" only has its white space collapsed and trimmed |
| Ingestion.PlainTextHasNoMarkup | _backend/src/routes/knowledgeRoutes.ts:37-39 | text without "<" passes the three markup replacements unchanged |
| Ingestion.NormalizeType | _backend/src/routes/knowledgeRoutes.ts:85 | the stored type is "pdf", "website" or "text"; the first two are kept and anything else becomes "text" |
| Ingestion.NormalizeUrl | _backend/src/routes/knowledgeRoutes.ts:115 | the URL fetched always starts with "http"; one that already does is kept, others get "https://" in front |
| Ingestion.AddKnowledge | _backend/src/routes/knowledgeRoutes.ts:82-108 | missing or blank content is a 400 that stores nothing; otherwise the records are appended, with a missing title written "undefined" in part titles; a 201 reports the number of records added and the trimmed length, and non-blank content yields a 201 |
| Ingestion.PageTitle | _backend/src/routes/knowledgeRoutes.ts:129 | the page title is never empty, and a non-blank custom title wins, trimmed |
| Ingestion.AddUrl | _backend/src/routes/knowledgeRoutes.ts:111-144 | a missing or empty URL is a 400, a 404 page is a 404, an unknown host a 400, other fetch errors a 500 with their message, page text under 50 characters a 400 and page text of at least 50 characters a 201; a 201 stores the page text's records under the page title; every error stores nothing |
| Ingestion.IndexPage | _backend/src/routes/knowledgeRoutes.ts:127-137 | page text under 50 characters is a 400 and page text of at least 50 characters a 201; a 201 reports the title, the text length and the records its chunks added; anything else stores nothing |
| Ingestion.PageTextChunks | _backend/src/routes/knowledgeRoutes.ts:128-131 | trimmed page text of at least 50 characters gives at least one chunk, so the "No content to index" reply cannot happen |
| Ingestion.ShortContentIsOneRecord | _backend/src/routes/knowledgeRoutes.ts:17-19 | trimmed content of at most 8000 characters is stored as exactly one record, holding the trimmed text under the title as given (a missing title stores none) |
| Ingestion.NormalizeUrlIdempotent | _backend/src/routes/knowledgeRoutes.ts:115 | normalising an already normalised URL changes nothing |

## Behaviour worth knowing

- `chunkText` returns a text of at most the chunk size whole, blanks included (`"   "` gives `["   "]`), because the early return at `_backend/src/services/voyage.ts:64` comes before any trimming. `Chunking.ShortTextIsOneChunk` states it. Ingestion trims first, so no blank record is ever stored.
- The context can pass 60000 characters. A block is appended while the running length is still below the cap (`_backend/src/services/rag.ts:147-151`), so the last block may overshoot. `Context.SingleModeIsBudgetedPrefix` and `Context.TakeBlocksBudget` state the rule the code keeps.
- The single-university purity filter is not absolute. When no retrieved document is the wanted university's, the text search by its terms replaces them. When that search finds nothing, the unfiltered documents are kept (`_backend/src/services/rag.ts:446-456`, `Retrieval.Purified`).
- A question naming "aastu" also mentions Adama, because "aastu" contains "astu" (`_backend/src/services/rag.ts:66-68`). `Universities.DefaultScanResult` gives both.
- The diversity rebalancing guarantees a document per university only for two or three universities (`_backend/src/services/rag.ts:120`). With four or five, the share is 8, and 8 times their number is more than the 24-document cap.

## Left out

- The React UI, the HTTP client, static data, authentication, the chat, admin, PDF, list, delete and debug routes, and the Express/Mongoose wiring. None of them are part of the retrieval and ingestion core.
- The Voyage client's lazy initialisation (`ensureVoyageClient`). It is concurrency around a foreign constructor. The provider is a parameter returning no client, a throw or a reply.
- SHA-256 is a parameter from strings to non-empty byte sequences. Only the digest's length and bytes are used.
- Floating point is modelled by Dafny `real`: division is exact and there is no rounding.
- Logging, `setTimeout` sleeps and request timeouts. The retry loop returns the waits it would make instead of sleeping.
- Mongo's result order and the actual evaluation of regular-expression queries. `find` returns whatever the store returns. Results are trusted to respect the `.limit(n)` only in lemmas that assume `Honours`.
- Regex escaping (`escapeRegex`): search terms are matched as literal, case-insensitive substrings, which is what the escaping achieves.
- Unicode case mapping: lower-casing maps ASCII letters only.
- The dimension-mismatch hint logged after a failed `$vectorSearch`. It is only a log line.
- `Retrieval.FetchDocsForUniversity`: the `!terms?.length` early return and the `|| uni` / `|| question` fallbacks are not modelled. Every university key has search terms and an expanded query, so those branches cannot be taken.
- `Ingestion.AddKnowledge`: a failure to embed or save is not modelled (`save` always succeeds, so the 500 path of the handler is absent). A missing `title` is `None`: a single record then stores no title, which every reader takes as `""`, and part titles read "undefined (part i/n)" as the template literal writes them. A title that is present but not a string (a number, `null`) is not modelled.
- `Ingestion.AddUrl`: parsing the URL for its host name is a parameter (`hostname`). Request limits (size, TLS, user agent) are left out. A failure while indexing is not modelled, so the 500 path covers fetch failures only.
- `Answer.GenerateAnswer`: the outer `catch` returning the "couldn't process" message is not modelled. Nothing inside can throw once Gemini is a function returning a reply.
- `Answer.GenerateAnswerWithGemini`: the system prompt is a parameter. The request payload, the URL and the API key's value are not modelled, apart from whether a key is present.
- `Chunking.ChunkTextLoop`: requires `2 * overlap < max`. With a larger overlap the source loop can stop advancing; the only caller passes 8000 and 400.
- `Retrieval.FetchedMentionsUniversity` and `Retrieval.TextFallbackMentionsAsked`: these hold only for a database that honours the query (`Honours`). The query's meaning is otherwise not modelled.
- `Context.RebalancedCoversEachUniversity`: stated for two or three mentioned universities only, the cases where the per-university share fits the 24-document cap.
- `Answer.SplitBlocks`: the lookahead split `/\n(?=\[[^\]]+\]\s*\n)/` is modelled by an explicit scan for a newline followed by a "[title]" line. Only the round trip through `join("\n")` is proved, not equivalence with a regex engine.
- `Context.GroupOf`, `Context.EnsureDiverseContext`, `Context.BuildContextText`, `Retrieval.Purified`, `Retrieval.RepairComparison` and everything else that classifies a document use the corrected `Universities.DocUniversity` of the Findings below. They differ from the code on titles that contain "aastu", which the code gives to Adama.
- `Embedding.DeterministicEmbedding` and `Embedding.EmbedText` use the corrected `Embedding.Normalize` of the Findings below. They differ from the code only on the byte pair 0x80 0x00, which the code maps to -32768/32767.
- JavaScript's `length`, `slice` and `substring` count UTF-16 code units, while a Dafny `char` is one Unicode scalar value. Every length bound (600, 8000, 16000, 60000, 30, 25, 50) therefore counts one per character where JavaScript counts two for a character outside the Basic Multilingual Plane. A JavaScript slice can also split such a character's surrogate pair; the model's slices cannot.
- `Context.Untagged`: `new Set(result)` and `tagged.has(d)` test object identity, while the model tests value equality. They differ only when the input holds the same stored document twice, as two objects. The comparison merge and the repair step add only unseen ids; a database query returning one document twice is not modelled.
- `Ingestion.StripHtml`: the script/style patterns are modelled as removing from an opening `<script`/`<style` (followed by a non-word character) up to the first closing tag, case-insensitively. A block without a closing tag is left for the generic tag rule, as the regex does. Equivalence with the regex engine is not proved.

## Findings

| source | as written | input that shows it | evidently intended | confidence | as-written member | corrected member |
|---|---|---|---|---|---|---|
| _backend/src/services/rag.ts:31-33 | the title check for "astu" runs before the check for "aastu", and "aastu" contains "astu" | a document titled "AASTU programs" is classified as Adama | titles naming AASTU are AASTU's, as the later content rule (line 36-37) already does | not executed | Universities.AsWrittenMisclassifiesAastuTitle | Universities.DocUniversity |
| _backend/src/services/voyage.ts:47-48 | the signed value is divided by 0x7fff, but the smallest signed value is -0x8000 | a digest with the byte pair 0x80 0x00 yields -32768/32767, below -1 | every embedding value within [-1, 1], as the comment on line 43 says | not executed | Embedding.NormalizeAsWrittenLeavesRange | Embedding.Normalize |

The code as written is `Universities.DocUniversityAsWritten` (with `Universities.AsWrittenAastuTitleIsAdama` for every such title) and `Embedding.NormalizeAsWritten` (with `Embedding.PairEightyZero` for every such digest). The rest of the model uses the corrected members. `Universities.DocUniversityAgreesElsewhere` and `Embedding.Normalize` show that the two differ only on the inputs above.
