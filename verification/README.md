# Decision memory: a verified model

This project models the logic of the decision memory system: how records are
read, chunked and indexed, how a question retrieves evidence, how a drafted
answer is checked before it is shown, and how the evaluation battery judges
the result. `dafny verify dfyconfig.toml` is the command that verifies it.

Methods keep the loops, lists and early exits of the code they model and are
proved against a function of their inputs; the laws about that function are
lemmas. Classes stand for the two objects with state, the cycle finder and the
index writer.

| module | what it models |
|---|---|
| `Options`, `Text`, `TextLaws`, `Ordering`, `Grouping` | optional values; the string functions and what each means; Python's stable sort; greedy grouping |
| `Retrieval`, `RankLaws`, `TieBreak`, `BuildIndependence` | BM25 and semantic ranking, which chunks get which rank, reciprocal rank fusion, its tie break, and the independence of the answer's evidence from chunk ids |
| `Diversity`, `DiversityLaws` | the two pass selection of at most eight chunks |
| `Morphology`, `CanonicalStem` | base sets, and the stemmer run to its fixed point |
| `Guard`, `GuardText`, `AnswerLoop`, `AnswerEvidence`, `Generation` | the decomposition guard on tokens and on texts, the sentence verification loop and the evidence it shows, and the validators it rests on |
| `Chunking`, `ParagraphRule`, `SentenceCuts`, `SentenceRule`, `Packing`, `Overlap`, `Batching` | splitting, where paragraphs and sentences are cut, packing and overlapping a unit's text; embedding batches |
| `Adapter`, `SectionLaws`, `BodyUnits`, `Provenance` | fences, blocks and sections of a source file, body units, and `body[i]` provenance from two files to the check |
| `Supersession`, `IndexStore`, `Ingest` | cycle detection, the store step by step, and whole ingest runs |
| `Oracle` | the run time oracle and the static check on expectations |
| `RecordFile` | record files, their normal form and the digest check |
| `Lexical`, `LexicalSpans` | the tokenizer scanner, and which stretches of a text it takes |

## Where the code and its documentation differ

The model follows the code. For each difference one contract states exactly
when the code does what its documentation says, and a lemma gives failing input.

- `base-set-pair-comparison.py:96-98` says every round shortens the token or
  halts. It does so exactly on tokens that do not end in a single `i`
  (`CanonicalStem.RoundShortensExactly`); `ski` goes to `sky`
  (`CanonicalStem.LengthIsNotAMeasure`). The measure of the loop is the pair
  (length, ends in `i`).
- `morphology.py:8-9` says a base set match implies equal canonical stems. For
  a shared base that holds exactly when the `iy` exception applies to both
  tokens or to neither (`CanonicalStem.SharedBaseStems`); it fails for `aiy`
  and `aiies` (`CanonicalStem.IyWitness`).
- `chunking.py:121-129` puts a terminator at the end of its sentence. The scan
  starts on the terminator, so each cut falls before it. The rule is met exactly
  on texts in which no sentence ends, or in which nothing but whitespace stands
  outside the terminators and their closing characters
  (`SentenceRule.RuleHoldsExactly`); `A. B.` breaks it
  (`SentenceRule.CutsFallBeforeTerminators`).
- `jsmastery_adapter.py:574-577` says a `#` line inside a closed fence is never
  a heading. An earlier mark that nothing closes ends the search for fences. All
  closed fences are found exactly when no mark behind the first unclosed one has
  a closer (`Adapter.FencedAsDocumentedExactly`); a four line text breaks it
  (`Adapter.StrayMarkHidesFences`).
- `query.py:941-948` and `query.py:999-1006` describe a tie break on chunk id.
  The sorts use the stable key of `query.py:119-136`, which the build
  independence of the ranks rests on. The orders agree exactly when, among items
  with one score, ids are ordered as stable keys are
  (`TieBreak.SortsAgreeExactly`, `TieBreak.FusedAsDocumentedExactly`). Two
  accepted chunks ordered otherwise break it in the lexical stage when their
  scores are equal (`TieBreak.LexicalTieGoesToTheKey`), and in the fused order
  when the two stages rank them in opposite order
  (`TieBreak.FusedTieGoesToTheKey`); `TieBreak.IdsAgainstKeys` is such a pair.
- `ingest.py:231-232` deletes the vectors of replaced chunks last, but their
  rows are never deleted, so a record written over its own rows leaves a row
  without a vector (`Ingest.ReplacementBreaksAgreement`). Where deletions
  succeed, rows and vectors agree at the end exactly when no written record had
  rows before (`Ingest.RunIngest`). Rebuilds, and runs whose entries are new,
  unchanged, failed or removed, are not affected. A failed record written again
  with the same chunk ids is.
- `file_reader.py:359-365` says a record read back equals the record written.
  That holds exactly for records with a body, no empty block and no carriage
  return in the body (`RecordFile.ReadsBackEqualExactly`); a record without a
  body breaks it (`RecordFile.BodilessReadsBackOtherwise`).

## What is assumed

- Providers, the BM25 scorer, the token counter, the YAML codec, case folding
  and normalization, Unicode letter and mark classes, and hashes are function
  parameters. A contract on one of them is a named predicate, required only
  where it is used: `PositionFree` (permuting documents permutes scores),
  `PartsFit` (a part of a run of joined pieces that fits the target fits it too,
  as it does when a part of a text never has more tokens), `Pointwise` (an
  embedder works input by input), `Faithful` (YAML loads what it dumped and
  writes no bare fence line), `Categories` (letters, digits, marks, apostrophes
  and spaces are told apart), `Injective` (no hash collision). The digest's text
  normalization takes a body and its LF form to the same text.
- Answers of a provider are a function of a call number, so two equal calls may
  differ. What is said of an answer speaks of the replies to the calls the run
  made, each at its own number. Which vectors a best effort deletion really
  removes is a function of the step number.
- `FiledById`: a record file holds the record it is named after. `DistinctIds`:
  manifest ids are unique, as the adapter writes them. A new generation's id is
  fresh.
- `UniqueKeys`: the store's uniqueness constraint on record, fingerprint, path
  and ordinal within a generation (`sqlite_store.py:90`).
- Fused scores are exact rationals. Distinct rank pairs can tie exactly
  (`Retrieval.ExactTie`), and a floating point sum could break such a tie by
  rounding instead of by the stable key.

## Model

| member | source | states |
|---|---|---|
| `Retrieval.LexicalStage` | src/decision_memory/application/query.py:935-991 | the lexical stage: every accepted chunk scored in chunk id order, disposed of by the fixed precedence, ranked by score and stable key, cut at 24, rows in stable order; it fails exactly when the scorer gives a wrong length or a score that is not finite |
| `Retrieval.SplitByDisposition` | src/decision_memory/application/query.py:954-973 | the first loop fails exactly on a score that is not finite and else splits rows from ranked items |
| `Retrieval.AssignRanks` | src/decision_memory/application/query.py:974-991 | ranks follow the sort, the cut keeps ranks 1 to 24, and the rows are then put in stable key order |
| `Retrieval.SemanticStage` | src/decision_memory/application/query.py:447-496 | semantic ranks depend on the returned set and its distances only; a foreign or repeated id or a distance outside [0, 2] fails |
| `Retrieval.FusionStage` | src/decision_memory/application/query.py:994-1047 | the fused candidates are the ranked union, scored, sorted by score and stable key, numbered from 1 |
| `Retrieval.FuseOne` | src/decision_memory/application/query.py:1007-1016 | a chunk scores the sum of 1 / (60 + rank) over the lists that rank it |
| `Retrieval.KeyLtTotal` | src/decision_memory/application/query.py:119-136 | the stable key is a total order on records, fingerprints, paths and ordinals |
| `Retrieval.KeyLtTransitive` | src/decision_memory/application/query.py:119-136 | and it is transitive, so the sorts are well defined |
| `RankLaws.KeyOrderExactly` | src/decision_memory/application/query.py:119-136 | chunks are ordered by record, fingerprint, path, ordinal, and share a key exactly when they share all four |
| `Ordering.StrLtExactly` | src/decision_memory/application/query.py:119-136 | strings are ordered by their first difference, a prefix before its extension |
| `Retrieval.ItemNoTies` | src/decision_memory/application/query.py:119-136 | with unique stable keys no two ranked items tie |
| `Retrieval.StageRanksInTop` | src/decision_memory/application/query.py:977-987 | the cut-offs of both stages let only ranks 1 to 24 reach fusion |
| `RankLaws.LexicalFailsExactly` | src/decision_memory/application/query.py:950-962 | the lexical stage fails exactly on a wrong count of scores or one that is not finite |
| `RankLaws.RankedExactly` | src/decision_memory/application/query.py:954-991 | a chunk is ranked exactly when it has a token in common with the query, its score is positive and fewer than 24 such chunks have a higher score, or the same and a smaller stable key; its rank is one more than their number |
| `RankLaws.LexicalRowsExactly` | src/decision_memory/application/query.py:954-991 | every accepted chunk has exactly one row, in stable key order: no_term_match exactly without a common token, nonpositive_score exactly with one and a score of at most zero, and otherwise its rank, within the top 24 or outside |
| `RankLaws.SemanticRankedExactly` | src/decision_memory/application/query.py:447-496 | the semantic rank of a chunk is one more than the number of nearer ones, ties by stable key, and ranks past 24 are cut |
| `RankLaws.SemanticRowsExactly` | src/decision_memory/application/query.py:447-496 | one row for each chunk, in stable key order, with rank, clamped distance, similarity and cut |
| `RankLaws.ValidDistanceExactly` | src/decision_memory/application/query.py:438-460 | a distance is valid exactly when it is within rounding of one in [0, 2] |
| `Retrieval.TwoBeatOne` | src/decision_memory/application/query.py:1007-1016 | two ranks of at most 24 outscore any single rank |
| `Retrieval.DominanceRaisesScore` | src/decision_memory/application/query.py:1007-1016 | at least as good in both lists and better in one scores strictly higher |
| `Retrieval.FusedOrderSorted` | src/decision_memory/application/query.py:1017-1022 | the fused order is strictly sorted, so it is the only such order |
| `Retrieval.FusionScores` | src/decision_memory/application/query.py:1023-1047 | each fused candidate carries its own two ranks, at least one of them, and their score |
| `Retrieval.ConsensusFirst` | src/decision_memory/application/query.py:1007-1047 | every chunk ranked by both retrievers precedes every chunk ranked by one; a dominating chunk precedes the dominated one |
| `Retrieval.ExactTie` | src/decision_memory/application/query.py:1007-1016 | distinct rank pairs tie exactly: 1/63 + 1/84 = 1/72 + 1/72 |
| `TieBreak.SortsAgreeExactly` | src/decision_memory/application/query.py:941-948 | the order used, score then stable key, is the documented one, score then chunk id, exactly when ids are ordered as stable keys are among items with one score |
| `TieBreak.LexicalTieGoesToTheKey` | src/decision_memory/application/query.py:935-991 | the failing family: of two accepted chunks with equal positive scores the stage ranks the one with the smaller stable key first, whatever their ids |
| `TieBreak.FusedAsDocumentedExactly` | src/decision_memory/application/query.py:999-1022 | the same for the fused order |
| `TieBreak.FusedTieGoesToTheKey` | src/decision_memory/application/query.py:999-1022 | the failing family: two accepted chunks that the lexical and the semantic stage rank in opposite order tie, and with ids against stable keys their fused order is not the documented one |
| `TieBreak.IdsAgainstKeys` | src/decision_memory/application/query.py:119-136 | such a pair: the smaller id belongs to the later record |
| `BuildIndependence.SortFollows` | src/decision_memory/application/query.py:935-1047 | sorting two renamed item sets, whatever their arrival order, gives renamed sorted lists |
| `BuildIndependence.LexicalFollows` | src/decision_memory/application/query.py:935-991 | two builds fail the lexical stage together or get the same ranks under the renaming, for a scorer that ignores positions |
| `BuildIndependence.AcceptedTogether` | src/decision_memory/application/query.py:447-496 | the set and distance checks accept the matches of both builds or of neither |
| `BuildIndependence.SemanticFollows` | src/decision_memory/application/query.py:447-496 | two builds fail the semantic stage together or get the same ranks under the renaming, whatever the store returns: foreign or repeated ids and wrong counts included |
| `BuildIndependence.FusionFollows` | src/decision_memory/application/query.py:994-1047 | the fused lists of two builds correspond place by place |
| `BuildIndependence.SelectionFollows` | src/decision_memory/application/query.py:1050-1127 | so do the accepted lists after the diversity pass |
| `BuildIndependence.BuildIndependent` | src/decision_memory/application/query.py:119-136 | end to end: two builds that differ in chunk ids only fail each stage together, and otherwise accept corresponding chunks, in the same order, with equal record, path, text and provenance |
| `Diversity.DiversityStage` | src/decision_memory/application/query.py:1050-1127 | the two passes compute the final states and the accepted ids in rank order |
| `Diversity.BreadthLoop` | src/decision_memory/application/query.py:1064-1093 | the breadth pass: per record counts, deferred indices and the early limit |
| `Diversity.FillLoop` | src/decision_memory/application/query.py:1094-1110 | the fill pass overwrites exactly the deferred states it accepts |
| `DiversityLaws.Totals` | src/decision_memory/application/query.py:1064-1110 | both passes together have enough candidates for min(8, n) accepts and never more in the first |
| `DiversityLaws.RanksAreExact` | src/decision_memory/application/query.py:1064-1110 | every accepted candidate is the one holder of a rank in 1 to min(8, n) |
| `DiversityLaws.HolderOf` | src/decision_memory/application/query.py:1064-1110 | every rank in 1 to min(8, n) has a holder |
| `DiversityLaws.PassOrder` | src/decision_memory/application/query.py:1064-1110 | breadth accepts precede fill accepts and each pass keeps fused order |
| `DiversityLaws.RecordPrefix` | src/decision_memory/application/query.py:1064-1110 | the accepted chunks of a record are a prefix of its fused order |
| `DiversityLaws.CapHolds` | src/decision_memory/application/query.py:1064-1093 | the breadth pass accepts at most two chunks of a record |
| `DiversityLaws.ThirdOnlyWhenSpread` | src/decision_memory/application/query.py:1064-1110 | if a record has three accepts, every rejected candidate's record already has two |
| `DiversityLaws.AcceptedInRankOrder` | src/decision_memory/application/query.py:1111-1127 | the accepted list has min(8, n) ids, the k-th being the holder of rank k |
| `Morphology.ComputeBaseSet` | src/decision_memory/application/morphology.py:87-134 | the three loops of `base_set` compute the base set |
| `Morphology.BaseSetExact` | src/decision_memory/application/morphology.py:87-134 | the base set is the token and every base of length at least 3 from which one of the five rules derives it |
| `Morphology.StemMatchIsMembership` | src/decision_memory/application/morphology.py:50-84 | the directional match holds exactly when one token is in the other's base set |
| `Morphology.IntersectIsCommonBase` | src/decision_memory/application/morphology.py:137-154 | the symmetric match extends it, is symmetric, and joins exactly pairs with a common base |
| `Morphology.SiblingsMeetAtCommonBase` | src/decision_memory/application/morphology.py:137-154 | `falls` and `falling` meet though neither derives from the other |
| `Morphology.MatchIsNotTransitive` | src/decision_memory/application/morphology.py:137-154 | the match is not transitive: `car`, `cared`, `care` |
| `CanonicalStem.RunOneRound` | docs/experiments/data/base-set-pair-comparison.py:75-90 | the suffix loop and the tail rule compute one round |
| `CanonicalStem.StripRules` | docs/experiments/data/base-set-pair-comparison.py:77-81 | a suffix comes off a stem of at least two characters, in the fixed order |
| `CanonicalStem.TailRulesExactly` | docs/experiments/data/base-set-pair-comparison.py:83-90 | a doubled final letter is undoubled, else a final `i` becomes `y`, else a final `e` goes while two characters stay |
| `CanonicalStem.RunCanonical` | docs/experiments/data/base-set-pair-comparison.py:93-108 | the uncapped loop terminates on every token and computes the stem |
| `CanonicalStem.StemIsFirstFixed` | docs/experiments/data/base-set-pair-comparison.py:93-108 | a token of at least three characters goes to the first fixed point of its rounds, a shorter one stays |
| `CanonicalStem.RoundLowersMeasure` | docs/experiments/data/base-set-pair-comparison.py:75-90 | a round that changes the token lowers (length, ends in i) |
| `CanonicalStem.RoundShortensExactly` | docs/experiments/data/base-set-pair-comparison.py:75-98 | a round halts or shortens, as the docstring says of all, exactly on tokens that do not end in a single `i` |
| `CanonicalStem.LengthIsNotAMeasure` | docs/experiments/data/base-set-pair-comparison.py:96-98 | the failing case: `ski` takes a round to `sky` |
| `CanonicalStem.CanonicalIdempotent` | docs/experiments/data/base-set-pair-comparison.py:93-108 | stemming a stem changes nothing |
| `CanonicalStem.StemOfDerivation` | src/decision_memory/application/morphology.py:14-20 | a derivation keeps the stem unless it turns a final `iy` into `ii`, where the stem always differs |
| `CanonicalStem.SharedBaseStems` | src/decision_memory/application/morphology.py:8-9 | tokens with a shared base have equal stems exactly when the exception applies to both or neither |
| `CanonicalStem.IntersectImpliesEqualStems` | src/decision_memory/application/morphology.py:8-9 | a shared base that does not end in `iy` forces equal stems |
| `CanonicalStem.IyWitness` | src/decision_memory/application/morphology.py:8-9 | the unrestricted claim fails for `aiy` and `aiies` |
| `CanonicalStem.EqualStemsWithoutBase` | src/decision_memory/application/morphology.py:8-9 | the converse fails: `file` and `fill` |
| `Guard.RunSentenceTokens` | src/decision_memory/application/verification.py:207-221 | the append loop computes the tokens |
| `GuardText.TokensAreCores` | src/decision_memory/application/verification.py:207-221 | the tokens of a text are, in word order and with repeats, the nonempty cores of its words: each word is edge punctuation, core, edge punctuation |
| `GuardText.TokenIsCore` | src/decision_memory/application/verification.py:207-221 | a token is exactly such a core |
| `GuardText.EdgeCharacters` | src/decision_memory/application/verification.py:204 | which characters are edge punctuation |
| `GuardText.SameNormalExactly` | src/decision_memory/application/verification.py:20-24 | two texts have one normal form exactly when they have the same words |
| `Guard.TakeFirst` | src/decision_memory/application/verification.py:299-315 | the inner loop marks the first unused matching parent token and no other |
| `Guard.RunAdditive` | src/decision_memory/application/verification.py:264-315 | the greedy walk with its `used` list and function word counter |
| `Guard.AssignmentInjective` | src/decision_memory/application/verification.py:299-315 | a matched token takes an unused parent token of its own that matches it |
| `Guard.LeftoverIsExcess` | src/decision_memory/application/verification.py:299-315 | the unmatched function words are exactly the multiset excess over the pool |
| `Guard.WalkVerdict` | src/decision_memory/application/verification.py:299-315 | the walk passes exactly when content is matched and the excess fits the budget |
| `Guard.AcceptedIsBounded` | src/decision_memory/application/verification.py:264-315 | a pass is equivalent to every content token being matched and an excess of at most two function words, and it gives an injection of content tokens into matching parent tokens |
| `Guard.InOrderIsAdditiveFree` | src/decision_memory/application/verification.py:299-315 | content tokens in parent order always pass, although the walk never backtracks |
| `Guard.SubsequenceFunctionWords` | src/decision_memory/application/verification.py:299-315 | a subsequence adds no function word |
| `Guard.FirstOmitted` | src/decision_memory/application/verification.py:318-364 | an omission is reported exactly when some demanded parent token is matched by nothing, and it is such a token |
| `Guard.RunComplete` | src/decision_memory/application/verification.py:318-364 | the completeness walk with its early stop |
| `Guard.RunClassify` | src/decision_memory/application/verification.py:406-434 | the classifier with its loops over the sub claims and the parent |
| `GuardText.VerdictExactly` | src/decision_memory/application/verification.py:406-434 | the verdict names the first rule that fails: cap, repeats, the first part that adds, the first demanded token omitted |
| `GuardText.WalkStopsFirst` | src/decision_memory/application/verification.py:264-315 | a walk stops on the first token that makes the tokens up to it too many: content without a match, or one function word over the budget |
| `GuardText.NothingInvented` | src/decision_memory/application/verification.py:406-434 | no response is valid if some part has a word whose core is content and is the same word as no core of the parent |
| `GuardText.NothingOmitted` | src/decision_memory/application/verification.py:406-434 | nor if a core of the parent, no function word and no connective, is the same word as no core of any part |
| `GuardText.RepeatsExactly` | src/decision_memory/application/verification.py:406-420 | sub claims count as repeated exactly when two have the same words |
| `Guard.ValidExactly` | src/decision_memory/application/verification.py:406-434 | valid means exactly: at most eight distinct sub claims, none additive, every demanded parent token matched |
| `Guard.FaithfulSplitAccepted` | src/decision_memory/application/verification.py:406-434 | every faithful split (in order sub claims that together hold every demanded token) is classified valid |
| `Guard.WholeSentenceAccepted` | src/decision_memory/application/verification.py:406-434 | the whole sentence as one sub claim is always valid |
| `Guard.GreedyIsNotComplete` | src/decision_memory/application/verification.py:299-315 | greedy is not complete for matching: `cared car` against `car care` |
| `Generation.ValidateFacets` | src/decision_memory/infrastructure/openai_generation.py:424-448 | facets are accepted exactly when the payload meets every rule, and are the payload's facets in order |
| `Generation.ValidateDraft` | src/decision_memory/infrastructure/openai_generation.py:451-507 | a draft is accepted exactly when every sentence is clean, single and cites 1 to 8 distinct known chunks; ids are given in order |
| `Generation.CitationsAcceptable` | src/decision_memory/infrastructure/openai_generation.py:472-494 | the citation checks: typed, counted, distinct, known |
| `Generation.ValidateCoverage` | src/decision_memory/infrastructure/openai_generation.py:521-590 | coverage is accepted exactly when each facet has its row, in order, naming kept sentences iff covered |
| `Generation.InKeptOrderExactly` | src/decision_memory/infrastructure/openai_generation.py:566-576 | sentence ids are known, unrepeated and in kept order exactly when they are a subsequence of the kept ids |
| `AnswerLoop.SplitCitations` | src/decision_memory/application/query.py:640-652 | citations are deduplicated in order and split into available and missing |
| `AnswerLoop.Decompose` | src/decision_memory/application/query.py:678-705 | one retry, only after a two half failure; it fails exactly when a call it makes fails, and the verdict is the guard's on the last response |
| `AnswerLoop.CheckClaims` | src/decision_memory/application/query.py:750-800 | the claim loop: a row for each sub claim from containment or its own entailment call, failing exactly when one of those calls fails |
| `AnswerLoop.VerifySentence` | src/decision_memory/application/query.py:638-816 | one pass ends in the one record the branches allow for the replies to its own calls, or fails exactly when one of them fails |
| `AnswerLoop.VerifyDraft` | src/decision_memory/application/query.py:627-816 | the loop over the draft fails exactly when a call for some sentence fails; else it fills every trace list from the records, each sentence judged by its own calls, with its containment row in order and its id among the emitted or the removed ones, never both |
| `AnswerLoop.RunIsDetermined` | src/decision_memory/application/query.py:627-816 | the replies to the run's calls leave exactly one list of records |
| `AnswerEvidence.EvidenceOf` | src/decision_memory/application/query.py:640-653 | the evidence of a sentence is its distinct available citation ids, in order of first citation, each with its text |
| `AnswerEvidence.EvidenceUnique` | src/decision_memory/application/query.py:640-653 | and there is one such evidence |
| `AnswerEvidence.EvidenceDecidesRecords` | src/decision_memory/application/query.py:678-800 | two providers that reply alike to the calls with exactly that evidence leave the same records |
| `AnswerEvidence.EvidenceDecides` | src/decision_memory/application/query.py:627-860 | and lead to the same answers |
| `AnswerEvidence.MatchingInOrder` | src/decision_memory/application/query.py:753-757 | the chunks that contain a claim are listed in order of first citation |
| `AnswerEvidence.RetryExactly` | src/decision_memory/application/query.py:678-705 | a second decomposition call follows exactly a reply that adds or omits, and then its reply counts |
| `AnswerEvidence.CallsCounted` | src/decision_memory/application/query.py:750-800 | there is one entailment call for each claim that no chunk contains |
| `AnswerEvidence.TurnCounted` | src/decision_memory/application/query.py:638-816 | how many calls a sentence takes |
| `AnswerEvidence.TurnsApart` | src/decision_memory/application/query.py:638-816 | the calls of a sentence are numbered behind those of every earlier one |
| `AnswerLoop.TraceAccounts` | src/decision_memory/application/query.py:627-816 | the same accounting for any list of judged sentences; dropped rows repeat the removed ids in order |
| `AnswerLoop.EmittedAndDroppedSplit` | src/decision_memory/application/query.py:627-816 | emitted and dropped rows split the draft, both in draft order, and `removed` repeats the dropped ids |
| `AnswerLoop.DropReasonsAgree` | src/decision_memory/application/query.py:706-744 | sentence ids counted with repeats, the rejected and the empty divisions are exactly the sentences dropped for an invalid division |
| `AnswerLoop.ContainmentExactly` | src/decision_memory/application/query.py:654-655 | every containment result is in the trace, in draft order |
| `AnswerLoop.DecomposedExactly` | src/decision_memory/application/query.py:749-782 | the trace has the checked rows of every valid division, and no other |
| `AnswerLoop.SignalsExactly` | src/decision_memory/application/query.py:706-744 | every empty and every rejected response has its row, with the number of claims and the verdict |
| `AnswerLoop.MissingExactly` | src/decision_memory/application/query.py:647-651 | so has every sentence with missing citations |
| `AnswerLoop.EmittedIsGrounded` | src/decision_memory/application/query.py:653-662 | a judged sentence is emitted exactly when a cited chunk contains it, or it has evidence and the division its calls left is valid with every sub claim contained in a cited chunk or supported by the call made for it |
| `AnswerLoop.AllEmittedGrounded` | src/decision_memory/application/query.py:627-816 | every emitted sentence of a verified draft is a draft sentence with its available citations, grounded by the calls of its own turn |
| `AnswerLoop.ValidatedDraftHasCitations` | src/decision_memory/application/query.py:641-652 | after the draft validator nothing cited is missing and no sentence is dropped for want of citations |
| `AnswerLoop.Cover` | src/decision_memory/infrastructure/openai_generation.py:766-816 | the accepted rows come from the first acceptable payload of the run's two coverage calls; it fails exactly when a call it makes fails or both payloads are refused |
| `AnswerLoop.Conclude` | src/decision_memory/application/query.py:817-860 | the query fails exactly when a verification or coverage call fails or both coverage payloads are refused; it answers exactly when a sentence is emitted and every row is covered, with every sentence grounded by its own calls and every facet covered by named emitted sentences in the rows the provider gave; else it abstains with exactly the uncovered facets, all of them when nothing is emitted |
| `AnswerLoop.ConclusionUnique` | src/decision_memory/application/query.py:817-860 | the replies to the calls of a run lead to one answer |
| `AnswerLoop.ContainedIsInside` | src/decision_memory/application/verification.py:33-42 | the containment test holds exactly when the nonempty normal form of the text is part of that of a cited chunk |
| `AnswerLoop.EmittedIsAnswerable` | src/decision_memory/application/query.py:627-816 | with the guard as the check, every emitted sentence lies inside a cited chunk, or the division its own calls left has at most eight distinct parts, adds and omits nothing, and each part lies in a cited chunk or was entailed by the call made for it |
| `Grouping.GreedyGroups` | src/decision_memory/application/chunking.py:153-203 | greedy grouping loses, repeats and reorders nothing and makes only allowed groups |
| `Grouping.GreedyMinimal` | src/decision_memory/application/chunking.py:153-203 | for a condition closed under parts, no grouping in order is shorter than the greedy one |
| `Chunking.ParagraphsKeep` | src/decision_memory/application/chunking.py:105-118 | paragraph splitting keeps every character that is not whitespace |
| `ParagraphRule.ParagraphsExactly` | src/decision_memory/application/chunking.py:105-118 | the paragraphs of a stripped text are the only way to part it, by runs of spaces, tabs and newlines between two newlines, into texts without a blank line |
| `Chunking.SplitSentences` | src/decision_memory/application/chunking.py:121-150 | the sentence loop with its inner scans |
| `Chunking.CutPoint` | src/decision_memory/application/chunking.py:131-146 | the inner scans start on the terminator and never move |
| `Chunking.SentencesKeep` | src/decision_memory/application/chunking.py:121-150 | sentence splitting keeps every character that is not whitespace |
| `SentenceCuts.SentencesExactly` | src/decision_memory/application/chunking.py:121-150 | the sentences are the stripped stretches between all places where a terminator, closing characters and then whitespace or the end stand, blank ones left out |
| `Chunking.LaterSentencesOpenWithTerminator` | src/decision_memory/application/chunking.py:131-146 | every cut falls before a terminator |
| `SentenceRule.CutsFallBeforeTerminators` | src/decision_memory/application/chunking.py:121-129 | the failing case: `A. B.` is cut before each terminator |
| `SentenceRule.RuleHoldsExactly` | src/decision_memory/application/chunking.py:121-150 | the splitter follows the documented rule exactly on texts without a sentence end and on texts with only whitespace outside the terminators and their closing characters |
| `Chunking.PackOversizeParagraph` | src/decision_memory/application/chunking.py:153-178 | the sentence packing loop |
| `Chunking.RunPackParagraphs` | src/decision_memory/application/chunking.py:181-203 | the paragraph packing loop |
| `Chunking.ChunkingConserves` | src/decision_memory/application/chunking.py:105-203 | from a unit's text to its chunks no character that is not whitespace is lost, duplicated or reordered |
| `Packing.EmitIsGreedy` | src/decision_memory/application/chunking.py:153-203 | the packing loops render the greedy grouping |
| `Packing.SentencePackingMinimal` | src/decision_memory/application/chunking.py:153-178 | no grouping of the sentences within the target uses fewer chunks, for any counter under which a part of a fitting run fits |
| `Packing.PackingMinimal` | src/decision_memory/application/chunking.py:181-203 | no packing of a unit uses fewer chunks, however paragraphs are grouped or oversize ones split, for any such counter |
| `Packing.MonotonePartsFit` | src/decision_memory/application/chunking.py:153-203 | a counter that never counts a part above its whole is such a counter |
| `Packing.OversizeChunkIsSingle` | src/decision_memory/application/chunking.py:153-203 | a chunk over the target is one single sentence, for any counter |
| `Overlap.Drops` | src/decision_memory/application/chunking.py:213-221 | the overlap is the longest tail of whole sentences within the limit |
| `Overlap.OverlapText` | src/decision_memory/application/chunking.py:206-221 | the loop from the longest tail down |
| `Overlap.OverlapIsTail` | src/decision_memory/application/chunking.py:206-221 | an overlap is empty or within its limit, and repeats the end of its chunk |
| `Overlap.OverlapIsLongest` | src/decision_memory/application/chunking.py:213-221 | of the sentence tails within the bound the overlap is the longest |
| `Overlap.LimitExactly` | src/decision_memory/application/chunking.py:214 | the bound is fifteen percent rounded down, and at least one token |
| `Overlap.ApplyOverlap` | src/decision_memory/application/chunking.py:224-237 | the loop over the packed chunks |
| `Overlap.ChunkOpens` | src/decision_memory/application/chunking.py:224-237 | each chunk but the first is the overlap of its packed predecessor, a blank line and the packed chunk, or the packed chunk alone |
| `Overlap.RecoversPacked` | src/decision_memory/application/chunking.py:224-237 | the packed chunks can be recovered from the overlapped ones |
| `Overlap.UnitChunksConserve` | src/decision_memory/application/chunking.py:374-376 | from a unit's text to its overlapped chunks and back nothing but whitespace is lost |
| `Batching.EmbedInBatches` | src/decision_memory/application/ingest.py:474-493 | the calls are the batches, in order; the run fails exactly when some batch fails |
| `Batching.BatchCount` | src/decision_memory/application/ingest.py:496-513 | the count equals the number of embed calls |
| `Batching.BatchesAreOptimal` | src/decision_memory/application/ingest.py:474-493 | batches carry the inputs once and in order, keep both caps unless a single oversize input, and are as few as possible |
| `Batching.BatchingIsTransparent` | src/decision_memory/application/ingest.py:474-493 | for a pointwise embedder batching equals one call |
| `Adapter.FencedLineNumbers` | src/decision_memory/infrastructure/jsmastery_adapter.py:541-565 | the scan covers exactly the closed fences |
| `SectionLaws.MarkExactly` | src/decision_memory/infrastructure/jsmastery_adapter.py:85 | a line has a fence mark exactly when whitespace and then a maximal run of at least three of one delimiter open it |
| `Adapter.ScanFindsFences` | src/decision_memory/infrastructure/jsmastery_adapter.py:541-565 | the line by line scan equals the fences found by searching mark and closer |
| `Adapter.FencesAreClosed` | src/decision_memory/infrastructure/jsmastery_adapter.py:541-565 | each fence runs from a mark to the first line that closes it; fences follow one another |
| `Adapter.FencedAsDocumentedExactly` | src/decision_memory/infrastructure/jsmastery_adapter.py:541-577 | the scan covers every closed fence exactly when no mark behind the first unclosed one has a closer |
| `Adapter.StrayMarkHidesFences` | src/decision_memory/infrastructure/jsmastery_adapter.py:568-577 | the failing case: a stray unclosed mark hides a closed fence behind it |
| `Adapter.SplitBlocks` | src/decision_memory/infrastructure/jsmastery_adapter.py:568-602 | the block loop |
| `SectionLaws.SplitsExactly` | src/decision_memory/infrastructure/jsmastery_adapter.py:568-602 | a block starts exactly on an unfenced line of one or two hashes and whitespace |
| `SectionLaws.BlocksExactly` | src/decision_memory/infrastructure/jsmastery_adapter.py:568-602 | one block for each heading line, in order: its level, the text behind the hashes, and the lines up to the next heading line without outer newlines |
| `Adapter.H2Sections` | src/decision_memory/infrastructure/jsmastery_adapter.py:523-538 | sections in order of first occurrence, duplicates appended |
| `SectionLaws.SectionTexts` | src/decision_memory/infrastructure/jsmastery_adapter.py:523-538 | a section is a heading of some H2 block with all bodies under it, in order, a blank line between |
| `Adapter.FileSections` | src/decision_memory/infrastructure/jsmastery_adapter.py:523-602 | a file's sections have distinct one line headings, and their lines are fenced or no heading |
| `Adapter.ResidueBodySections` | src/decision_memory/infrastructure/jsmastery_adapter.py:666-700 | the body text and its source list, heading by heading |
| `Adapter.ResidueExactly` | src/decision_memory/infrastructure/jsmastery_adapter.py:682-699 | a heading is retained exactly when a file has it, it is not consumed and some file has usable text; `rationale.md` wins |
| `SectionLaws.PickedExactly` | src/decision_memory/infrastructure/jsmastery_adapter.py:682-699 | the text comes from `rationale.md` when its section has text and is no stub, and from `index.md` only when it offers none |
| `Adapter.ResidueOnce` | src/decision_memory/infrastructure/jsmastery_adapter.py:682-699 | no heading is retained twice |
| `Provenance.BodyUnitsAreSourced` | src/decision_memory/infrastructure/jsmastery_adapter.py:389-416 | for any two files and any Consequences remainder: when no closed fence, and no remainder line, looks like an H2, the body splits into exactly the retained sections, the remainder in the last one or alone, and every unit has a source |
| `Provenance.FilesAreAttributed` | src/decision_memory/application/chunking.py:410-422 | for any two files, and any Consequences remainder with text behind its last heading line: the check passes exactly when the body units are the retained sections with the remainder in the last, so a record fails rather than being misattributed; without a retained section it passes exactly when the remainder is one unit |
| `BodyUnits.SplitBodyUnits` | src/decision_memory/application/chunking.py:261-285 | the splitter loop |
| `BodyUnits.PrintSplitRoundTrip` | src/decision_memory/application/chunking.py:261-285 | splitting the printed sections gives them back in order, trimmed of surrounding newlines |
| `BodyUnits.ResidueJoinsLast` | src/decision_memory/infrastructure/jsmastery_adapter.py:397-416 | consequences residue is text of the last section, where its provenance is folded |
| `BodyUnits.SurplusUnits` | src/decision_memory/application/chunking.py:261-285 | each H2 line inside a section body makes exactly one more unit |
| `BodyUnits.MissingBodyProvenance` | src/decision_memory/application/chunking.py:410-422 | the body part of the provenance check |
| `BodyUnits.SurplusIsReported` | src/decision_memory/application/chunking.py:410-422 | with nonempty headings exactly the surplus trailing units are reported missing |
| `BodyUnits.PassingIsAttributed` | src/decision_memory/application/chunking.py:410-422 | the same for any printed sections whose last one ends in real text or a closing fence |
| `Supersession.CycleFinder.Visit` | src/decision_memory/infrastructure/index_store.py:529-541 | one visit keeps the stack, finishes the node and settles its edges |
| `Supersession.CycleFinder.VisitSuccessors` | src/decision_memory/infrastructure/index_store.py:532-539 | the successor loop: gray marks the stack segment, white recurses |
| `Supersession.CycleFinder.MarkSegment` | src/decision_memory/infrastructure/index_store.py:534-538 | a recorded segment is a walk that the edge closes |
| `Supersession.BuildGraph` | src/decision_memory/infrastructure/index_store.py:521-523 | the adjacency lists hold exactly the edges |
| `Supersession.ClosedWalkHasBackEdge` | src/decision_memory/infrastructure/index_store.py:529-546 | every cycle contains an edge the search recorded |
| `Supersession.BackEdgeCoversWalk` | src/decision_memory/infrastructure/index_store.py:529-546 | with single predecessors the recorded walk holds the whole cycle |
| `Supersession.ValidateEdges` | src/decision_memory/infrastructure/index_store.py:511-549 | no problem exactly when the graph is acyclic; reported nodes lie on cycles, and are all of them with single predecessors |
| `Supersession.LinkTable.DeriveSupersessions` | src/decision_memory/infrastructure/index_store.py:430-463 | links are rewritten from the snapshots, or left alone on a problem that names exactly the records on cycles |
| `IndexStore.UpsertKeeps` | src/decision_memory/infrastructure/index_store.py:188-218 | writing vectors first keeps every row with its vector |
| `IndexStore.CommitKeeps` | src/decision_memory/infrastructure/index_store.py:220-293 | rows may be committed once their vectors are there |
| `IndexStore.DeleteKeepsExactly` | src/decision_memory/infrastructure/index_store.py:373-383 | deleting vectors keeps agreement exactly when no row needs a deleted one |
| `IndexStore.SafeRunServesQueries` | src/decision_memory/infrastructure/index_store.py:465-491 | at every state of a safe run the generation ACTIVE names agrees, so a crash anywhere leaves a store that serves |
| `IndexStore.IndexWriter.OpenGeneration` | src/decision_memory/infrastructure/index_store.py:75-121 | resume the matching active generation or start an empty one; ACTIVE does not move |
| `IndexStore.IndexWriter.WriteRecord` | src/decision_memory/infrastructure/index_store.py:180-293 | the new generation contents and the old chunk ids; every step in between is safe |
| `IndexStore.IndexWriter.MarkFailed` | src/decision_memory/infrastructure/index_store.py:312-337 | the state row is replaced, and the cascade of that replacement drops the snapshot; rows and vectors stay |
| `IndexStore.IndexWriter.RemoveRecord` | src/decision_memory/infrastructure/index_store.py:339-371 | the tombstone and no row left; rows go before vectors |
| `IndexStore.IndexWriter.CleanupOrphans` | src/decision_memory/infrastructure/index_store.py:385-404 | only vectors without rows may go |
| `IndexStore.IndexWriter.DeriveSupersessions` | src/decision_memory/infrastructure/index_store.py:430-463 | clean exactly when the snapshots have no supersession cycle; then the links are the snapshot edges |
| `IndexStore.IndexWriter.VerifyVectors` | src/decision_memory/infrastructure/index_store.py:465-481 | parity holds exactly when every row has a vector with its metadata |
| `IndexStore.IndexWriter.Activate` | src/decision_memory/infrastructure/index_store.py:465-491 | ACTIVE moves exactly when parity holds, and the next run of the same pipeline then opens this generation |
| `Ingest.PlanNeedsProvider` | src/decision_memory/application/ingest.py:245-263 | a call is planned exactly when some entry is rebuilt or not up to date |
| `Ingest.FateExactly` | src/decision_memory/application/ingest.py:266-379 | an entry is left alone exactly when its version is indexed and its file is good, and written exactly when its version is not indexed, file and entry are good, and its chunks could be made and embedded |
| `Ingest.RejectionExactly` | src/decision_memory/application/ingest.py:266-379 | a rejection names the first check that failed |
| `Ingest.IngestEntry` | src/decision_memory/application/ingest.py:266-379 | the fate of an entry, its effect on the generation and the chunk ids it replaces |
| `Ingest.IngestEntries` | src/decision_memory/application/ingest.py:180-186 | the entry loop in id order |
| `Ingest.RemoveAbsent` | src/decision_memory/application/ingest.py:188-206 | records that left the manifest keep a tombstone and nothing else |
| `Ingest.DepartedExactly` | src/decision_memory/application/ingest.py:188-206 | a record departs when the store knows it, has not removed it, and the manifest does not name it |
| `Ingest.RunIngest` | src/decision_memory/application/ingest.py:137-242 | refusals leave the store untouched; the final contents, and links equal to the snapshot edges when the graph is clean; an embedding call is made exactly for an entry out of date with good files and chunks; every step up to activation is safe; parity cannot fail from an agreeing start; a rebuild, or a run in which no written record already had rows, deletes nothing and agrees when done; where deletions succeed rows and vectors agree at the end exactly then; the next run opens what a finished run leaves |
| `Ingest.ReplacementBreaksAgreement` | src/decision_memory/application/ingest.py:231-232 | the failing case: a record written over its own rows keeps an old row whose vector is deleted |
| `Ingest.StatesAfterRun` | src/decision_memory/application/ingest.py:180-206 | every state row after a run: entries as they fared, departed records removed, the rest untouched |
| `Ingest.RowsAfterRun` | src/decision_memory/application/ingest.py:180-206 | departed records keep no row and no other record loses one |
| `Ingest.RowsAreTheChunks` | src/decision_memory/application/ingest.py:180-206 | the rows after a run are those of records that stay, and one for each chunk of each written record with its generation, fingerprint, path and ordinal, and no other |
| `Ingest.NothingReplacedExactly` | src/decision_memory/application/ingest.py:231-232 | nothing is replaced exactly when no written record has a row before the run |
| `Ingest.SnapshotsAfterRun` | src/decision_memory/application/ingest.py:180-206 | every snapshot after a run: written records have their own, failed and departed ones none, the rest keep theirs |
| `Ingest.NextRunIsFreeExactly` | src/decision_memory/application/ingest.py:245-263 | a repeated run needs no embedding call exactly when no entry failed and every record without chunks has its digest for a fingerprint |
| `Oracle.RecordValuePaths` | src/decision_memory/infrastructure/evaluation_runner.py:272-285 | each record with the value paths of its active chunks |
| `Oracle.UnsatisfiableOracles` | src/decision_memory/application/evaluation.py:288-330 | the static check with its loops |
| `Oracle.ProblemsExactly` | src/decision_memory/application/evaluation.py:288-330 | over all fixtures a problem is reported exactly for a named record that is not there, and for a prefix that no named record there carries |
| `Oracle.AnswerMeetsExactly` | src/decision_memory/application/evaluation.py:634-775 | what an answering oracle asks: every named and, with the flag, every proposed record cited, every prefix shown on a record in scope and, with the flag, by a sentence that a covered row names |
| `Oracle.CauseExactly` | src/decision_memory/application/evaluation.py:263-285 | the cause of an abstention in terms of its coverage rows |
| `Oracle.CitationIdsDistinct` | src/decision_memory/application/query.py:1130-1172 | citations numbered C1, C2, … carry distinct ids |
| `Oracle.CheckIsExact` | src/decision_memory/application/evaluation.py:288-330 | for an answering oracle that names a record a problem is reported exactly when no answer over the active chunks, with citations numbered and covered as the query does, can meet it |
| `Oracle.UnnamedRecordIsExactWhen` | src/decision_memory/application/evaluation.py:288-330 | an answering oracle without a record passes the check; such an answer can meet it exactly when every prefix is carried |
| `Oracle.AbstentionIsSatisfiable` | src/decision_memory/application/evaluation.py:598-631 | an abstention with either cause can be met by a result with coverage rows the validator accepts |
| `Oracle.LoaderCheckIsExact` | src/decision_memory/infrastructure/battery_manifest.py:176-217 | over every fixture shape the loader produces the check is exact |
| `RecordFile.RecordToMapping` | src/decision_memory/infrastructure/file_reader.py:359-427 | the dictionary filled key by key |
| `RecordFile.SplitFrontmatter` | src/decision_memory/infrastructure/file_reader.py:185-206 | the fence search and the split |
| `RecordFile.SplitFenced` | src/decision_memory/infrastructure/file_reader.py:185-206 | the search stops at the closing fence, so a fence line inside the body is body |
| `RecordFile.ReadSerialized` | src/decision_memory/infrastructure/file_reader.py:334-350 | reading a written record gives its normal form, for every record and every body |
| `RecordFile.NormalIdempotent` | src/decision_memory/infrastructure/file_reader.py:334-350 | the normal form is idempotent |
| `RecordFile.ReadsBackEqualExactly` | src/decision_memory/infrastructure/file_reader.py:359-365 | a record reads back equal exactly when it has a body, no empty block and no carriage return in its body |
| `RecordFile.BodilessReadsBackOtherwise` | src/decision_memory/infrastructure/file_reader.py:359-365 | the failing case: a record without a body reads back with an empty one |
| `RecordFile.DigestMatchesExactly` | src/decision_memory/application/ingest.py:285-286 | the digest check passes for every record with a body and no empty block, and for a collision free hash for no other |
| `Lexical.Tokenize` | src/decision_memory/application/lexical.py:226-260 | the scan loop with its two buffers |
| `LexicalSpans.TokensAreSpans` | src/decision_memory/application/lexical.py:226-260 | the scanned tokens are the stretches from a letter or digit up to the next separator, and hold every letter and digit |
| `LexicalSpans.SpansUnique` | src/decision_memory/application/lexical.py:226-260 | there is one such list of stretches |
| `LexicalSpans.StopsRemoved` | src/decision_memory/application/lexical.py:259-260 | what is returned are the tokens that are no stopwords, in order and with repeats |
| `Lexical.ScanWellFormed` | src/decision_memory/application/lexical.py:226-260 | every token starts with a letter or digit and has apostrophes only between letters or digits |
| `Lexical.PrintScanRoundTrip` | src/decision_memory/application/lexical.py:226-260 | scanning the space joined tokens gives the same tokens |
| `Lexical.TokenizeIdempotent` | src/decision_memory/application/lexical.py:226-260 | with stopwords removed, tokenizing is idempotent where normalization has nothing left to do |
| `TextLaws.StripIsTheCore` | src/decision_memory/application/verification.py:217-220 | `str.strip`: the text between its outer runs of dropped characters, and no other |
| `TextLaws.SplitIsTheWords` | src/decision_memory/application/verification.py:217 | `str.split`: the words between gaps of whitespace, and no others |
| `TextLaws.ContainsExactly` | src/decision_memory/application/verification.py:42 | `in`: the text has the other between two parts |
| `TextLaws.LineFeedsAt` | src/decision_memory/application/chunking.py:113 | each of the three line ends becomes one newline |

## Left out

- The command line, reports, configuration, path resolution, record validation rules and the doctor checks: rule tables, input and output.
- Prompts, retries with sleeps, and the calls to OpenAI, Chroma, tiktoken and the BM25 library.
- SQLite locking, crash recovery inside a transaction, and the columns of a row that no property reads (text, token count, titles, times). A snapshot is its supersedes entry; the tag and field source tables below it are not modelled. A transaction and a vector call are one atomic step each; a provider or vector call that raises ends a run after some step, which the history covers.
- Metadata filters, freshness, notices, which citations a query allocates and the rendering of disclosures in a query: record construction around the modelled stages.
- The order of trace rows is computed by the stages but not part of build independence, which speaks of ranks, fused order, accepted chunks and their evidence.
- Alternatives, options, winners, titles and code paths found by the adapter: format heuristics without a crisp specification. Which sections the record's fields consume, and whether a text is a stub, are parameters of the residue.
- Sub claim ids are the pair of sentence id and position; chunk marker removal and the one sentence pattern of the draft validator are parameters.
- The limit on a chunk's embedding input in `chunk_record`, value paths other than `body[i]`, and the sources of non body units.
- Unknown keys, unquoted dates, field violations and byte order marks in record files: keys outside the schema are not modelled.
- `int(n * 0.15)` in the overlap is the exact integer part of 15 n / 100.
- The dry run of ingest: it changes nothing.
- Generation.ValidateDraft: soundness and completeness are stated for the checks of this validator; the order in which two broken rules are reported is not.
- Provenance.FilesAreAttributed: which lines of a Consequences section remain is a parameter; the remainder has no carriage return, as files are read with line feeds, and text behind its last heading line.
