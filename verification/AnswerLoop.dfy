/** The sentence verification loop of `application/query.py`: which draft
    sentences may be answered, why the others are dropped, and when the whole
    query may answer. Providers are arbitrary functions of the number of calls
    made so far, so two calls with equal arguments may differ; every property
    speaks of the replies to the run's own calls. */
module AnswerLoop {
  import opened Text
  import opened Generation
  import Guard

  // ----- What the loop is given -----

  type EvidenceBlocks = seq<(string, string)>

  datatype Reply<T> = Reply(value: T) | ProviderError

  datatype Providers = Providers(
    decompose: (nat, string, EvidenceBlocks) -> Reply<seq<string>>,
    entail: (nat, string, EvidenceBlocks) -> Reply<(bool, string)>,
    coverage: (nat, seq<DraftSentence>) -> Reply<Field<seq<RawRow>>>)

  /** The two deterministic tests, as functions of texts. */
  datatype Checks = Checks(
    contained: (string, seq<string>) -> bool,
    classify: (seq<string>, string) -> Guard.Verdict)

  /** `deterministic_containment`. */
  predicate Contained(fold: string -> string, sentence: string, chunks: seq<string>) {
    var target := Guard.Normalize(fold, sentence);
    target != "" && exists c :: c in chunks && Contains(Guard.Normalize(fold, c), target)
  }

  function SourceChecks(v: Guard.Vocabulary, fold: string -> string): Checks {
    Checks(
      (sentence: string, chunks: seq<string>) => Contained(fold, sentence, chunks),
      (texts: seq<string>, parent: string) => Guard.Classify(v, fold, texts, parent))
  }

  type ChunkTexts = map<string, string>

  // ----- What it records -----

  datatype Entailment = Skipped | Supported | Unsupported
  datatype SubClaim = SubClaim(
    sentenceId: string, position: nat, text: string, contained: bool,
    entailment: Entailment, reason: string, citations: seq<string>)

  datatype DropReason = NoAvailableCitations | DecompositionInvalid | UnsupportedSubClaim
  datatype DroppedRow = DroppedRow(sentenceId: string, reason: DropReason)
  datatype RejectedRow = RejectedRow(sentenceId: string, count: nat, verdict: Guard.Verdict)

  /** How one draft sentence ended. */
  datatype Ending =
    | Verbatim                                    // contained in a cited chunk
    | Divided(claims: seq<string>, rows: seq<SubClaim>)       // every sub claim supported
    | NoEvidence
    | EmptyResponse
    | RejectedResponse(claims: seq<string>, verdict: Guard.Verdict)
    | NotSupported(claims: seq<string>, rows: seq<SubClaim>)
  {
    predicate Emitted() { Verbatim? || Divided? }

    /** The reason on the dropped row; read only for a sentence not emitted. */
    function Reason(): DropReason {
      if NoEvidence? then NoAvailableCitations
      else if NotSupported? then UnsupportedSubClaim
      else DecompositionInvalid
    }
  }

  datatype Record = Record(sentence: DraftSentence, available: seq<string>, missing: seq<string>, contained: bool, ending: Ending)

  // ----- Citations of one sentence -----

  /** First occurrences, in order. */
  function Dedupe(ids: seq<string>): seq<string> {
    if ids == [] then []
    else
      var front := Dedupe(ids[..|ids| - 1]);
      if ids[|ids| - 1] in front then front else front + [ids[|ids| - 1]]
  }

  function Available(ids: seq<string>, texts: ChunkTexts): (known: seq<string>)
    ensures forall c :: c in known ==> c in texts
  {
    if ids == [] then []
    else Available(ids[..|ids| - 1], texts) + if ids[|ids| - 1] in texts then [ids[|ids| - 1]] else []
  }

  function Missing(ids: seq<string>, texts: ChunkTexts): seq<string> {
    if ids == [] then []
    else Missing(ids[..|ids| - 1], texts) + if ids[|ids| - 1] in texts then [] else [ids[|ids| - 1]]
  }

  lemma {:induction false} AvailableIds(ids: seq<string>, texts: ChunkTexts)
    ensures forall c :: c in Available(ids, texts) <==> c in ids && c in texts
    ensures forall c :: c in Missing(ids, texts) <==> c in ids && c !in texts
  {
    if ids != [] {
      AvailableIds(ids[..|ids| - 1], texts);
      assert ids == ids[..|ids| - 1] + [ids[|ids| - 1]];
    }
  }

  function TextsOf(ids: seq<string>, texts: ChunkTexts): seq<string>
    requires forall c :: c in ids ==> c in texts
  {
    seq(|ids|, i requires 0 <= i < |ids| => texts[ids[i]])
  }

  function Blocks(ids: seq<string>, texts: ChunkTexts): EvidenceBlocks
    requires forall c :: c in ids ==> c in texts
  {
    seq(|ids|, i requires 0 <= i < |ids| => (ids[i], texts[ids[i]]))
  }

  /** The deduplication loop of the source. */
  method SplitCitations(chunkIds: seq<string>, texts: ChunkTexts) returns (available: seq<string>, missing: seq<string>)
    ensures available == Available(Dedupe(chunkIds), texts) && missing == Missing(Dedupe(chunkIds), texts)
  {
    var deduped := [];
    for i := 0 to |chunkIds|
      invariant deduped == Dedupe(chunkIds[..i])
    {
      assert chunkIds[..i + 1][..i] == chunkIds[..i];
      if chunkIds[i] !in deduped {
        deduped := deduped + [chunkIds[i]];
      }
    }
    assert chunkIds[..|chunkIds|] == chunkIds;
    available, missing := Available(deduped, texts), Missing(deduped, texts);
  }

  /** The sentence with its available citations only. */
  function Cited(sentence: DraftSentence, texts: ChunkTexts): (s: DraftSentence)
    ensures forall c :: c in s.chunkIds ==> c in texts
  {
    DraftSentence(sentence.sentenceId, sentence.text, Available(Dedupe(sentence.chunkIds), texts))
  }

  // ----- Decomposition with one retry -----

  /** The reply at `clock` failed both halves of the guard. */
  predicate Retries(p: Providers, checks: Checks, text: string, blocks: EvidenceBlocks, clock: nat) {
    var first := p.decompose(clock, text, blocks);
    first.Reply? && first.value != [] && checks.classify(first.value, text).Retryable()
  }

  /** What the one or two decomposition calls from `clock` leave behind. */
  function Decomposed(p: Providers, checks: Checks, text: string, blocks: EvidenceBlocks, clock: nat): Reply<seq<string>> {
    p.decompose(if Retries(p, checks, text, blocks, clock) then clock + 1 else clock, text, blocks)
  }

  function DecomposedBy(p: Providers, checks: Checks, text: string, blocks: EvidenceBlocks, clock: nat): nat {
    if Retries(p, checks, text, blocks, clock) then clock + 2 else clock + 1
  }

  /** The attempt loop: a retry only after a two half failure, and only once. */
  method Decompose(p: Providers, checks: Checks, text: string, blocks: EvidenceBlocks, clock: nat)
    returns (failed: bool, claims: seq<string>, verdict: Guard.Verdict, clock': nat)
    ensures failed <==> Decomposed(p, checks, text, blocks, clock).ProviderError?
    ensures !failed ==> Decomposed(p, checks, text, blocks, clock) == Reply(claims)
    ensures !failed ==> clock' == DecomposedBy(p, checks, text, blocks, clock)
    ensures !failed && claims != [] ==> verdict == checks.classify(claims, text)
  {
    verdict, claims, clock', failed := Guard.Valid, [], clock, false;
    for attempt := 0 to 2
      invariant !failed && clock' == clock + attempt
      invariant attempt == 1 ==>
        && p.decompose(clock, text, blocks) == Reply(claims) && claims != []
        && verdict == checks.classify(claims, text) && verdict.Retryable()
      invariant attempt == 2 ==>
        && Retries(p, checks, text, blocks, clock) && p.decompose(clock + 1, text, blocks) == Reply(claims)
        && claims != [] && verdict == checks.classify(claims, text)
    {
      var reply := p.decompose(clock', text, blocks);
      clock' := clock' + 1;
      if reply.ProviderError? {
        failed := true;
        return;
      }
      claims := reply.value;
      if claims == [] {
        return;
      }
      verdict := checks.classify(claims, text);
      if !verdict.Retryable() {
        return;
      }
    }
  }

  // ----- Sub claims of a valid response -----

  /** The available chunks that contain the claim on their own. */
  function MatchingIds(checks: Checks, claim: string, ids: seq<string>, texts: ChunkTexts): seq<string>
    requires forall c :: c in ids ==> c in texts
  {
    if ids == [] then []
    else
      var last := ids[|ids| - 1];
      MatchingIds(checks, claim, ids[..|ids| - 1], texts) + if checks.contained(claim, [texts[last]]) then [last] else []
  }

  /** The entailment calls for the first `k` claims: one for each that no chunk contains. */
  function CallsBefore(checks: Checks, claims: seq<string>, ids: seq<string>, texts: ChunkTexts, k: nat): nat
    requires k <= |claims| && forall c :: c in ids ==> c in texts
  {
    if k == 0 then 0
    else
      CallsBefore(checks, claims, ids, texts, k - 1) + if MatchingIds(checks, claims[k - 1], ids, texts) == [] then 1 else 0
  }

  /** The reply to the run's own call for claim `k`, the calls starting at `clock`. */
  function Entails(p: Providers, checks: Checks, s: DraftSentence, claims: seq<string>, texts: ChunkTexts, clock: nat, k: nat)
    : Reply<(bool, string)>
    requires k < |claims| && forall c :: c in s.chunkIds ==> c in texts
  {
    p.entail(clock + CallsBefore(checks, claims, s.chunkIds, texts, k), claims[k], Blocks(s.chunkIds, texts))
  }

  /** A row says what checked its claim: containment first, else the entailment reply. */
  ghost predicate RowChecked(p: Providers, checks: Checks, s: DraftSentence, claims: seq<string>, texts: ChunkTexts,
                             clock: nat, k: nat, row: SubClaim)
    requires k < |claims| && forall c :: c in s.chunkIds ==> c in texts
  {
    var matching := MatchingIds(checks, claims[k], s.chunkIds, texts);
    && row.sentenceId == s.sentenceId && row.position == k + 1 && row.text == claims[k]
    && if matching != []
       then row.contained && row.entailment == Skipped && row.reason == "" && row.citations == matching
       else
         && !row.contained && row.citations == s.chunkIds && row.entailment != Skipped
         && Entails(p, checks, s, claims, texts, clock, k) == Reply((row.entailment == Supported, row.reason))
  }

  ghost predicate RowsChecked(p: Providers, checks: Checks, s: DraftSentence, claims: seq<string>, texts: ChunkTexts,
                              clock: nat, rows: seq<SubClaim>)
    requires forall c :: c in s.chunkIds ==> c in texts
  {
    |rows| <= |claims| && forall k :: 0 <= k < |rows| ==> RowChecked(p, checks, s, claims, texts, clock, k, rows[k])
  }

  /** One of the calls for the claims from `k` on fails. */
  ghost predicate ClaimsFail(p: Providers, checks: Checks, s: DraftSentence, claims: seq<string>, texts: ChunkTexts,
                             clock: nat, k: nat)
    requires k <= |claims| && forall c :: c in s.chunkIds ==> c in texts
    decreases |claims| - k
  {
    k < |claims| && (ClaimFails(p, checks, s, claims, texts, clock, k) || ClaimsFail(p, checks, s, claims, texts, clock, k + 1))
  }

  ghost predicate ClaimFails(p: Providers, checks: Checks, s: DraftSentence, claims: seq<string>, texts: ChunkTexts,
                             clock: nat, k: nat)
    requires k < |claims| && forall c :: c in s.chunkIds ==> c in texts
  {
    MatchingIds(checks, claims[k], s.chunkIds, texts) == [] && Entails(p, checks, s, claims, texts, clock, k).ProviderError?
  }

  ghost predicate AllSupported(rows: seq<SubClaim>) {
    rows == [] || (AllSupported(rows[..|rows| - 1]) && rows[|rows| - 1].entailment != Unsupported)
  }

  lemma {:induction false} AllSupportedMeans(rows: seq<SubClaim>)
    ensures AllSupported(rows) <==> forall k :: 0 <= k < |rows| ==> rows[k].entailment != Unsupported
  {
    if rows != [] { AllSupportedMeans(rows[..|rows| - 1]); }
  }

  /** One claim: containment first, else one entailment call. */
  method CheckClaim(p: Providers, checks: Checks, s: DraftSentence, claims: seq<string>, texts: ChunkTexts, ghost clock: nat,
                    k: nat, now: nat)
    returns (failed: bool, row: SubClaim, now': nat)
    requires forall c :: c in s.chunkIds ==> c in texts
    requires k < |claims| && now == clock + CallsBefore(checks, claims, s.chunkIds, texts, k)
    ensures failed <==> ClaimFails(p, checks, s, claims, texts, clock, k)
    ensures !failed ==> RowChecked(p, checks, s, claims, texts, clock, k, row)
    ensures !failed ==> now' == clock + CallsBefore(checks, claims, s.chunkIds, texts, k + 1)
  {
    failed, now' := false, now;
    var matching := MatchingIds(checks, claims[k], s.chunkIds, texts);
    if matching != [] {
      row := SubClaim(s.sentenceId, k + 1, claims[k], true, Skipped, "", matching);
      return;
    }
    var reply := p.entail(now, claims[k], Blocks(s.chunkIds, texts));
    now' := now + 1;
    row := SubClaim(s.sentenceId, k + 1, claims[k], false, Unsupported, "", s.chunkIds);
    if reply.ProviderError? {
      failed := true;
      return;
    }
    var (ok, reason) := reply.value;
    row := row.(entailment := if ok then Supported else Unsupported, reason := reason);
  }

  method CheckClaims(p: Providers, checks: Checks, s: DraftSentence, claims: seq<string>, texts: ChunkTexts, clock: nat)
    returns (failed: bool, rows: seq<SubClaim>, supported: bool, clock': nat)
    requires forall c :: c in s.chunkIds ==> c in texts
    ensures failed <==> ClaimsFail(p, checks, s, claims, texts, clock, 0)
    ensures !failed ==> |rows| == |claims| && RowsChecked(p, checks, s, claims, texts, clock, rows)
    ensures !failed ==> supported == AllSupported(rows)
    ensures !failed ==> clock' == clock + CallsBefore(checks, claims, s.chunkIds, texts, |claims|)
  {
    rows, supported, clock', failed := [], true, clock, false;
    for k := 0 to |claims|
      invariant !failed && |rows| == k && RowsChecked(p, checks, s, claims, texts, clock, rows)
      invariant ClaimsFail(p, checks, s, claims, texts, clock, k) == ClaimsFail(p, checks, s, claims, texts, clock, 0)
      invariant supported == AllSupported(rows) && clock' == clock + CallsBefore(checks, claims, s.chunkIds, texts, k)
    {
      var row;
      failed, row, clock' := CheckClaim(p, checks, s, claims, texts, clock, k, clock');
      if failed {
        return;
      }
      if row.entailment == Unsupported {
        supported := false;
      }
      SupportedStep(rows, row);
      CheckedStep(p, checks, s, claims, texts, clock, rows, row);
      rows := rows + [row];
    }
  }

  lemma CheckedStep(p: Providers, checks: Checks, s: DraftSentence, claims: seq<string>, texts: ChunkTexts, clock: nat,
                    rows: seq<SubClaim>, row: SubClaim)
    requires forall c :: c in s.chunkIds ==> c in texts
    requires RowsChecked(p, checks, s, claims, texts, clock, rows) && |rows| < |claims|
    requires RowChecked(p, checks, s, claims, texts, clock, |rows|, row)
    ensures RowsChecked(p, checks, s, claims, texts, clock, rows + [row])
  {
    forall k | 0 <= k <= |rows| ensures RowChecked(p, checks, s, claims, texts, clock, k, (rows + [row])[k]) {
      if k < |rows| { assert (rows + [row])[k] == rows[k]; }
    }
  }

  lemma SupportedStep(rows: seq<SubClaim>, row: SubClaim)
    ensures AllSupported(rows + [row]) <==> AllSupported(rows) && row.entailment != Unsupported
  {
    assert (rows + [row])[..|rows|] == rows;
  }

  // ----- One sentence -----

  /** The division that the calls from `clock` leave is to be checked claim by claim. */
  predicate Divisible(checks: Checks, text: string, division: Reply<seq<string>>) {
    division.Reply? && division.value != [] && checks.classify(division.value, text).Valid?
  }

  /** The record of a sentence whose calls start at `clock` is the only one the
      source's branches allow. */
  ghost predicate Judged(p: Providers, checks: Checks, texts: ChunkTexts, r: Record, clock: nat) {
    var s := Cited(r.sentence, texts);
    && r.available == s.chunkIds
    && r.missing == Missing(Dedupe(r.sentence.chunkIds), texts)
    && r.contained == checks.contained(s.text, TextsOf(s.chunkIds, texts))
    && (r.ending.Verbatim? <==> r.contained)
    && (r.ending.NoEvidence? <==> !r.contained && s.chunkIds == [])
    && (r.ending.Verbatim? || r.ending.NoEvidence? || JudgedByDivision(p, checks, texts, s, r.ending, clock))
  }

  ghost predicate JudgedByDivision(p: Providers, checks: Checks, texts: ChunkTexts, s: DraftSentence, ending: Ending, clock: nat)
    requires forall c :: c in s.chunkIds ==> c in texts
  {
    var blocks := Blocks(s.chunkIds, texts);
    var division, next := Decomposed(p, checks, s.text, blocks, clock), DecomposedBy(p, checks, s.text, blocks, clock);
    && division.Reply?
    && (ending.EmptyResponse? <==> division.value == [])
    && (ending.RejectedResponse? ==> ending.claims == division.value && ending.verdict == checks.classify(ending.claims, s.text))
    && (ending.Divided? || ending.NotSupported? <==> Divisible(checks, s.text, division))
    && (Divisible(checks, s.text, division) ==>
          && ending.claims == division.value && |ending.rows| == |ending.claims|
          && RowsChecked(p, checks, s, ending.claims, texts, next, ending.rows)
          && (ending.Divided? <==> AllSupported(ending.rows)))
  }

  /** A call for this sentence fails. */
  ghost predicate SentenceFails(p: Providers, checks: Checks, texts: ChunkTexts, sentence: DraftSentence, clock: nat) {
    var s := Cited(sentence, texts);
    var blocks := Blocks(s.chunkIds, texts);
    var division := Decomposed(p, checks, s.text, blocks, clock);
    && !checks.contained(s.text, TextsOf(s.chunkIds, texts)) && s.chunkIds != []
    && (division.ProviderError?
        || (Divisible(checks, s.text, division)
            && ClaimsFail(p, checks, s, division.value, texts, DecomposedBy(p, checks, s.text, blocks, clock), 0)))
  }

  /** The number of calls made when the sentence is done. */
  function NextClock(p: Providers, checks: Checks, texts: ChunkTexts, sentence: DraftSentence, clock: nat): nat {
    var s := Cited(sentence, texts);
    if checks.contained(s.text, TextsOf(s.chunkIds, texts)) || s.chunkIds == [] then clock
    else
      var blocks := Blocks(s.chunkIds, texts);
      var division := Decomposed(p, checks, s.text, blocks, clock);
      DecomposedBy(p, checks, s.text, blocks, clock)
      + if Divisible(checks, s.text, division) then CallsBefore(checks, division.value, s.chunkIds, texts, |division.value|) else 0
  }

  /** One pass of the loop body. */
  method VerifySentence(p: Providers, checks: Checks, texts: ChunkTexts, sentence: DraftSentence, clock: nat)
    returns (failed: bool, r: Record, clock': nat)
    ensures failed <==> SentenceFails(p, checks, texts, sentence, clock)
    ensures !failed ==> Judged(p, checks, texts, r, clock) && r.sentence == sentence
    ensures !failed ==> clock' == NextClock(p, checks, texts, sentence, clock)
  {
    var available, missing := SplitCitations(sentence.chunkIds, texts);
    var contained := checks.contained(sentence.text, TextsOf(available, texts));
    failed, clock' := false, clock;
    r := Record(sentence, available, missing, contained, Verbatim);
    if contained {
      return;
    }
    if available == [] {
      r := r.(ending := NoEvidence);
      return;
    }
    var claims, verdict;
    failed, claims, verdict, clock' := Decompose(p, checks, sentence.text, Blocks(available, texts), clock);
    if failed {
      return;
    }
    if claims == [] {
      r := r.(ending := EmptyResponse);
      return;
    }
    if !verdict.Valid? {
      r := r.(ending := RejectedResponse(claims, verdict));
      return;
    }
    var rows, supported;
    failed, rows, supported, clock' := CheckClaims(p, checks, Narrowed(r), claims, texts, clock');
    if failed {
      return;
    }
    r := r.(ending := if supported then Divided(claims, rows) else NotSupported(claims, rows));
  }

  // ----- The whole draft -----

  /** The lists the loop grows. */
  datatype Trace = Trace(
    emitted: seq<DraftSentence>,
    containment: seq<(string, bool)>,
    removed: seq<string>,
    decomposed: seq<SubClaim>,
    emptyDecompositions: seq<string>,
    rejected: seq<RejectedRow>,
    dropped: seq<DroppedRow>,
    missingRefs: seq<(string, seq<string>)>)

  function Narrowed(r: Record): DraftSentence {
    DraftSentence(r.sentence.sentenceId, r.sentence.text, r.available)
  }

  function RowsOf(ending: Ending): seq<SubClaim> {
    if ending.Divided? || ending.NotSupported? then ending.rows else []
  }

  /** What one finished sentence adds to each list. */
  function Extend(t: Trace, r: Record): Trace {
    var id := r.sentence.sentenceId;
    Trace(
      t.emitted + if r.ending.Emitted() then [Narrowed(r)] else [],
      t.containment + [(id, r.contained)],
      t.removed + if r.ending.Emitted() then [] else [id],
      t.decomposed + RowsOf(r.ending),
      t.emptyDecompositions + if r.ending.EmptyResponse? then [id] else [],
      t.rejected + if r.ending.RejectedResponse? then [RejectedRow(id, |r.ending.claims|, r.ending.verdict)] else [],
      t.dropped + if r.ending.Emitted() then [] else [DroppedRow(id, r.ending.Reason())],
      t.missingRefs + if r.missing != [] then [(id, r.missing)] else [])
  }

  function TraceOf(records: seq<Record>): Trace {
    if records == [] then Trace([], [], [], [], [], [], [], [])
    else Extend(TraceOf(records[..|records| - 1]), records[|records| - 1])
  }

  /** The number of calls made when the first `i` sentences are done. */
  function ClockAt(p: Providers, checks: Checks, texts: ChunkTexts, draft: seq<DraftSentence>, start: nat, i: nat): nat
    requires i <= |draft|
  {
    if i == 0 then start else NextClock(p, checks, texts, draft[i - 1], ClockAt(p, checks, texts, draft, start, i - 1))
  }

  /** The record of the sentence at place `i`, judged by its own calls. */
  ghost predicate JudgedAt(p: Providers, checks: Checks, texts: ChunkTexts, draft: seq<DraftSentence>, start: nat,
                           i: nat, r: Record)
    requires i < |draft|
  {
    r.sentence == draft[i] && Judged(p, checks, texts, r, ClockAt(p, checks, texts, draft, start, i))
  }

  /** The records of the first sentences, each judged by its own calls. */
  ghost predicate JudgedSoFar(p: Providers, checks: Checks, texts: ChunkTexts, draft: seq<DraftSentence>, start: nat,
                              records: seq<Record>)
  {
    |records| <= |draft| && forall i :: 0 <= i < |records| ==> JudgedAt(p, checks, texts, draft, start, i, records[i])
  }

  ghost predicate AllJudged(p: Providers, checks: Checks, texts: ChunkTexts, draft: seq<DraftSentence>, start: nat,
                            records: seq<Record>)
  {
    |records| == |draft| && JudgedSoFar(p, checks, texts, draft, start, records)
  }

  /** A call for some sentence from place `i` on fails. */
  ghost predicate FailsFrom(p: Providers, checks: Checks, texts: ChunkTexts, draft: seq<DraftSentence>, start: nat, i: nat)
    requires i <= |draft|
    decreases |draft| - i
  {
    i < |draft| && (FailsAt(p, checks, texts, draft, start, i) || FailsFrom(p, checks, texts, draft, start, i + 1))
  }

  ghost predicate FailsAt(p: Providers, checks: Checks, texts: ChunkTexts, draft: seq<DraftSentence>, start: nat, i: nat)
    requires i < |draft|
  {
    SentenceFails(p, checks, texts, draft[i], ClockAt(p, checks, texts, draft, start, i))
  }

  function SentenceIds(sentences: seq<DraftSentence>): seq<string> {
    seq(|sentences|, i requires 0 <= i < |sentences| => sentences[i].sentenceId)
  }

  function AllNarrowed(records: seq<Record>): seq<DraftSentence> {
    if records == [] then [] else AllNarrowed(records[..|records| - 1]) + [Narrowed(records[|records| - 1])]
  }

  function RecordIds(records: seq<Record>): seq<string> {
    if records == [] then [] else RecordIds(records[..|records| - 1]) + [records[|records| - 1].sentence.sentenceId]
  }

  function DroppedRowOf(r: Record): DroppedRow {
    DroppedRow(r.sentence.sentenceId, r.ending.Reason())
  }

  function DroppedRows(records: seq<Record>): seq<DroppedRow> {
    if records == [] then [] else DroppedRows(records[..|records| - 1]) + [DroppedRowOf(records[|records| - 1])]
  }

  /** Every sentence has its containment row, in order, and its id is among the
      emitted or the removed ones, never both. */
  ghost predicate AccountsFor(t: Trace, ids: seq<string>) {
    && |t.containment| == |ids| && (forall k :: 0 <= k < |ids| ==> t.containment[k].0 == ids[k])
    && multiset(SentenceIds(t.emitted)) + multiset(t.removed) == multiset(ids)
    && |t.removed| == |t.dropped| && (forall k :: 0 <= k < |t.removed| ==> t.dropped[k].sentenceId == t.removed[k])
  }

  lemma ExtendAccounts(t: Trace, r: Record, ids: seq<string>)
    requires AccountsFor(t, ids)
    ensures AccountsFor(Extend(t, r), ids + [r.sentence.sentenceId])
  {
    if r.ending.Emitted() {
      assert SentenceIds(t.emitted + [Narrowed(r)]) == SentenceIds(t.emitted) + [r.sentence.sentenceId];
    } else {
      assert Extend(t, r).emitted == t.emitted;
    }
  }

  lemma {:induction false} TraceAccounts(records: seq<Record>)
    ensures AccountsFor(TraceOf(records), RecordIds(records))
  {
    if records != [] {
      var front, last := records[..|records| - 1], records[|records| - 1];
      TraceAccounts(front);
      ExtendAccounts(TraceOf(front), last, RecordIds(front));
    }
  }

  /** The loop over the draft, list by list. */
  method VerifyDraft(p: Providers, checks: Checks, texts: ChunkTexts, draft: seq<DraftSentence>, start: nat)
    returns (failed: bool, trace: Trace, clock: nat, ghost records: seq<Record>)
    ensures failed <==> FailsFrom(p, checks, texts, draft, start, 0)
    ensures !failed ==> AllJudged(p, checks, texts, draft, start, records) && trace == TraceOf(records)
    ensures !failed ==> clock == ClockAt(p, checks, texts, draft, start, |draft|)
    ensures !failed ==> AccountsFor(trace, SentenceIds(draft))
  {
    trace := TraceOf([]);
    records, clock, failed := [], start, false;
    for i := 0 to |draft|
      invariant !failed && |records| == i && Reached(p, checks, texts, draft, start, records, clock)
      invariant trace == TraceOf(records)
    {
      var r;
      failed, r, clock := VerifyNext(p, checks, texts, draft, start, records, i, clock);
      if failed {
        return;
      }
      trace := Append(trace, r);
      TraceStep(records, r);
      records := records + [r];
    }
    RecordsAccount(p, checks, texts, draft, start, records);
  }

  lemma RecordsAccount(p: Providers, checks: Checks, texts: ChunkTexts, draft: seq<DraftSentence>, start: nat,
                       records: seq<Record>)
    requires AllJudged(p, checks, texts, draft, start, records)
    ensures AccountsFor(TraceOf(records), SentenceIds(draft))
  {
    assert forall i :: 0 <= i < |draft| ==> JudgedAt(p, checks, texts, draft, start, i, records[i]);
    TraceAccounts(records);
    RecordIdsAre(records, draft);
  }

  /** Where the loop stands after the sentences with these records. */
  ghost predicate Reached(p: Providers, checks: Checks, texts: ChunkTexts, draft: seq<DraftSentence>, start: nat,
                          records: seq<Record>, clock: nat)
  {
    && JudgedSoFar(p, checks, texts, draft, start, records)
    && clock == ClockAt(p, checks, texts, draft, start, |records|)
    && FailsFrom(p, checks, texts, draft, start, |records|) == FailsFrom(p, checks, texts, draft, start, 0)
  }

  /** One round of the loop, at its place in the run. */
  method VerifyNext(p: Providers, checks: Checks, texts: ChunkTexts, draft: seq<DraftSentence>, ghost start: nat,
                    ghost records: seq<Record>, i: nat, clock: nat)
    returns (failed: bool, r: Record, clock': nat)
    requires i == |records| < |draft| && Reached(p, checks, texts, draft, start, records, clock)
    ensures failed ==> FailsFrom(p, checks, texts, draft, start, 0)
    ensures !failed ==> Reached(p, checks, texts, draft, start, records + [r], clock')
  {
    failed, r, clock' := VerifySentence(p, checks, texts, draft[i], clock);
    if !failed {
      assert !FailsAt(p, checks, texts, draft, start, i) && JudgedAt(p, checks, texts, draft, start, i, r);
      JudgedStep(p, checks, texts, draft, start, records, r);
    }
  }

  lemma {:induction false} RecordIdsAre(records: seq<Record>, draft: seq<DraftSentence>)
    requires |records| == |draft| && forall i :: 0 <= i < |draft| ==> records[i].sentence == draft[i]
    ensures RecordIds(records) == SentenceIds(draft)
  {
    if records != [] {
      var n := |records| - 1;
      RecordIdsAre(records[..n], draft[..n]);
      assert SentenceIds(draft) == SentenceIds(draft[..n]) + [draft[n].sentenceId];
    }
  }

  lemma JudgedStep(p: Providers, checks: Checks, texts: ChunkTexts, draft: seq<DraftSentence>, start: nat,
                   records: seq<Record>, r: Record)
    requires |records| < |draft| && JudgedSoFar(p, checks, texts, draft, start, records)
    requires JudgedAt(p, checks, texts, draft, start, |records|, r)
    ensures JudgedSoFar(p, checks, texts, draft, start, records + [r])
  {
    forall i | 0 <= i <= |records| ensures JudgedAt(p, checks, texts, draft, start, i, (records + [r])[i]) {
      if i < |records| { assert (records + [r])[i] == records[i]; }
    }
  }

  lemma TraceStep(records: seq<Record>, r: Record)
    ensures TraceOf(records + [r]) == Extend(TraceOf(records), r)
  {
    assert (records + [r])[..|records|] == records;
  }

  /** The replies to a sentence's calls leave one record only. */
  lemma JudgedOnce(p: Providers, checks: Checks, texts: ChunkTexts, a: Record, b: Record, clock: nat)
    requires Judged(p, checks, texts, a, clock) && Judged(p, checks, texts, b, clock) && a.sentence == b.sentence
    ensures a == b
  {
    if a.ending.Divided? || a.ending.NotSupported? {
      var s := Cited(a.sentence, texts);
      var next := DecomposedBy(p, checks, s.text, Blocks(s.chunkIds, texts), clock);
      RowsCheckedOnce(p, checks, s, a.ending.claims, texts, next, a.ending.rows, b.ending.rows);
    }
  }

  lemma RowsCheckedOnce(p: Providers, checks: Checks, s: DraftSentence, claims: seq<string>, texts: ChunkTexts, clock: nat,
                        a: seq<SubClaim>, b: seq<SubClaim>)
    requires forall c :: c in s.chunkIds ==> c in texts
    requires |a| == |b| && RowsChecked(p, checks, s, claims, texts, clock, a) && RowsChecked(p, checks, s, claims, texts, clock, b)
    ensures a == b
  {
    forall k | 0 <= k < |a| ensures a[k] == b[k] {
      assert RowChecked(p, checks, s, claims, texts, clock, k, a[k]) && RowChecked(p, checks, s, claims, texts, clock, k, b[k]);
    }
  }

  /** So the replies to the run's calls decide the whole trace. */
  lemma RunIsDetermined(p: Providers, checks: Checks, texts: ChunkTexts, draft: seq<DraftSentence>, start: nat,
                        a: seq<Record>, b: seq<Record>)
    requires AllJudged(p, checks, texts, draft, start, a) && AllJudged(p, checks, texts, draft, start, b)
    ensures a == b
  {
    forall i | 0 <= i < |draft| ensures a[i] == b[i] {
      assert JudgedAt(p, checks, texts, draft, start, i, a[i]) && JudgedAt(p, checks, texts, draft, start, i, b[i]);
      JudgedOnce(p, checks, texts, a[i], b[i], ClockAt(p, checks, texts, draft, start, i));
    }
  }

  /** The list updates at the end of one pass. */
  method Append(t: Trace, r: Record) returns (t': Trace)
    ensures t' == Extend(t, r)
  {
    var id := r.sentence.sentenceId;
    var emitted, removed, dropped := t.emitted, t.removed, t.dropped;
    var empty, rejected, missingRefs := t.emptyDecompositions, t.rejected, t.missingRefs;
    if r.missing != [] {
      missingRefs := missingRefs + [(id, r.missing)];
    }
    match r.ending {
      case Verbatim => emitted := emitted + [Narrowed(r)];
      case Divided(_, _) => emitted := emitted + [Narrowed(r)];
      case NoEvidence =>
        removed, dropped := removed + [id], dropped + [DroppedRow(id, NoAvailableCitations)];
      case EmptyResponse =>
        empty := empty + [id];
        removed, dropped := removed + [id], dropped + [DroppedRow(id, DecompositionInvalid)];
      case RejectedResponse(claims, verdict) =>
        rejected := rejected + [RejectedRow(id, |claims|, verdict)];
        removed, dropped := removed + [id], dropped + [DroppedRow(id, DecompositionInvalid)];
      case NotSupported(_, _) =>
        removed, dropped := removed + [id], dropped + [DroppedRow(id, UnsupportedSubClaim)];
    }
    t' := Trace(emitted, t.containment + [(id, r.contained)], removed, t.decomposed + RowsOf(r.ending),
                empty, rejected, dropped, missingRefs);
  }

  // ----- What the trace guarantees -----

  /** The subsequence of records picked by the endings. */
  ghost function Pick(records: seq<Record>, emitted: bool): seq<Record> {
    if records == [] then []
    else
      var last := records[|records| - 1];
      Pick(records[..|records| - 1], emitted) + if last.ending.Emitted() == emitted then [last] else []
  }

  lemma PickLast(records: seq<Record>)
    requires records != []
    ensures var front, last := records[..|records| - 1], records[|records| - 1];
      && Pick(records, last.ending.Emitted()) == Pick(front, last.ending.Emitted()) + [last]
      && Pick(records, !last.ending.Emitted()) == Pick(front, !last.ending.Emitted())
  {
  }

  /** Each sentence is in exactly one of the two picks. */
  lemma {:induction false} PickSplits(records: seq<Record>)
    ensures |Pick(records, true)| + |Pick(records, false)| == |records|
    ensures forall r :: r in Pick(records, true) <==> r in records && r.ending.Emitted()
    ensures forall r :: r in Pick(records, false) <==> r in records && !r.ending.Emitted()
  {
    if records != [] {
      var front := records[..|records| - 1];
      PickSplits(front);
      PickLast(records);
      assert records == front + [records[|records| - 1]];
    }
  }

  /** Emitted and dropped rows split the draft: the emitted rows are the emitted
      sentences in draft order, the dropped rows the others in draft order, and
      `removed` repeats the dropped ids. */
  lemma {:induction false} EmittedAndDroppedSplit(records: seq<Record>)
    ensures TraceOf(records).emitted == AllNarrowed(Pick(records, true))
    ensures TraceOf(records).removed == RecordIds(Pick(records, false))
    ensures TraceOf(records).dropped == DroppedRows(Pick(records, false))
  {
    if records != [] {
      EmittedAndDroppedSplit(records[..|records| - 1]);
      PickLast(records);
    }
  }

  /** The checked rows of a record: only a valid division has any. */
  ghost function CheckedRows(r: Record): seq<SubClaim> {
    match r.ending
    case Divided(_, rows) => rows
    case NotSupported(_, rows) => rows
    case _ => []
  }

  ghost predicate AnyRecord(records: seq<Record>, holds: Record -> bool) {
    exists r :: r in records && holds(r)
  }

  lemma SomeLast(records: seq<Record>, holds: Record -> bool)
    requires records != []
    ensures AnyRecord(records, holds) <==> AnyRecord(records[..|records| - 1], holds) || holds(records[|records| - 1])
  {
    var front, last := records[..|records| - 1], records[|records| - 1];
    assert records == front + [last];
    if holds(last) { assert last in records; }
    if AnyRecord(front, holds) {
      var r :| r in front && holds(r);
      assert r in records;
    }
  }

  lemma TraceLast(records: seq<Record>)
    requires records != []
    ensures TraceOf(records) == Extend(TraceOf(records[..|records| - 1]), records[|records| - 1])
  {
  }

  /** Every containment result is in the trace, in draft order. */
  lemma {:induction false} ContainmentExactly(records: seq<Record>)
    ensures var c := TraceOf(records).containment;
      |c| == |records| && forall k :: 0 <= k < |records| ==> c[k] == (records[k].sentence.sentenceId, records[k].contained)
  {
    if records != [] {
      ContainmentExactly(records[..|records| - 1]);
      TraceLast(records);
    }
  }

  /** The trace has the checked rows of every valid division, and no other. */
  lemma {:induction false} DecomposedExactly(records: seq<Record>, row: SubClaim)
    ensures row in TraceOf(records).decomposed <==> AnyRecord(records, (r: Record) => row in CheckedRows(r))
  {
    if records != [] {
      DecomposedExactly(records[..|records| - 1], row);
      TraceLast(records);
      SomeLast(records, (r: Record) => row in CheckedRows(r));
    }
  }

  /** Every empty and every rejected response has its row. */
  lemma {:induction false} SignalsExactly(records: seq<Record>, id: string, rejected: RejectedRow)
    ensures id in TraceOf(records).emptyDecompositions
       <==> AnyRecord(records, (r: Record) => r.sentence.sentenceId == id && r.ending.EmptyResponse?)
    ensures rejected in TraceOf(records).rejected
       <==> AnyRecord(records, (r: Record) => IsRejected(r, rejected))
  {
    if records != [] {
      SignalsExactly(records[..|records| - 1], id, rejected);
      TraceLast(records);
      SomeLast(records, (r: Record) => r.sentence.sentenceId == id && r.ending.EmptyResponse?);
      SomeLast(records, (r: Record) => IsRejected(r, rejected));
    }
  }

  predicate IsRejected(r: Record, row: RejectedRow) {
    r.ending.RejectedResponse? && row == RejectedRow(r.sentence.sentenceId, |r.ending.claims|, r.ending.verdict)
  }

  /** So has every sentence with missing citations. */
  lemma {:induction false} MissingExactly(records: seq<Record>, id: string, missing: seq<string>)
    ensures (id, missing) in TraceOf(records).missingRefs
       <==> AnyRecord(records, (r: Record) => r.sentence.sentenceId == id && r.missing == missing && missing != [])
  {
    if records != [] {
      MissingExactly(records[..|records| - 1], id, missing);
      TraceLast(records);
      SomeLast(records, (r: Record) => r.sentence.sentenceId == id && r.missing == missing && missing != []);
    }
  }

  /** The sentences dropped for one reason, in draft order. */
  ghost function DroppedFor(rows: seq<DroppedRow>, reason: DropReason): seq<string> {
    if rows == [] then []
    else
      var last := rows[|rows| - 1];
      DroppedFor(rows[..|rows| - 1], reason) + if last.reason == reason then [last.sentenceId] else []
  }

  lemma DroppedForStep(rows: seq<DroppedRow>, row: DroppedRow, reason: DropReason)
    ensures DroppedFor(rows + [row], reason) == DroppedFor(rows, reason) + if row.reason == reason then [row.sentenceId] else []
  {
    assert (rows + [row])[..|rows|] == rows;
  }

  ghost function RejectedIds(rows: seq<RejectedRow>): seq<string> {
    if rows == [] then [] else RejectedIds(rows[..|rows| - 1]) + [rows[|rows| - 1].sentenceId]
  }

  lemma RejectedIdsStep(rows: seq<RejectedRow>, row: RejectedRow)
    ensures RejectedIds(rows + [row]) == RejectedIds(rows) + [row.sentenceId]
  {
    assert (rows + [row])[..|rows|] == rows;
  }

  /** Every invalid decomposition is one event told twice: the sentences with a
      rejected row or an empty signal are those dropped with that reason. */
  lemma {:induction false} DropReasonsAgree(records: seq<Record>)
    ensures var t := TraceOf(records);
      multiset(RejectedIds(t.rejected)) + multiset(t.emptyDecompositions) == multiset(DroppedFor(t.dropped, DecompositionInvalid))
  {
    if records != [] {
      var front, r := records[..|records| - 1], records[|records| - 1];
      DropReasonsAgree(front);
      DropReasonsStep(TraceOf(front), r);
    }
  }

  lemma RejectedExtended(t: Trace, r: Record)
    ensures RejectedIds(Extend(t, r).rejected)
         == RejectedIds(t.rejected) + if r.ending.RejectedResponse? then [r.sentence.sentenceId] else []
  {
    if r.ending.RejectedResponse? {
      RejectedIdsStep(t.rejected, RejectedRow(r.sentence.sentenceId, |r.ending.claims|, r.ending.verdict));
    } else {
      assert Extend(t, r).rejected == t.rejected;
    }
  }

  lemma DroppedExtended(t: Trace, r: Record)
    ensures DroppedFor(Extend(t, r).dropped, DecompositionInvalid)
         == DroppedFor(t.dropped, DecompositionInvalid)
            + if r.ending.RejectedResponse? || r.ending.EmptyResponse? then [r.sentence.sentenceId] else []
  {
    if r.ending.Emitted() {
      assert Extend(t, r).dropped == t.dropped;
    } else {
      DroppedForStep(t.dropped, DroppedRow(r.sentence.sentenceId, r.ending.Reason()), DecompositionInvalid);
    }
  }

  lemma DropReasonsStep(t: Trace, r: Record)
    requires multiset(RejectedIds(t.rejected)) + multiset(t.emptyDecompositions) == multiset(DroppedFor(t.dropped, DecompositionInvalid))
    ensures var t' := Extend(t, r);
      multiset(RejectedIds(t'.rejected)) + multiset(t'.emptyDecompositions) == multiset(DroppedFor(t'.dropped, DecompositionInvalid))
  {
    RejectedExtended(t, r);
    DroppedExtended(t, r);
    OneIdTwice(RejectedIds(t.rejected), t.emptyDecompositions, DroppedFor(t.dropped, DecompositionInvalid), r.sentence.sentenceId,
               r.ending.RejectedResponse?, r.ending.EmptyResponse?);
  }

  lemma OneIdTwice(rejected: seq<string>, empty: seq<string>, dropped: seq<string>, id: string, isRejected: bool, isEmpty: bool)
    requires multiset(rejected) + multiset(empty) == multiset(dropped) && !(isRejected && isEmpty)
    ensures multiset(rejected + if isRejected then [id] else []) + multiset(empty + if isEmpty then [id] else [])
         == multiset(dropped + if isRejected || isEmpty then [id] else [])
  {
  }

  /** What stands behind a sentence whose calls start at `clock`: a cited chunk
      that contains it, or its division, valid and with every claim supported. */
  ghost predicate Grounded(p: Providers, checks: Checks, texts: ChunkTexts, s: DraftSentence, clock: nat) {
    && (forall c :: c in s.chunkIds ==> c in texts)
    && (checks.contained(s.text, TextsOf(s.chunkIds, texts)) || DivisionStands(p, checks, texts, s, clock))
  }

  ghost predicate DivisionStands(p: Providers, checks: Checks, texts: ChunkTexts, s: DraftSentence, clock: nat)
    requires forall c :: c in s.chunkIds ==> c in texts
  {
    var blocks := Blocks(s.chunkIds, texts);
    var division, next := Decomposed(p, checks, s.text, blocks, clock), DecomposedBy(p, checks, s.text, blocks, clock);
    && Divisible(checks, s.text, division)
    && forall k :: 0 <= k < |division.value| ==> ClaimGrounded(p, checks, texts, s, division.value, next, k)
  }

  /** Some cited chunk contains the claim, or the call made for it said yes. */
  ghost predicate ClaimGrounded(p: Providers, checks: Checks, texts: ChunkTexts, s: DraftSentence, claims: seq<string>,
                                clock: nat, k: nat)
    requires k < |claims| && forall c :: c in s.chunkIds ==> c in texts
  {
    || (exists c :: c in s.chunkIds && checks.contained(claims[k], [texts[c]]))
    || (var reply := Entails(p, checks, s, claims, texts, clock, k); reply.Reply? && reply.value.0)
  }

  lemma {:induction false} MatchingMeansContained(checks: Checks, claim: string, ids: seq<string>, texts: ChunkTexts)
    requires forall c :: c in ids ==> c in texts
    ensures forall c :: c in MatchingIds(checks, claim, ids, texts) <==> c in ids && checks.contained(claim, [texts[c]])
  {
    if ids != [] {
      MatchingMeansContained(checks, claim, ids[..|ids| - 1], texts);
      assert ids == ids[..|ids| - 1] + [ids[|ids| - 1]];
    }
  }

  /** Emitted or not is decided by the grounds, in both directions. */
  lemma EmittedIsGrounded(p: Providers, checks: Checks, texts: ChunkTexts, r: Record, clock: nat)
    requires Judged(p, checks, texts, r, clock)
    ensures r.ending.Emitted() <==>
      r.contained || (r.available != [] && DivisionStands(p, checks, texts, Cited(r.sentence, texts), clock))
    ensures r.ending.Emitted() ==> Grounded(p, checks, texts, Narrowed(r), clock)
  {
    if r.ending.Divided? || r.ending.NotSupported? {
      var s := Cited(r.sentence, texts);
      var next := DecomposedBy(p, checks, s.text, Blocks(s.chunkIds, texts), clock);
      RowsDecide(p, checks, texts, s, r.ending.claims, next, r.ending.rows);
    }
  }

  lemma RowsDecide(p: Providers, checks: Checks, texts: ChunkTexts, s: DraftSentence, claims: seq<string>, clock: nat,
                   rows: seq<SubClaim>)
    requires forall c :: c in s.chunkIds ==> c in texts
    requires |rows| == |claims| && RowsChecked(p, checks, s, claims, texts, clock, rows)
    ensures AllSupported(rows) <==> forall k :: 0 <= k < |claims| ==> ClaimGrounded(p, checks, texts, s, claims, clock, k)
  {
    AllSupportedMeans(rows);
    forall k | 0 <= k < |claims|
      ensures rows[k].entailment != Unsupported <==> ClaimGrounded(p, checks, texts, s, claims, clock, k)
    {
      assert RowChecked(p, checks, s, claims, texts, clock, k, rows[k]);
      MatchingMeansContained(checks, claims[k], s.chunkIds, texts);
      var matching := MatchingIds(checks, claims[k], s.chunkIds, texts);
      assert matching != [] <==> exists c :: c in matching by {
        if matching != [] { assert matching[0] in matching; }
      }
    }
  }

  /** The sentence at place `i` stands on its own grounds, with the call numbers
      of its turn in the run. */
  ghost predicate EmittedAt(p: Providers, checks: Checks, texts: ChunkTexts, draft: seq<DraftSentence>, start: nat,
                            s: DraftSentence, i: nat)
    requires i < |draft|
  {
    s == Cited(draft[i], texts) && Grounded(p, checks, texts, s, ClockAt(p, checks, texts, draft, start, i))
  }

  /** Every emitted sentence of a verified draft is grounded in its citations. */
  lemma AllEmittedGrounded(p: Providers, checks: Checks, texts: ChunkTexts, draft: seq<DraftSentence>, start: nat,
                           records: seq<Record>)
    requires AllJudged(p, checks, texts, draft, start, records)
    ensures forall s :: s in TraceOf(records).emitted ==>
      exists i :: 0 <= i < |draft| && EmittedAt(p, checks, texts, draft, start, s, i)
  {
    EmittedAndDroppedSplit(records);
    PickSplits(records);
    forall s | s in TraceOf(records).emitted
      ensures exists i :: 0 <= i < |draft| && EmittedAt(p, checks, texts, draft, start, s, i)
    {
      var r := NarrowedFrom(Pick(records, true), s);
      var i :| 0 <= i < |records| && records[i] == r;
      assert JudgedAt(p, checks, texts, draft, start, i, r);
      EmittedIsGrounded(p, checks, texts, r, ClockAt(p, checks, texts, draft, start, i));
      assert EmittedAt(p, checks, texts, draft, start, s, i);
    }
  }

  lemma {:induction false} NarrowedFrom(records: seq<Record>, s: DraftSentence) returns (r: Record)
    requires s in AllNarrowed(records)
    ensures r in records && Narrowed(r) == s
  {
    var front, last := records[..|records| - 1], records[|records| - 1];
    if Narrowed(last) == s {
      r := last;
    } else {
      r := NarrowedFrom(front, s);
    }
  }

  lemma {:induction false} MissingNone(ids: seq<string>, texts: ChunkTexts)
    requires forall c :: c in ids ==> c in texts
    ensures Missing(ids, texts) == []
  {
    if ids != [] { MissingNone(ids[..|ids| - 1], texts); }
  }

  lemma KnownCitations(ids: seq<string>, texts: ChunkTexts)
    requires ids != [] && forall c :: c in ids ==> c in texts
    ensures Missing(Dedupe(ids), texts) == [] && Available(Dedupe(ids), texts) != []
  {
    DedupeKeeps(ids);
    MissingNone(Dedupe(ids), texts);
    AvailableIds(Dedupe(ids), texts);
    assert ids[0] in Available(Dedupe(ids), texts);
  }

  lemma GoodSentenceCitations(item: RawSentence, known: set<string>, clean: string -> string, oneSentence: string -> bool)
    requires GoodSentence(item, known, clean, oneSentence)
    ensures var ids := TypedIds(item.chunkIds.value); ids != [] && forall c :: c in ids ==> c in known
  {
    var raw, ids := item.chunkIds.value, TypedIds(item.chunkIds.value);
    forall c | c in ids ensures c in known {
      var k :| 0 <= k < |ids| && ids[k] == c;
      assert raw[k] in raw;
    }
  }

  /** With a validated draft nothing cited is missing, so no sentence is
      dropped for want of citations. */
  lemma ValidatedDraftHasCitations(p: Providers, checks: Checks, texts: ChunkTexts, raw: seq<RawSentence>,
                                   clean: string -> string, oneSentence: string -> bool,
                                   draft: seq<DraftSentence>, start: nat, records: seq<Record>)
    requires DraftFrom(raw, texts.Keys, clean, oneSentence, draft) && AllJudged(p, checks, texts, draft, start, records)
    ensures TraceOf(records).missingRefs == []
    ensures forall i :: 0 <= i < |records| ==> records[i].missing == [] && !records[i].ending.NoEvidence?
  {
    forall i | 0 <= i < |records| ensures records[i].missing == [] && records[i].available != [] {
      GoodSentenceCitations(raw[i], texts.Keys, clean, oneSentence);
      KnownCitations(draft[i].chunkIds, texts);
    }
    NoMissing(records);
  }

  lemma {:induction false} DedupeKeeps(ids: seq<string>)
    ensures forall c :: c in Dedupe(ids) <==> c in ids
  {
    if ids != [] {
      DedupeKeeps(ids[..|ids| - 1]);
      assert ids == ids[..|ids| - 1] + [ids[|ids| - 1]];
    }
  }

  lemma {:induction false} NoMissing(records: seq<Record>)
    requires forall i :: 0 <= i < |records| ==> records[i].missing == []
    ensures TraceOf(records).missingRefs == []
  {
    if records != [] { NoMissing(records[..|records| - 1]); }
  }

  // ----- Coverage and the answer -----

  datatype Answer =
    | QueryFailed
    | Abstained(uncovered: seq<Facet>)
    | Answered(sentences: seq<DraftSentence>, coverage: seq<CoverageRow>)

  const NO_EMITTED_SENTENCE_REASON: string := "no emitted answer sentence"

  /** The facets whose row is not covered, rows and facets paired in order. */
  function Uncovered(facets: seq<Facet>, rows: seq<CoverageRow>): seq<Facet> {
    if facets == [] || rows == [] then []
    else (if rows[0].covered then [] else [facets[0]]) + Uncovered(facets[1..], rows[1..])
  }

  lemma {:induction false} NothingUncovered(facets: seq<Facet>, rows: seq<CoverageRow>)
    requires |facets| == |rows|
    ensures Uncovered(facets, rows) == [] <==> forall i :: 0 <= i < |rows| ==> rows[i].covered
  {
    if facets != [] {
      NothingUncovered(facets[1..], rows[1..]);
      assert forall i :: 0 < i < |rows| ==> rows[i] == rows[1..][i - 1];
      assert forall i :: 0 <= i < |rows[1..]| ==> rows[1..][i] == rows[i + 1];
    }
  }

  /** The rows are those of the first acceptable payload of the two tries. */
  ghost predicate CoverageAccepted(p: Providers, facets: seq<Facet>, emitted: seq<DraftSentence>, clock: nat,
                                   rows: seq<CoverageRow>)
  {
    var first, second := p.coverage(clock, emitted), p.coverage(clock + 1, emitted);
    && first.Reply?
    && if CoverageAcceptable(first.value, facets, SentenceIds(emitted))
       then CoverageFrom(first.value.value, facets, SentenceIds(emitted), rows)
       else
         && second.Reply? && CoverageAcceptable(second.value, facets, SentenceIds(emitted))
         && CoverageFrom(second.value.value, facets, SentenceIds(emitted), rows)
  }

  /** A call fails, or both payloads are refused. */
  ghost predicate CoverageFails(p: Providers, facets: seq<Facet>, emitted: seq<DraftSentence>, clock: nat) {
    var first, second := p.coverage(clock, emitted), p.coverage(clock + 1, emitted);
    || first.ProviderError?
    || (!CoverageAcceptable(first.value, facets, SentenceIds(emitted))
        && (second.ProviderError? || !CoverageAcceptable(second.value, facets, SentenceIds(emitted))))
  }

  /** The two tries of the coverage stage behind its validator. */
  method Cover(p: Providers, facets: seq<Facet>, emitted: seq<DraftSentence>, clock: nat)
    returns (result: Checked<seq<CoverageRow>>)
    ensures result.Invalid? <==> CoverageFails(p, facets, emitted, clock)
    ensures result.Accepted? ==> |result.value| == |facets| && CoverageAccepted(p, facets, emitted, clock, result.value)
  {
    for attempt := 0 to 2
      invariant attempt >= 1 ==>
        && p.coverage(clock, emitted).Reply?
        && !CoverageAcceptable(p.coverage(clock, emitted).value, facets, SentenceIds(emitted))
      invariant attempt == 2 ==>
        && p.coverage(clock + 1, emitted).Reply?
        && !CoverageAcceptable(p.coverage(clock + 1, emitted).value, facets, SentenceIds(emitted))
    {
      var reply := p.coverage(clock + attempt, emitted);
      if reply.ProviderError? {
        return Invalid;
      }
      result := ValidateCoverage(reply.value, facets, SentenceIds(emitted));
      if result.Accepted? {
        return;
      }
    }
    return Invalid;
  }

  /** The rows written when no sentence survived. */
  function NothingEmitted(facets: seq<Facet>): seq<CoverageRow> {
    seq(|facets|, i requires 0 <= i < |facets| => CoverageRow(facets[i].facetId, false, NO_EMITTED_SENTENCE_REASON, []))
  }

  /** A facet is answered when its row is covered and names emitted sentences. */
  ghost predicate FacetAnswered(facet: Facet, row: CoverageRow, emitted: seq<DraftSentence>) {
    && row.facetId == facet.facetId && row.covered && row.sentenceIds != []
    && forall id :: id in row.sentenceIds ==> id in SentenceIds(emitted)
  }

  /** The rows a verified draft is covered by. */
  ghost predicate RowsOfRun(p: Providers, facets: seq<Facet>, emitted: seq<DraftSentence>, clock: nat, rows: seq<CoverageRow>) {
    if emitted == [] then rows == NothingEmitted(facets)
    else |rows| == |facets| && CoverageAccepted(p, facets, emitted, clock, rows)
  }

  function AnswerOf(facets: seq<Facet>, emitted: seq<DraftSentence>, rows: seq<CoverageRow>): Answer {
    var uncovered := Uncovered(facets, rows);
    if uncovered != [] then Abstained(uncovered) else Answered(emitted, rows)
  }

  /** The answer that the emitted sentences and the coverage calls lead to. */
  ghost predicate ConcludedWith(p: Providers, facets: seq<Facet>, emitted: seq<DraftSentence>, clock: nat, answer: Answer) {
    if emitted != [] && CoverageFails(p, facets, emitted, clock) then answer == QueryFailed
    else exists rows :: RowsOfRun(p, facets, emitted, clock, rows) && answer == AnswerOf(facets, emitted, rows)
  }

  /** The answer that the replies to the run's calls lead to. */
  ghost predicate Concluded(p: Providers, checks: Checks, texts: ChunkTexts, facets: seq<Facet>, draft: seq<DraftSentence>,
                            start: nat, answer: Answer)
  {
    if FailsFrom(p, checks, texts, draft, start, 0) then answer == QueryFailed
    else exists records ::
      && AllJudged(p, checks, texts, draft, start, records)
      && ConcludedWith(p, facets, TraceOf(records).emitted, ClockAt(p, checks, texts, draft, start, |draft|), answer)
  }

  lemma RowsOfRunUnique(p: Providers, facets: seq<Facet>, emitted: seq<DraftSentence>, clock: nat, a: seq<CoverageRow>,
                        b: seq<CoverageRow>)
    requires RowsOfRun(p, facets, emitted, clock, a) && RowsOfRun(p, facets, emitted, clock, b)
    ensures a == b
  {
  }

  /** There is one such answer. */
  lemma ConclusionUnique(p: Providers, checks: Checks, texts: ChunkTexts, facets: seq<Facet>, draft: seq<DraftSentence>,
                         start: nat, a: Answer, b: Answer)
    requires Concluded(p, checks, texts, facets, draft, start, a) && Concluded(p, checks, texts, facets, draft, start, b)
    ensures a == b
  {
    if !FailsFrom(p, checks, texts, draft, start, 0) {
      var clock := ClockAt(p, checks, texts, draft, start, |draft|);
      var ra :| AllJudged(p, checks, texts, draft, start, ra) && ConcludedWith(p, facets, TraceOf(ra).emitted, clock, a);
      var rb :| AllJudged(p, checks, texts, draft, start, rb) && ConcludedWith(p, facets, TraceOf(rb).emitted, clock, b);
      RunIsDetermined(p, checks, texts, draft, start, ra, rb);
      ConcludedOnce(p, facets, TraceOf(ra).emitted, clock, a, b);
    }
  }

  lemma ConcludedOnce(p: Providers, facets: seq<Facet>, emitted: seq<DraftSentence>, clock: nat, a: Answer, b: Answer)
    requires ConcludedWith(p, facets, emitted, clock, a) && ConcludedWith(p, facets, emitted, clock, b)
    ensures a == b
  {
    if emitted == [] || !CoverageFails(p, facets, emitted, clock) {
      var ra :| RowsOfRun(p, facets, emitted, clock, ra) && a == AnswerOf(facets, emitted, ra);
      var rb :| RowsOfRun(p, facets, emitted, clock, rb) && b == AnswerOf(facets, emitted, rb);
      RowsOfRunUnique(p, facets, emitted, clock, ra, rb);
    }
  }

  /** The coverage stage and the state it leads to. */
  method AnswerFrom(p: Providers, facets: seq<Facet>, emitted: seq<DraftSentence>, clock: nat)
    returns (answer: Answer, ghost rows: seq<CoverageRow>)
    requires 1 <= |facets|
    ensures ConcludedWith(p, facets, emitted, clock, answer)
    ensures answer.QueryFailed? <==> emitted != [] && CoverageFails(p, facets, emitted, clock)
    ensures !answer.QueryFailed? ==> RowsOfRun(p, facets, emitted, clock, rows)
    ensures answer.Answered? <==> !answer.QueryFailed? && emitted != [] && forall i :: 0 <= i < |rows| ==> rows[i].covered
    ensures answer.Abstained? ==> answer.uncovered == Uncovered(facets, rows)
    ensures answer.Abstained? && emitted == [] ==> answer.uncovered == facets
    ensures answer.Answered? ==>
      && answer.sentences == emitted && answer.coverage == rows && |rows| == |facets|
      && (forall i :: 0 <= i < |facets| ==> FacetAnswered(facets[i], rows[i], answer.sentences))
  {
    rows := [];
    var coverage := NothingEmitted(facets);
    if emitted != [] {
      var covered := Cover(p, facets, emitted, clock);
      if covered.Invalid? {
        return QueryFailed, rows;
      }
      coverage := covered.value;
      CoveredAnswers(p, facets, emitted, clock, coverage);
    } else {
      AllUncovered(facets);
    }
    rows := coverage;
    assert RowsOfRun(p, facets, emitted, clock, rows);
    NothingUncovered(facets, coverage);
    var uncovered := Uncovered(facets, coverage);
    if uncovered != [] {
      return Abstained(uncovered), rows;
    }
    return Answered(emitted, coverage), rows;
  }

  /** From a validated draft to the query state. */
  method Conclude(p: Providers, checks: Checks, texts: ChunkTexts, facets: seq<Facet>, draft: seq<DraftSentence>, start: nat)
    returns (answer: Answer, ghost records: seq<Record>, ghost rows: seq<CoverageRow>)
    requires 1 <= |facets|
    ensures Concluded(p, checks, texts, facets, draft, start, answer)
    ensures answer.QueryFailed? <==>
      || FailsFrom(p, checks, texts, draft, start, 0)
      || (TraceOf(records).emitted != []
          && CoverageFails(p, facets, TraceOf(records).emitted, ClockAt(p, checks, texts, draft, start, |draft|)))
    ensures !FailsFrom(p, checks, texts, draft, start, 0) ==> AllJudged(p, checks, texts, draft, start, records)
    ensures !answer.QueryFailed? ==>
      RowsOfRun(p, facets, TraceOf(records).emitted, ClockAt(p, checks, texts, draft, start, |draft|), rows)
    ensures answer.Answered? <==>
      !answer.QueryFailed? && TraceOf(records).emitted != [] && forall i :: 0 <= i < |rows| ==> rows[i].covered
    ensures answer.Abstained? ==> answer.uncovered == Uncovered(facets, rows)
    ensures answer.Abstained? && TraceOf(records).emitted == [] ==> answer.uncovered == facets
    ensures answer.Answered? ==>
      && answer.sentences == TraceOf(records).emitted && answer.coverage == rows && |rows| == |facets|
      && (forall s :: s in answer.sentences ==> exists i :: 0 <= i < |draft| && EmittedAt(p, checks, texts, draft, start, s, i))
      && (forall i :: 0 <= i < |facets| ==> FacetAnswered(facets[i], rows[i], answer.sentences))
  {
    var failed, trace, clock;
    failed, trace, clock, records := VerifyDraft(p, checks, texts, draft, start);
    rows := [];
    if failed {
      return QueryFailed, records, rows;
    }
    AllEmittedGrounded(p, checks, texts, draft, start, records);
    answer, rows := AnswerFrom(p, facets, trace.emitted, clock);
  }

  /** An accepted row that is covered answers its facet by emitted sentences. */
  lemma CoveredAnswers(p: Providers, facets: seq<Facet>, emitted: seq<DraftSentence>, clock: nat, rows: seq<CoverageRow>)
    requires |rows| == |facets| && CoverageAccepted(p, facets, emitted, clock, rows)
    ensures forall i :: 0 <= i < |facets| && rows[i].covered ==> FacetAnswered(facets[i], rows[i], emitted)
  {
    var first, second := p.coverage(clock, emitted), p.coverage(clock + 1, emitted);
    var payload := if CoverageAcceptable(first.value, facets, SentenceIds(emitted)) then first.value else second.value;
    forall i | 0 <= i < |facets| && rows[i].covered ensures FacetAnswered(facets[i], rows[i], emitted) {
      assert GoodRow(payload.value[i], facets[i], SentenceIds(emitted)) && rows[i] == RowOf(payload.value[i]);
    }
  }

  lemma {:induction false} AllUncovered(facets: seq<Facet>)
    ensures Uncovered(facets, NothingEmitted(facets)) == facets
  {
    if facets != [] {
      assert NothingEmitted(facets)[1..] == NothingEmitted(facets[1..]);
      AllUncovered(facets[1..]);
    }
  }

  // ----- With the source's own tests -----

  /** The text stands normalized inside one of the cited chunks. */
  ghost predicate Inside(fold: string -> string, texts: ChunkTexts, ids: seq<string>, text: string)
    requires forall c :: c in ids ==> c in texts
  {
    && Guard.Normalize(fold, text) != ""
    && exists c :: c in ids && Contains(Guard.Normalize(fold, texts[c]), Guard.Normalize(fold, text))
  }

  /** A division that neither adds to its sentence nor drops a demanded token. */
  ghost predicate FaithfulDivision(v: Guard.Vocabulary, fold: string -> string, claims: seq<string>, text: string) {
    var parts, parent := Guard.Parts(fold, claims), Guard.SentenceTokens(fold, text);
    && 1 <= |claims| <= Guard.MAX_SUB_CLAIMS && Guard.Distinct(fold, claims)
    && (forall part :: part in parts ==> Guard.AdditiveStop(v, part, parent).NoStop?)
    && (forall t :: t in parent && !v.Exempt(t) ==> Guard.SomePartMatches(v, parts, t))
  }

  /** Claim `k` stands in a cited chunk, or the call made for it said yes. */
  ghost predicate ClaimStands(p: Providers, checks: Checks, fold: string -> string, texts: ChunkTexts, s: DraftSentence,
                              claims: seq<string>, clock: nat, k: nat)
    requires k < |claims| && forall c :: c in s.chunkIds ==> c in texts
  {
    || Inside(fold, texts, s.chunkIds, claims[k])
    || (var reply := Entails(p, checks, s, claims, texts, clock, k); reply.Reply? && reply.value.0)
  }

  /** The division that the sentence's own calls left. */
  ghost predicate DividedFaithfully(p: Providers, v: Guard.Vocabulary, fold: string -> string, texts: ChunkTexts,
                                    s: DraftSentence, clock: nat)
    requires forall c :: c in s.chunkIds ==> c in texts
  {
    var checks, blocks := SourceChecks(v, fold), Blocks(s.chunkIds, texts);
    var division, next := Decomposed(p, checks, s.text, blocks, clock), DecomposedBy(p, checks, s.text, blocks, clock);
    && division.Reply? && FaithfulDivision(v, fold, division.value, s.text)
    && forall k :: 0 <= k < |division.value| ==> ClaimStands(p, checks, fold, texts, s, division.value, next, k)
  }

  /** What the source's own tests say of a sentence whose calls start at `clock`. */
  ghost predicate Answerable(p: Providers, v: Guard.Vocabulary, fold: string -> string, texts: ChunkTexts, s: DraftSentence,
                             clock: nat)
  {
    && (forall c :: c in s.chunkIds ==> c in texts)
    && (Inside(fold, texts, s.chunkIds, s.text) || DividedFaithfully(p, v, fold, texts, s, clock))
  }

  lemma {:induction false} TextsOfMembers(ids: seq<string>, texts: ChunkTexts, text: string)
    requires forall c :: c in ids ==> c in texts
    ensures text in TextsOf(ids, texts) <==> exists c :: c in ids && texts[c] == text
  {
    if text in TextsOf(ids, texts) {
      var i :| 0 <= i < |ids| && TextsOf(ids, texts)[i] == text;
      assert ids[i] in ids;
    }
    if c :| c in ids && texts[c] == text {
      var i :| 0 <= i < |ids| && ids[i] == c;
      assert TextsOf(ids, texts)[i] == text;
    }
  }

  /** Both containment tests, of all cited texts at once and of one at a time. */
  lemma ContainedIsInside(fold: string -> string, texts: ChunkTexts, ids: seq<string>, text: string)
    requires forall c :: c in ids ==> c in texts
    ensures Contained(fold, text, TextsOf(ids, texts)) <==> Inside(fold, texts, ids, text)
    ensures (exists c :: c in ids && Contained(fold, text, [texts[c]])) <==> Inside(fold, texts, ids, text)
  {
    if Contained(fold, text, TextsOf(ids, texts)) {
      var t :| t in TextsOf(ids, texts) && Contains(Guard.Normalize(fold, t), Guard.Normalize(fold, text));
      TextsOfMembers(ids, texts, t);
    }
    if Inside(fold, texts, ids, text) {
      var c :| c in ids && Contains(Guard.Normalize(fold, texts[c]), Guard.Normalize(fold, text));
      TextsOfMembers(ids, texts, texts[c]);
      assert texts[c] in [texts[c]] && Contained(fold, text, [texts[c]]);
    }
  }

  lemma GroundedIsAnswerable(p: Providers, v: Guard.Vocabulary, fold: string -> string, texts: ChunkTexts, s: DraftSentence,
                             clock: nat)
    requires Grounded(p, SourceChecks(v, fold), texts, s, clock)
    ensures Answerable(p, v, fold, texts, s, clock)
  {
    var checks := SourceChecks(v, fold);
    ContainedIsInside(fold, texts, s.chunkIds, s.text);
    if !checks.contained(s.text, TextsOf(s.chunkIds, texts)) {
      var blocks := Blocks(s.chunkIds, texts);
      var claims, next := Decomposed(p, checks, s.text, blocks, clock).value, DecomposedBy(p, checks, s.text, blocks, clock);
      Guard.ValidExactly(v, fold, claims, s.text);
      forall k | 0 <= k < |claims| ensures ClaimStands(p, checks, fold, texts, s, claims, next, k) {
        assert ClaimGrounded(p, checks, texts, s, claims, next, k);
        ContainedIsInside(fold, texts, s.chunkIds, claims[k]);
      }
    }
  }

  ghost predicate AnswerableAt(p: Providers, v: Guard.Vocabulary, fold: string -> string, texts: ChunkTexts,
                               draft: seq<DraftSentence>, start: nat, s: DraftSentence, i: nat)
    requires i < |draft|
  {
    s == Cited(draft[i], texts) && Answerable(p, v, fold, texts, s, ClockAt(p, SourceChecks(v, fold), texts, draft, start, i))
  }

  /** Every sentence the loop emits under the source's tests stands normalized in
      a cited chunk, or the division its own calls left is additive free and
      complete and its every claim stands in a cited chunk or was entailed by the
      call made for it. */
  lemma EmittedIsAnswerable(p: Providers, v: Guard.Vocabulary, fold: string -> string, texts: ChunkTexts,
                            draft: seq<DraftSentence>, start: nat, records: seq<Record>)
    requires AllJudged(p, SourceChecks(v, fold), texts, draft, start, records)
    ensures forall s :: s in TraceOf(records).emitted ==>
      exists i :: 0 <= i < |draft| && AnswerableAt(p, v, fold, texts, draft, start, s, i)
  {
    var checks := SourceChecks(v, fold);
    AllEmittedGrounded(p, checks, texts, draft, start, records);
    forall s | s in TraceOf(records).emitted
      ensures exists i :: 0 <= i < |draft| && AnswerableAt(p, v, fold, texts, draft, start, s, i)
    {
      var i :| 0 <= i < |draft| && EmittedAt(p, checks, texts, draft, start, s, i);
      GroundedIsAnswerable(p, v, fold, texts, s, ClockAt(p, checks, texts, draft, start, i));
      assert AnswerableAt(p, v, fold, texts, draft, start, s, i);
    }
  }
}
