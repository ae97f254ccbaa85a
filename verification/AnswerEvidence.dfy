/** What evidence the verification loop shows its providers, and that nothing
    else they would say matters: the answer is decided by the replies to calls
    with exactly that evidence. */
module AnswerEvidence {
  import opened Ordering
  import opened Generation
  import opened AnswerLoop

  // ----- Order of first citation -----

  /** First occurrences are distinct and in order of first occurrence. */
  lemma {:induction false} DedupeInOrder(ids: seq<string>)
    ensures InFirstOrder(Dedupe(ids), ids)
  {
    if ids != [] {
      var front, last := ids[..|ids| - 1], ids[|ids| - 1];
      var d := Dedupe(front);
      DedupeInOrder(front);
      DedupeKeeps(front);
      assert ids == front + [last];
      forall i, j | 0 <= i < j < |d| ensures Earlier(ids, d[i], d[j]) { EarlierAppend(front, [last], d[i], d[j]); }
      if last !in d {
        forall x | x in d ensures Earlier(ids, x, last) {
          var m :| 0 <= m < |front| && front[m] == x;
          assert ids[m] == x && forall n :: 0 <= n <= m ==> ids[n] in front;
        }
        OrderAppend(d, ids, last);
      }
    }
  }

  /** A filter keeps the order. */
  lemma {:induction false} AvailableInOrder(xs: seq<string>, ids: seq<string>, texts: ChunkTexts)
    requires InFirstOrder(xs, ids)
    ensures InFirstOrder(Available(xs, texts), ids) && InFirstOrder(Missing(xs, texts), ids)
  {
    if xs != [] {
      var front, last := xs[..|xs| - 1], xs[|xs| - 1];
      assert forall i :: 0 <= i < |front| ==> front[i] == xs[i];
      AvailableInOrder(front, ids, texts);
      AvailableIds(front, texts);
      forall x | x in front ensures Earlier(ids, x, last) {
        var i :| 0 <= i < |front| && front[i] == x;
      }
      if last in texts {
        OrderAppend(Available(front, texts), ids, last);
        assert Missing(front, texts) + [] == Missing(front, texts);
      } else {
        OrderAppend(Missing(front, texts), ids, last);
        assert Available(front, texts) + [] == Available(front, texts);
      }
    }
  }

  /** So are the chunks that contain a claim on their own. */
  lemma {:induction false} MatchingInOrder(checks: Checks, claim: string, xs: seq<string>, ids: seq<string>, texts: ChunkTexts)
    requires InFirstOrder(xs, ids) && forall x :: x in xs ==> x in texts
    ensures InFirstOrder(MatchingIds(checks, claim, xs, texts), ids)
  {
    if xs != [] {
      var front, last := xs[..|xs| - 1], xs[|xs| - 1];
      assert forall i :: 0 <= i < |front| ==> front[i] == xs[i];
      MatchingInOrder(checks, claim, front, ids, texts);
      MatchingMeansContained(checks, claim, front, texts);
      forall x | x in front ensures Earlier(ids, x, last) {
        var i :| 0 <= i < |front| && front[i] == x;
      }
      OrderAppend(MatchingIds(checks, claim, front, texts), ids, last);
      assert MatchingIds(checks, claim, front, texts) + [] == MatchingIds(checks, claim, front, texts);
    }
  }

  // ----- The evidence of a sentence -----

  /** The distinct cited chunks that are available, in order of first citation,
      each with its text. */
  ghost predicate IsEvidence(ids: seq<string>, texts: ChunkTexts, blocks: EvidenceBlocks) {
    && (forall i, j :: 0 <= i < j < |blocks| ==> Earlier(ids, blocks[i].0, blocks[j].0))
    && (forall b :: b in blocks <==> b.0 in ids && b.0 in texts && b.1 == texts[b.0])
  }

  lemma EvidenceOf(sentence: DraftSentence, texts: ChunkTexts)
    ensures IsEvidence(sentence.chunkIds, texts, Blocks(Cited(sentence, texts).chunkIds, texts))
  {
    var ids := sentence.chunkIds;
    var known := Cited(sentence, texts).chunkIds;
    var blocks := Blocks(known, texts);
    DedupeInOrder(ids);
    DedupeKeeps(ids);
    AvailableInOrder(Dedupe(ids), ids, texts);
    AvailableIds(Dedupe(ids), texts);
    assert forall i, j :: 0 <= i < j < |known| ==> Earlier(ids, known[i], known[j]);
    forall b: (string, string) ensures b in blocks <==> b.0 in ids && b.0 in texts && b.1 == texts[b.0] {
      if b in blocks {
        var k :| 0 <= k < |blocks| && blocks[k] == b;
        assert known[k] in known;
      }
      if b.0 in ids && b.0 in texts && b.1 == texts[b.0] {
        assert b.0 in known;
        var k :| 0 <= k < |known| && known[k] == b.0;
        assert blocks[k] == b;
      }
    }
  }

  /** There is one such evidence. */
  lemma EvidenceUnique(ids: seq<string>, texts: ChunkTexts, a: EvidenceBlocks, b: EvidenceBlocks)
    requires IsEvidence(ids, texts, a) && IsEvidence(ids, texts, b)
    ensures a == b
  {
    var lt := (x: (string, string), y: (string, string)) => Earlier(ids, x.0, y.0);
    forall x, y, z | lt(x, y) && lt(y, z) ensures lt(x, z) {
      EarlierTransitive(ids, x.0, y.0, z.0);
    }
    assert StrictOrder(lt);
    SortedUnique(lt, a, b);
  }

  // ----- How many calls a sentence takes -----

  /** A second decomposition call follows exactly a reply that adds or omits, and
      then its reply is the one that counts. */
  lemma RetryExactly(p: Providers, checks: Checks, text: string, blocks: EvidenceBlocks, clock: nat)
    ensures var first := p.decompose(clock, text, blocks);
      var again := first.Reply? && first.value != []
        && (checks.classify(first.value, text).NotAdditive? || checks.classify(first.value, text).Incomplete?);
      && Decomposed(p, checks, text, blocks, clock) == (if again then p.decompose(clock + 1, text, blocks) else first)
      && DecomposedBy(p, checks, text, blocks, clock) == clock + (if again then 2 else 1)
  {
  }

  /** No cited chunk contains the claim on its own. */
  ghost predicate Uncontained(checks: Checks, claim: string, ids: seq<string>, texts: ChunkTexts)
    requires forall c :: c in ids ==> c in texts
  {
    forall c :: c in ids ==> !checks.contained(claim, [texts[c]])
  }

  ghost function Asked(checks: Checks, claims: seq<string>, ids: seq<string>, texts: ChunkTexts, k: nat): set<nat>
    requires k <= |claims| && forall c :: c in ids ==> c in texts
  {
    set j: nat | j < k && Uncontained(checks, claims[j], ids, texts)
  }

  /** Before claim `k` there is one entailment call for each earlier claim that no
      chunk contains. */
  lemma {:induction false} CallsCounted(checks: Checks, claims: seq<string>, ids: seq<string>, texts: ChunkTexts, k: nat)
    requires k <= |claims| && forall c :: c in ids ==> c in texts
    ensures CallsBefore(checks, claims, ids, texts, k) == |Asked(checks, claims, ids, texts, k)|
  {
    if k > 0 {
      CallsCounted(checks, claims, ids, texts, k - 1);
      AskedNext(checks, claims, ids, texts, k - 1);
      MatchingNone(checks, claims[k - 1], ids, texts);
    }
  }

  lemma MatchingNone(checks: Checks, claim: string, ids: seq<string>, texts: ChunkTexts)
    requires forall c :: c in ids ==> c in texts
    ensures MatchingIds(checks, claim, ids, texts) == [] <==> Uncontained(checks, claim, ids, texts)
  {
    var matching := MatchingIds(checks, claim, ids, texts);
    MatchingMeansContained(checks, claim, ids, texts);
    if matching != [] { assert matching[0] in matching; }
  }

  lemma AskedNext(checks: Checks, claims: seq<string>, ids: seq<string>, texts: ChunkTexts, k: nat)
    requires k < |claims| && forall c :: c in ids ==> c in texts
    ensures |Asked(checks, claims, ids, texts, k + 1)|
         == |Asked(checks, claims, ids, texts, k)| + if Uncontained(checks, claims[k], ids, texts) then 1 else 0
  {
    var before, now := Asked(checks, claims, ids, texts, k), Asked(checks, claims, ids, texts, k + 1);
    assert now == before + if Uncontained(checks, claims[k], ids, texts) then {k} else {};
    assert k !in before;
  }

  /** A contained sentence and one without evidence take no call; any other takes
      its decomposition calls and, when the division is valid, one call for each
      claim that no chunk contains. */
  lemma TurnCounted(p: Providers, checks: Checks, texts: ChunkTexts, sentence: DraftSentence, clock: nat)
    ensures var s := Cited(sentence, texts); var blocks := Blocks(s.chunkIds, texts);
      var next, division := DecomposedBy(p, checks, s.text, blocks, clock), Decomposed(p, checks, s.text, blocks, clock);
      NextClock(p, checks, texts, sentence, clock)
        == if checks.contained(s.text, TextsOf(s.chunkIds, texts)) || s.chunkIds == [] then clock
           else if division.Reply? && division.value != [] && checks.classify(division.value, s.text).Valid?
           then next + |Asked(checks, division.value, s.chunkIds, texts, |division.value|)|
           else next
  {
    var s := Cited(sentence, texts);
    var division := Decomposed(p, checks, s.text, Blocks(s.chunkIds, texts), clock);
    if division.Reply? { CallsCounted(checks, division.value, s.chunkIds, texts, |division.value|); }
  }

  lemma TurnGoesOn(p: Providers, checks: Checks, texts: ChunkTexts, sentence: DraftSentence, clock: nat)
    ensures clock <= NextClock(p, checks, texts, sentence, clock)
  {
  }

  lemma ClockStep(p: Providers, checks: Checks, texts: ChunkTexts, draft: seq<DraftSentence>, start: nat, i: nat)
    requires i < |draft|
    ensures ClockAt(p, checks, texts, draft, start, i + 1)
         == NextClock(p, checks, texts, draft[i], ClockAt(p, checks, texts, draft, start, i))
    ensures ClockAt(p, checks, texts, draft, start, i) <= ClockAt(p, checks, texts, draft, start, i + 1)
  {
    TurnGoesOn(p, checks, texts, draft[i], ClockAt(p, checks, texts, draft, start, i));
  }

  /** Call numbers are never used twice: a sentence's turn ends before any later one starts. */
  lemma {:induction false} TurnsApart(p: Providers, checks: Checks, texts: ChunkTexts, draft: seq<DraftSentence>, start: nat,
                                      i: nat, j: nat)
    requires i < j <= |draft|
    ensures NextClock(p, checks, texts, draft[i], ClockAt(p, checks, texts, draft, start, i))
         <= ClockAt(p, checks, texts, draft, start, j)
  {
    ClockStep(p, checks, texts, draft, start, j - 1);
    if i + 1 < j { TurnsApart(p, checks, texts, draft, start, i, j - 1); }
  }

  // ----- Nothing else matters -----

  /** The two providers reply alike to every call the source could make: its
      sentences with their evidence, and the coverage calls. */
  ghost predicate AgreeOnEvidence(p: Providers, q: Providers, texts: ChunkTexts, draft: seq<DraftSentence>) {
    && (forall s, clock, blocks :: s in draft && IsEvidence(s.chunkIds, texts, blocks) ==>
          p.decompose(clock, s.text, blocks) == q.decompose(clock, s.text, blocks))
    && (forall s, clock, claim, blocks :: s in draft && IsEvidence(s.chunkIds, texts, blocks) ==>
          p.entail(clock, claim, blocks) == q.entail(clock, claim, blocks))
    && (forall clock, emitted :: p.coverage(clock, emitted) == q.coverage(clock, emitted))
  }

  /** Two providers that reply alike on one evidence. */
  ghost predicate Alike(p: Providers, q: Providers, text: string, blocks: EvidenceBlocks) {
    && (forall clock :: p.decompose(clock, text, blocks) == q.decompose(clock, text, blocks))
    && (forall clock, claim :: p.entail(clock, claim, blocks) == q.entail(clock, claim, blocks))
  }

  lemma AlikeOn(p: Providers, q: Providers, texts: ChunkTexts, draft: seq<DraftSentence>, s: DraftSentence)
    requires AgreeOnEvidence(p, q, texts, draft) && s in draft
    ensures Alike(p, q, s.text, Blocks(Cited(s, texts).chunkIds, texts))
  {
    EvidenceOf(s, texts);
  }

  lemma DecomposedAlike(p: Providers, q: Providers, checks: Checks, text: string, blocks: EvidenceBlocks, clock: nat)
    requires Alike(p, q, text, blocks)
    ensures Decomposed(p, checks, text, blocks, clock) == Decomposed(q, checks, text, blocks, clock)
    ensures DecomposedBy(p, checks, text, blocks, clock) == DecomposedBy(q, checks, text, blocks, clock)
  {
  }

  lemma EntailsAlike(p: Providers, q: Providers, checks: Checks, s: DraftSentence, claims: seq<string>, texts: ChunkTexts, clock: nat)
    requires forall c :: c in s.chunkIds ==> c in texts
    requires Alike(p, q, s.text, Blocks(s.chunkIds, texts))
    ensures forall k :: 0 <= k < |claims| ==> Entails(p, checks, s, claims, texts, clock, k) == Entails(q, checks, s, claims, texts, clock, k)
  {
  }

  lemma {:induction false} ClaimsFailAlike(p: Providers, q: Providers, checks: Checks, s: DraftSentence, claims: seq<string>,
                                           texts: ChunkTexts, clock: nat, k: nat)
    requires (forall c :: c in s.chunkIds ==> c in texts) && k <= |claims|
    requires Alike(p, q, s.text, Blocks(s.chunkIds, texts))
    ensures ClaimsFail(p, checks, s, claims, texts, clock, k) == ClaimsFail(q, checks, s, claims, texts, clock, k)
    decreases |claims| - k
  {
    if k < |claims| {
      EntailsAlike(p, q, checks, s, claims, texts, clock);
      ClaimsFailAlike(p, q, checks, s, claims, texts, clock, k + 1);
    }
  }

  lemma RowsAlike(p: Providers, q: Providers, checks: Checks, s: DraftSentence, claims: seq<string>, texts: ChunkTexts,
                  clock: nat, rows: seq<SubClaim>)
    requires forall c :: c in s.chunkIds ==> c in texts
    requires Alike(p, q, s.text, Blocks(s.chunkIds, texts))
    ensures RowsChecked(p, checks, s, claims, texts, clock, rows) == RowsChecked(q, checks, s, claims, texts, clock, rows)
  {
    EntailsAlike(p, q, checks, s, claims, texts, clock);
    if |rows| <= |claims| {
      forall k | 0 <= k < |rows|
        ensures RowChecked(p, checks, s, claims, texts, clock, k, rows[k]) == RowChecked(q, checks, s, claims, texts, clock, k, rows[k])
      {
      }
    }
  }

  lemma SentenceAlike(p: Providers, q: Providers, checks: Checks, texts: ChunkTexts, sentence: DraftSentence, clock: nat)
    requires Alike(p, q, sentence.text, Blocks(Cited(sentence, texts).chunkIds, texts))
    ensures SentenceFails(p, checks, texts, sentence, clock) == SentenceFails(q, checks, texts, sentence, clock)
    ensures NextClock(p, checks, texts, sentence, clock) == NextClock(q, checks, texts, sentence, clock)
  {
    var s := Cited(sentence, texts);
    var blocks := Blocks(s.chunkIds, texts);
    DecomposedAlike(p, q, checks, s.text, blocks, clock);
    var division := Decomposed(p, checks, s.text, blocks, clock);
    if division.Reply? {
      ClaimsFailAlike(p, q, checks, s, division.value, texts, DecomposedBy(p, checks, s.text, blocks, clock), 0);
    }
  }

  lemma JudgedAlike(p: Providers, q: Providers, checks: Checks, texts: ChunkTexts, r: Record, clock: nat)
    requires Alike(p, q, r.sentence.text, Blocks(Cited(r.sentence, texts).chunkIds, texts))
    ensures Judged(p, checks, texts, r, clock) == Judged(q, checks, texts, r, clock)
  {
    var s := Cited(r.sentence, texts);
    var blocks := Blocks(s.chunkIds, texts);
    DecomposedAlike(p, q, checks, s.text, blocks, clock);
    if r.ending.Divided? || r.ending.NotSupported? {
      RowsAlike(p, q, checks, s, r.ending.claims, texts, DecomposedBy(p, checks, s.text, blocks, clock), r.ending.rows);
    }
  }

  lemma {:induction false} ClockAlike(p: Providers, q: Providers, checks: Checks, texts: ChunkTexts, draft: seq<DraftSentence>,
                                      start: nat, i: nat)
    requires AgreeOnEvidence(p, q, texts, draft) && i <= |draft|
    ensures ClockAt(p, checks, texts, draft, start, i) == ClockAt(q, checks, texts, draft, start, i)
  {
    if i > 0 {
      ClockAlike(p, q, checks, texts, draft, start, i - 1);
      AlikeOn(p, q, texts, draft, draft[i - 1]);
      SentenceAlike(p, q, checks, texts, draft[i - 1], ClockAt(p, checks, texts, draft, start, i - 1));
    }
  }

  lemma {:induction false} FailsAlike(p: Providers, q: Providers, checks: Checks, texts: ChunkTexts, draft: seq<DraftSentence>,
                                      start: nat, i: nat)
    requires AgreeOnEvidence(p, q, texts, draft) && i <= |draft|
    ensures FailsFrom(p, checks, texts, draft, start, i) == FailsFrom(q, checks, texts, draft, start, i)
    decreases |draft| - i
  {
    if i < |draft| {
      ClockAlike(p, q, checks, texts, draft, start, i);
      AlikeOn(p, q, texts, draft, draft[i]);
      SentenceAlike(p, q, checks, texts, draft[i], ClockAt(p, checks, texts, draft, start, i));
      FailsAlike(p, q, checks, texts, draft, start, i + 1);
    }
  }

  lemma JudgedAtAlike(p: Providers, q: Providers, checks: Checks, texts: ChunkTexts, draft: seq<DraftSentence>, start: nat,
                      i: nat, r: Record)
    requires AgreeOnEvidence(p, q, texts, draft) && i < |draft|
    ensures JudgedAt(p, checks, texts, draft, start, i, r) == JudgedAt(q, checks, texts, draft, start, i, r)
  {
    ClockAlike(p, q, checks, texts, draft, start, i);
    if r.sentence == draft[i] {
      AlikeOn(p, q, texts, draft, draft[i]);
      JudgedAlike(p, q, checks, texts, r, ClockAt(p, checks, texts, draft, start, i));
    }
  }

  /** The same records are judged. */
  lemma EvidenceDecidesRecords(p: Providers, q: Providers, checks: Checks, texts: ChunkTexts, draft: seq<DraftSentence>,
                               start: nat, records: seq<Record>)
    requires AgreeOnEvidence(p, q, texts, draft)
    ensures AllJudged(p, checks, texts, draft, start, records) == AllJudged(q, checks, texts, draft, start, records)
  {
    if |records| == |draft| {
      forall i | 0 <= i < |records|
        ensures JudgedAt(p, checks, texts, draft, start, i, records[i]) == JudgedAt(q, checks, texts, draft, start, i, records[i])
      {
        JudgedAtAlike(p, q, checks, texts, draft, start, i, records[i]);
      }
    }
  }

  lemma ConcludedAlike(p: Providers, q: Providers, facets: seq<Facet>, emitted: seq<DraftSentence>, clock: nat, answer: Answer)
    requires forall c, sentences :: p.coverage(c, sentences) == q.coverage(c, sentences)
    ensures ConcludedWith(p, facets, emitted, clock, answer) == ConcludedWith(q, facets, emitted, clock, answer)
  {
    forall rows ensures RowsOfRun(p, facets, emitted, clock, rows) == RowsOfRun(q, facets, emitted, clock, rows) {
    }
  }

  /** And the same answer is given. */
  lemma EvidenceDecides(p: Providers, q: Providers, checks: Checks, texts: ChunkTexts, facets: seq<Facet>,
                        draft: seq<DraftSentence>, start: nat, answer: Answer)
    requires AgreeOnEvidence(p, q, texts, draft)
    ensures Concluded(p, checks, texts, facets, draft, start, answer) == Concluded(q, checks, texts, facets, draft, start, answer)
  {
    FailsAlike(p, q, checks, texts, draft, start, 0);
    ClockAlike(p, q, checks, texts, draft, start, |draft|);
    forall records
      ensures AllJudged(p, checks, texts, draft, start, records) == AllJudged(q, checks, texts, draft, start, records)
    {
      EvidenceDecidesRecords(p, q, checks, texts, draft, start, records);
    }
    var clock := ClockAt(p, checks, texts, draft, start, |draft|);
    forall emitted ensures ConcludedWith(p, facets, emitted, clock, answer) == ConcludedWith(q, facets, emitted, clock, answer) {
      ConcludedAlike(p, q, facets, emitted, clock, answer);
    }
  }
}
