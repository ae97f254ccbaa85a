/** The two pass record diversity rule of `application/query.py`. */
module Diversity {
  import opened Options
  import opened Ordering
  import opened Retrieval

  const ACCEPTED_LIMIT: nat := 8
  const DIVERSITY_CAP: nat := 2

  datatype Breadth = Accept | RecordCap | LimitReached
  datatype Pass = BreadthPass | FillPass

  /** One candidate's diversity facts; it is accepted when it has a final rank. */
  datatype State = State(breadth: Breadth, pass: Option<Pass>, finalRank: Option<nat>)

  // ----- The rule, read off the record ids in fused order -----

  function Count(states: seq<Breadth>, what: Breadth): nat {
    if states == [] then 0
    else Count(states[..|states| - 1], what) + if states[|states| - 1] == what then 1 else 0
  }

  /** How many of the record's candidates the breadth pass accepted. */
  function CountFor(records: seq<string>, states: seq<Breadth>, record: string): nat
    requires |records| == |states|
  {
    if records == [] then 0
    else
      CountFor(records[..|records| - 1], states[..|states| - 1], record)
      + if records[|records| - 1] == record && states[|states| - 1] == Accept then 1 else 0
  }

  function Decide(records: seq<string>, states: seq<Breadth>, record: string): Breadth
    requires |records| == |states|
  {
    if Count(states, Accept) >= ACCEPTED_LIMIT then LimitReached
    else if CountFor(records, states, record) >= DIVERSITY_CAP then RecordCap
    else Accept
  }

  /** The breadth pass from fused rank 1 upward. */
  function BreadthStates(records: seq<string>): (states: seq<Breadth>)
    ensures |states| == |records|
  {
    if records == [] then []
    else
      var front := records[..|records| - 1];
      BreadthStates(front) + [Decide(front, BreadthStates(front), records[|records| - 1])]
  }

  /** The final state of candidate `i`: breadth accepts are numbered first, then
      the deferred ones while the limit lasts. */
  function FinalState(states: seq<Breadth>, i: nat): State
    requires i < |states|
  {
    match states[i]
    case Accept => State(Accept, Some(BreadthPass), Some(Count(states[..i], Accept) + 1))
    case LimitReached => State(LimitReached, None, None)
    case RecordCap =>
      var rank := Count(states, Accept) + Count(states[..i], RecordCap) + 1;
      if rank <= ACCEPTED_LIMIT then State(RecordCap, Some(FillPass), Some(rank)) else State(RecordCap, None, None)
  }

  function FinalStates(states: seq<Breadth>): seq<State> {
    seq(|states|, i requires 0 <= i < |states| => FinalState(states, i))
  }

  function RecordsOf(candidates: seq<Candidate>): seq<string> {
    seq(|candidates|, i requires 0 <= i < |candidates| => candidates[i].chunk.recordId)
  }

  // ----- The stage as the source runs it -----

  /** The positions of one disposition, in fused order. */
  function Positions(states: seq<Breadth>, what: Breadth): seq<nat> {
    if states == [] then []
    else Positions(states[..|states| - 1], what) + if states[|states| - 1] == what then [|states| - 1] else []
  }

  /** What the breadth loop records before any fill. */
  function BreadthState(states: seq<Breadth>, i: nat): State
    requires i < |states|
  {
    if states[i] == Accept then State(Accept, Some(BreadthPass), Some(Count(states[..i], Accept) + 1))
    else State(states[i], None, None)
  }

  /** The loop variables after the candidates of `records` got dispositions `b`. */
  ghost predicate BreadthInvariant(records: seq<string>, b: seq<Breadth>, states: seq<State>, accepted: nat,
                                   deferred: seq<nat>, counts: map<string, nat>)
  {
    && |b| == |records| == |states|
    && accepted == Count(b, Accept) && deferred == Positions(b, RecordCap)
    && (forall i :: 0 <= i < |b| ==> states[i] == BreadthState(b, i))
    && (forall r :: CountFor(records, b, r) == if r in counts then counts[r] else 0)
  }

  lemma BreadthStep(records: seq<string>, b: seq<Breadth>, states: seq<State>, accepted: nat,
                    deferred: seq<nat>, counts: map<string, nat>, record: string, d: Breadth)
    requires BreadthInvariant(records, b, states, accepted, deferred, counts)
    ensures BreadthInvariant(records + [record], b + [d],
      states + [if d == Accept then State(Accept, Some(BreadthPass), Some(accepted + 1)) else State(d, None, None)],
      if d == Accept then accepted + 1 else accepted,
      if d == RecordCap then deferred + [|states|] else deferred,
      if d == Accept then counts[record := (if record in counts then counts[record] else 0) + 1] else counts)
  {
    var longer := b + [d];
    assert longer[..|b|] == b && (records + [record])[..|records|] == records;
    forall i | 0 <= i < |b| ensures BreadthState(longer, i) == BreadthState(b, i) {
      assert longer[..i] == b[..i];
    }
  }

  lemma BreadthNext(records: seq<string>, k: nat)
    requires k < |records|
    ensures records[..k + 1] == records[..k] + [records[k]]
    ensures BreadthStates(records[..k + 1])
         == BreadthStates(records[..k]) + [Decide(records[..k], BreadthStates(records[..k]), records[k])]
  {
    assert records[..k + 1][..k] == records[..k];
  }

  /** One candidate of the breadth loop: limit, then record cap, else accepted. */
  method VisitCandidate(record: string, ghost records: seq<string>, ghost b: seq<Breadth>, states: seq<State>, accepted: nat,
                        deferred: seq<nat>, counts: map<string, nat>)
    returns (states': seq<State>, accepted': nat, deferred': seq<nat>, counts': map<string, nat>)
    requires BreadthInvariant(records, b, states, accepted, deferred, counts)
    ensures BreadthInvariant(records + [record], b + [Decide(records, b, record)], states', accepted', deferred', counts')
  {
    states', accepted', deferred', counts' := states, accepted, deferred, counts;
    BreadthStep(records, b, states, accepted, deferred, counts, record, Decide(records, b, record));
    var count := if record in counts then counts[record] else 0;
    if accepted >= ACCEPTED_LIMIT {
      states' := states + [State(LimitReached, None, None)];
    } else if count >= DIVERSITY_CAP {
      deferred' := deferred + [|states|];
      states' := states + [State(RecordCap, None, None)];
    } else {
      accepted' := accepted + 1;
      counts' := counts[record := count + 1];
      states' := states + [State(Accept, Some(BreadthPass), Some(accepted'))];
    }
  }

  /** The breadth loop: counters per record, the deferred indices, early limit. */
  method BreadthLoop(records: seq<string>) returns (states: seq<State>, accepted: nat, deferred: seq<nat>)
    ensures |states| == |records| && accepted == Count(BreadthStates(records), Accept)
    ensures deferred == Positions(BreadthStates(records), RecordCap)
    ensures forall i :: 0 <= i < |states| ==> states[i] == BreadthState(BreadthStates(records), i)
  {
    states, deferred, accepted := [], [], 0;
    var counts: map<string, nat> := map[];
    for k := 0 to |records|
      invariant BreadthInvariant(records[..k], BreadthStates(records[..k]), states, accepted, deferred, counts)
    {
      BreadthNext(records, k);
      states, accepted, deferred, counts :=
        VisitCandidate(records[k], records[..k], BreadthStates(records[..k]), states, accepted, deferred, counts);
    }
    assert records[..|records|] == records;
  }

  // ----- The fill pass -----

  lemma {:induction false} PositionsAre(b: seq<Breadth>, what: Breadth)
    ensures |Positions(b, what)| == Count(b, what)
    ensures forall k :: 0 <= k < |Positions(b, what)| ==>
      Positions(b, what)[k] < |b| && b[Positions(b, what)[k]] == what && Count(b[..Positions(b, what)[k]], what) == k
  {
    if b != [] {
      var front := b[..|b| - 1];
      PositionsAre(front, what);
      forall k | 0 <= k < |Positions(b, what)|
        ensures Positions(b, what)[k] < |b| && b[Positions(b, what)[k]] == what && Count(b[..Positions(b, what)[k]], what) == k
      {
        var p := Positions(b, what)[k];
        assert b[..p] == front[..p];
      }
    }
  }

  /** Every position of a disposition is listed, at the count before it. */
  lemma {:induction false} PositionListed(b: seq<Breadth>, what: Breadth, i: nat)
    requires i < |b| && b[i] == what
    ensures Count(b[..i], what) < |Positions(b, what)| && Positions(b, what)[Count(b[..i], what)] == i
  {
    var front := b[..|b| - 1];
    if i < |front| {
      PositionListed(front, what, i);
      assert b[..i] == front[..i];
    } else {
      PositionsAre(front, what);
      assert b[..i] == front;
    }
  }

  /** The state of candidate `i` after the first `m` deferred ones were filled. */
  ghost function FilledState(b: seq<Breadth>, i: nat, m: nat): State
    requires i < |b|
  {
    if b[i] == RecordCap && Count(b[..i], RecordCap) < m
    then State(RecordCap, Some(FillPass), Some(Count(b, Accept) + Count(b[..i], RecordCap) + 1))
    else BreadthState(b, i)
  }

  /** The fill loop overwrites deferred states until the limit or the end. */
  method FillLoop(ghost b: seq<Breadth>, initial: seq<State>, deferred: seq<nat>, start: nat) returns (states: seq<State>)
    requires |initial| == |b| && deferred == Positions(b, RecordCap) && start == Count(b, Accept) <= ACCEPTED_LIMIT
    requires forall i :: 0 <= i < |b| ==> initial[i] == BreadthState(b, i)
    ensures states == FinalStates(b)
  {
    states := initial;
    var accepted := start;
    var m := 0;
    PositionsAre(b, RecordCap);
    while m < |deferred| && accepted < ACCEPTED_LIMIT
      invariant m <= |deferred| && accepted == start + m <= ACCEPTED_LIMIT
      invariant |states| == |b| && forall i :: 0 <= i < |b| ==> states[i] == FilledState(b, i, m)
    {
      var index := deferred[m];
      accepted := accepted + 1;
      states := states[index := State(states[index].breadth, Some(FillPass), Some(accepted))];
      forall i | 0 <= i < |b| ensures states[i] == FilledState(b, i, m + 1) {
        if b[i] == RecordCap && i != index { PositionListed(b, RecordCap, i); }
      }
      m := m + 1;
    }
    forall i | 0 <= i < |b| ensures states[i] == FinalState(b, i) {
      if b[i] == RecordCap { PositionListed(b, RecordCap, i); }
    }
  }

  // ----- The stage -----

  datatype RankId = RankId(rank: nat, id: string)

  /** The rank order of the accepted candidates: `sorted((final_rank, chunk_id))`. */
  function RankPairs(candidates: seq<Candidate>, states: seq<State>): seq<RankId>
    requires |candidates| == |states|
  {
    if states == [] then []
    else
      var n := |states| - 1;
      RankPairs(candidates[..n], states[..n])
      + if states[n].finalRank.Some? then [RankId(states[n].finalRank.value, candidates[n].chunk.chunkId)] else []
  }

  predicate RankIdLt(a: RankId, b: RankId) {
    a.rank < b.rank || (a.rank == b.rank && StrLt(a.id, b.id))
  }

  /** The accepted chunk ids in final rank order. */
  function AcceptedIds(candidates: seq<Candidate>, states: seq<State>): seq<string>
    requires |candidates| == |states|
  {
    var order := Sort(RankIdLt, RankPairs(candidates, states));
    seq(|order|, i requires 0 <= i < |order| => order[i].id)
  }

  function StatesOf(candidates: seq<Candidate>): (states: seq<State>)
    ensures |states| == |candidates|
  {
    FinalStates(BreadthStates(RecordsOf(candidates)))
  }

  lemma {:induction false} AcceptedNeverPasses(records: seq<string>)
    ensures Count(BreadthStates(records), Accept) <= ACCEPTED_LIMIT
  {
    if records != [] {
      var front := records[..|records| - 1];
      AcceptedNeverPasses(front);
      assert BreadthStates(records)[..|records| - 1] == BreadthStates(front);
    }
  }

  /** `_diversity_stage`: breadth, fill, then the accepted ids by final rank. */
  method DiversityStage(candidates: seq<Candidate>) returns (states: seq<State>, accepted: seq<string>)
    ensures states == StatesOf(candidates)
    ensures accepted == AcceptedIds(candidates, StatesOf(candidates))
  {
    var records := RecordsOf(candidates);
    var initial, count, deferred := BreadthLoop(records);
    AcceptedNeverPasses(records);
    states := FillLoop(BreadthStates(records), initial, deferred, count);
    accepted := AcceptedIds(candidates, states);
  }
}
