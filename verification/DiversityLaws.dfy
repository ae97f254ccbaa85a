/** What the two pass diversity rule guarantees for every fused list. */
module DiversityLaws {
  import opened Options
  import opened Ordering
  import opened Retrieval
  import opened Diversity

  // ----- Prefixes of the breadth pass -----

  lemma {:induction false} BreadthPrefix(records: seq<string>, i: nat)
    requires i <= |records|
    ensures BreadthStates(records)[..i] == BreadthStates(records[..i])
    decreases |records|
  {
    if i < |records| {
      var front := records[..|records| - 1];
      BreadthPrefix(front, i);
      assert front[..i] == records[..i];
      assert BreadthStates(records)[..|front|] == BreadthStates(front);
      assert BreadthStates(records)[..i] == BreadthStates(front)[..i];
    } else {
      assert records[..i] == records;
    }
  }

  /** Each disposition is the decision over what came before it. */
  lemma BreadthAt(records: seq<string>, i: nat)
    requires i < |records|
    ensures BreadthStates(records)[i] == Decide(records[..i], BreadthStates(records[..i]), records[i])
  {
    BreadthPrefix(records, i + 1);
    BreadthLast(records[..i + 1]);
    assert records[..i + 1][..i] == records[..i];
  }

  lemma BreadthLast(records: seq<string>)
    requires records != []
    ensures var front := records[..|records| - 1];
      BreadthStates(records)[|front|] == Decide(front, BreadthStates(front), records[|front|])
  {
  }

  lemma {:induction false} CountGrows(b: seq<Breadth>, what: Breadth, i: nat, j: nat)
    requires i <= j <= |b|
    ensures Count(b[..i], what) <= Count(b[..j], what)
    ensures i < j && b[i] == what ==> Count(b[..i], what) < Count(b[..j], what)
    decreases j
  {
    if i < j {
      assert b[..j][..j - 1] == b[..j - 1];
      CountGrows(b, what, i, j - 1);
    }
  }

  lemma CountPrefix(b: seq<Breadth>, what: Breadth, i: nat)
    requires i <= |b|
    ensures Count(b[..i], what) <= Count(b, what)
    ensures i < |b| && b[i] == what ==> Count(b[..i], what) < Count(b, what)
  {
    CountGrows(b, what, i, |b|);
    assert b[..|b|] == b;
  }

  lemma {:induction false} CountForGrows(records: seq<string>, b: seq<Breadth>, r: string, i: nat, j: nat)
    requires |records| == |b| && i <= j <= |b|
    ensures CountFor(records[..i], b[..i], r) <= CountFor(records[..j], b[..j], r)
    decreases j
  {
    if i < j {
      assert b[..j][..j - 1] == b[..j - 1] && records[..j][..j - 1] == records[..j - 1];
      CountForGrows(records, b, r, i, j - 1);
    }
  }

  lemma LimitAt(records: seq<string>, i: nat)
    requires i < |records|
    ensures BreadthStates(records)[i] == LimitReached <==> Count(BreadthStates(records)[..i], Accept) >= ACCEPTED_LIMIT
  {
    BreadthAt(records, i);
    BreadthPrefix(records, i);
  }

  /** Once the limit is reached nothing later is accepted or deferred. */
  lemma LimitIsFinal(records: seq<string>, i: nat, j: nat)
    requires i <= j < |records| && BreadthStates(records)[i] == LimitReached
    ensures BreadthStates(records)[j] == LimitReached
    ensures Count(BreadthStates(records), Accept) >= ACCEPTED_LIMIT
  {
    LimitAt(records, i);
    LimitAt(records, j);
    CountGrows(BreadthStates(records), Accept, i, j);
    CountPrefix(BreadthStates(records), Accept, j);
  }

  /** Before the limit every candidate is accepted or deferred. */
  lemma {:induction false} NothingMissed(b: seq<Breadth>)
    requires forall i :: 0 <= i < |b| ==> b[i] != LimitReached
    ensures Count(b, Accept) + Count(b, RecordCap) == |b|
  {
    if b != [] {
      var front := b[..|b| - 1];
      assert forall i :: 0 <= i < |front| ==> front[i] == b[i];
      NothingMissed(front);
    }
  }

  lemma {:induction false} CountAtMost(b: seq<Breadth>, what: Breadth)
    ensures Count(b, what) <= |b|
  {
    if b != [] { CountAtMost(b[..|b| - 1], what); }
  }

  // ----- The final ranks -----

  ghost function Total(n: nat): nat {
    if n <= ACCEPTED_LIMIT then n else ACCEPTED_LIMIT
  }

  lemma Totals(records: seq<string>)
    ensures var b := BreadthStates(records);
      && Count(b, Accept) <= Total(|records|)
      && Total(|records|) <= Count(b, Accept) + Count(b, RecordCap)
  {
    var b := BreadthStates(records);
    AcceptedNeverPasses(records);
    CountAtMost(b, Accept);
    if i :| 0 <= i < |b| && b[i] == LimitReached {
      LimitIsFinal(records, i, i);
    } else {
      NothingMissed(b);
    }
  }

  ghost function RankOf(records: seq<string>, i: nat): Option<nat>
    requires i < |records|
  {
    FinalState(BreadthStates(records), i).finalRank
  }

  /** The two passes together reach the total, and the first does not pass it. */
  ghost predicate Bracketed(b: seq<Breadth>) {
    Count(b, Accept) <= Total(|b|) <= Count(b, Accept) + Count(b, RecordCap)
  }

  /** The place a final rank belongs to: breadth accepts first, then fill. */
  ghost function PlaceOf(b: seq<Breadth>, rank: nat): (i: nat)
    requires Bracketed(b) && 1 <= rank <= Total(|b|)
    ensures i < |b| && FinalState(b, i).finalRank == Some(rank)
  {
    var a := Count(b, Accept);
    PositionsAre(b, Accept);
    PositionsAre(b, RecordCap);
    if rank <= a then Positions(b, Accept)[rank - 1] else Positions(b, RecordCap)[rank - 1 - a]
  }

  /** The candidate a final rank belongs to. */
  ghost function HolderOf(records: seq<string>, rank: nat): (i: nat)
    requires 1 <= rank <= Total(|records|)
    ensures i < |records| && RankOf(records, i) == Some(rank)
  {
    Totals(records);
    PlaceOf(BreadthStates(records), rank)
  }

  lemma {:induction false} AcceptedAndDeferred(b: seq<Breadth>)
    ensures Count(b, Accept) + Count(b, RecordCap) <= |b|
  {
    if b != [] { AcceptedAndDeferred(b[..|b| - 1]); }
  }

  lemma PlaceOfAccept(b: seq<Breadth>, i: nat)
    requires Bracketed(b) && i < |b| && b[i] == Accept
    ensures var rank := Count(b[..i], Accept) + 1; rank <= Total(|b|) && PlaceOf(b, rank) == i
  {
    PositionListed(b, Accept, i);
    PositionsAre(b, Accept);
  }

  lemma PlaceOfFill(b: seq<Breadth>, i: nat)
    requires Bracketed(b) && i < |b| && b[i] == RecordCap
    requires Count(b, Accept) + Count(b[..i], RecordCap) + 1 <= ACCEPTED_LIMIT
    ensures var rank := Count(b, Accept) + Count(b[..i], RecordCap) + 1; rank <= Total(|b|) && PlaceOf(b, rank) == i
  {
    PositionListed(b, RecordCap, i);
    PositionsAre(b, RecordCap);
    CountPrefix(b, RecordCap, i);
    AcceptedAndDeferred(b);
  }

  /** Exactly min(8, n) candidates are accepted, and their final ranks are
      1 to min(8, n), one each. */
  lemma RanksAreExact(records: seq<string>, i: nat)
    requires i < |records| && RankOf(records, i).Some?
    ensures 1 <= RankOf(records, i).value <= Total(|records|)
    ensures HolderOf(records, RankOf(records, i).value) == i
  {
    var b := BreadthStates(records);
    Totals(records);
    if b[i] == Accept { PlaceOfAccept(b, i); } else { PlaceOfFill(b, i); }
  }

  /** Breadth accepts precede fill accepts, and each pass keeps fused order. */
  lemma PassOrder(records: seq<string>, i: nat, j: nat)
    requires i < |records| && j < |records| && RankOf(records, i).Some? && RankOf(records, j).Some?
    ensures var b := BreadthStates(records);
      && (b[i] == Accept && b[j] == RecordCap ==> RankOf(records, i).value < RankOf(records, j).value)
      && (b[i] == b[j] && i < j ==> RankOf(records, i).value < RankOf(records, j).value)
  {
    var b := BreadthStates(records);
    if b[i] == b[j] && i < j { CountGrows(b, b[i], i, j); }
    if b[i] == Accept { CountPrefix(b, Accept, i); }
  }

  /** The accepted candidates of one record are a prefix of that record's
      candidates in fused order. */
  lemma RecordPrefix(records: seq<string>, i: nat, j: nat)
    requires i < j < |records| && records[i] == records[j] && RankOf(records, j).Some?
    ensures RankOf(records, i).Some?
  {
    var b := BreadthStates(records);
    BreadthAt(records, i);
    BreadthAt(records, j);
    BreadthPrefix(records, i);
    BreadthPrefix(records, j);
    if b[i] == LimitReached {
      LimitIsFinal(records, i, j);
    } else if b[i] == RecordCap {
      CountForGrows(records, b, records[i], i, j);
      CountGrows(b, RecordCap, i, j);
    }
  }

  /** Counts over a prefix are witnessed by accepted positions in it. */
  lemma {:induction false} OneAccepted(records: seq<string>, b: seq<Breadth>, r: string, n: nat) returns (x: nat)
    requires |records| == |b| && n <= |b| && CountFor(records[..n], b[..n], r) >= 1
    ensures x < n && records[x] == r && b[x] == Accept
  {
    x := n - 1;
    assert records[..n][..x] == records[..x] && b[..n][..x] == b[..x];
    if !(records[x] == r && b[x] == Accept) {
      x := OneAccepted(records, b, r, n - 1);
    }
  }

  lemma {:induction false} TwoAccepted(records: seq<string>, b: seq<Breadth>, r: string, n: nat) returns (x: nat, y: nat)
    requires |records| == |b| && n <= |b| && CountFor(records[..n], b[..n], r) >= 2
    ensures x < y < n && records[x] == r && records[y] == r && b[x] == Accept && b[y] == Accept
  {
    y := n - 1;
    assert records[..n][..y] == records[..y] && b[..n][..y] == b[..y];
    if records[y] == r && b[y] == Accept {
      x := OneAccepted(records, b, r, n - 1);
    } else {
      x, y := TwoAccepted(records, b, r, n - 1);
    }
  }

  /** Three breadth accepts of one record never happen. */
  lemma {:induction false} CapHolds(records: seq<string>, r: string)
    ensures CountFor(records, BreadthStates(records), r) <= DIVERSITY_CAP
  {
    if records != [] {
      var front := records[..|records| - 1];
      CapHolds(front, r);
      assert BreadthStates(records)[..|front|] == BreadthStates(front);
    }
  }

  ghost function CountBefore(records: seq<string>, b: seq<Breadth>, r: string, n: nat): nat
    requires |records| == |b| && n <= |b|
  {
    CountFor(records[..n], b[..n], r)
  }

  lemma CountBeforeStep(records: seq<string>, b: seq<Breadth>, x: nat, n: nat)
    requires |records| == |b| && x < n <= |b| && b[x] == Accept
    ensures CountBefore(records, b, records[x], x) + 1 <= CountBefore(records, b, records[x], n)
  {
    assert b[..x + 1][..x] == b[..x] && records[..x + 1][..x] == records[..x];
    CountForGrows(records, b, records[x], x + 1, n);
  }

  lemma ThreeCount(records: seq<string>, b: seq<Breadth>, x: nat, y: nat, z: nat)
    requires |records| == |b| && x < y < z < |b|
    requires records[x] == records[y] == records[z] && b[x] == b[y] == b[z] == Accept
    ensures CountFor(records, b, records[x]) >= 3
  {
    CountBeforeStep(records, b, x, y);
    CountBeforeStep(records, b, y, z);
    CountBeforeStep(records, b, z, |b|);
    assert b[..|b|] == b && records[..|b|] == records;
  }

  /** A candidate at the cap stands behind two accepts of its record. */
  lemma CapMeansTwo(records: seq<string>, j: nat) returns (p: nat, q: nat)
    requires j < |records| && BreadthStates(records)[j] == RecordCap
    ensures p < q < j && records[p] == records[q] == records[j]
    ensures BreadthStates(records)[p] == BreadthStates(records)[q] == Accept
  {
    BreadthAt(records, j);
    BreadthPrefix(records, j);
    p, q := TwoAccepted(records, BreadthStates(records), records[j], j);
  }

  /** A record's third accept came from the fill pass, so no limit was hit before. */
  lemma ThirdIsFill(records: seq<string>, x: nat, y: nat, z: nat)
    requires x < y < z < |records| && records[x] == records[y] == records[z]
    requires RankOf(records, x).Some? && RankOf(records, y).Some? && RankOf(records, z).Some?
    ensures forall i :: 0 <= i < |records| ==> BreadthStates(records)[i] != LimitReached
  {
    var b := BreadthStates(records);
    if b[x] == Accept && b[y] == Accept && b[z] == Accept {
      ThreeCount(records, b, x, y, z);
      CapHolds(records, records[x]);
    } else if i :| 0 <= i < |records| && b[i] == LimitReached {
      LimitIsFinal(records, i, i);
    }
  }

  /** A third accept for one record means no other record was left wanting:
      every rejected candidate's record already has two accepted chunks. */
  lemma ThirdOnlyWhenSpread(records: seq<string>, x: nat, y: nat, z: nat, rejected: nat)
    requires x < y < z < |records| && records[x] == records[y] == records[z]
    requires RankOf(records, x).Some? && RankOf(records, y).Some? && RankOf(records, z).Some?
    requires rejected < |records| && RankOf(records, rejected).None?
    ensures exists p, q ::
      && 0 <= p < q < rejected && records[p] == records[q] == records[rejected]
      && RankOf(records, p).Some? && RankOf(records, q).Some?
  {
    ThirdIsFill(records, x, y, z);
    var p, q := CapMeansTwo(records, rejected);
    assert RankOf(records, p).Some? && RankOf(records, q).Some?;
  }

  // ----- The accepted sequence -----

  lemma RankIdStrict()
    ensures StrictOrder(RankIdLt)
  {
    forall a: RankId ensures !RankIdLt(a, a) { StrLtTotal(a.id, a.id); }
    forall a, b, c | RankIdLt(a, b) && RankIdLt(b, c) ensures RankIdLt(a, c) {
      if a.rank == b.rank == c.rank { StrLtTransitive(a.id, b.id, c.id); }
    }
  }

  lemma {:induction false} RankedMembers(candidates: seq<Candidate>, states: seq<State>, pair: RankId)
    requires |candidates| == |states|
    ensures pair in RankPairs(candidates, states) <==>
      exists i :: 0 <= i < |states| && states[i].finalRank == Some(pair.rank) && candidates[i].chunk.chunkId == pair.id
  {
    if states != [] {
      var n := |states| - 1;
      RankedMembers(candidates[..n], states[..n], pair);
      if i :| 0 <= i < |states| && states[i].finalRank == Some(pair.rank) && candidates[i].chunk.chunkId == pair.id {
        if i < n { assert states[..n][i].finalRank == Some(pair.rank) && candidates[..n][i].chunk.chunkId == pair.id; }
      }
    }
  }

  /** The pairs by rank, listed directly. */
  ghost function Direct(candidates: seq<Candidate>): seq<RankId> {
    var records := RecordsOf(candidates);
    seq(Total(|records|), k requires 0 <= k < Total(|records|) =>
      RankId(k + 1, candidates[HolderOf(records, k + 1)].chunk.chunkId))
  }

  /** The accepted list holds, at place k, the candidate with final rank k + 1. */
  lemma AcceptedInRankOrder(candidates: seq<Candidate>)
    ensures |AcceptedIds(candidates, StatesOf(candidates))| == Total(|candidates|)
    ensures forall k :: 0 <= k < Total(|candidates|) ==>
      AcceptedIds(candidates, StatesOf(candidates))[k] == candidates[HolderOf(RecordsOf(candidates), k + 1)].chunk.chunkId
  {
    var records, states := RecordsOf(candidates), StatesOf(candidates);
    var pairs, direct := RankPairs(candidates, states), Direct(candidates);
    forall pair: RankId ensures pair in pairs <==> pair in direct {
      RankedMembers(candidates, states, pair);
      DirectMembers(candidates, pair);
    }
    RankIdStrict();
    RankedNoTies(candidates);
    SortSorts(RankIdLt, pairs);
    SortElements(RankIdLt, pairs);
    var sorted := Sort(RankIdLt, pairs);
    forall pair: RankId ensures pair in sorted <==> pair in direct {
      assert pair in sorted <==> pair in pairs;
    }
    SortedUnique(RankIdLt, sorted, direct);
  }

  lemma DirectMembers(candidates: seq<Candidate>, pair: RankId)
    ensures pair in Direct(candidates) <==>
      exists i :: 0 <= i < |candidates| && StatesOf(candidates)[i].finalRank == Some(pair.rank) && candidates[i].chunk.chunkId == pair.id
  {
    var records := RecordsOf(candidates);
    if i :| 0 <= i < |candidates| && StatesOf(candidates)[i].finalRank == Some(pair.rank) && candidates[i].chunk.chunkId == pair.id {
      RanksAreExact(records, i);
      assert Direct(candidates)[pair.rank - 1] == pair;
    }
    if pair in Direct(candidates) {
      var k :| 0 <= k < |Direct(candidates)| && Direct(candidates)[k] == pair;
      var i := HolderOf(records, k + 1);
      assert RankOf(records, i) == Some(pair.rank);
      assert StatesOf(candidates)[i].finalRank == Some(pair.rank);
    }
  }

  lemma {:induction false} RankedOrigins(candidates: seq<Candidate>, states: seq<State>, u: nat, w: nat)
    requires |candidates| == |states| && u < w < |RankPairs(candidates, states)|
    ensures exists i, j ::
      && 0 <= i < j < |states|
      && states[i].finalRank == Some(RankPairs(candidates, states)[u].rank)
      && states[j].finalRank == Some(RankPairs(candidates, states)[w].rank)
  {
    var n := |states| - 1;
    var front := RankPairs(candidates[..n], states[..n]);
    if w < |front| {
      RankedOrigins(candidates[..n], states[..n], u, w);
      var i, j :| 0 <= i < j < n && states[..n][i].finalRank == Some(front[u].rank) && states[..n][j].finalRank == Some(front[w].rank);
      assert states[i].finalRank == Some(front[u].rank) && states[j].finalRank == Some(front[w].rank);
    } else {
      RankedMembers(candidates[..n], states[..n], front[u]);
      assert front[u] in front;
      var i :| 0 <= i < n && states[..n][i].finalRank == Some(front[u].rank) && candidates[..n][i].chunk.chunkId == front[u].id;
      assert states[i].finalRank == Some(front[u].rank) && states[n].finalRank.Some?;
    }
  }

  lemma RankedNoTies(candidates: seq<Candidate>)
    ensures NoTies(RankIdLt, RankPairs(candidates, StatesOf(candidates)))
  {
    var states, records := StatesOf(candidates), RecordsOf(candidates);
    var pairs := RankPairs(candidates, states);
    forall u, w | 0 <= u < w < |pairs| ensures pairs[u].rank != pairs[w].rank {
      RankedOrigins(candidates, states, u, w);
      var i, j :| 0 <= i < j < |states| && states[i].finalRank == Some(pairs[u].rank) && states[j].finalRank == Some(pairs[w].rank);
      RanksAreExact(records, i);
      RanksAreExact(records, j);
    }
  }
}
