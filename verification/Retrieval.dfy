/** The ranking stages of `application/query.py`: BM25 ranks, semantic ranks
    and reciprocal rank fusion, each sorted with the build stable tie break.
    Fused scores are exact rationals. */
module Retrieval {
  import opened Options
  import opened Ordering

  const CANDIDATE_LIMIT: nat := 24
  const RRF_CONSTANT: nat := 60
  const DISTANCE_EPSILON: real := 0.000001

  datatype Outcome<T> = Done(value: T) | Failed
  datatype Source = Source(path: string, section: string)

  datatype Chunk = Chunk(
    chunkId: string, recordId: string, fingerprint: string, valuePath: string,
    ordinal: nat, text: string, provenance: seq<Source>)

  /** The accepted chunks by id, as the dictionary of the source holds them. */
  type Accepted = map<string, Chunk>

  ghost predicate WellKeyed(accepted: Accepted) {
    forall id :: id in accepted ==> accepted[id].chunkId == id
  }

  // ----- The build stable key -----

  datatype StableKey = StableKey(recordId: string, fingerprint: string, valuePath: string, ordinal: nat)

  function Key(chunk: Chunk): StableKey {
    StableKey(chunk.recordId, chunk.fingerprint, chunk.valuePath, chunk.ordinal)
  }

  predicate KeyLt(a: StableKey, b: StableKey) {
    if a.recordId != b.recordId then StrLt(a.recordId, b.recordId)
    else if a.fingerprint != b.fingerprint then StrLt(a.fingerprint, b.fingerprint)
    else if a.valuePath != b.valuePath then StrLt(a.valuePath, b.valuePath)
    else a.ordinal < b.ordinal
  }

  lemma KeyLtTotal(a: StableKey, b: StableKey)
    ensures KeyLt(a, b) || a == b || KeyLt(b, a)
    ensures !KeyLt(a, a)
  {
    StrLtTotal(a.recordId, b.recordId);
    StrLtTotal(a.fingerprint, b.fingerprint);
    StrLtTotal(a.valuePath, b.valuePath);
  }

  lemma KeyLtTransitive(a: StableKey, b: StableKey, c: StableKey)
    requires KeyLt(a, b) && KeyLt(b, c)
    ensures KeyLt(a, c)
  {
    if a.recordId != b.recordId || b.recordId != c.recordId {
      FieldTransitive(a.recordId, b.recordId, c.recordId);
    } else if a.fingerprint != b.fingerprint || b.fingerprint != c.fingerprint {
      FieldTransitive(a.fingerprint, b.fingerprint, c.fingerprint);
    } else if a.valuePath != b.valuePath || b.valuePath != c.valuePath {
      FieldTransitive(a.valuePath, b.valuePath, c.valuePath);
    }
  }

  lemma FieldTransitive(a: string, b: string, c: string)
    requires a == b || StrLt(a, b)
    requires b == c || StrLt(b, c)
    requires a != b || b != c
    ensures a != c && StrLt(a, c)
  {
    if a != b && b != c { StrLtTransitive(a, b, c); }
    StrLtTotal(a, c);
    StrLtTotal(b, c);
    StrLtTotal(a, b);
  }

  /** The key of an accepted id; every id the stages look up is accepted. */
  function KeyOf(accepted: Accepted, id: string): StableKey {
    if id in accepted then Key(accepted[id]) else StableKey("", "", "", 0)
  }

  ghost predicate UniqueKeys(accepted: Accepted) {
    forall a, b :: a in accepted && b in accepted && a != b ==> Key(accepted[a]) != Key(accepted[b])
  }

  // ----- Sort items: a primary number, then the stable key -----

  /** `primary` is the first component of the sort key: minus the score, or the distance. */
  datatype Item = Item(id: string, primary: real)

  function ItemOrder(accepted: Accepted): (Item, Item) -> bool {
    (a: Item, b: Item) =>
      a.primary < b.primary || (a.primary == b.primary && KeyLt(KeyOf(accepted, a.id), KeyOf(accepted, b.id)))
  }

  lemma ItemOrderStrict(accepted: Accepted)
    ensures StrictOrder(ItemOrder(accepted))
  {
    var lt := ItemOrder(accepted);
    forall a: Item ensures !lt(a, a) { KeyLtTotal(KeyOf(accepted, a.id), KeyOf(accepted, a.id)); }
    forall a, b, c | lt(a, b) && lt(b, c) ensures lt(a, c) {
      if a.primary == b.primary == c.primary {
        KeyLtTransitive(KeyOf(accepted, a.id), KeyOf(accepted, b.id), KeyOf(accepted, c.id));
      }
    }
  }

  ghost predicate DistinctIds(items: seq<Item>) {
    forall i, j :: 0 <= i < j < |items| ==> items[i].id != items[j].id
  }

  ghost predicate AllIn(items: seq<Item>, accepted: Accepted) {
    forall i :: 0 <= i < |items| ==> items[i].id in accepted
  }

  lemma ItemNoTies(accepted: Accepted, items: seq<Item>)
    requires UniqueKeys(accepted) && DistinctIds(items) && AllIn(items, accepted)
    ensures NoTies(ItemOrder(accepted), items)
  {
    var lt := ItemOrder(accepted);
    forall i, j | 0 <= i < |items| && 0 <= j < |items| && i != j ensures lt(items[i], items[j]) || lt(items[j], items[i]) {
      assert items[i].id != items[j].id;
      KeyLtTotal(KeyOf(accepted, items[i].id), KeyOf(accepted, items[j].id));
    }
  }

  /** Ranks 1 to `k` of a ranked list, as the dictionaries of the source hold them. */
  function TopRanks(items: seq<Item>, k: nat): map<string, nat>
    requires k <= |items|
  {
    if k == 0 then map[] else TopRanks(items, k - 1)[items[k - 1].id := k]
  }

  function Cut(items: seq<Item>): nat {
    if |items| <= CANDIDATE_LIMIT then |items| else CANDIDATE_LIMIT
  }

  /** Only ranks 1 to 24 reach fusion. */
  lemma {:induction false} TopRanksBounded(items: seq<Item>, k: nat)
    requires k <= |items|
    ensures forall id :: id in TopRanks(items, k) ==> 1 <= TopRanks(items, k)[id] <= k
    ensures forall id :: id in TopRanks(items, k) <==> exists i :: 0 <= i < k && items[i].id == id
  {
    if k > 0 { TopRanksBounded(items, k - 1); }
  }

  // ----- The lexical stage -----

  datatype Score = Finite(value: real) | NonFinite {
    function Value(): real { if Finite? then value else 0.0 }
  }

  /** The BM25 scorer: query tokens and document tokens to one score each. */
  type Scorer = (seq<string>, seq<seq<string>>) -> seq<Score>

  datatype LexicalDisposition = NoTermMatch | NonpositiveScore | Ranked | OutsideTop24
  datatype LexicalRow = LexicalRow(chunkId: string, score: real, rank: Option<nat>, disposition: LexicalDisposition)
  datatype LexicalResult = LexicalResult(rows: seq<LexicalRow>, ranked: map<string, nat>)

  datatype ScoredDoc = ScoredDoc(id: string, doc: seq<string>, score: Score)

  predicate TermMatch(query: seq<string>, doc: seq<string>) {
    query != [] && exists t :: t in query && t in doc
  }

  predicate Positive(query: seq<string>, d: ScoredDoc) {
    TermMatch(query, d.doc) && d.score.Value() > 0.0
  }

  function UnrankedRow(query: seq<string>, d: ScoredDoc): LexicalRow {
    LexicalRow(d.id, d.score.Value(), None, if !TermMatch(query, d.doc) then NoTermMatch else NonpositiveScore)
  }

  function UnrankedRows(query: seq<string>, docs: seq<ScoredDoc>): seq<LexicalRow> {
    if docs == [] then []
    else
      var last := docs[|docs| - 1];
      UnrankedRows(query, docs[..|docs| - 1]) + if Positive(query, last) then [] else [UnrankedRow(query, last)]
  }

  function PositiveItems(query: seq<string>, docs: seq<ScoredDoc>): seq<Item> {
    if docs == [] then []
    else
      var last := docs[|docs| - 1];
      PositiveItems(query, docs[..|docs| - 1])
      + if Positive(query, last) then [Item(last.id, -last.score.Value())] else []
  }

  function RankedRow(items: seq<Item>, k: nat): LexicalRow
    requires k < |items|
  {
    LexicalRow(items[k].id, -items[k].primary, Some(k + 1), if k + 1 <= CANDIDATE_LIMIT then Ranked else OutsideTop24)
  }

  function RankedRows(items: seq<Item>): seq<LexicalRow> {
    seq(|items|, k requires 0 <= k < |items| => RankedRow(items, k))
  }

  function RowOrder(accepted: Accepted): (LexicalRow, LexicalRow) -> bool {
    (a: LexicalRow, b: LexicalRow) => KeyLt(KeyOf(accepted, a.chunkId), KeyOf(accepted, b.chunkId))
  }

  function Documents(ids: seq<string>, accepted: Accepted, tokenize: string -> seq<string>): seq<seq<string>>
    requires forall id :: id in ids ==> id in accepted
  {
    seq(|ids|, i requires 0 <= i < |ids| => tokenize(accepted[ids[i]].text))
  }

  function Zip(ids: seq<string>, docs: seq<seq<string>>, scores: seq<Score>): seq<ScoredDoc>
    requires |ids| == |docs| == |scores|
  {
    seq(|ids|, i requires 0 <= i < |ids| => ScoredDoc(ids[i], docs[i], scores[i]))
  }

  function RankSplit(accepted: Accepted, unranked: seq<LexicalRow>, positive: seq<Item>): LexicalResult {
    var items := Sort(ItemOrder(accepted), positive);
    LexicalResult(Sort(RowOrder(accepted), unranked + RankedRows(items)), TopRanks(items, Cut(items)))
  }

  function Lexical(question: string, accepted: Accepted, tokenize: string -> seq<string>, scorer: Scorer)
    : Outcome<LexicalResult>
  {
    var ids := SortedIds(accepted.Keys);
    var query := tokenize(question);
    var docs := Documents(ids, accepted, tokenize);
    var scores := scorer(query, docs);
    if |scores| != |ids| || NonFinite in scores then Failed
    else
      var zipped := Zip(ids, docs, scores);
      Done(RankSplit(accepted, UnrankedRows(query, zipped), PositiveItems(query, zipped)))
  }

  /** `_lexical_stage`: score, split by disposition, rank. */
  method LexicalStage(question: string, accepted: Accepted, tokenize: string -> seq<string>, scorer: Scorer)
    returns (result: Outcome<LexicalResult>)
    ensures result == Lexical(question, accepted, tokenize, scorer)
  {
    var ids := SortedIds(accepted.Keys);
    var query := tokenize(question);
    var docs := Documents(ids, accepted, tokenize);
    var scores := scorer(query, docs);
    if |scores| != |ids| {
      return Failed;
    }
    var zipped := Zip(ids, docs, scores);
    assert forall i :: 0 <= i < |zipped| ==> zipped[i].score == scores[i];
    var finite, rows, positive := SplitByDisposition(query, zipped);
    if !finite {
      return Failed;
    }
    var ranked := AssignRanks(accepted, rows, positive);
    return Done(ranked);
  }

  /** The first loop: the fixed precedence of dispositions, failing on a
      score that is not finite. */
  method SplitByDisposition(query: seq<string>, docs: seq<ScoredDoc>)
    returns (finite: bool, rows: seq<LexicalRow>, positive: seq<Item>)
    ensures finite <==> forall i :: 0 <= i < |docs| ==> docs[i].score.Finite?
    ensures finite ==> rows == UnrankedRows(query, docs) && positive == PositiveItems(query, docs)
  {
    rows, positive := [], [];
    for i := 0 to |docs|
      invariant forall j :: 0 <= j < i ==> docs[j].score.Finite?
      invariant rows == UnrankedRows(query, docs[..i]) && positive == PositiveItems(query, docs[..i])
    {
      assert docs[..i + 1][..i] == docs[..i];
      var d := docs[i];
      if d.score.NonFinite? {
        return false, rows, positive;
      }
      if !TermMatch(query, d.doc) {
        rows := rows + [LexicalRow(d.id, d.score.value, None, NoTermMatch)];
      } else if d.score.value <= 0.0 {
        rows := rows + [LexicalRow(d.id, d.score.value, None, NonpositiveScore)];
      } else {
        positive := positive + [Item(d.id, -d.score.value)];
      }
    }
    assert docs[..|docs|] == docs;
    finite := true;
  }

  /** The second loop: ranks in score order, then the rows in stable order. */
  method AssignRanks(accepted: Accepted, unranked: seq<LexicalRow>, positive: seq<Item>) returns (result: LexicalResult)
    ensures result == RankSplit(accepted, unranked, positive)
  {
    var items := Sort(ItemOrder(accepted), positive);
    var rows, ranked := RankRows(items);
    result := LexicalResult(Sort(RowOrder(accepted), unranked + rows), ranked);
  }

  method RankRows(items: seq<Item>) returns (rows: seq<LexicalRow>, ranked: map<string, nat>)
    ensures rows == RankedRows(items) && ranked == TopRanks(items, Cut(items))
  {
    rows, ranked := [], map[];
    for k := 0 to |items|
      invariant rows == RankedRows(items)[..k]
      invariant ranked == TopRanks(items, if k <= CANDIDATE_LIMIT then k else CANDIDATE_LIMIT)
    {
      var rank := k + 1;
      var disposition := if rank <= CANDIDATE_LIMIT then Ranked else OutsideTop24;
      if disposition == Ranked {
        ranked := ranked[items[k].id := rank];
      }
      rows := rows + [LexicalRow(items[k].id, -items[k].primary, Some(rank), disposition)];
    }
  }

  // ----- The semantic stage -----

  datatype Matches = Matches(ids: seq<string>, distances: seq<Score>)
  datatype SemanticRow = SemanticRow(chunkId: string, rank: nat, distance: real, similarity: real, ranked: bool)
  datatype SemanticResult = SemanticResult(rows: seq<SemanticRow>, ranked: map<string, nat>)

  predicate ValidDistance(d: Score) {
    d.Finite? && -DISTANCE_EPSILON <= d.value <= 2.0 + DISTANCE_EPSILON
  }

  function Clamp(d: real): real {
    if d < 0.0 then 0.0 else if d > 2.0 then 2.0 else d
  }

  function DistanceItems(matches: Matches): seq<Item>
    requires |matches.ids| == |matches.distances|
  {
    seq(|matches.ids|, i requires 0 <= i < |matches.ids| => Item(matches.ids[i], Clamp(matches.distances[i].Value())))
  }

  function SemanticRows(items: seq<Item>): seq<SemanticRow> {
    seq(|items|, k requires 0 <= k < |items| =>
      SemanticRow(items[k].id, k + 1, items[k].primary, 1.0 - items[k].primary, k + 1 <= CANDIDATE_LIMIT))
  }

  function SemanticRowOrder(accepted: Accepted): (SemanticRow, SemanticRow) -> bool {
    (a: SemanticRow, b: SemanticRow) => KeyLt(KeyOf(accepted, a.chunkId), KeyOf(accepted, b.chunkId))
  }

  predicate MatchesAccepted(matches: Matches, accepted: Accepted) {
    && |matches.ids| == |accepted| && (set id | id in matches.ids) == accepted.Keys
    && |matches.distances| == |matches.ids|
    && forall i :: 0 <= i < |matches.distances| ==> ValidDistance(matches.distances[i])
  }

  function Semantic(accepted: Accepted, matches: Matches): Outcome<SemanticResult> {
    if !MatchesAccepted(matches, accepted) then Failed
    else
      var items := Sort(ItemOrder(accepted), DistanceItems(matches));
      Done(SemanticResult(Sort(SemanticRowOrder(accepted), SemanticRows(items)), TopRanks(items, Cut(items))))
  }

  /** The semantic ranking of `query_index`: the returned set is checked, the
      order of the returned list never matters. */
  method SemanticStage(accepted: Accepted, matches: Matches) returns (result: Outcome<SemanticResult>)
    ensures result == Semantic(accepted, matches)
  {
    if |matches.ids| != |accepted| || (set id | id in matches.ids) != accepted.Keys {
      return Failed;
    }
    if |matches.distances| != |matches.ids| {
      return Failed;
    }
    var valid, scored := ScoreMatches(matches);
    if !valid {
      return Failed;
    }
    var items := Sort(ItemOrder(accepted), scored);
    var ranked := RankSemantic(items);
    result := Done(SemanticResult(Sort(SemanticRowOrder(accepted), SemanticRows(items)), ranked));
  }

  method ScoreMatches(matches: Matches) returns (valid: bool, scored: seq<Item>)
    requires |matches.distances| == |matches.ids|
    ensures valid <==> forall i :: 0 <= i < |matches.distances| ==> ValidDistance(matches.distances[i])
    ensures valid ==> scored == DistanceItems(matches)
  {
    scored := [];
    for i := 0 to |matches.ids|
      invariant forall j :: 0 <= j < i ==> ValidDistance(matches.distances[j])
      invariant scored == DistanceItems(matches)[..i]
    {
      if !ValidDistance(matches.distances[i]) {
        return false, scored;
      }
      scored := scored + [Item(matches.ids[i], Clamp(matches.distances[i].value))];
    }
    valid := true;
  }

  method RankSemantic(items: seq<Item>) returns (ranked: map<string, nat>)
    ensures ranked == TopRanks(items, Cut(items))
  {
    var rows := SemanticRows(items);
    ranked := map[];
    for k := 0 to |rows|
      invariant ranked == TopRanks(items, if k <= CANDIDATE_LIMIT then k else CANDIDATE_LIMIT)
    {
      if rows[k].ranked {
        ranked := ranked[rows[k].chunkId := rows[k].rank];
      }
    }
  }

  // ----- Reciprocal rank fusion -----

  datatype Candidate = Candidate(
    chunk: Chunk, lexicalRank: Option<nat>, semanticRank: Option<nat>, fusedScore: real, fusedRank: nat)

  function Get(ranked: map<string, nat>, id: string): Option<nat> {
    if id in ranked then Some(ranked[id]) else None
  }

  function Contribution(rank: Option<nat>): real {
    match rank
    case None => 0.0
    case Some(r) => 1.0 / (RRF_CONSTANT + r) as real
  }

  function FusedScore(lexical: Option<nat>, semantic: Option<nat>): real {
    Contribution(lexical) + Contribution(semantic)
  }

  function FusionItem(lexical: map<string, nat>, semantic: map<string, nat>, id: string): Item {
    Item(id, -FusedScore(Get(lexical, id), Get(semantic, id)))
  }

  function FusionItems(lexical: map<string, nat>, semantic: map<string, nat>): seq<Item> {
    var ids := SortedIds(lexical.Keys + semantic.Keys);
    seq(|ids|, i requires 0 <= i < |ids| => FusionItem(lexical, semantic, ids[i]))
  }

  function FusedOrder(lexical: map<string, nat>, semantic: map<string, nat>, accepted: Accepted): seq<Item> {
    Sort(ItemOrder(accepted), FusionItems(lexical, semantic))
  }

  function CandidateOf(lexical: map<string, nat>, semantic: map<string, nat>, accepted: Accepted, item: Item, rank: nat): Candidate
    requires item.id in accepted
  {
    Candidate(accepted[item.id], Get(lexical, item.id), Get(semantic, item.id), -item.primary, rank)
  }

  lemma FusionItemsMembers(lexical: map<string, nat>, semantic: map<string, nat>, item: Item)
    ensures item in FusionItems(lexical, semantic)
       <==> item.id in lexical.Keys + semantic.Keys && item == FusionItem(lexical, semantic, item.id)
  {
    var ids := SortedIds(lexical.Keys + semantic.Keys);
    if item.id in ids && item == FusionItem(lexical, semantic, item.id) {
      var i :| 0 <= i < |ids| && ids[i] == item.id;
      assert FusionItems(lexical, semantic)[i] == item;
    }
  }

  /** Every fused id is accepted, so the lookup after the sort cannot miss. */
  lemma FusedAt(lexical: map<string, nat>, semantic: map<string, nat>, accepted: Accepted, i: nat)
    requires i < |FusedOrder(lexical, semantic, accepted)|
    ensures var item := FusedOrder(lexical, semantic, accepted)[i];
      item.id in lexical.Keys + semantic.Keys && item == FusionItem(lexical, semantic, item.id)
  {
    var item := FusedOrder(lexical, semantic, accepted)[i];
    SortElements(ItemOrder(accepted), FusionItems(lexical, semantic));
    assert item in FusedOrder(lexical, semantic, accepted);
    FusionItemsMembers(lexical, semantic, item);
  }

  lemma FusedAll(lexical: map<string, nat>, semantic: map<string, nat>, accepted: Accepted)
    requires lexical.Keys + semantic.Keys <= accepted.Keys
    ensures AllIn(FusedOrder(lexical, semantic, accepted), accepted)
  {
    forall i | 0 <= i < |FusedOrder(lexical, semantic, accepted)| {
      FusedAt(lexical, semantic, accepted, i);
    }
  }

  function Number(items: seq<Item>, lexical: map<string, nat>, semantic: map<string, nat>, accepted: Accepted): seq<Candidate>
    requires AllIn(items, accepted)
  {
    seq(|items|, i requires 0 <= i < |items| => CandidateOf(lexical, semantic, accepted, items[i], i + 1))
  }

  function Fusion(lexical: map<string, nat>, semantic: map<string, nat>, accepted: Accepted): seq<Candidate>
    requires lexical.Keys + semantic.Keys <= accepted.Keys
  {
    FusedAll(lexical, semantic, accepted);
    Number(FusedOrder(lexical, semantic, accepted), lexical, semantic, accepted)
  }

  /** `_fusion_stage`: score the union, sort it, number it. */
  method FusionStage(lexical: map<string, nat>, semantic: map<string, nat>, accepted: Accepted)
    returns (candidates: seq<Candidate>)
    requires lexical.Keys + semantic.Keys <= accepted.Keys
    ensures candidates == Fusion(lexical, semantic, accepted)
  {
    var unsorted := ScoreUnion(lexical, semantic);
    var scored := Sort(ItemOrder(accepted), unsorted);
    FusedAll(lexical, semantic, accepted);
    candidates := NumberCandidates(scored, lexical, semantic, accepted);
  }

  method NumberCandidates(scored: seq<Item>, lexical: map<string, nat>, semantic: map<string, nat>, accepted: Accepted)
    returns (candidates: seq<Candidate>)
    requires AllIn(scored, accepted)
    ensures candidates == Number(scored, lexical, semantic, accepted)
  {
    candidates := [];
    for k := 0 to |scored|
      invariant candidates == Number(scored, lexical, semantic, accepted)[..k]
    {
      var id := scored[k].id;
      candidates := candidates
        + [Candidate(accepted[id], Get(lexical, id), Get(semantic, id), -scored[k].primary, k + 1)];
    }
  }

  method ScoreUnion(lexical: map<string, nat>, semantic: map<string, nat>) returns (scored: seq<Item>)
    ensures scored == FusionItems(lexical, semantic)
  {
    var ids := SortedIds(lexical.Keys + semantic.Keys);
    scored := [];
    for i := 0 to |ids|
      invariant |scored| == i && forall k :: 0 <= k < i ==> scored[k] == FusionItem(lexical, semantic, ids[k])
    {
      var item := ScoreOne(lexical, semantic, ids[i]);
      scored := scored + [item];
    }
  }

  method ScoreOne(lexical: map<string, nat>, semantic: map<string, nat>, id: string) returns (item: Item)
    ensures item == FusionItem(lexical, semantic, id)
  {
    var fused := FuseOne(lexical, semantic, id);
    item := Item(id, -fused);
  }

  /** One pass of the scoring loop: a missing contribution adds nothing. */
  method FuseOne(lexical: map<string, nat>, semantic: map<string, nat>, id: string) returns (fused: real)
    ensures fused == FusedScore(Get(lexical, id), Get(semantic, id))
  {
    fused := 0.0;
    if id in lexical {
      fused := fused + 1.0 / (RRF_CONSTANT + lexical[id]) as real;
    }
    if id in semantic {
      fused := fused + 1.0 / (RRF_CONSTANT + semantic[id]) as real;
    }
  }

  // ----- Consensus comes first -----

  lemma CancelFactor(a: real, b: real, x: real)
    requires x > 0.0 && a * x < b * x
    ensures a < b
  {
  }

  lemma ReciprocalFalls(x: real, y: real)
    requires 0.0 < x < y
    ensures 1.0 / y < 1.0 / x
  {
    var r := 1.0 / y;
    assert r > 0.0 && r * y == 1.0 && (1.0 / x) * x == 1.0;
    assert r * x < r * y;
    CancelFactor(r, 1.0 / x, x);
  }

  lemma ContributionFalls(a: nat, b: nat)
    requires a < b
    ensures Contribution(Some(b)) < Contribution(Some(a))
    ensures Contribution(Some(b)) > 0.0
  {
    ReciprocalFalls((RRF_CONSTANT + a) as real, (RRF_CONSTANT + b) as real);
  }

  ghost predicate InTop(rank: Option<nat>) {
    rank.Some? ==> 1 <= rank.value <= CANDIDATE_LIMIT
  }

  /** Two contributions of rank at most 24 exceed any single one: 2/84 > 1/61. */
  lemma TwoBeatOne(a: nat, b: nat, c: nat)
    requires 1 <= a <= CANDIDATE_LIMIT && 1 <= b <= CANDIDATE_LIMIT && 1 <= c
    ensures FusedScore(Some(a), Some(b)) > Contribution(Some(c))
  {
    if a < CANDIDATE_LIMIT { ContributionFalls(a, CANDIDATE_LIMIT); }
    if b < CANDIDATE_LIMIT { ContributionFalls(b, CANDIDATE_LIMIT); }
    if 1 < c { ContributionFalls(1, c); }
    assert Contribution(Some(24)) == 1.0 / 84.0 && Contribution(Some(1)) == 1.0 / 61.0;
  }

  /** At least as well ranked in both lists and better in one: a higher score. */
  lemma DominanceRaisesScore(a: nat, b: nat, c: nat, d: nat)
    requires a <= c && b <= d && (a < c || b < d)
    ensures FusedScore(Some(a), Some(b)) > FusedScore(Some(c), Some(d))
  {
    if a < c { ContributionFalls(a, c); }
    if b < d { ContributionFalls(b, d); }
  }

  /** A strictly smaller primary key is an earlier place in a sorted list. */
  lemma SmallerIsEarlier(accepted: Accepted, items: seq<Item>, i: nat, j: nat)
    requires StrictlySorted(ItemOrder(accepted), items)
    requires i < |items| && j < |items| && items[i].primary < items[j].primary
    ensures i < j
  {
    var first, last := if i < j then i else j, if i < j then j else i;
    assert first < last ==> ItemOrder(accepted)(items[first], items[last]);
  }

  lemma FusionItemsDistinct(lexical: map<string, nat>, semantic: map<string, nat>)
    ensures DistinctIds(FusionItems(lexical, semantic))
  {
    var ids := SortedIds(lexical.Keys + semantic.Keys);
    forall i, j | 0 <= i < j < |ids| ensures ids[i] != ids[j] {
      assert StrLt(ids[i], ids[j]);
      StrLtTotal(ids[i], ids[j]);
    }
  }

  lemma FusedOrderSorted(lexical: map<string, nat>, semantic: map<string, nat>, accepted: Accepted)
    requires UniqueKeys(accepted) && lexical.Keys + semantic.Keys <= accepted.Keys
    ensures StrictlySorted(ItemOrder(accepted), FusedOrder(lexical, semantic, accepted))
  {
    FusionItemsDistinct(lexical, semantic);
    ItemOrderStrict(accepted);
    ItemNoTies(accepted, FusionItems(lexical, semantic));
    SortSorts(ItemOrder(accepted), FusionItems(lexical, semantic));
  }

  ghost predicate Consensus(c: Candidate) {
    c.lexicalRank.Some? && c.semanticRank.Some?
  }

  /** At least as well ranked in both lists and strictly better in one. */
  ghost predicate Dominates(a: Candidate, b: Candidate)
    requires Consensus(a) && Consensus(b)
  {
    && a.lexicalRank.value <= b.lexicalRank.value && a.semanticRank.value <= b.semanticRank.value
    && (a.lexicalRank.value < b.lexicalRank.value || a.semanticRank.value < b.semanticRank.value)
  }

  lemma NumberAt(items: seq<Item>, lexical: map<string, nat>, semantic: map<string, nat>, accepted: Accepted, i: nat)
    requires AllIn(items, accepted) && i < |items|
    ensures Number(items, lexical, semantic, accepted)[i] == CandidateOf(lexical, semantic, accepted, items[i], i + 1)
  {
  }

  lemma FusionAt(lexical: map<string, nat>, semantic: map<string, nat>, accepted: Accepted, items: seq<Item>, i: nat)
    requires lexical.Keys + semantic.Keys <= accepted.Keys
    requires items == FusedOrder(lexical, semantic, accepted) && i < |Fusion(lexical, semantic, accepted)|
    ensures i < |items| && items[i].id in accepted
    ensures Fusion(lexical, semantic, accepted)[i] == CandidateOf(lexical, semantic, accepted, items[i], i + 1)
  {
    FusedAll(lexical, semantic, accepted);
    NumberAt(items, lexical, semantic, accepted, i);
  }

  lemma RankedInTop(ranked: map<string, nat>, id: string)
    requires forall x :: x in ranked ==> InTop(Some(ranked[x]))
    ensures InTop(Get(ranked, id)) && (id in ranked <==> Get(ranked, id).Some?)
  {
  }

  /** A candidate carries its own ranks and their sum, and at least one of them. */
  lemma FusionScores(lexical: map<string, nat>, semantic: map<string, nat>, accepted: Accepted, i: nat)
    requires lexical.Keys + semantic.Keys <= accepted.Keys && i < |Fusion(lexical, semantic, accepted)|
    requires forall id :: id in lexical ==> InTop(Some(lexical[id]))
    requires forall id :: id in semantic ==> InTop(Some(semantic[id]))
    ensures var c := Fusion(lexical, semantic, accepted)[i];
      && c.fusedScore == FusedScore(c.lexicalRank, c.semanticRank)
      && (c.lexicalRank.Some? || c.semanticRank.Some?)
      && InTop(c.lexicalRank) && InTop(c.semanticRank)
      && c.fusedScore == -FusedOrder(lexical, semantic, accepted)[i].primary
  {
    var items := FusedOrder(lexical, semantic, accepted);
    FusionAt(lexical, semantic, accepted, items, i);
    var id := items[i].id;
    FusedAt(lexical, semantic, accepted, i);
    RankedInTop(lexical, id);
    RankedInTop(semantic, id);
  }

  lemma ConsensusScores(a: Candidate, b: Candidate)
    requires a.fusedScore == FusedScore(a.lexicalRank, a.semanticRank) && b.fusedScore == FusedScore(b.lexicalRank, b.semanticRank)
    requires InTop(a.lexicalRank) && InTop(a.semanticRank) && InTop(b.lexicalRank) && InTop(b.semanticRank)
    requires b.lexicalRank.Some? || b.semanticRank.Some?
    requires Consensus(a) && (!Consensus(b) || Dominates(a, b))
    ensures a.fusedScore > b.fusedScore
  {
    var x, y := a.lexicalRank.value, a.semanticRank.value;
    if Consensus(b) {
      DominanceRaisesScore(x, y, b.lexicalRank.value, b.semanticRank.value);
    } else if b.lexicalRank.Some? {
      TwoBeatOne(x, y, b.lexicalRank.value);
    } else {
      TwoBeatOne(x, y, b.semanticRank.value);
    }
  }

  /** Consensus first: a chunk both retrievers ranked precedes every chunk only
      one ranked; dominance in both lists decides between two of the former. */
  lemma ConsensusFirst(lexical: map<string, nat>, semantic: map<string, nat>, accepted: Accepted, i: nat, j: nat)
    requires UniqueKeys(accepted) && lexical.Keys + semantic.Keys <= accepted.Keys
    requires forall id :: id in lexical ==> InTop(Some(lexical[id]))
    requires forall id :: id in semantic ==> InTop(Some(semantic[id]))
    requires i < |Fusion(lexical, semantic, accepted)| && j < |Fusion(lexical, semantic, accepted)|
    ensures var a, b := Fusion(lexical, semantic, accepted)[i], Fusion(lexical, semantic, accepted)[j];
      Consensus(a) && (!Consensus(b) || Dominates(a, b)) ==> i < j
  {
    var a, b := Fusion(lexical, semantic, accepted)[i], Fusion(lexical, semantic, accepted)[j];
    FusionScores(lexical, semantic, accepted, i);
    FusionScores(lexical, semantic, accepted, j);
    if Consensus(a) && (!Consensus(b) || Dominates(a, b)) {
      ConsensusScores(a, b);
      FusedOrderSorted(lexical, semantic, accepted);
      SmallerIsEarlier(accepted, FusedOrder(lexical, semantic, accepted), i, j);
    }
  }

  /** The cut-offs the stages apply are the bounds consensus rests on. */
  lemma StageRanksInTop(items: seq<Item>)
    ensures forall id :: id in TopRanks(items, Cut(items)) ==> 1 <= TopRanks(items, Cut(items))[id] <= CANDIDATE_LIMIT
  {
    TopRanksBounded(items, Cut(items));
  }

  /** Distinct rank pairs can tie exactly, where the stable key decides. */
  lemma ExactTie()
    ensures FusedScore(Some(3), Some(24)) == FusedScore(Some(12), Some(12))
  {
    assert 1.0 / 63.0 + 1.0 / 84.0 == 1.0 / 72.0 + 1.0 / 72.0;
  }
}
