/** Which chunks the ranking stages rank, where, and what each row says: the
    rank of a chunk is one more than the number of chunks ahead of it. */
module RankLaws {
  import opened Options
  import opened Ordering
  import opened Retrieval
  import opened BuildIndependence

  // ----- The stable key -----

  /** Chunks are ordered by record, then fingerprint, then path, then ordinal, and
      share a key exactly when they share all four. */
  lemma KeyOrderExactly(a: Chunk, b: Chunk)
    ensures KeyLt(Key(a), Key(b)) <==>
      || StrLt(a.recordId, b.recordId)
      || (a.recordId == b.recordId && StrLt(a.fingerprint, b.fingerprint))
      || (a.recordId == b.recordId && a.fingerprint == b.fingerprint && StrLt(a.valuePath, b.valuePath))
      || (a.recordId == b.recordId && a.fingerprint == b.fingerprint && a.valuePath == b.valuePath && a.ordinal < b.ordinal)
    ensures Key(a) == Key(b) <==>
      a.recordId == b.recordId && a.fingerprint == b.fingerprint && a.valuePath == b.valuePath && a.ordinal == b.ordinal
  {
    StrLtTotal(a.recordId, a.recordId);
    StrLtTotal(a.fingerprint, a.fingerprint);
    StrLtTotal(a.valuePath, a.valuePath);
  }

  // ----- A rank counts what is ahead -----

  /** Smaller primary number, or the same one and a smaller stable key. */
  ghost predicate IsAhead(accepted: Accepted, y: Item, x: Item)
    requires y.id in accepted && x.id in accepted
  {
    y.primary < x.primary || (y.primary == x.primary && KeyLt(Key(accepted[y.id]), Key(accepted[x.id])))
  }

  ghost function Ahead(accepted: Accepted, items: seq<Item>, x: Item): set<string>
    requires AllIn(items, accepted) && x.id in accepted
  {
    set i | 0 <= i < |items| && IsAhead(accepted, items[i], x) :: items[i].id
  }

  ghost function FirstIds(items: seq<Item>, k: nat): set<string>
    requires k <= |items|
  {
    set i | 0 <= i < k :: items[i].id
  }

  lemma {:induction false} FirstIdsCount(items: seq<Item>, k: nat)
    requires DistinctIds(items) && k <= |items|
    ensures |FirstIds(items, k)| == k
  {
    if k > 0 {
      FirstIdsCount(items, k - 1);
      FirstIdsNext(items, k - 1);
    }
  }

  lemma FirstIdsNext(items: seq<Item>, k: nat)
    requires DistinctIds(items) && k < |items|
    ensures items[k].id !in FirstIds(items, k) && FirstIds(items, k + 1) == FirstIds(items, k) + {items[k].id}
  {
    forall i | 0 <= i < k ensures items[i].id != items[k].id {}
    assert FirstIds(items, k + 1) == FirstIds(items, k) + {items[k].id} by {
      forall id ensures id in FirstIds(items, k + 1) <==> id in FirstIds(items, k) + {items[k].id} {
        if id in FirstIds(items, k + 1) {
          var i :| 0 <= i < k + 1 && items[i].id == id;
        }
      }
    }
  }

  lemma {:induction false} TopRankAt(items: seq<Item>, k: nat, i: nat)
    requires DistinctIds(items) && k <= |items| && i < |items|
    ensures items[i].id in TopRanks(items, k) <==> i < k
    ensures i < k ==> TopRanks(items, k)[items[i].id] == i + 1
  {
    if k > 0 {
      TopRankAt(items, k - 1, i);
      assert i < k - 1 ==> items[i].id != items[k - 1].id;
      assert k - 1 < i ==> items[k - 1].id != items[i].id;
    }
  }

  /** The sorted list, its ids distinct and accepted. */
  lemma SortedWellFormed(accepted: Accepted, items: seq<Item>)
    requires UniqueKeys(accepted) && DistinctIds(items) && AllIn(items, accepted)
    ensures var sorted := Sort(ItemOrder(accepted), items);
      && StrictlySorted(ItemOrder(accepted), sorted) && DistinctIds(sorted) && AllIn(sorted, accepted)
      && |sorted| == |items| && forall x :: x in sorted <==> x in items
  {
    var lt := ItemOrder(accepted);
    var sorted := Sort(lt, items);
    SortedItems(accepted, items);
    SortElements(lt, items);
    ItemOrderStrict(accepted);
    forall i | 0 <= i < |sorted| ensures sorted[i].id in accepted { assert sorted[i] in items; }
    forall i, j | 0 <= i < j < |sorted| ensures sorted[i].id != sorted[j].id {
      assert lt(sorted[i], sorted[j]) && sorted[i] in items && sorted[j] in items;
      if sorted[i].id == sorted[j].id { SameIdSameItem(items, sorted[i], sorted[j]); }
    }
  }

  lemma SameIdSameItem(items: seq<Item>, x: Item, y: Item)
    requires DistinctIds(items) && x in items && y in items && x.id == y.id
    ensures x == y
  {
  }

  lemma NotBoth(lt: (Item, Item) -> bool, a: Item, b: Item)
    requires StrictOrder(lt)
    ensures !(lt(a, b) && lt(b, a)) && !lt(a, a)
  {
    assert lt(a, b) && lt(b, a) ==> lt(a, a);
  }

  lemma AheadIsBefore(accepted: Accepted, items: seq<Item>, sorted: seq<Item>, i: nat, k: nat)
    requires StrictlySorted(ItemOrder(accepted), sorted) && AllIn(sorted, accepted) && i < |sorted| && k < |sorted|
    ensures IsAhead(accepted, sorted[i], sorted[k]) <==> i < k
  {
    var lt := ItemOrder(accepted);
    ItemOrderStrict(accepted);
    assert i < k ==> lt(sorted[i], sorted[k]);
    assert k < i ==> lt(sorted[k], sorted[i]);
    NotBoth(lt, sorted[i], sorted[k]);
  }

  /** The items ahead of place `k` are the first `k` of the sorted list. */
  lemma AheadAreFirst(accepted: Accepted, items: seq<Item>, sorted: seq<Item>, k: nat)
    requires StrictlySorted(ItemOrder(accepted), sorted) && AllIn(sorted, accepted) && AllIn(items, accepted)
    requires k < |sorted| && forall x :: x in sorted <==> x in items
    ensures Ahead(accepted, items, sorted[k]) == FirstIds(sorted, k)
  {
    forall i | 0 <= i < k ensures sorted[i].id in Ahead(accepted, items, sorted[k]) {
      AheadIsBefore(accepted, items, sorted, i, k);
      assert sorted[i] in sorted;
      var j :| 0 <= j < |items| && items[j] == sorted[i];
      assert IsAhead(accepted, items[j], sorted[k]);
    }
    forall j | 0 <= j < |items| && IsAhead(accepted, items[j], sorted[k]) ensures items[j].id in FirstIds(sorted, k) {
      assert items[j] in items;
      var i :| 0 <= i < |sorted| && sorted[i] == items[j];
      AheadIsBefore(accepted, items, sorted, i, k);
    }
  }

  /** The place of an item in the sorted list is the number of items ahead. */
  lemma PlaceIsCount(accepted: Accepted, items: seq<Item>, k: nat)
    requires UniqueKeys(accepted) && DistinctIds(items) && AllIn(items, accepted)
    requires k < |Sort(ItemOrder(accepted), items)|
    ensures var x := Sort(ItemOrder(accepted), items)[k]; x in items && k == |Ahead(accepted, items, x)|
  {
    var sorted := Sort(ItemOrder(accepted), items);
    SortedWellFormed(accepted, items);
    assert sorted[k] in sorted;
    FirstIdsCount(sorted, k);
    AheadAreFirst(accepted, items, sorted, k);
  }

  /** The rank an item gets, and whether the cut lets it through. */
  lemma RankIsCount(accepted: Accepted, items: seq<Item>, x: Item)
    requires UniqueKeys(accepted) && DistinctIds(items) && AllIn(items, accepted) && x in items
    ensures var sorted := Sort(ItemOrder(accepted), items); var ahead := |Ahead(accepted, items, x)|;
      && ahead < |sorted| && sorted[ahead] == x
      && (x.id in TopRanks(sorted, Cut(sorted)) <==> ahead < CANDIDATE_LIMIT)
      && (ahead < CANDIDATE_LIMIT ==> TopRanks(sorted, Cut(sorted))[x.id] == ahead + 1)
  {
    var sorted := Sort(ItemOrder(accepted), items);
    SortedWellFormed(accepted, items);
    assert x in sorted;
    var k :| 0 <= k < |sorted| && sorted[k] == x;
    PlaceIsCount(accepted, items, k);
    TopRankAt(sorted, Cut(sorted), k);
  }

  /** Only items are ranked. */
  lemma OnlyItemsRanked(accepted: Accepted, items: seq<Item>, id: string)
    requires UniqueKeys(accepted) && DistinctIds(items) && AllIn(items, accepted)
    requires forall i :: 0 <= i < |items| ==> items[i].id != id
    ensures var sorted := Sort(ItemOrder(accepted), items); id !in TopRanks(sorted, Cut(sorted))
  {
    var sorted := Sort(ItemOrder(accepted), items);
    SortedWellFormed(accepted, items);
    TopRanksBounded(sorted, Cut(sorted));
    forall i | 0 <= i < |sorted| ensures sorted[i].id != id { assert sorted[i] in sorted; }
  }

  // ----- The lexical stage -----

  /** The query and the chunk have a token in common. */
  ghost predicate Meets(question: string, accepted: Accepted, tokenize: string -> seq<string>, id: string)
    requires id in accepted
  {
    exists t :: t in tokenize(question) && t in tokenize(accepted[id].text)
  }

  ghost function Scores(question: string, accepted: Accepted, tokenize: string -> seq<string>, scorer: Scorer): seq<Score> {
    var ids := SortedIds(accepted.Keys);
    scorer(tokenize(question), seq(|ids|, i requires 0 <= i < |ids| => tokenize(accepted[ids[i]].text)))
  }

  ghost predicate Counted(question: string, accepted: Accepted, tokenize: string -> seq<string>, scorer: Scorer) {
    |Scores(question, accepted, tokenize, scorer)| == |SortedIds(accepted.Keys)|
  }

  /** The score at the chunk's place among the sorted ids. */
  ghost function ScoreOf(question: string, accepted: Accepted, tokenize: string -> seq<string>, scorer: Scorer, id: string): real
    requires id in accepted && Counted(question, accepted, tokenize, scorer)
  {
    Scores(question, accepted, tokenize, scorer)[Where(accepted.Keys, id)].Value()
  }

  ghost predicate Competes(question: string, accepted: Accepted, tokenize: string -> seq<string>, scorer: Scorer, id: string)
    requires id in accepted && Counted(question, accepted, tokenize, scorer)
  {
    Meets(question, accepted, tokenize, id) && ScoreOf(question, accepted, tokenize, scorer, id) > 0.0
  }

  /** The competing chunks with a higher score, or the same and a smaller key. */
  ghost function Rivals(question: string, accepted: Accepted, tokenize: string -> seq<string>, scorer: Scorer, id: string): set<string>
    requires id in accepted && Counted(question, accepted, tokenize, scorer)
  {
    var mine := ScoreOf(question, accepted, tokenize, scorer, id);
    set o | o in accepted && Competes(question, accepted, tokenize, scorer, o)
            && (ScoreOf(question, accepted, tokenize, scorer, o) > mine
                || (ScoreOf(question, accepted, tokenize, scorer, o) == mine && KeyLt(Key(accepted[o]), Key(accepted[id]))))
  }

  /** What the stage says of one chunk. */
  ghost predicate RowSays(row: LexicalRow, meets: bool, score: real, rivals: nat) {
    && row.score == score
    && (row.disposition == NoTermMatch <==> !meets)
    && (row.disposition == NonpositiveScore <==> meets && score <= 0.0)
    && (row.disposition == Ranked <==> meets && score > 0.0 && rivals < CANDIDATE_LIMIT)
    && (row.disposition == OutsideTop24 <==> meets && score > 0.0 && rivals >= CANDIDATE_LIMIT)
    && row.rank == if meets && score > 0.0 then Some(rivals + 1) else None
  }

  /** The row of an accepted chunk that says what it should. */
  ghost predicate RightRow(question: string, accepted: Accepted, tokenize: string -> seq<string>, scorer: Scorer, row: LexicalRow)
    requires Counted(question, accepted, tokenize, scorer)
  {
    && row.chunkId in accepted
    && RowSays(row, Meets(question, accepted, tokenize, row.chunkId), ScoreOf(question, accepted, tokenize, scorer, row.chunkId),
               |Rivals(question, accepted, tokenize, scorer, row.chunkId)|)
  }

  ghost predicate Scorable(question: string, accepted: Accepted, tokenize: string -> seq<string>, scorer: Scorer) {
    && UniqueKeys(accepted)
    && Lexical(question, accepted, tokenize, scorer).Done?
    && Counted(question, accepted, tokenize, scorer)
  }

  /** The documents and items of the stage, chunk by chunk. */
  ghost function Zipped(question: string, accepted: Accepted, tokenize: string -> seq<string>, scorer: Scorer): seq<ScoredDoc>
    requires Counted(question, accepted, tokenize, scorer)
  {
    var ids := SortedIds(accepted.Keys);
    Zip(ids, Documents(ids, accepted, tokenize), Scores(question, accepted, tokenize, scorer))
  }

  /** The items of the competing chunks, in id order. */
  ghost function Competitors(question: string, accepted: Accepted, tokenize: string -> seq<string>, scorer: Scorer): seq<Item>
    requires Counted(question, accepted, tokenize, scorer)
  {
    PositiveItems(tokenize(question), Zipped(question, accepted, tokenize, scorer))
  }

  /** The stage fails exactly on a wrong count or a score that is not finite. */
  lemma LexicalFailsExactly(question: string, accepted: Accepted, tokenize: string -> seq<string>, scorer: Scorer)
    ensures var scores := Scores(question, accepted, tokenize, scorer);
      Lexical(question, accepted, tokenize, scorer).Failed? <==>
        |scores| != |SortedIds(accepted.Keys)| || exists i :: 0 <= i < |scores| && scores[i].NonFinite?
  {
    var ids := SortedIds(accepted.Keys);
    assert Documents(ids, accepted, tokenize) == seq(|ids|, i requires 0 <= i < |ids| => tokenize(accepted[ids[i]].text));
    var scores := Scores(question, accepted, tokenize, scorer);
    if i :| 0 <= i < |scores| && scores[i].NonFinite? { assert scores[i] in scores; }
  }

  lemma DocAt(question: string, accepted: Accepted, tokenize: string -> seq<string>, scorer: Scorer, i: nat)
    requires Counted(question, accepted, tokenize, scorer)
    requires i < |SortedIds(accepted.Keys)|
    ensures var d := Zipped(question, accepted, tokenize, scorer)[i];
      && d.id == SortedIds(accepted.Keys)[i] && d.id in accepted
      && d.score.Value() == ScoreOf(question, accepted, tokenize, scorer, d.id)
      && (Positive(tokenize(question), d) <==> Competes(question, accepted, tokenize, scorer, d.id))
      && (TermMatch(tokenize(question), d.doc) <==> Meets(question, accepted, tokenize, d.id))
  {
    WhereAt(accepted.Keys, i);
  }

  /** The list has this item exactly when the chunk competes, and no other for its id. */
  ghost predicate StandsFor(items: seq<Item>, item: Item, competes: bool) {
    (competes <==> item in items) && forall x :: x in items && x.id == item.id ==> x == item
  }

  lemma LexicalItems(question: string, accepted: Accepted, tokenize: string -> seq<string>, scorer: Scorer, id: string,
                     score: real, competes: bool)
    requires id in accepted && Counted(question, accepted, tokenize, scorer)
    requires score == ScoreOf(question, accepted, tokenize, scorer, id)
    requires competes <==> Competes(question, accepted, tokenize, scorer, id)
    ensures StandsFor(Competitors(question, accepted, tokenize, scorer), Item(id, -score), competes)
  {
    var d := DocOfChunk(question, accepted, tokenize, scorer, id);
    ItemsOfZipped(question, accepted, tokenize, scorer, d, score, competes);
  }

  lemma ItemsOfZipped(question: string, accepted: Accepted, tokenize: string -> seq<string>, scorer: Scorer, d: ScoredDoc,
                      score: real, competes: bool)
    requires Counted(question, accepted, tokenize, scorer) && d in Zipped(question, accepted, tokenize, scorer)
    requires DocSays(tokenize(question), d, score, competes)
    ensures StandsFor(Competitors(question, accepted, tokenize, scorer), Item(d.id, -score), competes)
  {
    ZippedDistinct(question, accepted, tokenize, scorer);
    ItemsOfDoc(tokenize(question), Zipped(question, accepted, tokenize, scorer), d, score, competes);
  }

  ghost predicate DocSays(query: seq<string>, d: ScoredDoc, score: real, competes: bool) {
    d.score.Value() == score && (Positive(query, d) <==> competes)
  }

  lemma DocOfChunk(question: string, accepted: Accepted, tokenize: string -> seq<string>, scorer: Scorer, id: string)
    returns (d: ScoredDoc)
    requires id in accepted && Counted(question, accepted, tokenize, scorer)
    ensures d in Zipped(question, accepted, tokenize, scorer) && d.id == id
    ensures DocSays(tokenize(question), d, ScoreOf(question, accepted, tokenize, scorer, id),
                    Competes(question, accepted, tokenize, scorer, id))
  {
    DocAt(question, accepted, tokenize, scorer, Where(accepted.Keys, id));
    d := Zipped(question, accepted, tokenize, scorer)[Where(accepted.Keys, id)];
  }

  lemma ZippedDistinct(question: string, accepted: Accepted, tokenize: string -> seq<string>, scorer: Scorer)
    requires Counted(question, accepted, tokenize, scorer)
    ensures DistinctDocs(Zipped(question, accepted, tokenize, scorer))
  {
    var ids := SortedIds(accepted.Keys);
    ZippedWellFormed(accepted.Keys, Documents(ids, accepted, tokenize), Scores(question, accepted, tokenize, scorer));
  }

  lemma SameDoc(docs: seq<ScoredDoc>, a: ScoredDoc, b: ScoredDoc)
    requires DistinctDocs(docs) && a in docs && b in docs && a.id == b.id
    ensures a == b
  {
  }

  lemma ItemsOfDoc(query: seq<string>, docs: seq<ScoredDoc>, d: ScoredDoc, score: real, competes: bool)
    requires DistinctDocs(docs) && d in docs && DocSays(query, d, score, competes)
    ensures StandsFor(PositiveItems(query, docs), Item(d.id, -score), competes)
  {
    forall x | x in PositiveItems(query, docs) && x.id == d.id ensures x == Item(d.id, -score) && competes {
      var j := PositiveSource(query, docs, x);
      SameDoc(docs, d, docs[j]);
    }
    if competes {
      var i :| 0 <= i < |docs| && docs[i] == d;
      PositiveAt(query, docs, i);
    }
  }

  lemma LexicalItemsWellFormed(question: string, accepted: Accepted, tokenize: string -> seq<string>, scorer: Scorer)
    requires Counted(question, accepted, tokenize, scorer)
    ensures var items := Competitors(question, accepted, tokenize, scorer);
      DistinctIds(items) && AllIn(items, accepted)
  {
    var ids, query := SortedIds(accepted.Keys), tokenize(question);
    var docs, scores := Documents(ids, accepted, tokenize), Scores(question, accepted, tokenize, scorer);
    ZippedWellFormed(accepted.Keys, docs, scores);
    PositiveDistinct(query, Zip(ids, docs, scores));
    PositiveIn(query, Zip(ids, docs, scores), accepted);
  }

  /** The items ahead of a chunk's item are its rivals' items. */
  lemma RivalsAreAhead(question: string, accepted: Accepted, tokenize: string -> seq<string>, scorer: Scorer, id: string)
    requires id in accepted && Counted(question, accepted, tokenize, scorer)
    requires AllIn(Competitors(question, accepted, tokenize, scorer), accepted)
    ensures Ahead(accepted, Competitors(question, accepted, tokenize, scorer),
                  Item(id, -ScoreOf(question, accepted, tokenize, scorer, id)))
         == Rivals(question, accepted, tokenize, scorer, id)
  {
    var items := Competitors(question, accepted, tokenize, scorer);
    var x := Item(id, -ScoreOf(question, accepted, tokenize, scorer, id));
    forall i | 0 <= i < |items|
      ensures IsAhead(accepted, items[i], x) <==> items[i].id in Rivals(question, accepted, tokenize, scorer, id)
    {
      assert items[i] in items;
      LexicalItems(question, accepted, tokenize, scorer, items[i].id, ScoreOf(question, accepted, tokenize, scorer, items[i].id),
                   Competes(question, accepted, tokenize, scorer, items[i].id));
    }
    forall o | o in Rivals(question, accepted, tokenize, scorer, id) ensures o in Ahead(accepted, items, x) {
      LexicalItems(question, accepted, tokenize, scorer, o, ScoreOf(question, accepted, tokenize, scorer, o),
                   Competes(question, accepted, tokenize, scorer, o));
      var i :| 0 <= i < |items| && items[i] == Item(o, -ScoreOf(question, accepted, tokenize, scorer, o));
    }
  }

  /** A chunk is ranked exactly when it meets the query, its score is positive
      and fewer than 24 rivals are ahead; its rank is one more than they are. */
  lemma RankedExactly(question: string, accepted: Accepted, tokenize: string -> seq<string>, scorer: Scorer, id: string)
    requires Scorable(question, accepted, tokenize, scorer) && id in accepted
    ensures var ranked := Lexical(question, accepted, tokenize, scorer).value.ranked;
      var rivals := |Rivals(question, accepted, tokenize, scorer, id)|;
      && (id in ranked <==> Competes(question, accepted, tokenize, scorer, id) && rivals < CANDIDATE_LIMIT)
      && (id in ranked ==> ranked[id] == rivals + 1)
  {
    StageRanks(question, accepted, tokenize, scorer);
    CompetitorRanked(question, accepted, tokenize, scorer, id);
  }

  lemma CompetitorRanked(question: string, accepted: Accepted, tokenize: string -> seq<string>, scorer: Scorer, id: string)
    requires UniqueKeys(accepted) && Counted(question, accepted, tokenize, scorer) && id in accepted
    ensures var sorted := Sort(ItemOrder(accepted), Competitors(question, accepted, tokenize, scorer));
      var ranked, rivals := TopRanks(sorted, Cut(sorted)), |Rivals(question, accepted, tokenize, scorer, id)|;
      && (id in ranked <==> Competes(question, accepted, tokenize, scorer, id) && rivals < CANDIDATE_LIMIT)
      && (id in ranked ==> ranked[id] == rivals + 1)
  {
    var score, competes := ScoreOf(question, accepted, tokenize, scorer, id), Competes(question, accepted, tokenize, scorer, id);
    LexicalItemsWellFormed(question, accepted, tokenize, scorer);
    LexicalItems(question, accepted, tokenize, scorer, id, score, competes);
    RivalsAreAhead(question, accepted, tokenize, scorer, id);
    RankOf(accepted, Competitors(question, accepted, tokenize, scorer), Item(id, -score), competes,
           Rivals(question, accepted, tokenize, scorer, id));
  }

  lemma StageRanks(question: string, accepted: Accepted, tokenize: string -> seq<string>, scorer: Scorer)
    requires Scorable(question, accepted, tokenize, scorer)
    ensures var sorted := Sort(ItemOrder(accepted), Competitors(question, accepted, tokenize, scorer));
      Lexical(question, accepted, tokenize, scorer).value.ranked == TopRanks(sorted, Cut(sorted))
  {
    StageIsZipped(question, accepted, tokenize, scorer);
  }

  lemma RankOf(accepted: Accepted, items: seq<Item>, x: Item, competes: bool, ahead: set<string>)
    requires UniqueKeys(accepted) && DistinctIds(items) && AllIn(items, accepted) && x.id in accepted
    requires StandsFor(items, x, competes) && ahead == Ahead(accepted, items, x)
    ensures var sorted := Sort(ItemOrder(accepted), items); var ranked := TopRanks(sorted, Cut(sorted));
      && (x.id in ranked <==> competes && |ahead| < CANDIDATE_LIMIT)
      && (x.id in ranked ==> ranked[x.id] == |ahead| + 1)
  {
    if competes {
      RankIsCount(accepted, items, x);
    } else {
      forall i | 0 <= i < |items| ensures items[i].id != x.id { assert items[i] in items; }
      OnlyItemsRanked(accepted, items, x.id);
    }
  }

  lemma StageIsZipped(question: string, accepted: Accepted, tokenize: string -> seq<string>, scorer: Scorer)
    requires Scorable(question, accepted, tokenize, scorer)
    ensures var query, docs := tokenize(question), Zipped(question, accepted, tokenize, scorer);
      Lexical(question, accepted, tokenize, scorer).value
        == RankSplit(accepted, UnrankedRows(query, docs), Competitors(question, accepted, tokenize, scorer))
  {
    var ids := SortedIds(accepted.Keys);
    assert Documents(ids, accepted, tokenize) == seq(|ids|, i requires 0 <= i < |ids| => tokenize(accepted[ids[i]].text));
  }

  // ----- One row for each chunk -----

  lemma {:induction false} UnrankedMembers(query: seq<string>, docs: seq<ScoredDoc>, i: nat)
    requires i < |docs| && !Positive(query, docs[i])
    ensures UnrankedRow(query, docs[i]) in UnrankedRows(query, docs)
  {
    var n := |docs| - 1;
    if i < n { UnrankedMembers(query, docs[..n], i); }
  }

  lemma {:induction false} RowsCount(query: seq<string>, docs: seq<ScoredDoc>)
    ensures |UnrankedRows(query, docs)| + |PositiveItems(query, docs)| == |docs|
  {
    if docs != [] { RowsCount(query, docs[..|docs| - 1]); }
  }

  ghost function RowIds(rows: seq<LexicalRow>): seq<string> {
    seq(|rows|, i requires 0 <= i < |rows| => rows[i].chunkId)
  }

  /** The rows before they are put in order. */
  ghost function Unordered(question: string, accepted: Accepted, tokenize: string -> seq<string>, scorer: Scorer): seq<LexicalRow>
    requires Counted(question, accepted, tokenize, scorer)
  {
    var query, docs := tokenize(question), Zipped(question, accepted, tokenize, scorer);
    UnrankedRows(query, docs) + RankedRows(Sort(ItemOrder(accepted), Competitors(question, accepted, tokenize, scorer)))
  }

  lemma UnrankedChunk(question: string, accepted: Accepted, tokenize: string -> seq<string>, scorer: Scorer, id: string)
    returns (row: LexicalRow)
    requires UniqueKeys(accepted) && Counted(question, accepted, tokenize, scorer) && id in accepted
    requires !Competes(question, accepted, tokenize, scorer, id)
    ensures row in Unordered(question, accepted, tokenize, scorer) && row.chunkId == id
    ensures RightRow(question, accepted, tokenize, scorer, row)
  {
    var i := Where(accepted.Keys, id);
    DocAt(question, accepted, tokenize, scorer, i);
    var query, docs := tokenize(question), Zipped(question, accepted, tokenize, scorer);
    UnrankedMembers(query, docs, i);
    row := UnrankedRow(query, docs[i]);
  }

  lemma RankedChunk(question: string, accepted: Accepted, tokenize: string -> seq<string>, scorer: Scorer, id: string)
    returns (row: LexicalRow)
    requires UniqueKeys(accepted) && Counted(question, accepted, tokenize, scorer) && id in accepted
    requires Competes(question, accepted, tokenize, scorer, id)
    ensures row in Unordered(question, accepted, tokenize, scorer) && row.chunkId == id
    ensures RightRow(question, accepted, tokenize, scorer, row)
  {
    var score := ScoreOf(question, accepted, tokenize, scorer, id);
    LexicalItemsWellFormed(question, accepted, tokenize, scorer);
    LexicalItems(question, accepted, tokenize, scorer, id, score, true);
    RivalsAreAhead(question, accepted, tokenize, scorer, id);
    row := RankedAt(accepted, Competitors(question, accepted, tokenize, scorer), id, score,
                    Rivals(question, accepted, tokenize, scorer, id));
    RankedIn(question, accepted, tokenize, scorer, row);
  }

  lemma RankedIn(question: string, accepted: Accepted, tokenize: string -> seq<string>, scorer: Scorer, row: LexicalRow)
    requires Counted(question, accepted, tokenize, scorer)
    requires row in RankedRows(Sort(ItemOrder(accepted), Competitors(question, accepted, tokenize, scorer)))
    ensures row in Unordered(question, accepted, tokenize, scorer)
  {
  }

  lemma RankedAt(accepted: Accepted, items: seq<Item>, id: string, score: real, ahead: set<string>) returns (row: LexicalRow)
    requires UniqueKeys(accepted) && DistinctIds(items) && AllIn(items, accepted) && id in accepted
    requires Item(id, -score) in items && score > 0.0 && ahead == Ahead(accepted, items, Item(id, -score))
    ensures row in RankedRows(Sort(ItemOrder(accepted), items)) && row.chunkId == id
    ensures RowSays(row, true, score, |ahead|)
  {
    RankIsCount(accepted, items, Item(id, -score));
    var sorted, k := Sort(ItemOrder(accepted), items), |ahead|;
    row := RankedRow(sorted, k);
    assert RankedRows(sorted)[k] == row;
  }

  lemma HasRow(question: string, accepted: Accepted, tokenize: string -> seq<string>, scorer: Scorer, id: string)
    requires UniqueKeys(accepted) && Counted(question, accepted, tokenize, scorer) && id in accepted
    ensures id in RowIds(Unordered(question, accepted, tokenize, scorer))
  {
    var row := RowOf(question, accepted, tokenize, scorer, id);
    RowIdIn(Unordered(question, accepted, tokenize, scorer), row);
  }

  lemma RowOf(question: string, accepted: Accepted, tokenize: string -> seq<string>, scorer: Scorer, id: string)
    returns (row: LexicalRow)
    requires UniqueKeys(accepted) && Counted(question, accepted, tokenize, scorer) && id in accepted
    ensures row in Unordered(question, accepted, tokenize, scorer) && row.chunkId == id
    ensures RightRow(question, accepted, tokenize, scorer, row)
  {
    if Competes(question, accepted, tokenize, scorer, id) {
      row := RankedChunk(question, accepted, tokenize, scorer, id);
    } else {
      row := UnrankedChunk(question, accepted, tokenize, scorer, id);
    }
  }

  lemma RowIdIn(rows: seq<LexicalRow>, row: LexicalRow)
    requires row in rows
    ensures row.chunkId in RowIds(rows)
  {
    var i :| 0 <= i < |rows| && rows[i] == row;
    assert RowIds(rows)[i] == row.chunkId;
  }

  lemma UnorderedCount(question: string, accepted: Accepted, tokenize: string -> seq<string>, scorer: Scorer)
    requires UniqueKeys(accepted) && Counted(question, accepted, tokenize, scorer)
    ensures |Unordered(question, accepted, tokenize, scorer)| == |accepted.Keys|
  {
    RowsCount(tokenize(question), Zipped(question, accepted, tokenize, scorer));
    SortElements(ItemOrder(accepted), Competitors(question, accepted, tokenize, scorer));
    SortedIdsCount(accepted.Keys);
  }

  /** As many rows as chunks, so one for each. */
  lemma RowsAreDistinct(question: string, accepted: Accepted, tokenize: string -> seq<string>, scorer: Scorer)
    requires UniqueKeys(accepted) && Counted(question, accepted, tokenize, scorer)
    ensures var ids := RowIds(Unordered(question, accepted, tokenize, scorer));
      AllDistinct(ids) && forall id :: id in ids <==> id in accepted
  {
    var ids := RowIds(Unordered(question, accepted, tokenize, scorer));
    UnorderedCount(question, accepted, tokenize, scorer);
    forall id | id in accepted ensures id in ids { HasRow(question, accepted, tokenize, scorer, id); }
    EnoughMeansDistinct(ids, accepted.Keys);
  }

  lemma {:induction false} SortedIdsCount(ids: set<string>)
    ensures |SortedIds(ids)| == |ids|
    decreases |ids|
  {
    if ids != {} {
      LeastExists(ids);
      LeastUnique(ids);
      var least :| least in ids && IsLeast(ids, least);
      SortedIdsCount(ids - {least});
    }
  }

  lemma EnoughMeansDistinct(ids: seq<string>, all: set<string>)
    requires |ids| == |all| && forall id :: id in all ==> id in ids
    ensures AllDistinct(ids) && forall id :: id in ids <==> id in all
  {
    var found := set id | id in ids;
    CardinalityMeansDistinct(ids);
    assert all <= found;
    CardinalityOfSubset(all, found);
    SubsetOfSameSize(all, found);
    assert forall id :: id in ids <==> id in found;
  }

  lemma {:induction false} CardinalityOfSubset(a: set<string>, b: set<string>)
    requires a <= b
    ensures |a| <= |b|
  {
    assert b == a + (b - a);
  }

  lemma SubsetOfSameSize(a: set<string>, b: set<string>)
    requires a <= b && |b| <= |a|
    ensures a == b
  {
    assert |b| == |a| + |b - a| by { assert b == a + (b - a); }
  }

  /** Every accepted chunk has exactly one row, in stable key order, and the row
      says whether the chunk meets the query, its score, and its rank. */
  lemma LexicalRowsExactly(question: string, accepted: Accepted, tokenize: string -> seq<string>, scorer: Scorer)
    requires Scorable(question, accepted, tokenize, scorer)
    ensures var rows := Lexical(question, accepted, tokenize, scorer).value.rows;
      && |rows| == |accepted| && InKeyOrder(accepted, rows)
      && (forall row :: row in rows ==> RightRow(question, accepted, tokenize, scorer, row))
      && (forall id :: id in accepted ==> exists row :: row in rows && row.chunkId == id)
  {
    var unordered := Unordered(question, accepted, tokenize, scorer);
    StageIsZipped(question, accepted, tokenize, scorer);
    RowsAreDistinct(question, accepted, tokenize, scorer);
    RowsInOrder(accepted, unordered);
    forall row | row in unordered ensures RightRow(question, accepted, tokenize, scorer, row) {
      RowIsRight(question, accepted, tokenize, scorer, row);
    }
    forall id | id in accepted ensures exists row :: row in unordered && row.chunkId == id {
      var k :| 0 <= k < |unordered| && RowIds(unordered)[k] == id;
      assert unordered[k] in unordered;
    }
  }

  ghost predicate InKeyOrder(accepted: Accepted, rows: seq<LexicalRow>) {
    forall i, j :: 0 <= i < j < |rows| ==> KeyLt(KeyOf(accepted, rows[i].chunkId), KeyOf(accepted, rows[j].chunkId))
  }

  lemma RowsInOrder(accepted: Accepted, unordered: seq<LexicalRow>)
    requires UniqueKeys(accepted) && AllDistinct(RowIds(unordered)) && forall id :: id in RowIds(unordered) <==> id in accepted
    ensures var rows := Sort(RowOrder(accepted), unordered);
      && |rows| == |accepted| && InKeyOrder(accepted, rows) && forall row :: row in rows <==> row in unordered
  {
    RowOrderStrict(accepted);
    RowNoTies(accepted, unordered);
    SortSorts(RowOrder(accepted), unordered);
    SortElements(RowOrder(accepted), unordered);
    RowsAreMany(accepted, unordered);
    var lt, rows := RowOrder(accepted), Sort(RowOrder(accepted), unordered);
    assert forall i, j :: 0 <= i < j < |rows| ==> lt(rows[i], rows[j]);
  }

  lemma RowsAreMany(accepted: Accepted, rows: seq<LexicalRow>)
    requires AllDistinct(RowIds(rows)) && forall id :: id in RowIds(rows) <==> id in accepted
    ensures |rows| == |accepted|
  {
    var ids := RowIds(rows);
    CardinalityMeansDistinct(ids);
    assert (set id | id in ids) == accepted.Keys;
    KeysCount(accepted);
  }

  lemma RowOrderStrict(accepted: Accepted)
    ensures StrictOrder(RowOrder(accepted))
  {
    var lt := RowOrder(accepted);
    forall a: LexicalRow ensures !lt(a, a) { KeyLtTotal(KeyOf(accepted, a.chunkId), KeyOf(accepted, a.chunkId)); }
    forall a, b, c | lt(a, b) && lt(b, c) ensures lt(a, c) {
      KeyLtTransitive(KeyOf(accepted, a.chunkId), KeyOf(accepted, b.chunkId), KeyOf(accepted, c.chunkId));
    }
  }

  lemma RowNoTies(accepted: Accepted, rows: seq<LexicalRow>)
    requires UniqueKeys(accepted) && AllDistinct(RowIds(rows)) && forall id :: id in RowIds(rows) ==> id in accepted
    ensures NoTies(RowOrder(accepted), rows)
  {
    var lt, ids := RowOrder(accepted), RowIds(rows);
    forall i, j | 0 <= i < |rows| && 0 <= j < |rows| && i != j ensures lt(rows[i], rows[j]) || lt(rows[j], rows[i]) {
      var lo, hi := if i < j then i else j, if i < j then j else i;
      assert ids[lo] != ids[hi] && ids[lo] in ids && ids[hi] in ids;
      KeyLtTotal(KeyOf(accepted, ids[i]), KeyOf(accepted, ids[j]));
    }
  }

  /** The only row of a chunk is the one found for it. */
  lemma RowIsRight(question: string, accepted: Accepted, tokenize: string -> seq<string>, scorer: Scorer, row: LexicalRow)
    requires UniqueKeys(accepted) && Counted(question, accepted, tokenize, scorer) && row in Unordered(question, accepted, tokenize, scorer)
    ensures RightRow(question, accepted, tokenize, scorer, row)
  {
    var rows := Unordered(question, accepted, tokenize, scorer);
    RowsAreDistinct(question, accepted, tokenize, scorer);
    RowIdIn(rows, row);
    var other := RowOf(question, accepted, tokenize, scorer, row.chunkId);
    SameIdSameRow(rows, row, other);
  }

  lemma SameIdSameRow(rows: seq<LexicalRow>, a: LexicalRow, b: LexicalRow)
    requires AllDistinct(RowIds(rows)) && a in rows && b in rows && a.chunkId == b.chunkId
    ensures a == b
  {
    var ids := RowIds(rows);
    var i :| 0 <= i < |rows| && rows[i] == a;
    var j :| 0 <= j < |rows| && rows[j] == b;
    assert ids[i] == a.chunkId && ids[j] == b.chunkId;
  }

  // ----- The semantic stage -----

  /** Valid distances are within rounding of [0, 2], and the clamp only takes the rounding away. */
  lemma ClampExactly(d: Score)
    requires ValidDistance(d)
    ensures 0.0 <= Clamp(d.value) <= 2.0
    ensures 0.0 <= d.value <= 2.0 ==> Clamp(d.value) == d.value
    ensures -DISTANCE_EPSILON <= Clamp(d.value) - d.value <= DISTANCE_EPSILON
  {
  }

  ghost predicate WithinRounding(d: real, exact: real) {
    0.0 <= exact <= 2.0 && exact - DISTANCE_EPSILON <= d <= exact + DISTANCE_EPSILON
  }

  /** A distance is valid when it is within rounding of a cosine distance. */
  lemma ValidDistanceExactly(d: Score)
    ensures ValidDistance(d) <==> d.Finite? && exists exact :: WithinRounding(d.value, exact)
  {
    if ValidDistance(d) { assert WithinRounding(d.value, Clamp(d.value)); }
  }

  /** A smaller distance, or the same and a smaller key. */
  ghost predicate IsNearer(accepted: Accepted, matches: Matches, j: nat, i: nat)
    requires |matches.ids| == |matches.distances| && i < |matches.ids| && j < |matches.ids|
    requires matches.ids[i] in accepted && matches.ids[j] in accepted
  {
    var d, e := Clamp(matches.distances[j].Value()), Clamp(matches.distances[i].Value());
    d < e || (d == e && KeyLt(Key(accepted[matches.ids[j]]), Key(accepted[matches.ids[i]])))
  }

  ghost function Nearer(accepted: Accepted, matches: Matches, i: nat): set<string>
    requires |matches.ids| == |matches.distances| && i < |matches.ids|
    requires forall j :: 0 <= j < |matches.ids| ==> matches.ids[j] in accepted
  {
    set j | 0 <= j < |matches.ids| && IsNearer(accepted, matches, j, i) :: matches.ids[j]
  }

  /** The semantic rank of a chunk is one more than the number of nearer ones,
      and ranks past 24 are cut. */
  lemma SemanticRankedExactly(accepted: Accepted, matches: Matches, i: nat)
    requires UniqueKeys(accepted) && MatchesAccepted(matches, accepted) && i < |matches.ids|
    ensures forall j :: 0 <= j < |matches.ids| ==> matches.ids[j] in accepted
    ensures var nearer := |Nearer(accepted, matches, i)|; var ranked := Semantic(accepted, matches).value.ranked;
      && (matches.ids[i] in ranked <==> nearer < CANDIDATE_LIMIT)
      && (nearer < CANDIDATE_LIMIT ==> ranked[matches.ids[i]] == nearer + 1)
  {
    var items := DistanceItems(matches);
    MatchesWellFormed(accepted, matches);
    forall j | 0 <= j < |matches.ids| ensures matches.ids[j] in accepted { assert items[j].id in accepted; }
    assert items[i] in items;
    RankIsCount(accepted, items, items[i]);
    NearerAreAhead(accepted, matches, i);
  }

  lemma NearerAreAhead(accepted: Accepted, matches: Matches, i: nat)
    requires |matches.ids| == |matches.distances| && i < |matches.ids|
    requires forall j :: 0 <= j < |matches.ids| ==> matches.ids[j] in accepted
    requires AllIn(DistanceItems(matches), accepted)
    ensures Ahead(accepted, DistanceItems(matches), DistanceItems(matches)[i]) == Nearer(accepted, matches, i)
  {
    var items := DistanceItems(matches);
    forall j | 0 <= j < |items| ensures IsAhead(accepted, items[j], items[i]) <==> IsNearer(accepted, matches, j, i) {}
    forall id | id in Nearer(accepted, matches, i) ensures id in Ahead(accepted, items, items[i]) {
      var j :| 0 <= j < |matches.ids| && IsNearer(accepted, matches, j, i) && matches.ids[j] == id;
      assert IsAhead(accepted, items[j], items[i]);
    }
    forall id | id in Ahead(accepted, items, items[i]) ensures id in Nearer(accepted, matches, i) {
      var j :| 0 <= j < |items| && IsAhead(accepted, items[j], items[i]) && items[j].id == id;
      assert IsNearer(accepted, matches, j, i);
    }
  }

  /** Every match has its row: rank, clamped distance, similarity, and whether it
      is within the cut; there is one row for each chunk, in stable key order. */
  lemma SemanticRowsExactly(accepted: Accepted, matches: Matches)
    requires UniqueKeys(accepted) && MatchesAccepted(matches, accepted)
    ensures forall j :: 0 <= j < |matches.ids| ==> matches.ids[j] in accepted
    ensures var rows := Semantic(accepted, matches).value.rows;
      && |rows| == |accepted|
      && (forall i, j :: 0 <= i < j < |rows| ==> KeyLt(KeyOf(accepted, rows[i].chunkId), KeyOf(accepted, rows[j].chunkId)))
      && (forall i :: 0 <= i < |matches.ids| ==> MatchRow(accepted, matches, i) in rows)
  {
    var items := DistanceItems(matches);
    MatchesWellFormed(accepted, matches);
    forall j | 0 <= j < |matches.ids| ensures matches.ids[j] in accepted { assert items[j].id in accepted; }
    SortedWellFormed(accepted, items);
    SemanticInOrder(accepted, Sort(ItemOrder(accepted), items));
    SortElements(SemanticRowOrder(accepted), SemanticRows(Sort(ItemOrder(accepted), items)));
    forall i | 0 <= i < |matches.ids|
      ensures MatchRow(accepted, matches, i) in SemanticRows(Sort(ItemOrder(accepted), items))
    {
      MatchRowIn(accepted, matches, i);
    }
  }

  ghost function MatchRow(accepted: Accepted, matches: Matches, i: nat): SemanticRow
    requires |matches.ids| == |matches.distances| && i < |matches.ids|
    requires forall j :: 0 <= j < |matches.ids| ==> matches.ids[j] in accepted
  {
    var d, nearer := Clamp(matches.distances[i].Value()), |Nearer(accepted, matches, i)|;
    SemanticRow(matches.ids[i], nearer + 1, d, 1.0 - d, nearer < CANDIDATE_LIMIT)
  }

  lemma MatchRowIn(accepted: Accepted, matches: Matches, i: nat)
    requires UniqueKeys(accepted) && MatchesAccepted(matches, accepted) && i < |matches.ids|
    requires forall j :: 0 <= j < |matches.ids| ==> matches.ids[j] in accepted
    ensures MatchRow(accepted, matches, i) in SemanticRows(Sort(ItemOrder(accepted), DistanceItems(matches)))
  {
    var items := DistanceItems(matches);
    MatchesWellFormed(accepted, matches);
    assert items[i] in items;
    RankIsCount(accepted, items, items[i]);
    NearerAreAhead(accepted, matches, i);
    assert SemanticRows(Sort(ItemOrder(accepted), items))[|Nearer(accepted, matches, i)|] == MatchRow(accepted, matches, i);
  }

  lemma SemanticInOrder(accepted: Accepted, items: seq<Item>)
    requires UniqueKeys(accepted) && DistinctIds(items) && AllIn(items, accepted)
    ensures var rows := Sort(SemanticRowOrder(accepted), SemanticRows(items));
      forall i, j :: 0 <= i < j < |rows| ==> KeyLt(KeyOf(accepted, rows[i].chunkId), KeyOf(accepted, rows[j].chunkId))
  {
    var lt, rows := SemanticRowOrder(accepted), SemanticRows(items);
    forall a: SemanticRow ensures !lt(a, a) { KeyLtTotal(KeyOf(accepted, a.chunkId), KeyOf(accepted, a.chunkId)); }
    forall a, b, c | lt(a, b) && lt(b, c) ensures lt(a, c) {
      KeyLtTransitive(KeyOf(accepted, a.chunkId), KeyOf(accepted, b.chunkId), KeyOf(accepted, c.chunkId));
    }
    forall i, j | 0 <= i < |rows| && 0 <= j < |rows| && i != j ensures lt(rows[i], rows[j]) || lt(rows[j], rows[i]) {
      assert items[if i < j then i else j].id != items[if i < j then j else i].id;
      KeyLtTotal(KeyOf(accepted, items[i].id), KeyOf(accepted, items[j].id));
    }
    SortSorts(lt, rows);
    var sorted := Sort(lt, rows);
    assert forall i, j :: 0 <= i < j < |sorted| ==> lt(sorted[i], sorted[j]);
  }
}
