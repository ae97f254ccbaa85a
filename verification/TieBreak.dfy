/** The documented tie break of `application/query.py`, on the chunk id, and
    exactly when the sorts by the stable key agree with it. */
module TieBreak {
  import opened Ordering
  import opened Retrieval

  /** Primary key, then chunk id. */
  predicate ByIdLt(a: Item, b: Item) {
    a.primary < b.primary || (a.primary == b.primary && StrLt(a.id, b.id))
  }

  /** Among items with one primary key, ids are ordered as stable keys are. */
  ghost predicate IdsFollowKeys(accepted: Accepted, items: seq<Item>) {
    forall a, b :: a in items && b in items && a.primary == b.primary
      ==> (KeyLt(KeyOf(accepted, a.id), KeyOf(accepted, b.id)) <==> StrLt(a.id, b.id))
  }

  lemma ByIdStrict()
    ensures StrictOrder(ByIdLt)
  {
    forall a ensures !ByIdLt(a, a) {
      StrLtTotal(a.id, a.id);
    }
    forall a, b, c | ByIdLt(a, b) && ByIdLt(b, c) ensures ByIdLt(a, c) {
      if a.primary == c.primary { StrLtTransitive(a.id, b.id, c.id); }
    }
  }

  lemma ByIdNoTies(items: seq<Item>)
    requires DistinctIds(items)
    ensures NoTies(ByIdLt, items)
  {
    forall i, j | 0 <= i < |items| && 0 <= j < |items| && i != j
      ensures ByIdLt(items[i], items[j]) || ByIdLt(items[j], items[i])
    {
      StrLtTotal(items[i].id, items[j].id);
      var lo, hi := if i < j then i else j, if i < j then j else i;
      assert items[lo].id != items[hi].id;
    }
  }

  lemma OrdersAgreeExactly(accepted: Accepted, items: seq<Item>)
    ensures SameOrder(ItemOrder(accepted), ByIdLt, items) <==> IdsFollowKeys(accepted, items)
  {
    var lt := ItemOrder(accepted);
    if SameOrder(lt, ByIdLt, items) {
      forall a, b | a in items && b in items && a.primary == b.primary
        ensures KeyLt(KeyOf(accepted, a.id), KeyOf(accepted, b.id)) <==> StrLt(a.id, b.id)
      {
        assert lt(a, b) <==> ByIdLt(a, b);
      }
    }
  }

  /** The stable sort is the documented sort exactly when, among tied items, ids
      are ordered as stable keys are. */
  lemma SortsAgreeExactly(accepted: Accepted, items: seq<Item>)
    requires UniqueKeys(accepted) && DistinctIds(items) && AllIn(items, accepted)
    ensures Sort(ItemOrder(accepted), items) == Sort(ByIdLt, items) <==> IdsFollowKeys(accepted, items)
  {
    ItemOrderStrict(accepted);
    ItemNoTies(accepted, items);
    ByIdStrict();
    ByIdNoTies(items);
    SortsEqualExactly(ItemOrder(accepted), ByIdLt, items);
    OrdersAgreeExactly(accepted, items);
  }

  /** The fused order is the documented one exactly when ids follow keys among
      chunks with equal scores. */
  lemma FusedAsDocumentedExactly(lexical: map<string, nat>, semantic: map<string, nat>, accepted: Accepted)
    requires UniqueKeys(accepted) && lexical.Keys + semantic.Keys <= accepted.Keys
    ensures FusedOrder(lexical, semantic, accepted) == Sort(ByIdLt, FusionItems(lexical, semantic))
       <==> IdsFollowKeys(accepted, FusionItems(lexical, semantic))
  {
    FusionItemsDistinct(lexical, semantic);
    forall i | 0 <= i < |FusionItems(lexical, semantic)| ensures FusionItems(lexical, semantic)[i].id in accepted {
      FusionItemsMembers(lexical, semantic, FusionItems(lexical, semantic)[i]);
    }
    SortsAgreeExactly(accepted, FusionItems(lexical, semantic));
  }

  // ----- Two accepted chunks whose ids and keys disagree -----

  /** The chunks `x` and `y` are the accepted ones, `x` first by id and `y` first by key. */
  ghost predicate IdAgainstKey(accepted: Accepted, x: string, y: string) {
    accepted.Keys == {x, y} && StrLt(x, y) && KeyLt(KeyOf(accepted, y), KeyOf(accepted, x))
  }

  lemma PairIsUnique(accepted: Accepted, x: string, y: string)
    requires IdAgainstKey(accepted, x, y)
    ensures x != y && UniqueKeys(accepted) && !KeyLt(KeyOf(accepted, x), KeyOf(accepted, y))
  {
    StrLtTotal(x, x);
    KeyLtTotal(KeyOf(accepted, x), KeyOf(accepted, x));
    KeyLtOnce(KeyOf(accepted, x), KeyOf(accepted, y));
  }

  lemma PairOfIds(ids: set<string>, x: string, y: string)
    requires ids == {x, y} && StrLt(x, y)
    ensures SortedIds(ids) == [x, y]
  {
    StrLtTotal(x, y);
    StrLtTotal(x, x);
    var sorted := SortedIds(ids);
    SortedIdsLength(ids);
    assert |ids| == 2;
    assert sorted[0] in sorted && sorted[1] in sorted && StrLt(sorted[0], sorted[1]);
    StrLtTotal(sorted[0], sorted[1]);
    StrLtTotal(sorted[0], sorted[0]);
  }

  lemma {:induction false} SortedIdsLength(ids: set<string>)
    ensures |SortedIds(ids)| == |ids|
    decreases |ids|
  {
    if ids != {} {
      LeastExists(ids);
      LeastUnique(ids);
      var least :| least in ids && IsLeast(ids, least);
      SortedIdsLength(ids - {least});
    }
  }

  /** Two items and the ranks their sort gives. */
  lemma PairRanks(accepted: Accepted, a: Item, b: Item)
    requires a.id != b.id
    ensures var items := Sort(ItemOrder(accepted), [a, b]);
      |items| == 2 && TopRanks(items, Cut(items))
        == if ItemOrder(accepted)(b, a) then map[b.id := 1, a.id := 2] else map[a.id := 1, b.id := 2]
  {
    var lt := ItemOrder(accepted);
    assert [a, b][..1] == [a] && [a][..0] == [];
    assert Sort(lt, [a]) == [a];
    assert Insert(lt, [], b) == [b];
    assert Sort(lt, [a, b]) == if lt(b, a) then [b, a] else [a, b];
    var items := Sort(lt, [a, b]);
    assert TopRanks(items, 0) == map[];
    assert TopRanks(items, 1) == map[items[0].id := 1];
  }

  /** Two chunks that both match the query, with positive scores `p` and `q`. */
  ghost predicate BothScored(question: string, accepted: Accepted, tokenize: string -> seq<string>, scorer: Scorer,
                             x: string, y: string, p: real, q: real)
    requires x in accepted && y in accepted
  {
    var query, first, second := tokenize(question), tokenize(accepted[x].text), tokenize(accepted[y].text);
    && TermMatch(query, first) && TermMatch(query, second) && p > 0.0 && q > 0.0
    && scorer(query, [first, second]) == [Finite(p), Finite(q)]
  }

  /** Any two positive scores arise: one common term, and a scorer that returns them. */
  lemma ScoresArise(accepted: Accepted, x: string, y: string, p: real, q: real)
    requires x in accepted && y in accepted && p > 0.0 && q > 0.0
    ensures BothScored("term", accepted, (text: string) => ["term"],
                       (query: seq<string>, docs: seq<seq<string>>) => [Finite(p), Finite(q)], x, y, p, q)
  {
    assert "term" in ["term"];
  }

  lemma PairOfItems(query: seq<string>, a: ScoredDoc, b: ScoredDoc)
    requires Positive(query, a) && Positive(query, b)
    ensures PositiveItems(query, [a, b]) == [Item(a.id, -a.score.Value()), Item(b.id, -b.score.Value())]
  {
    assert [a, b][..1] == [a] && [a][..0] == [];
    assert PositiveItems(query, []) == [];
    assert PositiveItems(query, [a]) == [Item(a.id, -a.score.Value())];
  }

  lemma LexicalPair(question: string, accepted: Accepted, tokenize: string -> seq<string>, scorer: Scorer,
                    x: string, y: string, p: real, q: real)
    requires IdAgainstKey(accepted, x, y) && BothScored(question, accepted, tokenize, scorer, x, y, p, q)
    ensures var stage := Lexical(question, accepted, tokenize, scorer);
      stage.Done? && stage.value.ranked == if q >= p then map[y := 1, x := 2] else map[x := 1, y := 2]
  {
    PairIsUnique(accepted, x, y);
    PairOfIds(accepted.Keys, x, y);
    var ids := SortedIds(accepted.Keys);
    var query, first, second := tokenize(question), tokenize(accepted[x].text), tokenize(accepted[y].text);
    assert Documents(ids, accepted, tokenize) == [first, second];
    var a, b := ScoredDoc(x, first, Finite(p)), ScoredDoc(y, second, Finite(q));
    assert Zip(ids, [first, second], [Finite(p), Finite(q)]) == [a, b];
    PairOfItems(query, a, b);
    PairRanks(accepted, Item(x, -p), Item(y, -q));
  }

  lemma SemanticPair(accepted: Accepted, x: string, y: string, d: real, e: real)
    requires IdAgainstKey(accepted, x, y) && 0.0 <= d <= 2.0 && 0.0 <= e <= 2.0
    ensures var stage := Semantic(accepted, Matches([x, y], [Finite(d), Finite(e)]));
      stage.Done? && stage.value.ranked == if e <= d then map[y := 1, x := 2] else map[x := 1, y := 2]
  {
    PairIsUnique(accepted, x, y);
    var matches := Matches([x, y], [Finite(d), Finite(e)]);
    assert (set id | id in matches.ids) == {x, y};
    assert |{x, y}| == 2 && |accepted| == |accepted.Keys|;
    assert MatchesAccepted(matches, accepted);
    assert DistanceItems(matches) == [Item(x, d), Item(y, e)];
    PairRanks(accepted, Item(x, d), Item(y, e));
  }

  /** The lexical stage on two chunks with one score: the documented tie break
      ranks the smaller id first, the stage ranks the smaller key first. */
  lemma LexicalTieGoesToTheKey(question: string, accepted: Accepted, tokenize: string -> seq<string>, scorer: Scorer,
                               x: string, y: string, p: real)
    requires IdAgainstKey(accepted, x, y) && BothScored(question, accepted, tokenize, scorer, x, y, p, p)
    ensures var stage := Lexical(question, accepted, tokenize, scorer);
      stage.Done? && stage.value.ranked == map[y := 1, x := 2]
    ensures Sort(ByIdLt, [Item(x, -p), Item(y, -p)]) == [Item(x, -p), Item(y, -p)]
  {
    LexicalPair(question, accepted, tokenize, scorer, x, y, p, p);
    SmallerIdFirst(Item(x, -p), Item(y, -p));
  }

  lemma SmallerIdFirst(a: Item, b: Item)
    requires a.primary == b.primary && StrLt(a.id, b.id)
    ensures Sort(ByIdLt, [a, b]) == [a, b]
  {
    StrLtTotal(a.id, b.id);
    assert [a, b][..1] == [a] && [a][..0] == [];
    assert Sort(ByIdLt, []) == [];
    assert Sort(ByIdLt, [a]) == [a];
  }

  /** A whole retrieval: the lexical stage prefers `x`, the semantic stage `y`,
      the fused scores tie, and the fused order is not the documented one. */
  lemma FusedTieGoesToTheKey(question: string, accepted: Accepted, tokenize: string -> seq<string>, scorer: Scorer,
                             x: string, y: string, p: real, q: real, d: real, e: real)
    requires IdAgainstKey(accepted, x, y) && BothScored(question, accepted, tokenize, scorer, x, y, p, q)
    requires q < p && 0.0 <= e < d <= 2.0
    ensures var lexical := Lexical(question, accepted, tokenize, scorer);
      var semantic := Semantic(accepted, Matches([x, y], [Finite(d), Finite(e)]));
      && lexical.Done? && semantic.Done?
      && FusedOrder(lexical.value.ranked, semantic.value.ranked, accepted)
           != Sort(ByIdLt, FusionItems(lexical.value.ranked, semantic.value.ranked))
  {
    LexicalPair(question, accepted, tokenize, scorer, x, y, p, q);
    SemanticPair(accepted, x, y, d, e);
    CrossedRanksTie(accepted, x, y);
  }

  lemma CrossedRanksTie(accepted: Accepted, x: string, y: string)
    requires IdAgainstKey(accepted, x, y)
    ensures var lexical, semantic := map[x := 1, y := 2], map[y := 1, x := 2];
      FusedOrder(lexical, semantic, accepted) != Sort(ByIdLt, FusionItems(lexical, semantic))
  {
    PairIsUnique(accepted, x, y);
    var lexical, semantic := map[x := 1, y := 2], map[y := 1, x := 2];
    var a, b := FusionItem(lexical, semantic, x), FusionItem(lexical, semantic, y);
    FusionItemsMembers(lexical, semantic, a);
    FusionItemsMembers(lexical, semantic, b);
    assert a.primary == b.primary;
    assert !IdsFollowKeys(accepted, FusionItems(lexical, semantic));
    FusedAsDocumentedExactly(lexical, semantic, accepted);
  }

  lemma KeyLtOnce(a: StableKey, b: StableKey)
    ensures !(KeyLt(a, b) && KeyLt(b, a))
  {
    KeyLtTotal(a, a);
    if KeyLt(a, b) && KeyLt(b, a) { KeyLtTransitive(a, b, a); }
  }

  /** Such a pair: the smaller id belongs to the later record. */
  lemma IdsAgainstKeys()
    ensures IdAgainstKey(map["ch_1" := Chunk("ch_1", "R2", "", "", 0, "", []), "ch_2" := Chunk("ch_2", "R1", "", "", 0, "", [])],
                         "ch_1", "ch_2")
  {
    IdsInOrder();
    var accepted := map["ch_1" := Chunk("ch_1", "R2", "", "", 0, "", []), "ch_2" := Chunk("ch_2", "R1", "", "", 0, "", [])];
    assert accepted.Keys == {"ch_1", "ch_2"};
  }

  lemma IdsInOrder()
    ensures StrLt("ch_1", "ch_2") && StrLt("R1", "R2") && !StrLt("R2", "R1") && "ch_1" != "ch_2" && "R1" != "R2"
  {
    assert "ch_1"[1..] == "h_1" && "ch_2"[1..] == "h_2";
    assert "h_1"[1..] == "_1" && "h_2"[1..] == "_2";
    assert "_1"[1..] == "1" && "_2"[1..] == "2";
    assert "R1"[1..] == "1" && "R2"[1..] == "2";
  }
}
