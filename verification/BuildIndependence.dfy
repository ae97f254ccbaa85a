/** Two builds of one corpus differ only in chunk ids. Retrieval hands the
    model the same evidence in the same order under both. */
module BuildIndependence {
  import opened Options
  import opened Ordering
  import opened Retrieval
  import Diversity
  import DiversityLaws

  type Renaming = map<string, string>

  ghost predicate Injective(phi: Renaming) {
    forall x, y :: x in phi && y in phi && phi[x] == phi[y] ==> x == y
  }

  /** Build B is build A with every chunk id renamed and nothing else changed. */
  ghost predicate Renames(phi: Renaming, a: Accepted, b: Accepted) {
    && phi.Keys == a.Keys
    && Injective(phi)
    && (forall id :: id in a ==> phi[id] in b && b[phi[id]] == a[id].(chunkId := phi[id]))
    && (forall id' :: id' in b ==> exists id :: id in phi && phi[id] == id')
  }

  lemma KeysFollow(phi: Renaming, a: Accepted, b: Accepted)
    requires Renames(phi, a, b)
    ensures forall id :: id in a ==> KeyOf(b, phi[id]) == KeyOf(a, id)
    ensures UniqueKeys(a) ==> UniqueKeys(b)
  {
    if UniqueKeys(a) {
      forall x', y' | x' in b && y' in b && x' != y' ensures Key(b[x']) != Key(b[y']) {
        var x :| x in phi && phi[x] == x';
        var y :| y in phi && phi[y] == y';
        assert Key(a[x]) != Key(a[y]);
      }
    }
  }

  // ----- Ranked lists -----

  function RenameItem(phi: Renaming, item: Item): Item {
    if item.id in phi then Item(phi[item.id], item.primary) else item
  }

  function RenameItems(phi: Renaming, items: seq<Item>): seq<Item> {
    seq(|items|, i requires 0 <= i < |items| => RenameItem(phi, items[i]))
  }

  /** The two lists hold the same items up to the renaming, in any order. */
  ghost predicate SameItems(phi: Renaming, xs: seq<Item>, ys: seq<Item>) {
    && (forall x :: x in xs ==> RenameItem(phi, x) in ys)
    && (forall y :: y in ys ==> exists x :: x in xs && RenameItem(phi, x) == y)
  }

  /** A renamed strictly sorted list is strictly sorted in the other build. */
  lemma RenamedStaysSorted(phi: Renaming, a: Accepted, b: Accepted, xs: seq<Item>)
    requires Renames(phi, a, b) && AllIn(xs, a)
    requires StrictlySorted(ItemOrder(a), xs)
    ensures StrictlySorted(ItemOrder(b), RenameItems(phi, xs))
  {
    KeysFollow(phi, a, b);
    var ys := RenameItems(phi, xs);
    forall i, j | 0 <= i < j < |ys| ensures ItemOrder(b)(ys[i], ys[j]) {
      assert ItemOrder(a)(xs[i], xs[j]);
      assert xs[i].id in a && xs[j].id in a;
    }
  }

  /** Sorting forgets the order the lists arrived in, so it commutes with renaming. */
  lemma SortFollows(phi: Renaming, a: Accepted, b: Accepted, xs: seq<Item>, ys: seq<Item>)
    requires Renames(phi, a, b) && UniqueKeys(a)
    requires DistinctIds(xs) && AllIn(xs, a) && DistinctIds(ys) && AllIn(ys, b)
    requires SameItems(phi, xs, ys)
    ensures Sort(ItemOrder(b), ys) == RenameItems(phi, Sort(ItemOrder(a), xs))
    ensures AllIn(Sort(ItemOrder(a), xs), a)
  {
    KeysFollow(phi, a, b);
    SortedItems(a, xs);
    SortedItems(b, ys);
    var sa, sb := Sort(ItemOrder(a), xs), Sort(ItemOrder(b), ys);
    forall i | 0 <= i < |sa| ensures sa[i].id in a { assert sa[i] in sa; ItemIn(xs, a, sa[i]); }
    RenamedStaysSorted(phi, a, b, sa);
    var renamed := RenameItems(phi, sa);
    forall y ensures y in sb <==> y in renamed { SameMember(phi, xs, ys, sa, sb, y); }
    ItemOrderStrict(b);
    SortedUnique(ItemOrder(b), sb, renamed);
  }

  lemma ItemIn(xs: seq<Item>, a: Accepted, x: Item)
    requires AllIn(xs, a) && x in xs
    ensures x.id in a
  {
  }

  lemma SortedItems(a: Accepted, xs: seq<Item>)
    requires UniqueKeys(a) && DistinctIds(xs) && AllIn(xs, a)
    ensures StrictlySorted(ItemOrder(a), Sort(ItemOrder(a), xs))
    ensures forall x :: x in Sort(ItemOrder(a), xs) <==> x in xs
  {
    ItemOrderStrict(a);
    ItemNoTies(a, xs);
    SortSorts(ItemOrder(a), xs);
    SortElements(ItemOrder(a), xs);
  }

  lemma SameMember(phi: Renaming, xs: seq<Item>, ys: seq<Item>, sa: seq<Item>, sb: seq<Item>, y: Item)
    requires SameItems(phi, xs, ys)
    requires forall x :: x in sa <==> x in xs
    requires forall z :: z in sb <==> z in ys
    ensures y in sb <==> y in RenameItems(phi, sa)
  {
    var renamed := RenameItems(phi, sa);
    if y in sb {
      var x :| x in xs && RenameItem(phi, x) == y;
      var i :| 0 <= i < |sa| && sa[i] == x;
      assert renamed[i] == y;
    }
    if y in renamed {
      var i :| 0 <= i < |renamed| && renamed[i] == y;
      assert sa[i] in xs;
    }
  }

  // ----- Rank dictionaries -----

  ghost predicate SameRanks(phi: Renaming, ra: map<string, nat>, rb: map<string, nat>) {
    && (forall id :: id in ra ==> id in phi && phi[id] in rb && rb[phi[id]] == ra[id])
    && (forall id' :: id' in rb ==> exists id :: id in ra && id in phi && phi[id] == id')
  }

  lemma {:induction false} TopRanksFollow(phi: Renaming, xs: seq<Item>, ys: seq<Item>, k: nat)
    requires Injective(phi) && k <= |xs| && ys == RenameItems(phi, xs)
    requires forall i :: 0 <= i < |xs| ==> xs[i].id in phi
    ensures SameRanks(phi, TopRanks(xs, k), TopRanks(ys, k))
  {
    if k > 0 {
      TopRanksFollow(phi, xs, ys, k - 1);
      assert ys[k - 1].id == phi[xs[k - 1].id];
      RanksExtend(phi, TopRanks(xs, k - 1), TopRanks(ys, k - 1), xs[k - 1].id, k);
    }
  }

  lemma RanksExtend(phi: Renaming, ra: map<string, nat>, rb: map<string, nat>, id: string, rank: nat)
    requires SameRanks(phi, ra, rb) && id in phi && Injective(phi)
    ensures SameRanks(phi, ra[id := rank], rb[phi[id] := rank])
  {
    var ra', rb' := ra[id := rank], rb[phi[id] := rank];
    forall id' | id' in rb' ensures exists x :: x in ra' && x in phi && phi[x] == id' {
      if id' == phi[id] {
        assert id in ra';
      } else {
        var x :| x in ra && x in phi && phi[x] == id';
        assert x in ra';
      }
    }
  }

  // ----- The lexical stage -----

  /** A permutation, given with its inverse: `p` moves `xs` to `ys`, `q` back. */
  ghost predicate Permutes<T>(p: seq<nat>, q: seq<nat>, xs: seq<T>, ys: seq<T>) {
    && |p| == |xs| && |q| == |ys|
    && (forall i :: 0 <= i < |p| ==> p[i] < |q| && q[p[i]] == i && ys[p[i]] == xs[i])
    && (forall j :: 0 <= j < |q| ==> q[j] < |p| && p[q[j]] == j && xs[q[j]] == ys[j])
  }

  /** Scores that follow a permutation of their documents; a wrong count stays wrong. */
  ghost predicate ScoresFollow(p: seq<nat>, q: seq<nat>, s: seq<Score>, t: seq<Score>) {
    && (|s| == |p| <==> |t| == |q|)
    && (|s| == |p| ==> Permutes(p, q, s, t))
  }

  /** The contract on the BM25 scorer: permuting documents permutes scores. */
  ghost predicate PositionFree(scorer: Scorer) {
    forall query, xs, ys, p, q :: Permutes(p, q, xs, ys) ==> ScoresFollow(p, q, scorer(query, xs), scorer(query, ys))
  }

  lemma SortedIdsDistinct(ids: set<string>, i: nat, j: nat)
    requires i < j < |SortedIds(ids)|
    ensures SortedIds(ids)[i] != SortedIds(ids)[j]
  {
    var r := SortedIds(ids);
    assert StrLt(r[i], r[j]);
    StrLtTotal(r[i], r[j]);
  }

  ghost function Where(ids: set<string>, id: string): (i: nat)
    requires id in ids
    ensures i < |SortedIds(ids)| && SortedIds(ids)[i] == id
  {
    assert id in SortedIds(ids);
    var i :| 0 <= i < |SortedIds(ids)| && SortedIds(ids)[i] == id;
    i
  }

  lemma WhereAt(ids: set<string>, i: nat)
    requires i < |SortedIds(ids)|
    ensures SortedIds(ids)[i] in ids && Where(ids, SortedIds(ids)[i]) == i
  {
    assert SortedIds(ids)[i] in SortedIds(ids);
    var j := Where(ids, SortedIds(ids)[i]);
    if i < j { SortedIdsDistinct(ids, i, j); }
    if j < i { SortedIdsDistinct(ids, j, i); }
  }

  ghost function Back(phi: Renaming, id': string): (id: string)
    requires exists id :: id in phi && phi[id] == id'
    ensures id in phi && phi[id] == id'
  {
    var id :| id in phi && phi[id] == id';
    id
  }

  /** Where each chunk of A stands in the chunk id order of B, and back. */
  ghost function Forth(phi: Renaming, a: Accepted, b: Accepted): (p: seq<nat>)
    requires Renames(phi, a, b)
    ensures |p| == |SortedIds(a.Keys)|
    ensures forall i :: 0 <= i < |p| ==>
      && SortedIds(a.Keys)[i] in a
      && p[i] < |SortedIds(b.Keys)| && SortedIds(b.Keys)[p[i]] == phi[SortedIds(a.Keys)[i]]
  {
    seq(|SortedIds(a.Keys)|, i requires 0 <= i < |SortedIds(a.Keys)| =>
      WhereAt(a.Keys, i); Where(b.Keys, phi[SortedIds(a.Keys)[i]]))
  }

  ghost function Home(phi: Renaming, a: Accepted, b: Accepted): (q: seq<nat>)
    requires Renames(phi, a, b)
    ensures |q| == |SortedIds(b.Keys)|
    ensures forall j :: 0 <= j < |q| ==>
      && SortedIds(b.Keys)[j] in b
      && q[j] < |SortedIds(a.Keys)| && SortedIds(a.Keys)[q[j]] in a && phi[SortedIds(a.Keys)[q[j]]] == SortedIds(b.Keys)[j]
  {
    seq(|SortedIds(b.Keys)|, j requires 0 <= j < |SortedIds(b.Keys)| =>
      WhereAt(b.Keys, j); Where(a.Keys, Back(phi, SortedIds(b.Keys)[j])))
  }

  lemma ForthThenHome(phi: Renaming, a: Accepted, b: Accepted, i: nat)
    requires Renames(phi, a, b) && i < |SortedIds(a.Keys)|
    ensures Forth(phi, a, b)[i] < |Home(phi, a, b)| && Home(phi, a, b)[Forth(phi, a, b)[i]] == i
  {
    var j := Forth(phi, a, b)[i];
    WhereAt(a.Keys, i);
    WhereAt(a.Keys, Home(phi, a, b)[j]);
  }

  lemma HomeThenForth(phi: Renaming, a: Accepted, b: Accepted, j: nat)
    requires Renames(phi, a, b) && j < |SortedIds(b.Keys)|
    ensures Home(phi, a, b)[j] < |Forth(phi, a, b)| && Forth(phi, a, b)[Home(phi, a, b)[j]] == j
  {
    var i := Home(phi, a, b)[j];
    WhereAt(b.Keys, j);
    WhereAt(b.Keys, Forth(phi, a, b)[i]);
  }

  lemma ForthAndHome(phi: Renaming, a: Accepted, b: Accepted)
    requires Renames(phi, a, b)
    ensures var p, q := Forth(phi, a, b), Home(phi, a, b);
      && (forall i :: 0 <= i < |p| ==> p[i] < |q| && q[p[i]] == i)
      && (forall j :: 0 <= j < |q| ==> q[j] < |p| && p[q[j]] == j)
  {
    forall i | 0 <= i < |Forth(phi, a, b)|
      ensures Forth(phi, a, b)[i] < |Home(phi, a, b)| && Home(phi, a, b)[Forth(phi, a, b)[i]] == i
    {
      ForthThenHome(phi, a, b, i);
    }
    forall j | 0 <= j < |Home(phi, a, b)|
      ensures Home(phi, a, b)[j] < |Forth(phi, a, b)| && Forth(phi, a, b)[Home(phi, a, b)[j]] == j
    {
      HomeThenForth(phi, a, b, j);
    }
  }

  lemma DocumentsPermute(phi: Renaming, a: Accepted, b: Accepted, tokenize: string -> seq<string>)
    requires Renames(phi, a, b)
    ensures Permutes(Forth(phi, a, b), Home(phi, a, b),
      Documents(SortedIds(a.Keys), a, tokenize), Documents(SortedIds(b.Keys), b, tokenize))
  {
    ForthAndHome(phi, a, b);
  }

  // ----- Positive items -----

  lemma {:induction false} PositiveMembers(query: seq<string>, docs: seq<ScoredDoc>, x: Item)
    ensures x in PositiveItems(query, docs) <==>
      exists i :: 0 <= i < |docs| && Positive(query, docs[i]) && x == Item(docs[i].id, -docs[i].score.Value())
  {
    if docs != [] {
      var front := docs[..|docs| - 1];
      PositiveMembers(query, front, x);
      if i :| 0 <= i < |docs| && Positive(query, docs[i]) && x == Item(docs[i].id, -docs[i].score.Value()) {
        if i < |front| { assert front[i] == docs[i]; }
      }
    }
  }

  ghost predicate DistinctDocs(docs: seq<ScoredDoc>) {
    forall i, j :: 0 <= i < j < |docs| ==> docs[i].id != docs[j].id
  }

  lemma {:induction false} PositiveDistinct(query: seq<string>, docs: seq<ScoredDoc>)
    requires DistinctDocs(docs)
    ensures DistinctIds(PositiveItems(query, docs))
  {
    if docs != [] {
      var front, last := docs[..|docs| - 1], docs[|docs| - 1];
      assert forall i :: 0 <= i < |front| ==> front[i] == docs[i];
      PositiveDistinct(query, front);
      var items := PositiveItems(query, front);
      forall k | 0 <= k < |items| ensures items[k].id != last.id {
        assert items[k] in items;
        PositiveMembers(query, front, items[k]);
      }
    }
  }

  lemma PositiveIn(query: seq<string>, docs: seq<ScoredDoc>, a: Accepted)
    requires forall i :: 0 <= i < |docs| ==> docs[i].id in a
    ensures AllIn(PositiveItems(query, docs), a)
  {
    var items := PositiveItems(query, docs);
    forall k | 0 <= k < |items| ensures items[k].id in a {
      assert items[k] in items;
      PositiveMembers(query, docs, items[k]);
    }
  }

  ghost function RenameDoc(phi: Renaming, d: ScoredDoc): ScoredDoc {
    if d.id in phi then d.(id := phi[d.id]) else d
  }

  ghost function RenameDocs(phi: Renaming, docs: seq<ScoredDoc>): seq<ScoredDoc> {
    seq(|docs|, i requires 0 <= i < |docs| => RenameDoc(phi, docs[i]))
  }

  ghost function ItemOf(d: ScoredDoc): Item {
    Item(d.id, -d.score.Value())
  }

  lemma RenamedDocItem(phi: Renaming, query: seq<string>, d: ScoredDoc)
    ensures ItemOf(RenameDoc(phi, d)) == RenameItem(phi, ItemOf(d))
    ensures Positive(query, RenameDoc(phi, d)) == Positive(query, d)
  {
  }

  lemma PositiveAt(query: seq<string>, docs: seq<ScoredDoc>, i: nat)
    requires i < |docs| && Positive(query, docs[i])
    ensures ItemOf(docs[i]) in PositiveItems(query, docs)
  {
    PositiveMembers(query, docs, ItemOf(docs[i]));
  }

  ghost function PositiveSource(query: seq<string>, docs: seq<ScoredDoc>, x: Item): (i: nat)
    requires x in PositiveItems(query, docs)
    ensures i < |docs| && Positive(query, docs[i]) && x == ItemOf(docs[i])
  {
    PositiveMembers(query, docs, x);
    var i :| 0 <= i < |docs| && Positive(query, docs[i]) && x == Item(docs[i].id, -docs[i].score.Value());
    i
  }

  lemma PositiveFollows(phi: Renaming, query: seq<string>, da: seq<ScoredDoc>, db: seq<ScoredDoc>, p: seq<nat>, q: seq<nat>)
    requires Permutes(p, q, RenameDocs(phi, da), db)
    ensures SameItems(phi, PositiveItems(query, da), PositiveItems(query, db))
  {
    var xs, ys := PositiveItems(query, da), PositiveItems(query, db);
    forall x | x in xs ensures RenameItem(phi, x) in ys { PositiveForth(phi, query, da, db, p, q, x); }
    forall y | y in ys ensures exists x :: x in xs && RenameItem(phi, x) == y { PositiveBack(phi, query, da, db, p, q, y); }
  }

  lemma PositiveForth(phi: Renaming, query: seq<string>, da: seq<ScoredDoc>, db: seq<ScoredDoc>, p: seq<nat>, q: seq<nat>, x: Item)
    requires Permutes(p, q, RenameDocs(phi, da), db) && x in PositiveItems(query, da)
    ensures RenameItem(phi, x) in PositiveItems(query, db)
  {
    var i := PositiveSource(query, da, x);
    RenamedDocItem(phi, query, da[i]);
    PositiveAt(query, db, p[i]);
  }

  lemma PositiveBack(phi: Renaming, query: seq<string>, da: seq<ScoredDoc>, db: seq<ScoredDoc>, p: seq<nat>, q: seq<nat>, y: Item)
    requires Permutes(p, q, RenameDocs(phi, da), db) && y in PositiveItems(query, db)
    ensures exists x :: x in PositiveItems(query, da) && RenameItem(phi, x) == y
  {
    var j := PositiveSource(query, db, y);
    RenamedDocItem(phi, query, da[q[j]]);
    PositiveAt(query, da, q[j]);
  }

  lemma ZippedWellFormed(ids: set<string>, docs: seq<seq<string>>, scores: seq<Score>)
    requires |SortedIds(ids)| == |docs| == |scores|
    ensures DistinctDocs(Zip(SortedIds(ids), docs, scores))
    ensures forall i :: 0 <= i < |docs| ==> Zip(SortedIds(ids), docs, scores)[i].id in ids
  {
    forall i, j | 0 <= i < j < |docs| ensures SortedIds(ids)[i] != SortedIds(ids)[j] { SortedIdsDistinct(ids, i, j); }
    forall i | 0 <= i < |docs| ensures SortedIds(ids)[i] in ids { WhereAt(ids, i); }
  }

  ghost function RenameIds(phi: Renaming, ids: seq<string>): seq<string> {
    seq(|ids|, i requires 0 <= i < |ids| => if ids[i] in phi then phi[ids[i]] else ids[i])
  }

  lemma IdsPermute(phi: Renaming, a: Accepted, b: Accepted)
    requires Renames(phi, a, b)
    ensures Permutes(Forth(phi, a, b), Home(phi, a, b), RenameIds(phi, SortedIds(a.Keys)), SortedIds(b.Keys))
  {
    ForthAndHome(phi, a, b);
  }

  /** Ids, documents and scores zipped under one permutation. */
  lemma ZipPermutes(phi: Renaming, p: seq<nat>, q: seq<nat>, ia: seq<string>, ib: seq<string>,
                    da: seq<seq<string>>, db: seq<seq<string>>, s: seq<Score>, t: seq<Score>)
    requires Permutes(p, q, RenameIds(phi, ia), ib) && Permutes(p, q, da, db) && Permutes(p, q, s, t)
    ensures Permutes(p, q, RenameDocs(phi, Zip(ia, da, s)), Zip(ib, db, t))
  {
  }

  /** What two lexical (or semantic) results share: both fail, or the rank
      dictionaries correspond. */
  ghost predicate LexicalAgree(phi: Renaming, ra: Outcome<LexicalResult>, rb: Outcome<LexicalResult>) {
    (ra.Failed? && rb.Failed?) || (ra.Done? && rb.Done? && SameRanks(phi, ra.value.ranked, rb.value.ranked))
  }

  lemma RankItemsFollow(phi: Renaming, a: Accepted, b: Accepted, xs: seq<Item>, ys: seq<Item>)
    requires Renames(phi, a, b) && UniqueKeys(a)
    requires DistinctIds(xs) && AllIn(xs, a) && DistinctIds(ys) && AllIn(ys, b)
    requires SameItems(phi, xs, ys)
    ensures var sa, sb := Sort(ItemOrder(a), xs), Sort(ItemOrder(b), ys);
      SameRanks(phi, TopRanks(sa, Cut(sa)), TopRanks(sb, Cut(sb)))
  {
    SortFollows(phi, a, b, xs, ys);
    var sa := Sort(ItemOrder(a), xs);
    TopRanksFollow(phi, sa, RenameItems(phi, sa), Cut(sa));
  }

  lemma NonFiniteFollows(p: seq<nat>, q: seq<nat>, s: seq<Score>, t: seq<Score>)
    requires Permutes(p, q, s, t)
    ensures NonFinite in s <==> NonFinite in t
  {
    if NonFinite in s { var i :| 0 <= i < |s| && s[i] == NonFinite; assert t[p[i]] == NonFinite; }
    if NonFinite in t { var j :| 0 <= j < |t| && t[j] == NonFinite; assert s[q[j]] == NonFinite; }
  }

  /** The scored documents of two builds: finite together, ranked alike. */
  lemma ScoredFollow(phi: Renaming, a: Accepted, b: Accepted, query: seq<string>, da: seq<seq<string>>, db: seq<seq<string>>,
                     s: seq<Score>, t: seq<Score>, p: seq<nat>, q: seq<nat>)
    requires Renames(phi, a, b) && UniqueKeys(a)
    requires Permutes(p, q, RenameIds(phi, SortedIds(a.Keys)), SortedIds(b.Keys))
    requires Permutes(p, q, da, db) && Permutes(p, q, s, t)
    ensures var za, zb := Zip(SortedIds(a.Keys), da, s), Zip(SortedIds(b.Keys), db, t);
      var sa, sb := Sort(ItemOrder(a), PositiveItems(query, za)), Sort(ItemOrder(b), PositiveItems(query, zb));
      SameRanks(phi, TopRanks(sa, Cut(sa)), TopRanks(sb, Cut(sb)))
  {
    var ia, ib := SortedIds(a.Keys), SortedIds(b.Keys);
    ZipPermutes(phi, p, q, ia, ib, da, db, s, t);
    ZippedWellFormed(a.Keys, da, s);
    ZippedWellFormed(b.Keys, db, t);
    PositiveRanksFollow(phi, a, b, query, Zip(ia, da, s), Zip(ib, db, t), p, q);
  }

  lemma LexicalFollows(phi: Renaming, a: Accepted, b: Accepted, question: string,
                       tokenize: string -> seq<string>, scorer: Scorer)
    requires Renames(phi, a, b) && UniqueKeys(a) && PositionFree(scorer)
    ensures LexicalAgree(phi, Lexical(question, a, tokenize, scorer), Lexical(question, b, tokenize, scorer))
  {
    var query := tokenize(question);
    var da, db := Documents(SortedIds(a.Keys), a, tokenize), Documents(SortedIds(b.Keys), b, tokenize);
    var s, t := scorer(query, da), scorer(query, db);
    var p, q := Forth(phi, a, b), Home(phi, a, b);
    DocumentsPermute(phi, a, b, tokenize);
    assert ScoresFollow(p, q, s, t);
    if |s| == |p| {
      NonFiniteFollows(p, q, s, t);
      IdsPermute(phi, a, b);
      ScoredFollow(phi, a, b, query, da, db, s, t, p, q);
    }
  }

  lemma PositiveRanksFollow(phi: Renaming, a: Accepted, b: Accepted, query: seq<string>,
                            za: seq<ScoredDoc>, zb: seq<ScoredDoc>, p: seq<nat>, q: seq<nat>)
    requires Renames(phi, a, b) && UniqueKeys(a)
    requires DistinctDocs(za) && DistinctDocs(zb)
    requires forall i :: 0 <= i < |za| ==> za[i].id in a
    requires forall i :: 0 <= i < |zb| ==> zb[i].id in b
    requires Permutes(p, q, RenameDocs(phi, za), zb)
    ensures var sa, sb := Sort(ItemOrder(a), PositiveItems(query, za)), Sort(ItemOrder(b), PositiveItems(query, zb));
      SameRanks(phi, TopRanks(sa, Cut(sa)), TopRanks(sb, Cut(sb)))
  {
    PositiveFollows(phi, query, za, zb, p, q);
    PositiveDistinct(query, za);
    PositiveDistinct(query, zb);
    PositiveIn(query, za, a);
    PositiveIn(query, zb, b);
    RankItemsFollow(phi, a, b, PositiveItems(query, za), PositiveItems(query, zb));
  }

  // ----- The semantic stage -----

  /** The vector store answers with the same pairs, in an order of its own. Ids
      that build A does not accept are foreign to build B; a wrong count of
      distances stays wrong. */
  ghost predicate SameMatches(phi: Renaming, b: Accepted, ma: Matches, mb: Matches) {
    && (forall i :: 0 <= i < |ma.ids| ==> ma.ids[i] in phi || ma.ids[i] !in b)
    && exists p, q :: MatchesPermute(phi, ma, mb, p, q)
  }

  ghost predicate MatchesPermute(phi: Renaming, ma: Matches, mb: Matches, p: seq<nat>, q: seq<nat>) {
    Permutes(p, q, RenameIds(phi, ma.ids), mb.ids) && ScoresFollow(p, q, ma.distances, mb.distances)
  }

  lemma DistanceFollows(phi: Renaming, ma: Matches, mb: Matches, p: seq<nat>, q: seq<nat>)
    requires |ma.ids| == |ma.distances| && |mb.ids| == |mb.distances|
    requires forall i :: 0 <= i < |ma.ids| ==> ma.ids[i] in phi
    requires Permutes(p, q, RenameIds(phi, ma.ids), mb.ids) && Permutes(p, q, ma.distances, mb.distances)
    ensures SameItems(phi, DistanceItems(ma), DistanceItems(mb))
  {
    var xs, ys := DistanceItems(ma), DistanceItems(mb);
    forall x | x in xs ensures RenameItem(phi, x) in ys {
      var i :| 0 <= i < |xs| && xs[i] == x;
      assert ys[p[i]] == RenameItem(phi, x);
    }
    forall y | y in ys ensures exists x :: x in xs && RenameItem(phi, x) == y {
      var j :| 0 <= j < |ys| && ys[j] == y;
      assert RenameItem(phi, xs[q[j]]) == y;
    }
  }

  /** A list is as long as its own set of elements exactly when it repeats nothing. */
  lemma {:induction false} CardinalityMeansDistinct(ids: seq<string>)
    ensures |set id | id in ids| <= |ids|
    ensures |set id | id in ids| == |ids| <==> AllDistinct(ids)
  {
    if ids != [] {
      var front, last := ids[..|ids| - 1], ids[|ids| - 1];
      CardinalityMeansDistinct(front);
      var all, some := set id | id in ids, set id | id in front;
      assert ids == front + [last];
      assert all == some + {last};
      if last in front { assert all == some; }
      DistinctAppend(front, last);
    }
  }

  lemma DistinctAppend(front: seq<string>, last: string)
    ensures AllDistinct(front + [last]) <==> AllDistinct(front) && last !in front
  {
    var ids := front + [last];
    assert forall i :: 0 <= i < |front| ==> ids[i] == front[i];
    if last in front {
      var k :| 0 <= k < |front| && front[k] == last;
      assert ids[k] == ids[|front|];
    }
  }

  /** One id of the answer and its place in the other build's answer. */
  lemma IdFollows(phi: Renaming, a: Accepted, b: Accepted, x: string)
    requires Renames(phi, a, b) && (x in phi || x !in b)
    ensures var y := if x in phi then phi[x] else x; y in b <==> x in a
    ensures forall x' :: (x' in phi || x' !in b) && (if x in phi then phi[x] else x) == (if x' in phi then phi[x'] else x') ==> x == x'
  {
  }

  lemma DistinctFollows(phi: Renaming, a: Accepted, b: Accepted, ma: Matches, mb: Matches, p: seq<nat>, q: seq<nat>)
    requires Renames(phi, a, b) && (forall i :: 0 <= i < |ma.ids| ==> ma.ids[i] in phi || ma.ids[i] !in b)
    requires Permutes(p, q, RenameIds(phi, ma.ids), mb.ids)
    ensures AllDistinct(ma.ids) <==> AllDistinct(mb.ids)
  {
    if AllDistinct(ma.ids) {
      forall i, j | 0 <= i < j < |mb.ids| ensures mb.ids[i] != mb.ids[j] {
        var k, l := q[i], q[j];
        assert p[k] == i && p[l] == j;
        IdFollows(phi, a, b, ma.ids[k]);
        var lo, hi := if k < l then k else l, if k < l then l else k;
        assert ma.ids[lo] != ma.ids[hi];
      }
    }
    if AllDistinct(mb.ids) {
      forall i, j | 0 <= i < j < |ma.ids| ensures ma.ids[i] != ma.ids[j] {
        var k, l := p[i], p[j];
        assert q[k] == i && q[l] == j;
        var lo, hi := if k < l then k else l, if k < l then l else k;
        assert mb.ids[lo] != mb.ids[hi];
      }
    }
  }

  ghost predicate Covers(ids: seq<string>, accepted: Accepted) {
    (forall id :: id in ids ==> id in accepted) && (forall id :: id in accepted ==> id in ids)
  }

  lemma CoversForth(phi: Renaming, a: Accepted, b: Accepted, ma: Matches, mb: Matches, p: seq<nat>, q: seq<nat>)
    requires Renames(phi, a, b) && Permutes(p, q, RenameIds(phi, ma.ids), mb.ids) && Covers(ma.ids, a)
    ensures Covers(mb.ids, b)
  {
    forall y | y in mb.ids ensures y in b {
      var j :| 0 <= j < |mb.ids| && mb.ids[j] == y;
      assert ma.ids[q[j]] in a;
    }
    forall y | y in b ensures y in mb.ids {
      var x :| x in phi && phi[x] == y;
      var i :| 0 <= i < |ma.ids| && ma.ids[i] == x;
      assert mb.ids[p[i]] == y;
    }
  }

  lemma CoversBack(phi: Renaming, a: Accepted, b: Accepted, ma: Matches, mb: Matches, p: seq<nat>, q: seq<nat>)
    requires Renames(phi, a, b) && (forall i :: 0 <= i < |ma.ids| ==> ma.ids[i] in phi || ma.ids[i] !in b)
    requires Permutes(p, q, RenameIds(phi, ma.ids), mb.ids) && Covers(mb.ids, b)
    ensures Covers(ma.ids, a)
  {
    forall x | x in ma.ids ensures x in a {
      var i :| 0 <= i < |ma.ids| && ma.ids[i] == x;
      assert mb.ids[p[i]] in b;
    }
    forall x | x in a ensures x in ma.ids {
      assert phi[x] in mb.ids;
      var j :| 0 <= j < |mb.ids| && mb.ids[j] == phi[x];
      assert RenameIds(phi, ma.ids)[q[j]] == phi[x];
      assert ma.ids[q[j]] in phi;
    }
  }

  lemma CoversFollows(phi: Renaming, a: Accepted, b: Accepted, ma: Matches, mb: Matches, p: seq<nat>, q: seq<nat>)
    requires Renames(phi, a, b) && (forall i :: 0 <= i < |ma.ids| ==> ma.ids[i] in phi || ma.ids[i] !in b)
    requires Permutes(p, q, RenameIds(phi, ma.ids), mb.ids)
    ensures Covers(ma.ids, a) <==> Covers(mb.ids, b)
  {
    if Covers(ma.ids, a) { CoversForth(phi, a, b, ma, mb, p, q); }
    if Covers(mb.ids, b) { CoversBack(phi, a, b, ma, mb, p, q); }
  }

  /** The checks on a store's answer, without the count of ids. */
  lemma AcceptedExactly(m: Matches, accepted: Accepted)
    ensures MatchesAccepted(m, accepted) <==>
      && AllDistinct(m.ids) && Covers(m.ids, accepted) && |m.distances| == |m.ids|
      && forall d :: d in m.distances ==> ValidDistance(d)
  {
    CardinalityMeansDistinct(m.ids);
    KeysCount(accepted);
    assert Covers(m.ids, accepted) <==> (set id | id in m.ids) == accepted.Keys by {
      if (set id | id in m.ids) == accepted.Keys {
        forall id ensures id in m.ids <==> id in accepted { assert id in (set id | id in m.ids) <==> id in m.ids; }
      }
    }
  }

  lemma ValidFollows(p: seq<nat>, q: seq<nat>, s: seq<Score>, t: seq<Score>)
    requires Permutes(p, q, s, t)
    ensures (forall d :: d in s ==> ValidDistance(d)) <==> (forall d :: d in t ==> ValidDistance(d))
  {
    forall d | d in s ensures d in t { var i :| 0 <= i < |s| && s[i] == d; assert t[p[i]] == d; }
    forall d | d in t ensures d in s { var j :| 0 <= j < |t| && t[j] == d; assert s[q[j]] == d; }
  }

  /** The two answers pass the checks together. */
  lemma AcceptedTogether(phi: Renaming, a: Accepted, b: Accepted, ma: Matches, mb: Matches)
    requires Renames(phi, a, b) && SameMatches(phi, b, ma, mb)
    ensures MatchesAccepted(ma, a) <==> MatchesAccepted(mb, b)
  {
    var p, q :| MatchesPermute(phi, ma, mb, p, q);
    DistinctFollows(phi, a, b, ma, mb, p, q);
    CoversFollows(phi, a, b, ma, mb, p, q);
    AcceptedExactly(ma, a);
    AcceptedExactly(mb, b);
    if |ma.distances| == |p| { ValidFollows(p, q, ma.distances, mb.distances); }
  }

  lemma MatchesWellFormed(accepted: Accepted, m: Matches)
    requires MatchesAccepted(m, accepted)
    ensures DistinctIds(DistanceItems(m)) && AllIn(DistanceItems(m), accepted)
  {
    CardinalityMeansDistinct(m.ids);
    KeysCount(accepted);
    forall i | 0 <= i < |m.ids| ensures m.ids[i] in accepted {
      assert m.ids[i] in set id | id in m.ids;
    }
  }

  lemma KeysCount(accepted: Accepted)
    ensures |accepted.Keys| == |accepted|
  {
  }

  ghost predicate SemanticAgree(phi: Renaming, ra: Outcome<SemanticResult>, rb: Outcome<SemanticResult>) {
    (ra.Failed? && rb.Failed?) || (ra.Done? && rb.Done? && SameRanks(phi, ra.value.ranked, rb.value.ranked))
  }

  lemma SemanticFollows(phi: Renaming, a: Accepted, b: Accepted, ma: Matches, mb: Matches)
    requires Renames(phi, a, b) && UniqueKeys(a) && SameMatches(phi, b, ma, mb)
    ensures SemanticAgree(phi, Semantic(a, ma), Semantic(b, mb))
  {
    AcceptedTogether(phi, a, b, ma, mb);
    if MatchesAccepted(ma, a) {
      var p, q :| MatchesPermute(phi, ma, mb, p, q);
      MatchesWellFormed(a, ma);
      MatchesWellFormed(b, mb);
      forall i | 0 <= i < |ma.ids| ensures ma.ids[i] in phi {
        assert DistanceItems(ma)[i].id in a;
      }
      DistanceFollows(phi, ma, mb, p, q);
      RankItemsFollow(phi, a, b, DistanceItems(ma), DistanceItems(mb));
    }
  }

  // ----- Fusion -----

  ghost function RenameCandidate(phi: Renaming, b: Accepted, c: Candidate): Candidate {
    var id := c.chunk.chunkId;
    if id in phi && phi[id] in b then c.(chunk := b[phi[id]]) else c
  }

  lemma GetFollows(phi: Renaming, ra: map<string, nat>, rb: map<string, nat>, id: string)
    requires Injective(phi) && SameRanks(phi, ra, rb) && id in phi
    ensures Get(rb, phi[id]) == Get(ra, id)
  {
    if phi[id] in rb {
      var x :| x in ra && x in phi && phi[x] == phi[id];
      assert x == id;
    }
  }

  lemma FusionItemFollows(phi: Renaming, la: map<string, nat>, lb: map<string, nat>,
                          sa: map<string, nat>, sb: map<string, nat>, id: string)
    requires Injective(phi) && SameRanks(phi, la, lb) && SameRanks(phi, sa, sb) && id in phi
    ensures FusionItem(lb, sb, phi[id]) == RenameItem(phi, FusionItem(la, sa, id))
  {
    GetFollows(phi, la, lb, id);
    GetFollows(phi, sa, sb, id);
  }

  lemma FusionItemsFollow(phi: Renaming, la: map<string, nat>, lb: map<string, nat>, sa: map<string, nat>, sb: map<string, nat>)
    requires Injective(phi) && SameRanks(phi, la, lb) && SameRanks(phi, sa, sb)
    ensures SameItems(phi, FusionItems(la, sa), FusionItems(lb, sb))
  {
    var xs, ys := FusionItems(la, sa), FusionItems(lb, sb);
    forall x | x in xs ensures RenameItem(phi, x) in ys {
      FusionItemsMembers(la, sa, x);
      FusionItemFollows(phi, la, lb, sa, sb, x.id);
      FusionItemsMembers(lb, sb, RenameItem(phi, x));
    }
    forall y | y in ys ensures exists x :: x in xs && RenameItem(phi, x) == y {
      FusionItemsMembers(lb, sb, y);
      var id :| (id in la || id in sa) && id in phi && phi[id] == y.id;
      FusionItemFollows(phi, la, lb, sa, sb, id);
      FusionItemsMembers(la, sa, FusionItem(la, sa, id));
    }
  }

  lemma FusionItemsIn(lexical: map<string, nat>, semantic: map<string, nat>, accepted: Accepted)
    requires lexical.Keys + semantic.Keys <= accepted.Keys
    ensures AllIn(FusionItems(lexical, semantic), accepted)
  {
    var items := FusionItems(lexical, semantic);
    forall i | 0 <= i < |items| ensures items[i].id in accepted {
      assert items[i] in items;
      FusionItemsMembers(lexical, semantic, items[i]);
    }
  }

  /** Candidate lists that correspond place by place. */
  ghost predicate SameCandidate(phi: Renaming, a: Accepted, b: Accepted, x: Candidate, y: Candidate) {
    && x.chunk.chunkId in phi && x.chunk.chunkId in a && a[x.chunk.chunkId] == x.chunk
    && y == RenameCandidate(phi, b, x)
  }

  ghost predicate SameCandidates(phi: Renaming, a: Accepted, b: Accepted, ca: seq<Candidate>, cb: seq<Candidate>) {
    |ca| == |cb| && forall i :: 0 <= i < |ca| ==> SameCandidate(phi, a, b, ca[i], cb[i])
  }

  lemma NumberFollows(phi: Renaming, a: Accepted, b: Accepted, la: map<string, nat>, lb: map<string, nat>,
                      sa: map<string, nat>, sb: map<string, nat>, xs: seq<Item>)
    requires Renames(phi, a, b) && WellKeyed(a) && SameRanks(phi, la, lb) && SameRanks(phi, sa, sb)
    requires AllIn(xs, a) && AllIn(RenameItems(phi, xs), b)
    ensures SameCandidates(phi, a, b, Number(xs, la, sa, a), Number(RenameItems(phi, xs), lb, sb, b))
  {
    var ca, cb := Number(xs, la, sa, a), Number(RenameItems(phi, xs), lb, sb, b);
    forall i | 0 <= i < |ca| ensures SameCandidate(phi, a, b, ca[i], cb[i]) {
      NumberAt(xs, la, sa, a, i);
      NumberAt(RenameItems(phi, xs), lb, sb, b, i);
      CandidateFollows(phi, a, b, la, lb, sa, sb, xs[i], i + 1);
    }
  }

  /** The fused lists correspond place by place. */
  lemma FusionFollows(phi: Renaming, a: Accepted, b: Accepted, la: map<string, nat>, lb: map<string, nat>,
                      sa: map<string, nat>, sb: map<string, nat>)
    requires Renames(phi, a, b) && UniqueKeys(a) && WellKeyed(a)
    requires SameRanks(phi, la, lb) && SameRanks(phi, sa, sb)
    requires la.Keys + sa.Keys <= a.Keys && lb.Keys + sb.Keys <= b.Keys
    ensures SameCandidates(phi, a, b, Fusion(la, sa, a), Fusion(lb, sb, b))
  {
    FusedOrderFollows(phi, a, b, la, lb, sa, sb);
    FusedAll(la, sa, a);
    FusedAll(lb, sb, b);
    NumberFollows(phi, a, b, la, lb, sa, sb, FusedOrder(la, sa, a));
  }

  lemma FusedOrderFollows(phi: Renaming, a: Accepted, b: Accepted, la: map<string, nat>, lb: map<string, nat>,
                          sa: map<string, nat>, sb: map<string, nat>)
    requires Renames(phi, a, b) && UniqueKeys(a)
    requires SameRanks(phi, la, lb) && SameRanks(phi, sa, sb)
    requires la.Keys + sa.Keys <= a.Keys && lb.Keys + sb.Keys <= b.Keys
    ensures FusedOrder(lb, sb, b) == RenameItems(phi, FusedOrder(la, sa, a))
  {
    FusionItemsFollow(phi, la, lb, sa, sb);
    FusionItemsIn(la, sa, a);
    FusionItemsIn(lb, sb, b);
    FusionItemsDistinct(la, sa);
    FusionItemsDistinct(lb, sb);
    SortFollows(phi, a, b, FusionItems(la, sa), FusionItems(lb, sb));
  }

  lemma CandidateFollows(phi: Renaming, a: Accepted, b: Accepted, la: map<string, nat>, lb: map<string, nat>,
                         sa: map<string, nat>, sb: map<string, nat>, x: Item, rank: nat)
    requires Renames(phi, a, b) && WellKeyed(a) && SameRanks(phi, la, lb) && SameRanks(phi, sa, sb) && x.id in a
    ensures RenameItem(phi, x).id in b
    ensures CandidateOf(lb, sb, b, RenameItem(phi, x), rank) == RenameCandidate(phi, b, CandidateOf(la, sa, a, x, rank))
    ensures var chunk := CandidateOf(la, sa, a, x, rank).chunk;
      chunk.chunkId in phi && chunk.chunkId in a && a[chunk.chunkId] == chunk
  {
    GetFollows(phi, la, lb, x.id);
    GetFollows(phi, sa, sb, x.id);
  }

  // ----- Selection and evidence -----

  /** What generation reads of one accepted chunk besides its id. */
  datatype Evidence = Evidence(recordId: string, valuePath: string, text: string, provenance: seq<Source>)

  function EvidenceOf(accepted: Accepted, id: string): Evidence
    requires id in accepted
  {
    var c := accepted[id];
    Evidence(c.recordId, c.valuePath, c.text, c.provenance)
  }

  /** The accepted ids after the diversity stage, in final rank order. */
  ghost function Chosen(lexical: map<string, nat>, semantic: map<string, nat>, accepted: Accepted): seq<string>
    requires lexical.Keys + semantic.Keys <= accepted.Keys
  {
    var candidates := Fusion(lexical, semantic, accepted);
    Diversity.AcceptedIds(candidates, Diversity.StatesOf(candidates))
  }

  lemma SelectionFollows(phi: Renaming, a: Accepted, b: Accepted, ca: seq<Candidate>, cb: seq<Candidate>)
    requires Renames(phi, a, b) && SameCandidates(phi, a, b, ca, cb)
    ensures var ids, ids' := Diversity.AcceptedIds(ca, Diversity.StatesOf(ca)), Diversity.AcceptedIds(cb, Diversity.StatesOf(cb));
      && |ids'| == |ids|
      && forall k :: 0 <= k < |ids| ==> ids[k] in a && ids'[k] == phi[ids[k]]
  {
    forall i | 0 <= i < |ca| ensures cb[i].chunk.recordId == ca[i].chunk.recordId {
      assert SameCandidate(phi, a, b, ca[i], cb[i]);
    }
    assert Diversity.RecordsOf(cb) == Diversity.RecordsOf(ca);
    DiversityLaws.AcceptedInRankOrder(ca);
    DiversityLaws.AcceptedInRankOrder(cb);
  }

  lemma ChosenFollows(phi: Renaming, a: Accepted, b: Accepted, la: map<string, nat>, lb: map<string, nat>,
                      sa: map<string, nat>, sb: map<string, nat>)
    requires Renames(phi, a, b) && UniqueKeys(a) && WellKeyed(a)
    requires SameRanks(phi, la, lb) && SameRanks(phi, sa, sb)
    requires la.Keys + sa.Keys <= a.Keys && lb.Keys + sb.Keys <= b.Keys
    ensures var ids, ids' := Chosen(la, sa, a), Chosen(lb, sb, b);
      && |ids'| == |ids|
      && forall k :: 0 <= k < |ids| ==>
           ids[k] in a && ids'[k] == phi[ids[k]] && EvidenceOf(b, ids'[k]) == EvidenceOf(a, ids[k])
  {
    FusionFollows(phi, a, b, la, lb, sa, sb);
    SelectionFollows(phi, a, b, Fusion(la, sa, a), Fusion(lb, sb, b));
  }

  /** The ids two builds hand to generation, place by place, with equal evidence. */
  ghost predicate SameEvidence(phi: Renaming, a: Accepted, b: Accepted, ids: seq<string>, ids': seq<string>) {
    && |ids'| == |ids|
    && forall k :: 0 <= k < |ids| ==>
         ids[k] in a && ids[k] in phi && ids'[k] in b && ids'[k] == phi[ids[k]] && EvidenceOf(b, ids'[k]) == EvidenceOf(a, ids[k])
  }

  /** Build independence, end to end. For a scorer that ignores positions and a
      store that reports the same distances, the two builds fail in the same
      stage or accept corresponding chunks, place by place, with equal evidence. */
  lemma BuildIndependent(phi: Renaming, a: Accepted, b: Accepted, question: string,
                         tokenize: string -> seq<string>, scorer: Scorer, ma: Matches, mb: Matches)
    requires Renames(phi, a, b) && UniqueKeys(a) && WellKeyed(a) && PositionFree(scorer)
    requires SameMatches(phi, b, ma, mb)
    ensures var la, lb := Lexical(question, a, tokenize, scorer), Lexical(question, b, tokenize, scorer);
      var sa, sb := Semantic(a, ma), Semantic(b, mb);
      && (la.Failed? <==> lb.Failed?) && (sa.Failed? <==> sb.Failed?)
      && (la.Done? && sa.Done? ==>
            && la.value.ranked.Keys + sa.value.ranked.Keys <= a.Keys
            && lb.value.ranked.Keys + sb.value.ranked.Keys <= b.Keys
            && SameEvidence(phi, a, b, Chosen(la.value.ranked, sa.value.ranked, a), Chosen(lb.value.ranked, sb.value.ranked, b)))
  {
    LexicalFollows(phi, a, b, question, tokenize, scorer);
    SemanticFollows(phi, a, b, ma, mb);
    var la, lb := Lexical(question, a, tokenize, scorer), Lexical(question, b, tokenize, scorer);
    var sa, sb := Semantic(a, ma), Semantic(b, mb);
    if la.Done? && sa.Done? {
      RanksIn(phi, a, b, la.value.ranked, lb.value.ranked);
      RanksIn(phi, a, b, sa.value.ranked, sb.value.ranked);
      ChosenFollows(phi, a, b, la.value.ranked, lb.value.ranked, sa.value.ranked, sb.value.ranked);
    }
  }

  lemma RanksIn(phi: Renaming, a: Accepted, b: Accepted, ra: map<string, nat>, rb: map<string, nat>)
    requires Renames(phi, a, b) && SameRanks(phi, ra, rb)
    ensures ra.Keys <= a.Keys && rb.Keys <= b.Keys
  {
    forall id' | id' in rb ensures id' in b {
      var id :| id in ra && id in phi && phi[id] == id';
    }
  }
}
