/** Python's stable sort, the code point order on strings, and when a sorted
    list is determined by its elements alone. */
module Ordering {

  // ----- Strings by code point -----

  predicate StrLt(a: string, b: string) {
    if b == "" then false
    else if a == "" then true
    else if a[0] != b[0] then a[0] < b[0]
    else StrLt(a[1..], b[1..])
  }

  lemma {:induction false} StrLtTotal(a: string, b: string)
    ensures StrLt(a, b) || a == b || StrLt(b, a)
    ensures !(StrLt(a, b) && StrLt(b, a)) && !StrLt(a, a)
  {
    if a != "" && b != "" {
      StrLtTotal(a[1..], b[1..]);
      assert a == [a[0]] + a[1..] && b == [b[0]] + b[1..];
      StrLtTotal(a[1..], a[1..]);
    } else if a != "" {
      StrLtTotal(a[1..], a[1..]);
    }
  }

  lemma {:induction false} StrLtTransitive(a: string, b: string, c: string)
    requires StrLt(a, b) && StrLt(b, c)
    ensures StrLt(a, c)
  {
    if a != "" && a[0] == b[0] == c[0] { StrLtTransitive(a[1..], b[1..], c[1..]); }
  }

  /** The two agree up to a place, where `a` ends or has the lesser character. */
  ghost predicate LessAt(a: string, b: string, k: nat) {
    && k <= |a| && k < |b| && a[..k] == b[..k] && (k < |a| ==> a[k] < b[k])
  }

  lemma {:induction false} StrLtExactly(a: string, b: string)
    ensures StrLt(a, b) <==> exists k :: LessAt(a, b, k)
  {
    if b != "" && a != "" {
      StrLtExactly(a[1..], b[1..]);
      if a[0] == b[0] {
        if k: nat :| LessAt(a[1..], b[1..], k) {
          assert a[..k + 1] == [a[0]] + a[1..][..k] && b[..k + 1] == [b[0]] + b[1..][..k];
          assert LessAt(a, b, k + 1);
        }
        if k: nat :| LessAt(a, b, k) {
          assert k > 0 && a[1..][..k - 1] == a[..k][1..] && b[1..][..k - 1] == b[..k][1..];
          assert LessAt(a[1..], b[1..], k - 1);
        }
      } else {
        assert StrLt(a, b) ==> LessAt(a, b, 0);
        if k: nat :| LessAt(a, b, k) { assert k > 0 ==> a[..k][0] == b[..k][0]; }
      }
    } else if b != "" {
      assert LessAt(a, b, 0);
    }
  }

  predicate IsLeast(ids: set<string>, x: string) {
    x in ids && forall y :: y in ids ==> y == x || StrLt(x, y)
  }

  /** `sorted(ids)` for a set of ids. */
  function SortedIds(ids: set<string>): (r: seq<string>)
    ensures forall x :: x in r <==> x in ids
    ensures StrictlySorted(StrLt, r)
    decreases |ids|
  {
    if ids == {} then []
    else
      LeastExists(ids);
      LeastUnique(ids);
      var least :| least in ids && IsLeast(ids, least);
      [least] + SortedIds(ids - {least})
  }

  lemma LeastUnique(ids: set<string>)
    ensures forall x, y :: IsLeast(ids, x) && IsLeast(ids, y) ==> x == y
  {
    forall x, y | IsLeast(ids, x) && IsLeast(ids, y) ensures x == y {
      StrLtTotal(x, y);
    }
  }

  lemma {:induction false} LeastExists(ids: set<string>)
    requires ids != {}
    ensures exists x :: IsLeast(ids, x)
    decreases |ids|
  {
    var x :| x in ids;
    var rest := ids - {x};
    if rest == {} {
      assert ids == {x};
      assert IsLeast(ids, x);
    } else {
      LeastExists(rest);
      var m :| IsLeast(rest, m);
      StrLtTotal(x, m);
      if StrLt(x, m) {
        LesserIsLeast(rest, m, x);
        assert ids == rest + {x};
      } else {
        assert IsLeast(ids, m);
      }
    }
  }

  lemma LesserIsLeast(rest: set<string>, m: string, x: string)
    requires IsLeast(rest, m) && StrLt(x, m)
    ensures IsLeast(rest + {x}, x)
  {
    forall y | y in rest && y != m ensures StrLt(x, y) {
      StrLtTransitive(x, m, y);
    }
  }

  ghost predicate AllDistinct<T>(xs: seq<T>) {
    forall i, j :: 0 <= i < j < |xs| ==> xs[i] != xs[j]
  }

  // ----- Order of first occurrence -----

  /** `a` occurs before any `b`. */
  ghost predicate Earlier(ids: seq<string>, a: string, b: string) {
    exists m :: 0 <= m < |ids| && ids[m] == a && forall n :: 0 <= n <= m ==> ids[n] != b
  }

  ghost predicate InFirstOrder(xs: seq<string>, ids: seq<string>) {
    forall i, j :: 0 <= i < j < |xs| ==> Earlier(ids, xs[i], xs[j])
  }

  lemma EarlierTransitive(ids: seq<string>, a: string, b: string, c: string)
    requires Earlier(ids, a, b) && Earlier(ids, b, c)
    ensures Earlier(ids, a, c)
  {
    var m :| 0 <= m < |ids| && ids[m] == a && forall n :: 0 <= n <= m ==> ids[n] != b;
    var p :| 0 <= p < |ids| && ids[p] == b && forall n :: 0 <= n <= p ==> ids[n] != c;
    assert m < p;
  }

  lemma EarlierAppend(ids: seq<string>, more: seq<string>, a: string, b: string)
    requires Earlier(ids, a, b)
    ensures Earlier(ids + more, a, b)
  {
    var m :| 0 <= m < |ids| && ids[m] == a && forall n :: 0 <= n <= m ==> ids[n] != b;
    assert (ids + more)[m] == a && forall n :: 0 <= n <= m ==> (ids + more)[n] == ids[n];
  }

  lemma OrderAppend(xs: seq<string>, ids: seq<string>, last: string)
    requires InFirstOrder(xs, ids) && forall x :: x in xs ==> Earlier(ids, x, last)
    ensures InFirstOrder(xs + [last], ids)
  {
    var all := xs + [last];
    forall i, j | 0 <= i < j < |all| ensures Earlier(ids, all[i], all[j]) {
      if j == |xs| { assert all[i] in xs; }
    }
  }

  // ----- Sorting -----

  ghost predicate StrictlySorted<T>(lt: (T, T) -> bool, xs: seq<T>) {
    forall i, j :: 0 <= i < j < |xs| ==> lt(xs[i], xs[j])
  }

  ghost predicate StrictOrder<T(!new)>(lt: (T, T) -> bool) {
    && (forall a :: !lt(a, a))
    && (forall a, b, c :: lt(a, b) && lt(b, c) ==> lt(a, c))
  }

  /** Any two positions hold comparable elements: no ties. */
  ghost predicate NoTies<T>(lt: (T, T) -> bool, xs: seq<T>) {
    forall i, j :: 0 <= i < |xs| && 0 <= j < |xs| && i != j ==> lt(xs[i], xs[j]) || lt(xs[j], xs[i])
  }

  /** Insert after every element that does not come strictly later. */
  function Insert<T>(lt: (T, T) -> bool, sorted: seq<T>, x: T): seq<T> {
    if sorted != [] && lt(x, sorted[|sorted| - 1])
    then Insert(lt, sorted[..|sorted| - 1], x) + [sorted[|sorted| - 1]]
    else sorted + [x]
  }

  /** The stable sort, elements taken in list order. */
  function Sort<T>(lt: (T, T) -> bool, xs: seq<T>): seq<T> {
    if xs == [] then [] else Insert(lt, Sort(lt, xs[..|xs| - 1]), xs[|xs| - 1])
  }

  lemma {:induction false} InsertElements<T>(lt: (T, T) -> bool, sorted: seq<T>, x: T)
    ensures |Insert(lt, sorted, x)| == |sorted| + 1
    ensures forall y :: y in Insert(lt, sorted, x) <==> y in sorted || y == x
  {
    if sorted != [] && lt(x, sorted[|sorted| - 1]) {
      InsertElements(lt, sorted[..|sorted| - 1], x);
      assert sorted == sorted[..|sorted| - 1] + [sorted[|sorted| - 1]];
    }
  }

  lemma {:induction false} SortElements<T>(lt: (T, T) -> bool, xs: seq<T>)
    ensures |Sort(lt, xs)| == |xs|
    ensures forall x :: x in Sort(lt, xs) <==> x in xs
  {
    if xs != [] {
      var front, last := xs[..|xs| - 1], xs[|xs| - 1];
      SortElements(lt, front);
      InsertElements(lt, Sort(lt, front), last);
      assert xs == front + [last];
    }
  }

  lemma {:induction false} InsertSorted<T(!new)>(lt: (T, T) -> bool, sorted: seq<T>, x: T)
    requires StrictOrder(lt) && StrictlySorted(lt, sorted)
    requires forall y :: y in sorted ==> lt(x, y) || lt(y, x)
    ensures StrictlySorted(lt, Insert(lt, sorted, x))
  {
    if sorted != [] && lt(x, sorted[|sorted| - 1]) {
      var front, last := sorted[..|sorted| - 1], sorted[|sorted| - 1];
      InsertSorted(lt, front, x);
      InsertElements(lt, front, x);
      var r := Insert(lt, front, x);
      forall i | 0 <= i < |r| ensures lt(r[i], last) {
        assert r[i] in r;
        if r[i] in front {
          var k :| 0 <= k < |front| && front[k] == r[i];
          assert sorted[k] == r[i];
        }
      }
    } else if sorted != [] {
      forall i | 0 <= i < |sorted| ensures lt(sorted[i], x) {
        assert sorted[|sorted| - 1] in sorted;
        if i < |sorted| - 1 { assert lt(sorted[i], sorted[|sorted| - 1]); }
      }
    }
  }

  lemma {:induction false} SortSorts<T(!new)>(lt: (T, T) -> bool, xs: seq<T>)
    requires StrictOrder(lt) && NoTies(lt, xs)
    ensures StrictlySorted(lt, Sort(lt, xs))
  {
    if xs != [] {
      var front := xs[..|xs| - 1];
      SortSorts(lt, front);
      SortElements(lt, front);
      forall y | y in Sort(lt, front) ensures lt(xs[|xs| - 1], y) || lt(y, xs[|xs| - 1]) {
        var k :| 0 <= k < |front| && front[k] == y;
        assert xs[k] == y;
      }
      InsertSorted(lt, Sort(lt, front), xs[|xs| - 1]);
    }
  }

  /** Without ties the sorted list is a function of the set of elements. */
  lemma {:induction false} SortedUnique<T(!new)>(lt: (T, T) -> bool, xs: seq<T>, ys: seq<T>)
    requires StrictOrder(lt) && StrictlySorted(lt, xs) && StrictlySorted(lt, ys)
    requires forall x :: x in xs <==> x in ys
    ensures xs == ys
    decreases |xs|
  {
    assert ys != [] ==> ys[0] in ys;
    if xs != [] {
      assert xs[0] in ys && ys != [] && ys[0] in xs;
      var i :| 0 <= i < |ys| && ys[i] == xs[0];
      var j :| 0 <= j < |xs| && xs[j] == ys[0];
      assert xs[0] == ys[0];
      forall x ensures x in xs[1..] <==> x in ys[1..] {
        TailMembers(lt, xs, x);
        TailMembers(lt, ys, x);
      }
      SortedUnique(lt, xs[1..], ys[1..]);
      assert xs == [xs[0]] + xs[1..] && ys == [ys[0]] + ys[1..];
    }
  }

  lemma TailMembers<T(!new)>(lt: (T, T) -> bool, xs: seq<T>, x: T)
    requires StrictOrder(lt) && StrictlySorted(lt, xs) && xs != []
    ensures x in xs[1..] <==> x in xs && x != xs[0]
  {
    if x in xs && x != xs[0] {
      var k :| 0 <= k < |xs| && xs[k] == x;
      assert xs[1..][k - 1] == x;
    }
    if x in xs[1..] {
      var k :| 0 <= k < |xs[1..]| && xs[1..][k] == x;
      assert lt(xs[0], xs[k + 1]);
    }
  }

  // ----- When two orders sort alike -----

  ghost predicate SameOrder<T>(lt: (T, T) -> bool, lt': (T, T) -> bool, xs: seq<T>) {
    forall a, b :: a in xs && b in xs ==> (lt(a, b) <==> lt'(a, b))
  }

  /** A list sorted by two orders without ties holds each pair in both or neither. */
  lemma SortedByBoth<T(!new)>(lt: (T, T) -> bool, lt': (T, T) -> bool, xs: seq<T>)
    requires StrictOrder(lt) && StrictOrder(lt') && StrictlySorted(lt, xs) && StrictlySorted(lt', xs)
    ensures SameOrder(lt, lt', xs)
  {
    forall a, b | a in xs && b in xs ensures lt(a, b) <==> lt'(a, b) {
      var i :| 0 <= i < |xs| && xs[i] == a;
      var j :| 0 <= j < |xs| && xs[j] == b;
      assert i < j ==> lt(a, b) && lt'(a, b);
      assert j < i ==> lt(b, a) && lt'(b, a);
      assert !(lt(a, b) && lt(b, a)) by { assert lt(a, b) && lt(b, a) ==> lt(a, a); }
      assert !(lt'(a, b) && lt'(b, a)) by { assert lt'(a, b) && lt'(b, a) ==> lt'(a, a); }
    }
  }

  /** Two orders without ties sort a list alike exactly when they agree on it. */
  lemma SortsEqualExactly<T(!new)>(lt: (T, T) -> bool, lt': (T, T) -> bool, xs: seq<T>)
    requires StrictOrder(lt) && StrictOrder(lt') && NoTies(lt, xs) && NoTies(lt', xs)
    ensures Sort(lt, xs) == Sort(lt', xs) <==> SameOrder(lt, lt', xs)
  {
    var r, r' := Sort(lt, xs), Sort(lt', xs);
    SortSorts(lt, xs);
    SortSorts(lt', xs);
    SortElements(lt, xs);
    SortElements(lt', xs);
    if r == r' {
      SortedByBoth(lt, lt', r);
    }
    if SameOrder(lt, lt', xs) {
      forall i, j | 0 <= i < j < |r| ensures lt'(r[i], r[j]) {
        assert r[i] in xs && r[j] in xs;
      }
      SortedUnique(lt', r, r');
    }
  }
}
