/** Greedy grouping of a list into runs that fit, which both the chunk packers
    and the embedding batches follow, and why no other grouping is shorter. */
module Grouping {

  function Flatten<T>(groups: seq<seq<T>>): seq<T> {
    if groups == [] then [] else groups[0] + Flatten(groups[1..])
  }

  lemma {:induction false} FlattenConcat<T>(a: seq<seq<T>>, b: seq<seq<T>>)
    ensures Flatten(a + b) == Flatten(a) + Flatten(b)
  {
    if a == [] {
      assert a + b == b;
    } else {
      assert (a + b)[1..] == a[1..] + b;
      FlattenConcat(a[1..], b);
    }
  }

  /** A contiguous part of a group that fits also fits. */
  ghost predicate Closed<T(!new)>(fits: seq<T> -> bool) {
    forall g, i, j :: 0 <= i < j <= |g| && fits(g) ==> fits(g[i..j])
  }

  /** A group is a run that fits, or a single item of any size. */
  predicate Allowed<T>(fits: seq<T> -> bool, g: seq<T>) {
    |g| == 1 || (|g| > 1 && fits(g))
  }

  ghost predicate Groups<T>(fits: seq<T> -> bool, groups: seq<seq<T>>, xs: seq<T>) {
    Flatten(groups) == xs && forall g :: g in groups ==> Allowed(fits, g)
  }

  /** Extend the open group while it fits, else close it and start the next. */
  function Greedy<T>(fits: seq<T> -> bool, open: seq<T>, xs: seq<T>): seq<seq<T>>
    decreases |xs|
  {
    if xs == [] then if open == [] then [] else [open]
    else if open == [] || fits(open + [xs[0]]) then Greedy(fits, open + [xs[0]], xs[1..])
    else [open] + Greedy(fits, [xs[0]], xs[1..])
  }

  /** Greedy loses, repeats and reorders nothing, and every group is allowed. */
  lemma {:induction false} GreedyGroups<T>(fits: seq<T> -> bool, open: seq<T>, xs: seq<T>)
    requires open == [] || Allowed(fits, open)
    ensures Groups(fits, Greedy(fits, open, xs), open + xs)
    decreases |xs|
  {
    if xs == [] {
      assert open + xs == open;
      if open != [] { assert Flatten([open]) == open + Flatten([open][1..]); }
    } else if open == [] || fits(open + [xs[0]]) {
      GreedyGroups(fits, open + [xs[0]], xs[1..]);
      assert open + [xs[0]] + xs[1..] == open + xs;
    } else {
      GreedyGroups(fits, [xs[0]], xs[1..]);
      assert [xs[0]] + xs[1..] == xs;
    }
  }

  // ----- No grouping is shorter -----

  /** Dropping the first item of a grouping leaves a grouping no longer than it. */
  lemma DropFirst<T(!new)>(fits: seq<T> -> bool, groups: seq<seq<T>>, xs: seq<T>) returns (rest: seq<seq<T>>)
    requires Closed(fits) && Groups(fits, groups, xs) && xs != []
    ensures Groups(fits, rest, xs[1..]) && |rest| <= |groups|
  {
    assert groups[0] in groups;
    var head := groups[0][1..];
    if head == [] {
      rest := groups[1..];
    } else {
      rest := [head] + groups[1..];
      assert |head| > 1 ==> groups[0][1..|groups[0]|] == head;
      assert rest[1..] == groups[1..];
    }
    assert forall g :: g in groups[1..] ==> g in groups;
  }

  /** Starting behind an open group costs greedy at most one group more. */
  lemma {:induction false} OneMore<T(!new)>(fits: seq<T> -> bool, open: seq<T>, xs: seq<T>, groups: seq<seq<T>>)
    requires Closed(fits) && open != [] && Groups(fits, groups, xs)
    ensures |Greedy(fits, open, xs)| <= 1 + |groups|
    decreases |xs|, 0
  {
    if xs != [] {
      assert groups[0] in groups;
      if fits(open + [xs[0]]) {
        var rest := DropFirst(fits, groups, xs);
        OneMore(fits, open + [xs[0]], xs[1..], rest);
      } else {
        assert [xs[0]] + xs[1..] == xs;
        StaysAhead(fits, [], [xs[0]], xs[1..], groups);
      }
    }
  }

  /** While the other grouping's first group covers greedy's open group, greedy
      finishes with no more groups than it. */
  lemma {:induction false} StaysAhead<T(!new)>(fits: seq<T> -> bool, before: seq<T>, open: seq<T>, xs: seq<T>, groups: seq<seq<T>>)
    requires Closed(fits) && open != [] && Groups(fits, groups, before + open + xs)
    requires groups != [] && |groups[0]| >= |before + open|
    ensures |Greedy(fits, open, xs)| <= |groups|
    decreases |xs|, 1
  {
    if xs != [] {
      var first := groups[0];
      assert first in groups;
      var whole := before + open + xs;
      assert whole[..|first|] == first;
      if |first| > |before + open| {
        CoversNext(fits, before, open, xs, first, whole);
        assert before + (open + [xs[0]]) + xs[1..] == whole;
        StaysAhead(fits, before, open + [xs[0]], xs[1..], groups);
      } else {
        assert Groups(fits, groups[1..], xs) by {
          assert whole[|first|..] == xs;
          assert forall g :: g in groups[1..] ==> g in groups;
        }
        if fits(open + [xs[0]]) {
          var rest := DropFirst(fits, groups[1..], xs);
          OneMore(fits, open + [xs[0]], xs[1..], rest);
        } else {
          assert groups[1] in groups;
          assert [] + [xs[0]] + xs[1..] == xs;
          StaysAhead(fits, [], [xs[0]], xs[1..], groups[1..]);
        }
      }
    }
  }

  /** A first group reaching past the open group witnesses that one more fits. */
  lemma CoversNext<T(!new)>(fits: seq<T> -> bool, before: seq<T>, open: seq<T>, xs: seq<T>, first: seq<T>, whole: seq<T>)
    requires Closed(fits) && open != [] && xs != [] && Allowed(fits, first)
    requires whole == before + open + xs && |before + open| < |first| <= |whole| && whole[..|first|] == first
    ensures fits(open + [xs[0]])
  {
    var i, j := |before|, |before| + |open| + 1;
    assert first[i..j] == whole[i..j] == open + [xs[0]];
  }

  /** The greedy grouping is a shortest one. */
  lemma GreedyMinimal<T(!new)>(fits: seq<T> -> bool, xs: seq<T>, groups: seq<seq<T>>)
    requires Closed(fits) && Groups(fits, groups, xs)
    ensures |Greedy(fits, [], xs)| <= |groups|
  {
    if xs != [] {
      assert groups[0] in groups;
      assert [] + [xs[0]] == [xs[0]];
      assert [] + [xs[0]] + xs[1..] == xs;
      StaysAhead(fits, [], [xs[0]], xs[1..], groups);
    }
  }
}
