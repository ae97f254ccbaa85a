/** Greedy packing uses as few chunks as any order preserving packing, for a
    token counter under which a part of a fitting run fits. */
module Packing {
  import opened Text
  import opened Grouping
  import opened Chunking

  // ----- The counter contract -----

  ghost predicate PartOf(part: string, whole: string) {
    exists u: string, w: string :: whole == u + part + w
  }

  ghost predicate Monotone(count: Counter) {
    forall part, whole :: PartOf(part, whole) ==> count(part) <= count(whole)
  }

  lemma {:induction false} JoinConcat(sep: string, a: seq<string>, b: seq<string>)
    requires a != [] && b != []
    ensures Join(sep, a + b) == Join(sep, a) + sep + Join(sep, b)
  {
    if |a| == 1 {
      assert (a + b)[1..] == b;
    } else {
      assert (a + b)[1..] == a[1..] + b;
      JoinConcat(sep, a[1..], b);
    }
  }

  /** The joined text of a contiguous part is part of the joined text. */
  lemma JoinPart(sep: string, g: seq<string>, i: nat, j: nat)
    requires i < j <= |g|
    ensures PartOf(Join(sep, g[i..j]), Join(sep, g))
  {
    var left, mid, right := g[..i], g[i..j], g[j..];
    var inner := Join(sep, mid + right);
    assert g == left + (mid + right);
    var w := if right == [] then "" else sep + Join(sep, right);
    assert inner == Join(sep, mid) + w by {
      if right == [] { assert mid + right == mid; } else { JoinConcat(sep, mid, right); }
    }
    var u := if left == [] then "" else Join(sep, left) + sep;
    assert Join(sep, g) == u + inner by {
      if left == [] { assert g == mid + right; } else { JoinConcat(sep, left, mid + right); }
    }
    assert Join(sep, g) == u + Join(sep, mid) + w;
  }

  /** A run of pieces fits when its joined text is within the target. */
  function Fits(count: Counter, sep: string, target: nat): seq<string> -> bool {
    (pieces: seq<string>) => count(Join(sep, pieces)) <= target
  }

  /** The contract on the token counter: a part of a run that fits, fits. */
  ghost predicate PartsFit(count: Counter, target: nat) {
    Closed(Fits(count, " ", target)) && Closed(Fits(count, "\n\n", target))
  }

  /** A counter that never counts less for a whole than for a part meets it. */
  lemma MonotonePartsFit(count: Counter, target: nat)
    requires Monotone(count)
    ensures PartsFit(count, target)
  {
    FitsClosed(count, " ", target);
    FitsClosed(count, "\n\n", target);
  }

  lemma FitsClosed(count: Counter, sep: string, target: nat)
    requires Monotone(count)
    ensures Closed(Fits(count, sep, target))
  {
    forall g: seq<string>, i, j | 0 <= i < j <= |g| && Fits(count, sep, target)(g)
      ensures Fits(count, sep, target)(g[i..j])
    {
      JoinPart(sep, g, i, j);
    }
  }

  // ----- The packing loop is the greedy grouping -----

  predicate Oversize(count: Counter, target: nat, g: seq<string>) {
    |g| == 1 && count(g[0]) > target
  }

  function Render(count: Counter, sep: string, target: nat, expand: string -> seq<string>, groups: seq<seq<string>>): seq<string> {
    if groups == [] then []
    else
      (if Oversize(count, target, groups[0]) then expand(groups[0][0]) else [Join(sep, groups[0])])
      + Render(count, sep, target, expand, groups[1..])
  }

  /** After an oversize piece greedy always starts afresh. */
  lemma OversizeStandsAlone(count: Counter, sep: string, target: nat, x: string, rest: seq<string>)
    requires Closed(Fits(count, sep, target)) && count(x) > target
    ensures Greedy(Fits(count, sep, target), [x], rest) == [[x]] + Greedy(Fits(count, sep, target), [], rest)
  {
    var fits := Fits(count, sep, target);
    if rest != [] {
      var pair := [x] + [rest[0]];
      assert pair[0..1] == [x] && Join(sep, [x]) == x;
      assert !fits([x]);
      assert !fits(pair);
      assert [] + [rest[0]] == [rest[0]];
    }
  }

  /** An oversize piece closes the open run and is rendered on its own. */
  lemma OversizeRendered(count: Counter, sep: string, target: nat, expand: string -> seq<string>, open: seq<string>,
                         x: string, rest: seq<string>)
    requires Closed(Fits(count, sep, target)) && count(x) > target
    requires open == [] || Fits(count, sep, target)(open)
    ensures Render(count, sep, target, expand, Greedy(Fits(count, sep, target), open, [x] + rest))
         == Close(sep, open) + expand(x) + Render(count, sep, target, expand, Greedy(Fits(count, sep, target), [], rest))
  {
    var fits := Fits(count, sep, target);
    var tail := Greedy(fits, [], rest);
    assert ([x] + rest)[1..] == rest && Join(sep, [x]) == x;
    OversizeStandsAlone(count, sep, target, x, rest);
    assert ([[x]] + tail)[1..] == tail;
    if open == [] {
      assert open + [x] == [x];
    } else {
      assert (open + [x])[|open|..|open| + 1] == [x];
      assert !fits(open + [x]);
      RenderOpen(count, sep, target, expand, open, [[x]] + tail);
    }
  }

  lemma {:induction false} EmitIsGreedy(count: Counter, sep: string, target: nat, expand: string -> seq<string>,
                                        open: seq<string>, xs: seq<string>)
    requires Closed(Fits(count, sep, target))
    requires open == [] || Fits(count, sep, target)(open)
    ensures Emit(count, sep, target, expand, open, xs)
         == Render(count, sep, target, expand, Greedy(Fits(count, sep, target), open, xs))
    decreases |xs|
  {
    var fits := Fits(count, sep, target);
    if xs == [] {
      if open != [] { RenderOpen(count, sep, target, expand, open, []); }
    } else {
      var x, rest := xs[0], xs[1..];
      assert Join(sep, [x]) == x && (open == [] ==> open + [x] == [x]);
      if count(x) > target {
        EmitIsGreedy(count, sep, target, expand, [], rest);
        assert xs == [x] + rest;
        OversizeRendered(count, sep, target, expand, open, x, rest);
      } else if fits(open + [x]) {
        EmitIsGreedy(count, sep, target, expand, open + [x], rest);
      } else {
        EmitIsGreedy(count, sep, target, expand, [x], rest);
        RenderOpen(count, sep, target, expand, open, Greedy(fits, [x], rest));
      }
    }
  }

  lemma RenderOpen(count: Counter, sep: string, target: nat, expand: string -> seq<string>, open: seq<string>, rest: seq<seq<string>>)
    requires open != [] && Fits(count, sep, target)(open)
    ensures Render(count, sep, target, expand, [open] + rest) == Close(sep, open) + Render(count, sep, target, expand, rest)
  {
    assert ([open] + rest)[1..] == rest;
    assert Join(sep, [open[0]]) == open[0];
    if |open| == 1 { assert open == [open[0]]; }
  }

  // ----- Sentences: one chunk per group -----

  /** What `_pack_oversize_paragraph` packs: the sentences, or the paragraph itself. */
  function SentenceUnits(paragraph: string): seq<string> {
    if Sentences(paragraph) == [] then [paragraph] else Sentences(paragraph)
  }

  lemma {:induction false} RenderAloneLength(count: Counter, sep: string, target: nat, groups: seq<seq<string>>)
    ensures |Render(count, sep, target, Alone(), groups)| == |groups|
  {
    if groups != [] { RenderAloneLength(count, sep, target, groups[1..]); }
  }

  /** An oversize paragraph is split into as few chunks as any order preserving
      grouping of its sentences into runs within the target or single sentences. */
  lemma SentencePackingMinimal(count: Counter, target: nat, paragraph: string, groups: seq<seq<string>>)
    requires Closed(Fits(count, " ", target)) && Groups(Fits(count, " ", target), groups, SentenceUnits(paragraph))
    ensures 1 <= |PackSentences(count, target, paragraph)| <= |groups|
  {
    var fits, units := Fits(count, " ", target), SentenceUnits(paragraph);
    GreedyMinimal(fits, units, groups);
    GreedyGroups(fits, [], units);
    assert [] + units == units;
    assert Flatten(groups) != [] ==> groups != [];
    if Sentences(paragraph) != [] {
      EmitIsGreedy(count, " ", target, Alone(), [], units);
      RenderAloneLength(count, " ", target, Greedy(fits, [], units));
    }
  }

  // ----- Paragraphs: oversize ones cost their sentences -----

  /** The chunks a packing pays: one per run, and per oversize paragraph the
      groups that `split` gives its sentences. */
  ghost function Cost(count: Counter, target: nat, split: string -> seq<seq<string>>, groups: seq<seq<string>>): nat {
    if groups == [] then 0
    else (if Oversize(count, target, groups[0]) then |split(groups[0][0])| else 1) + Cost(count, target, split, groups[1..])
  }

  /** What oversize paragraphs cost above one chunk each. */
  ghost function Extra(count: Counter, target: nat, xs: seq<string>): int {
    if xs == [] then 0
    else (if count(xs[0]) > target then |PackSentences(count, target, xs[0])| - 1 else 0) + Extra(count, target, xs[1..])
  }

  lemma {:induction false} ExtraConcat(count: Counter, target: nat, a: seq<string>, b: seq<string>)
    ensures Extra(count, target, a + b) == Extra(count, target, a) + Extra(count, target, b)
  {
    if a == [] {
      assert a + b == b;
    } else {
      assert (a + b)[1..] == a[1..] + b;
      ExtraConcat(count, target, a[1..], b);
    }
  }

  /** A run of two or more that fits holds no oversize piece. */
  lemma {:induction false} NoExtraInside(count: Counter, target: nat, xs: seq<string>)
    requires forall i :: 0 <= i < |xs| ==> count(xs[i]) <= target
    ensures Extra(count, target, xs) == 0
  {
    if xs != [] { NoExtraInside(count, target, xs[1..]); }
  }

  lemma ExtraOfGroup(count: Counter, sep: string, target: nat, g: seq<string>)
    requires Closed(Fits(count, sep, target)) && Allowed(Fits(count, sep, target), g)
    ensures Extra(count, target, g) == if Oversize(count, target, g) then |PackSentences(count, target, g[0])| - 1 else 0
  {
    if |g| == 1 {
      assert g[1..] == [];
    } else {
      forall i | 0 <= i < |g| ensures count(g[i]) <= target {
        assert Fits(count, sep, target)(g[i..i + 1]);
        assert g[i..i + 1] == [g[i]] && Join(sep, [g[i]]) == g[i];
      }
      NoExtraInside(count, target, g);
    }
  }

  ghost predicate Splits(count: Counter, target: nat, split: string -> seq<seq<string>>) {
    forall p :: Groups(Fits(count, " ", target), split(p), SentenceUnits(p))
  }

  /** Whatever the grouping, the oversize paragraphs cost the same extra at least. */
  lemma {:induction false} CostAtLeast(count: Counter, sep: string, target: nat, split: string -> seq<seq<string>>, groups: seq<seq<string>>)
    requires Closed(Fits(count, " ", target)) && Closed(Fits(count, sep, target)) && Splits(count, target, split)
    requires forall g :: g in groups ==> Allowed(Fits(count, sep, target), g)
    ensures Cost(count, target, split, groups) >= |groups| + Extra(count, target, Flatten(groups))
  {
    if groups != [] {
      var g := groups[0];
      assert g in groups;
      assert forall h :: h in groups[1..] ==> h in groups;
      CostAtLeast(count, sep, target, split, groups[1..]);
      ExtraConcat(count, target, g, Flatten(groups[1..]));
      ExtraOfGroup(count, sep, target, g);
      if Oversize(count, target, g) { SentencePackingMinimal(count, target, g[0], split(g[0])); }
    }
  }

  lemma {:induction false} RenderLength(count: Counter, sep: string, target: nat, groups: seq<seq<string>>)
    requires Closed(Fits(count, sep, target))
    requires forall g :: g in groups ==> Allowed(Fits(count, sep, target), g)
    ensures |Render(count, sep, target, SentencesOf(count, target), groups)| == |groups| + Extra(count, target, Flatten(groups))
  {
    if groups != [] {
      var g := groups[0];
      assert g in groups;
      assert forall h :: h in groups[1..] ==> h in groups;
      RenderLength(count, sep, target, groups[1..]);
      ExtraConcat(count, target, g, Flatten(groups[1..]));
      ExtraOfGroup(count, sep, target, g);
    }
  }

  /** No order preserving packing of a unit's paragraphs uses fewer chunks: not
      by grouping paragraphs otherwise, nor by splitting oversize ones otherwise. */
  lemma PackingMinimal(count: Counter, target: nat, paragraphs: seq<string>,
                       groups: seq<seq<string>>, split: string -> seq<seq<string>>)
    requires PartsFit(count, target) && Groups(Fits(count, "\n\n", target), groups, paragraphs) && Splits(count, target, split)
    ensures |PackParagraphs(count, target, paragraphs)| <= Cost(count, target, split, groups)
  {
    var fits := Fits(count, "\n\n", target);
    GreedyMinimal(fits, paragraphs, groups);
    GreedyGroups(fits, [], paragraphs);
    assert [] + paragraphs == paragraphs;
    EmitIsGreedy(count, "\n\n", target, SentencesOf(count, target), [], paragraphs);
    RenderLength(count, "\n\n", target, Greedy(fits, [], paragraphs));
    CostAtLeast(count, "\n\n", target, split, groups);
  }

  // ----- What may exceed the target -----

  lemma {:induction false} EmitOversize(count: Counter, sep: string, target: nat, expand: string -> seq<string>,
                                        open: seq<string>, xs: seq<string>, chunk: string)
    requires open == [] || count(Join(sep, open)) <= target
    requires chunk in Emit(count, sep, target, expand, open, xs) && count(chunk) > target
    ensures exists x :: x in xs && count(x) > target && chunk in expand(x)
    decreases |xs|
  {
    var x, rest := xs[0], xs[1..];
    assert Join(sep, [x]) == x;
    assert forall y :: y in rest ==> y in xs;
    if count(x) > target {
      if chunk !in expand(x) { EmitOversize(count, sep, target, expand, [], rest, chunk); }
    } else if count(Join(sep, open + [x])) <= target {
      EmitOversize(count, sep, target, expand, open + [x], rest, chunk);
    } else {
      EmitOversize(count, sep, target, expand, [x], rest, chunk);
    }
  }

  /** A chunk over the target is one single sentence of an oversize paragraph
      (or that paragraph, when it has no sentence), for any counter. */
  lemma OversizeChunkIsSingle(count: Counter, target: nat, paragraphs: seq<string>, chunk: string)
    requires chunk in PackParagraphs(count, target, paragraphs) && count(chunk) > target
    ensures exists p :: p in paragraphs && count(p) > target && chunk in SentenceUnits(p)
  {
    EmitOversize(count, "\n\n", target, SentencesOf(count, target), [], paragraphs, chunk);
    var p :| p in paragraphs && count(p) > target && chunk in PackSentences(count, target, p);
    if Sentences(p) != [] {
      EmitOversize(count, " ", target, Alone(), [], Sentences(p), chunk);
    }
  }
}
