/** Supersession edges of `infrastructure/index_store.py`: the depth first
    cycle check and the derivation of links from record snapshots. */
module Supersession {
  import opened Options

  /** (predecessor, successor). */
  type Edge = (string, string)

  datatype Color = Gray | Black   // a node without a color is white

  /** The problem list of the source: empty, one self link, or one cycle line. */
  datatype Verdict = Clean | SelfReference(node: string) | Cycle(nodes: set<string>)

  // ----- What a cycle is -----

  ghost predicate IsWalk(edges: seq<Edge>, w: seq<string>) {
    |w| >= 1 && forall i :: 0 <= i < |w| - 1 ==> (w[i], w[i + 1]) in edges
  }

  ghost predicate ClosedWalk(edges: seq<Edge>, w: seq<string>) {
    |w| >= 2 && IsWalk(edges, w) && w[0] == w[|w| - 1]
  }

  ghost predicate OnCycle(edges: seq<Edge>, node: string) {
    exists w :: ClosedWalk(edges, w) && node in w
  }

  ghost predicate Acyclic(edges: seq<Edge>) {
    forall w :: !ClosedWalk(edges, w)
  }

  /** Each successor has at most one predecessor. */
  ghost predicate SinglePredecessor(edges: seq<Edge>) {
    forall e, f :: e in edges && f in edges && e.1 == f.1 ==> e.0 == f.0
  }

  /** A back edge was recorded: a walk from `start` to `end` inside `involved`. */
  ghost predicate Recorded(edges: seq<Edge>, involved: set<string>, start: string, end: string) {
    exists w :: IsWalk(edges, w) && w[0] == start && w[|w| - 1] == end && forall x :: x in w ==> x in involved
  }

  ghost predicate Within(finished: seq<string>, finished': seq<string>) {
    forall x :: x in finished ==> x in finished'
  }

  ghost predicate Before(finished: seq<string>, node: string, i: int) {
    exists j :: 0 <= j < i && j < |finished| && finished[j] == node
  }

  /** Every edge out of a finished node goes to a node finished before it, or
      closes a walk that is in `involved`. */
  ghost predicate EdgesSettled(edges: seq<Edge>, finished: seq<string>, involved: set<string>) {
    forall i, n :: 0 <= i < |finished| && (finished[i], n) in edges ==>
      Before(finished, n, i) || Recorded(edges, involved, n, finished[i])
  }

  lemma RecordedGrows(edges: seq<Edge>, small: set<string>, large: set<string>, start: string, end: string)
    requires small <= large && Recorded(edges, small, start, end)
    ensures Recorded(edges, large, start, end)
  {
    var w :| IsWalk(edges, w) && w[0] == start && w[|w| - 1] == end && forall x :: x in w ==> x in small;
    assert IsWalk(edges, w);
  }

  /** The successors seen so far are finished or recorded as back edges. */
  ghost predicate Handled(edges: seq<Edge>, finished: seq<string>, involved: set<string>, node: string, successors: seq<string>) {
    forall n :: n in successors ==> n in finished || Recorded(edges, involved, n, node)
  }

  lemma HandledGrows(edges: seq<Edge>, finished: seq<string>, involved: set<string>, node: string,
                     successors: seq<string>, k: nat, finished': seq<string>, involved': set<string>)
    requires k < |successors| && Handled(edges, finished, involved, node, successors[..k])
    requires Within(finished, finished') && involved <= involved'
    requires successors[k] in finished' || Recorded(edges, involved', successors[k], node)
    ensures Handled(edges, finished', involved', node, successors[..k + 1])
  {
    assert successors[..k + 1] == successors[..k] + [successors[k]];
    forall n | n in successors[..k + 1] ensures n in finished' || Recorded(edges, involved', n, node) {
      if n != successors[k] && n !in finished {
        RecordedGrows(edges, involved, involved', n, node);
      }
    }
  }

  lemma SettledGrows(edges: seq<Edge>, finished: seq<string>, small: set<string>, large: set<string>)
    requires small <= large && EdgesSettled(edges, finished, small)
    ensures EdgesSettled(edges, finished, large)
  {
    forall i, n | 0 <= i < |finished| && (finished[i], n) in edges && !Before(finished, n, i)
      ensures Recorded(edges, large, n, finished[i])
    {
      RecordedGrows(edges, small, large, n, finished[i]);
    }
  }

  lemma SettledExtends(edges: seq<Edge>, finished: seq<string>, involved: set<string>, node: string)
    requires EdgesSettled(edges, finished, involved)
    requires forall n :: (node, n) in edges ==> n in finished || Recorded(edges, involved, n, node)
    ensures EdgesSettled(edges, finished + [node], involved)
  {
    var longer := finished + [node];
    forall i, n | 0 <= i < |longer| && (longer[i], n) in edges
      ensures Before(longer, n, i) || Recorded(edges, involved, n, longer[i])
    {
      if i < |finished| {
        assert longer[i] == finished[i];
        if Before(finished, n, i) {
          var j :| 0 <= j < i && j < |finished| && finished[j] == n;
          assert longer[j] == n;
        }
      } else if n in finished {
        var j :| 0 <= j < |finished| && finished[j] == n;
        assert longer[j] == n;
      }
    }
  }

  /** The stack from a gray node to the top closes with the edge back to it. */
  lemma BackEdgeCloses(edges: seq<Edge>, stack: seq<string>, start: nat)
    requires |stack| > 0 && IsWalk(edges, stack) && start < |stack|
    requires (stack[|stack| - 1], stack[start]) in edges
    ensures forall x :: x in stack[start..] ==> OnCycle(edges, x)
    ensures IsWalk(edges, stack[start..])
  {
    var segment := stack[start..];
    var w := segment + [stack[start]];
    forall i | 0 <= i < |w| - 1 ensures (w[i], w[i + 1]) in edges {
      assert w[i] == stack[start + i];
      if i < |segment| - 1 { assert w[i + 1] == stack[start + i + 1]; }
    }
    forall i | 0 <= i < |segment| - 1 ensures (segment[i], segment[i + 1]) in edges {
      assert segment[i] == w[i] && segment[i + 1] == w[i + 1];
    }
    assert ClosedWalk(edges, w);
    forall x | x in segment ensures OnCycle(edges, x) { assert x in w; }
  }

  /** The stack is the gray nodes, each once; the finished nodes are the black ones. */
  ghost predicate ColorsAgree(color: map<string, Color>, stack: seq<string>, finished: seq<string>) {
    && (forall i, j :: 0 <= i < j < |stack| ==> stack[i] != stack[j])
    && (forall x :: x in stack <==> x in color && color[x] == Gray)
    && (forall x :: x in finished <==> x in color && color[x] == Black)
  }

  lemma PopAgrees(color: map<string, Color>, below: seq<string>, node: string, finished: seq<string>)
    requires ColorsAgree(color, below + [node], finished)
    ensures ColorsAgree(color[node := Black], below, finished + [node])
  {
    var stack := below + [node];
    assert forall i :: 0 <= i < |below| ==> stack[i] == below[i];
    assert stack[|below|] == node;
  }

  lemma PopWalk(edges: seq<Edge>, below: seq<string>, node: string)
    requires IsWalk(edges, below + [node]) && |below| > 0
    ensures IsWalk(edges, below)
  {
    var stack := below + [node];
    assert forall i :: 0 <= i < |below| ==> stack[i] == below[i];
  }

  // ----- The search -----

  class CycleFinder {
    const edges: seq<Edge>
    const graph: map<string, seq<string>>
    ghost const nodes: set<string>
    var color: map<string, Color>
    var stack: seq<string>
    var involved: set<string>
    ghost var finished: seq<string>

    constructor (edges: seq<Edge>, graph: map<string, seq<string>>)
      requires Adjacency(edges, graph)
      ensures Valid() && this.edges == edges && this.graph == graph
      ensures color == map[] && stack == [] && involved == {} && finished == []
    {
      this.edges, this.graph := edges, graph;
      nodes := set e | e in edges :: e.1;
      color, stack, involved, finished := map[], [], {}, [];
    }

    ghost predicate Valid()
      reads this
    {
      && Adjacency(edges, graph)
      && nodes == (set e | e in edges :: e.1)
      && ColorsAgree(color, stack, finished)
      && (|stack| > 0 ==> IsWalk(edges, stack))
      && (forall x :: x in involved ==> OnCycle(edges, x))
      && EdgesSettled(edges, finished, involved)
    }

    /** `graph.get(node, ())`. */
    function Successors(node: string): seq<string> {
      if node in graph then graph[node] else []
    }

    /** The nested `visit`: color gray, walk the successors, color black. */
    method Visit(node: string)
      requires Valid() && node !in color
      requires |stack| > 0 ==> (stack[|stack| - 1], node) in edges
      modifies this
      ensures Valid() && stack == old(stack)
      ensures node in finished && Within(old(finished), finished)
      ensures old(involved) <= involved && old(color.Keys) <= color.Keys
      decreases |nodes - color.Keys - {node}|, 1
    {
      Push(node);
      assert nodes - color.Keys == nodes - old(color.Keys) - {node};
      VisitSuccessors(node, old(stack));
      Pop(node, old(stack));
    }

    method Push(node: string)
      requires Valid() && node !in color
      requires |stack| > 0 ==> (stack[|stack| - 1], node) in edges
      modifies this`color, this`stack
      ensures Valid() && stack == old(stack) + [node] && color.Keys == old(color.Keys) + {node}
    {
      color := color[node := Gray];
      stack := stack + [node];
    }

    method Pop(node: string, ghost below: seq<string>)
      requires Valid() && stack == below + [node]
      requires Handled(edges, finished, involved, node, Successors(node))
      modifies this`color, this`stack, this`finished
      ensures Valid() && stack == below && color.Keys == old(color.Keys) + {node}
      ensures node in finished && Within(old(finished), finished)
    {
      PopAgrees(color, below, node, finished);
      if |below| > 0 { PopWalk(edges, below, node); }
      stack := stack[..|stack| - 1];
      assert stack == below;
      color := color[node := Black];
      SettledExtends(edges, finished, involved, node);
      finished := finished + [node];
    }

    /** The loop over the successors of the node on top of the stack. */
    method VisitSuccessors(node: string, ghost below: seq<string>)
      requires Valid() && stack == below + [node]
      modifies this
      ensures Valid() && stack == old(stack)
      ensures Within(old(finished), finished) && old(involved) <= involved && old(color.Keys) <= color.Keys
      ensures Handled(edges, finished, involved, node, Successors(node))
      decreases |nodes - color.Keys|, 0
    {
      var successors := Successors(node);
      for k := 0 to |successors|
        invariant Valid() && stack == old(stack)
        invariant Within(old(finished), finished) && old(involved) <= involved && old(color.Keys) <= color.Keys
        invariant Handled(edges, finished, involved, node, successors[..k])
      {
        var next := successors[k];
        assert (node, next) in edges;
        ghost var before := involved;
        ghost var finishedBefore := finished;
        if next in color && color[next] == Gray {
          MarkSegment(next);
        } else if next !in color {
          assert next in nodes;
          FewerWhite(nodes, old(color.Keys), color.Keys, next);
          Visit(next);
        }
        HandledGrows(edges, finishedBefore, before, node, successors, k, finished, involved);
      }
      assert successors[..|successors|] == successors;
    }

    /** A gray successor: its stack segment joins `involved`. */
    method MarkSegment(next: string)
      requires Valid() && next in stack && (stack[|stack| - 1], next) in edges
      modifies this`involved
      ensures Valid() && old(involved) <= involved
      ensures Recorded(edges, involved, next, stack[|stack| - 1])
    {
      var start := IndexOf(stack, next);
      BackEdgeCloses(edges, stack, start);
      var segment := stack[start..];
      var grown := involved + (set x | x in segment) + {next};
      SettledGrows(edges, finished, involved, grown);
      assert Recorded(edges, grown, next, stack[|stack| - 1]) by {
        assert segment[0] == next && segment[|segment| - 1] == stack[|stack| - 1];
      }
      involved := grown;
    }
  }

  /** `stack.index(node)`. */
  method IndexOf(stack: seq<string>, node: string) returns (i: nat)
    requires node in stack
    ensures i < |stack| && stack[i] == node && node !in stack[..i]
  {
    i := 0;
    while stack[i] != node
      invariant i < |stack| && node !in stack[..i]
      decreases |stack| - i
    {
      i := i + 1;
    }
  }

  lemma FewerWhite(nodes: set<string>, before: set<string>, after: set<string>, next: string)
    requires before <= after && next in nodes && next !in after
    ensures |nodes - after - {next}| < |nodes - before|
  {
    assert nodes - after - {next} < nodes - before;
    ProperSubsetSmaller(nodes - after - {next}, nodes - before);
  }

  lemma ProperSubsetSmaller(a: set<string>, b: set<string>)
    requires a < b
    ensures |a| < |b|
  {
    assert b == a + (b - a);
  }

  /** `graph` maps each predecessor to its successors, as the edge list has them. */
  ghost predicate Adjacency(edges: seq<Edge>, graph: map<string, seq<string>>) {
    forall p, n :: (p, n) in edges <==> p in graph && n in graph[p]
  }

  /** The `setdefault(...).append(...)` loop, with the insertion order of keys. */
  method BuildGraph(edges: seq<Edge>) returns (graph: map<string, seq<string>>, order: seq<string>)
    ensures Adjacency(edges, graph)
    ensures forall p :: p in order <==> p in graph
  {
    graph, order := map[], [];
    for i := 0 to |edges|
      invariant Adjacency(edges[..i], graph)
      invariant forall p :: p in order <==> p in graph
    {
      var (predecessor, successor) := edges[i];
      if predecessor !in graph {
        graph := graph[predecessor := []];
        order := order + [predecessor];
      }
      graph := graph[predecessor := graph[predecessor] + [successor]];
      assert edges[..i + 1] == edges[..i] + [edges[i]];
    }
    assert edges[..|edges|] == edges;
  }

  // ----- Why the finished order decides -----

  ghost function FirstIndex(finished: seq<string>, node: string): (i: nat)
    requires node in finished
    ensures i < |finished| && finished[i] == node && node !in finished[..i]
  {
    if finished[0] == node then 0 else
      assert finished == [finished[0]] + finished[1..];
      1 + FirstIndex(finished[1..], node)
  }

  /** A closed walk over settled edges contains a recorded back edge. */
  lemma ClosedWalkHasBackEdge(edges: seq<Edge>, finished: seq<string>, involved: set<string>, w: seq<string>) returns (i: nat)
    requires EdgesSettled(edges, finished, involved) && ClosedWalk(edges, w)
    requires forall x :: x in w ==> x in finished
    ensures i < |w| - 1 && Recorded(edges, involved, w[i + 1], w[i])
  {
    i := 0;
    while i < |w| - 1 && FirstIndex(finished, w[i + 1]) < FirstIndex(finished, w[i])
      invariant 0 <= i < |w|
      invariant FirstIndex(finished, w[i]) + i <= FirstIndex(finished, w[0])
    {
      i := i + 1;
    }
    if i < |w| - 1 {
      var at := FirstIndex(finished, w[i]);
      assert (finished[at], w[i + 1]) in edges;
      assert !Before(finished, w[i + 1], at);
    }
  }

  /** With single predecessors, the recorded walk under a back edge of `w`
      already holds every node of `w`. */
  lemma BackEdgeCoversWalk(edges: seq<Edge>, involved: set<string>, w: seq<string>, i: nat)
    requires SinglePredecessor(edges) && ClosedWalk(edges, w)
    requires i < |w| - 1 && Recorded(edges, involved, w[i + 1], w[i])
    ensures forall x :: x in w ==> x in involved
  {
    var u :| IsWalk(edges, u) && u[0] == w[i + 1] && u[|u| - 1] == w[i] && forall x :: x in u ==> x in involved;
    forall q, x | x in u && (q, x) in edges ensures q in u {
      var k :| 0 <= k < |u| && u[k] == x;
      if k == 0 { assert (w[i], w[i + 1]) in edges; } else { assert (u[k - 1], u[k]) in edges; }
    }
    BackwardClosed(edges, w, i, u);
    assert w[|w| - 1] == w[0];
    BackwardClosed(edges, w, |w| - 1, u);
  }

  lemma {:induction false} BackwardClosed(edges: seq<Edge>, w: seq<string>, i: nat, u: seq<string>)
    requires IsWalk(edges, w) && i < |w| && w[i] in u
    requires forall q, x :: x in u && (q, x) in edges ==> q in u
    ensures forall k :: 0 <= k <= i ==> w[k] in u
    decreases i
  {
    if i > 0 {
      assert (w[i - 1], w[i]) in edges;
      BackwardClosed(edges, w, i - 1, u);
    }
  }

  lemma CycleNodesHaveEdges(edges: seq<Edge>, w: seq<string>, x: string)
    requires ClosedWalk(edges, w) && x in w
    ensures exists n :: (x, n) in edges
  {
    var k :| 0 <= k < |w| && w[k] == x;
    if k == |w| - 1 { assert (w[0], w[1]) in edges; } else { assert (w[k], w[k + 1]) in edges; }
  }

  /** After a complete search: nothing involved exactly when acyclic, and with
      single predecessors everything on a cycle is involved. */
  lemma CompleteSearch(edges: seq<Edge>, finished: seq<string>, involved: set<string>)
    requires EdgesSettled(edges, finished, involved)
    requires forall x :: x in involved ==> OnCycle(edges, x)
    requires forall e :: e in edges ==> e.0 in finished
    ensures involved == {} <==> Acyclic(edges)
    ensures SinglePredecessor(edges) ==> forall x :: x in involved <==> OnCycle(edges, x)
  {
    forall w | ClosedWalk(edges, w)
      ensures involved != {}
      ensures SinglePredecessor(edges) ==> forall x :: x in w ==> x in involved
    {
      forall x | x in w ensures x in finished {
        CycleNodesHaveEdges(edges, w, x);
        var n :| (x, n) in edges;
        assert (x, n).0 in finished;
      }
      var i := ClosedWalkHasBackEdge(edges, finished, involved, w);
      var u :| IsWalk(edges, u) && u[0] == w[i + 1] && u[|u| - 1] == w[i] && forall x :: x in u ==> x in involved;
      assert u[0] in involved;
      if SinglePredecessor(edges) { BackEdgeCoversWalk(edges, involved, w, i); }
    }
    if involved != {} {
      var x :| x in involved;
      assert OnCycle(edges, x);
    }
  }

  // ----- `_validate_supersession_edges` -----

  method ValidateEdges(edges: seq<Edge>) returns (verdict: Verdict)
    ensures verdict.Clean? <==> Acyclic(edges)
    ensures verdict.SelfReference? ==> (verdict.node, verdict.node) in edges
    ensures verdict.SelfReference? <==> exists x :: (x, x) in edges
    ensures verdict.Cycle? ==> verdict.nodes != {} && forall x :: x in verdict.nodes ==> OnCycle(edges, x)
    ensures verdict.Cycle? && SinglePredecessor(edges) ==> forall x :: x in verdict.nodes <==> OnCycle(edges, x)
  {
    for i := 0 to |edges|
      invariant forall j :: 0 <= j < i ==> edges[j].0 != edges[j].1
    {
      var (predecessor, successor) := edges[i];
      if predecessor == successor {
        assert ClosedWalk(edges, [successor, successor]) by { assert (successor, successor) == edges[i]; }
        return SelfReference(successor);
      }
    }
    assert forall x :: (x, x) !in edges;
    var graph, order := BuildGraph(edges);
    var finder := new CycleFinder(edges, graph);
    for i := 0 to |order|
      invariant finder.Valid() && finder.edges == edges && finder.stack == []
      invariant forall j :: 0 <= j < i ==> order[j] in finder.finished
    {
      if order[i] !in finder.color {
        finder.Visit(order[i]);
      }
    }
    forall e | e in edges ensures e.0 in finder.finished {
      assert (e.0, e.1) in edges;
    }
    CompleteSearch(edges, finder.finished, finder.involved);
    if finder.involved != {} {
      return Cycle(finder.involved);
    }
    return Clean;
  }

  // ----- `derive_supersessions` -----

  /** The snapshot table and the link table of one open generation. */
  class LinkTable {
    var snapshots: map<string, Option<string>>   // record id to the id it supersedes
    var links: set<Edge>

    constructor (snapshots: map<string, Option<string>>, links: set<Edge>)
      ensures this.snapshots == snapshots && this.links == links
    {
      this.snapshots, this.links := snapshots, links;
    }

    ghost predicate IsEdge(predecessor: string, successor: string)
      reads this
    {
      successor in snapshots && snapshots[successor] == Some(predecessor)
    }

    /** Links are rewritten from the snapshots, or left alone on a problem; the
        problem names exactly the records on a supersession cycle. */
    method DeriveSupersessions() returns (verdict: Verdict, ghost edges: seq<Edge>)
      modifies this`links
      ensures forall p, s :: (p, s) in edges <==> IsEdge(p, s)
      ensures verdict.Clean? <==> Acyclic(edges)
      ensures verdict.Clean? ==> forall p, s :: (p, s) in links <==> IsEdge(p, s)
      ensures !verdict.Clean? ==> links == old(links)
      ensures verdict.SelfReference? <==> exists x :: (x, x) in edges
      ensures verdict.Cycle? ==> forall x :: x in verdict.nodes <==> OnCycle(edges, x)
    {
      var rows := Rows();
      edges := rows;
      verdict := ValidateEdges(rows);
      if !verdict.Clean? {
        return;
      }
      links := set e | e in rows;
    }

    /** The select over `record_snapshot`, in whatever order the table yields. */
    method Rows() returns (edges: seq<Edge>)
      ensures forall p, s :: (p, s) in edges <==> IsEdge(p, s)
      ensures SinglePredecessor(edges)
    {
      edges := [];
      var todo := snapshots.Keys;
      while todo != {}
        invariant todo <= snapshots.Keys
        invariant forall p, s :: (p, s) in edges <==> IsEdge(p, s) && s !in todo
      {
        var record :| record in todo;
        todo := todo - {record};
        if snapshots[record].Some? {
          edges := edges + [(snapshots[record].value, record)];
        }
      }
    }
  }
}
