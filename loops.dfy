/**
 * The loop check of the declared network (`checkNetworkForLoops` with its
 * inner `loopFinder`): a depth-first search over the parent-to-child edges
 * that keeps the path from the start node and a memo of nodes known to lead
 * to no loop, and reports the path on which it first meets a node again.
 */
module Loops {
  import opened Basics
  import opened Declarations

  /** The parent-to-child edges, by node name. */
  type Graph = map<string, seq<string>>

  /** The children of every node, as the edges made them. */
  function ChildGraph(nodes: map<string, Node>): (g: Graph)
    ensures g.Keys == nodes.Keys
    ensures forall n :: n in g ==> g[n] == nodes[n].children
  {
    map n | n in nodes :: nodes[n].children
  }

  /** Every child is a node. */
  ghost predicate Closed(g: Graph) {
    forall n :: n in g ==> forall c :: c in g[n] ==> c in g
  }

  /** A non-empty sequence of nodes, each a child of the one before. */
  ghost predicate IsWalk(g: Graph, p: seq<string>) {
    |p| > 0
    && (forall k :: 0 <= k < |p| ==> p[k] in g)
    && (forall k :: 0 <= k < |p| - 1 ==> p[k + 1] in g[p[k]])
  }

  /** A walk whose last node has an edge back to its first: a directed cycle (a self-loop is one of length 1). */
  ghost predicate Cycle(g: Graph, p: seq<string>) {
    IsWalk(g, p) && p[0] in g[p[|p| - 1]]
  }

  /** A walk whose last node has an edge back to some node on it. */
  ghost predicate Lasso(g: Graph, p: seq<string>) {
    IsWalk(g, p) && exists k :: 0 <= k < |p| && p[k] in g[p[|p| - 1]]
  }

  ghost predicate HasCycle(g: Graph) {
    exists p :: Cycle(g, p)
  }

  /** Some walk from `x` runs into a loop. */
  ghost predicate ReachesLoop(g: Graph, x: string) {
    exists p :: Lasso(g, p) && p[0] == x
  }

  /** `visited` is empty or a walk whose last node has an edge to `x`. */
  ghost predicate PathInto(g: Graph, visited: seq<string>, x: string) {
    x in g && (|visited| > 0 ==> IsWalk(g, visited) && x in g[visited[|visited| - 1]])
  }

  /** Linked nodes make a graph whose children are all nodes. */
  lemma ChildGraphClosed(nodes: map<string, Node>)
    requires Linked(nodes)
    ensures Closed(ChildGraph(nodes))
  {
  }

  lemma WalkExtend(g: Graph, visited: seq<string>, x: string)
    requires PathInto(g, visited, x)
    ensures IsWalk(g, visited + [x])
  {
    var p := visited + [x];
    forall k | 0 <= k < |p| - 1
      ensures p[k + 1] in g[p[k]]
    {
      if k + 1 < |visited| {
        assert p[k] == visited[k] && p[k + 1] == visited[k + 1];
      }
    }
  }

  /** The part of a lasso from the node it returns to is a cycle. */
  lemma LassoCycle(g: Graph, p: seq<string>)
    requires Lasso(g, p)
    ensures HasCycle(g)
  {
    var k :| 0 <= k < |p| && p[k] in g[p[|p| - 1]];
    var q := p[k..];
    forall j | 0 <= j < |q| - 1
      ensures q[j + 1] in g[q[j]]
    {
      assert q[j] == p[k + j] && q[j + 1] == p[k + j + 1];
    }
    assert q[|q| - 1] == p[|p| - 1];
    assert Cycle(g, q);
  }

  /** A node on a cycle runs into a loop. */
  lemma CycleReachesLoop(g: Graph, p: seq<string>)
    requires Cycle(g, p)
    ensures ReachesLoop(g, p[0])
  {
    assert Lasso(g, p);
  }

  /** A walk from `x` into a loop goes on through a child of `x` that runs into a loop too. */
  lemma ChildReachesLoop(g: Graph, x: string)
    requires ReachesLoop(g, x)
    ensures x in g && exists c :: c in g[x] && ReachesLoop(g, c)
  {
    var p :| Lasso(g, p) && p[0] == x;
    var n := |p|;
    var k :| 0 <= k < n && p[k] in g[p[n - 1]];
    if n == 1 {
      assert x in g[x] && Lasso(g, p);
    } else {
      var q := p[1..];
      assert p[1] in g[x];
      assert IsWalk(g, q) by {
        forall j | 0 <= j < |q| - 1
          ensures q[j + 1] in g[q[j]]
        {
          assert q[j] == p[j + 1] && q[j + 1] == p[j + 2];
        }
      }
      if k >= 1 {
        assert q[k - 1] in g[q[|q| - 1]];
        assert Lasso(g, q) && q[0] == p[1];
      } else {
        WalkExtend(g, q, x);
        var r := q + [x];
        assert r[0] in g[r[|r| - 1]];
        assert Lasso(g, r) && r[0] == p[1];
      }
    }
  }

  /** A node none of whose children runs into a loop does not run into one either (in particular a leaf). */
  lemma NoChildLoop(g: Graph, x: string)
    requires x in g && forall c :: c in g[x] ==> !ReachesLoop(g, c)
    ensures !ReachesLoop(g, x)
  {
    if ReachesLoop(g, x) {
      ChildReachesLoop(g, x);
    }
  }

  /** A graph has a cycle exactly when some node runs into a loop. */
  lemma CycleIffLoop(g: Graph)
    ensures HasCycle(g) <==> exists x :: x in g && ReachesLoop(g, x)
  {
    if HasCycle(g) {
      var p :| Cycle(g, p);
      CycleReachesLoop(g, p);
      assert p[0] in g;
    }
    if exists x :: x in g && ReachesLoop(g, x) {
      var x :| x in g && ReachesLoop(g, x);
      var p :| Lasso(g, p) && p[0] == x;
      LassoCycle(g, p);
    }
  }

  /** The state of one loop check: the memo `checkedNodes` and the reported `loopingPath`. */
  class LoopFinder {
    const graph: Graph
    var checked: seq<string>
    var loopingPath: Option<seq<string>>

    constructor (graph: Graph)
      ensures this.graph == graph && checked == [] && loopingPath == None
    {
      this.graph := graph;
      checked := [];
      loopingPath := None;
    }

    /** Every memoised node is on the current path or runs into no loop. */
    ghost predicate Memo(visited: seq<string>)
      reads this
    {
      forall c :: c in checked ==> c in visited || !ReachesLoop(graph, c)
    }

    /**
     * `loopFinder(node, visitedNodes)`: a loop is reported, with the path
     * from the start node that ran into it, or else `x` runs into no loop.
     */
    method Find(x: string, visited: seq<string>) returns (hasLoop: bool)
      requires Closed(graph) && Distinct(visited) && PathInto(graph, visited, x) && Memo(visited)
      modifies this
      ensures hasLoop ==>
        loopingPath.Some? && Lasso(graph, loopingPath.value) && Distinct(loopingPath.value)
        && |visited| <= |loopingPath.value| && loopingPath.value[..|visited|] == visited
      ensures !hasLoop ==> !ReachesLoop(graph, x) && Memo(visited) && loopingPath == old(loopingPath)
      decreases |graph.Keys| - |visited|
    {
      if x in visited {
        loopingPath := Some(visited);
        assert visited[..|visited|] == visited;
        return true;
      }
      if x in checked {
        return false;
      }
      var path := visited + [x];
      WalkExtend(graph, visited, x);
      DistinctLengthBound(path, graph.Keys);
      var children := graph[x];
      if |children| == 0 {
        checked := checked + path;
        NoChildLoop(graph, x);
        return false;
      }
      var i := 0;
      while i < |children|
        invariant 0 <= i <= |children|
        invariant Memo(path) && loopingPath == old(loopingPath)
        invariant forall j :: 0 <= j < i ==> !ReachesLoop(graph, children[j])
      {
        hasLoop := Find(children[i], path);
        if hasLoop {
          assert loopingPath.value[..|visited|] == path[..|visited|];
          return true;
        }
        i := i + 1;
      }
      NoChildLoop(graph, x);
      return false;
    }

    /** The outer loop of `checkNetworkForLoops`: start a search at every node in declaration order. */
    method FindAny(order: seq<string>) returns (hasLoop: bool)
      requires Closed(graph) && checked == [] && loopingPath == None
      requires forall n :: n in order <==> n in graph
      modifies this
      ensures hasLoop <==> HasCycle(graph)
      ensures hasLoop ==> loopingPath.Some? && Lasso(graph, loopingPath.value) && Distinct(loopingPath.value)
    {
      var i := 0;
      while i < |order|
        invariant 0 <= i <= |order|
        invariant Memo([])
        invariant forall j :: 0 <= j < i ==> !ReachesLoop(graph, order[j])
      {
        hasLoop := Find(order[i], []);
        if hasLoop {
          LassoCycle(graph, loopingPath.value);
          return true;
        }
        i := i + 1;
      }
      CycleIffLoop(graph);
      assert forall x :: x in graph ==> !ReachesLoop(graph, x) by {
        forall x | x in graph
          ensures !ReachesLoop(graph, x)
        {
          var j :| 0 <= j < |order| && order[j] == x;
        }
      }
      return false;
    }
  }

  /**
   * `checkNetworkForLoops`: the looping path is reported exactly when the
   * parent-to-child edges contain a directed cycle; it is a path without
   * repetitions whose last node has an edge back to a node on it.
   */
  method CheckNetworkForLoops(nodes: map<string, Node>, order: seq<string>) returns (loopingPath: Option<seq<string>>)
    requires Linked(nodes) && forall n :: n in order <==> n in nodes
    ensures loopingPath.Some? <==> HasCycle(ChildGraph(nodes))
    ensures loopingPath.Some? ==> Lasso(ChildGraph(nodes), loopingPath.value) && Distinct(loopingPath.value)
  {
    ChildGraphClosed(nodes);
    var finder := new LoopFinder(ChildGraph(nodes));
    var hasLoop := finder.FindAny(order);
    loopingPath := if hasLoop then finder.loopingPath else None;
  }
}
