/**
 The breadth-first expansion of `search_graph`. The queue holds
 `(node, depth)` pairs and has no visited set, so a node is re-queued once
 per walk that reaches it; only the sets it fills matter. A pair at depth
 `d < hops` adds every successor and predecessor, and the edge joining them,
 so the nodes reached are those at the end of an undirected walk of at most
 `hops` steps from a seed, and the edges are those touching a node within
 `hops - 1` steps.
 */
module Traverse {
  import opened Json
  import opened Normalize
  import opened Digraph

  /** `a` and `b` are joined by an edge in either direction. */
  predicate Adjacent(G: Digraph, a: Json, b: Json) {
    Edge(a, b) in G.labels || Edge(b, a) in G.labels
  }

  /** `G.successors(u)` and `G.predecessors(u)` of every `u` in `S`. */
  function Neighbours(G: Digraph, S: set<Json>): (r: set<Json>)
    ensures forall v :: v in r <==> exists u :: u in S && Adjacent(G, u, v)
  {
    var out := set e | e in G.labels && e.from in S :: e.to;
    var back := set e | e in G.labels && e.to in S :: e.from;
    assert forall u, v :: u in S && Edge(u, v) in G.labels ==> v in out;
    assert forall u, v :: u in S && Edge(v, u) in G.labels ==> v in back;
    out + back
  }

  /** The nodes queued at depth `d`. */
  function Level(G: Digraph, start: set<Json>, d: nat): set<Json> {
    if d == 0 then start else Neighbours(G, Level(G, start, d - 1))
  }

  /** The nodes queued at some depth up to `d`. */
  function Ball(G: Digraph, start: set<Json>, d: nat): set<Json> {
    if d == 0 then start else Ball(G, start, d - 1) + Level(G, start, d)
  }

  /** The edge triples touching `S`, each with its `relation` attribute. */
  function Incident(G: Digraph, S: set<Json>): (r: set<Relation>)
    ensures forall e :: e in G.labels && (e.from in S || e.to in S) ==> Relation(e.from, e.to, G.labels[e]) in r
    ensures forall t :: t in r ==> Edge(t.source, t.target) in G.labels && t.relation == G.labels[Edge(t.source, t.target)]
    ensures forall t :: t in r ==> t.source in S || t.target in S
  {
    set e | e in G.labels && (e.from in S || e.to in S) :: Relation(e.from, e.to, G.labels[e])
  }

  /** The edges recorded while expanding depths `0 .. d - 1`. */
  function EdgesBelow(G: Digraph, start: set<Json>, d: nat): set<Relation> {
    if d == 0 then {} else EdgesBelow(G, start, d - 1) + Incident(G, Level(G, start, d - 1))
  }

  /** The seeds that are vertices (`if s in G`): depth 0. */
  function Start(G: Digraph, seeds: set<Json>): (r: set<Json>)
    ensures forall v :: v in r <==> v in seeds && v in G.vertices
  {
    set s | s in seeds && s in G.vertices
  }

  /** `traversed_nodes` once the queue is empty: every seed in the graph,
      and nothing outside the graph. */
  function TraversedNodes(G: Digraph, seeds: set<Json>, hops: int): (r: set<Json>)
    ensures Start(G, seeds) <= r
    ensures WellFormed(G) ==> r <= G.vertices
  {
    if hops <= 0 then Start(G, seeds)
    else
      BallBounds(G, Start(G, seeds), hops);
      Ball(G, Start(G, seeds), hops)
  }

  /** `traversed_edges` once the queue is empty: nothing without a step,
      and every recorded edge joins two traversed nodes. */
  function TraversedEdges(G: Digraph, seeds: set<Json>, hops: int): (r: set<Relation>)
    ensures hops <= 0 ==> r == {}
    ensures forall t :: t in r ==> t.source in TraversedNodes(G, seeds, hops) && t.target in TraversedNodes(G, seeds, hops)
  {
    if hops <= 0 then {}
    else
      EdgesBelowJoinBall(G, Start(G, seeds), hops);
      EdgesBelow(G, Start(G, seeds), hops)
  }

  /** The ball holds its start, and stays in a well-formed graph. */
  lemma BallBounds(G: Digraph, start: set<Json>, d: nat)
    ensures start <= Ball(G, start, d)
    ensures WellFormed(G) && start <= G.vertices ==> Ball(G, start, d) <= G.vertices
  {
    StartInBall(G, start, d);
    if WellFormed(G) && start <= G.vertices {
      BallInGraph(G, start, d);
    }
  }

  lemma {:induction false} StartInBall(G: Digraph, start: set<Json>, d: nat)
    ensures start <= Ball(G, start, d)
  {
    if d > 0 {
      StartInBall(G, start, d - 1);
    }
  }

  /** An edge recorded while expanding a node at depth below `d` joins two
      nodes within `d` steps: the expanded node and the neighbour it queues. */
  lemma {:induction false} EdgesBelowJoinBall(G: Digraph, start: set<Json>, d: nat)
    ensures forall t :: t in EdgesBelow(G, start, d) ==> t.source in Ball(G, start, d) && t.target in Ball(G, start, d)
  {
    if d > 0 {
      EdgesBelowJoinBall(G, start, d - 1);
      var L := Level(G, start, d - 1);
      assert L <= Ball(G, start, d - 1);
      forall t | t in Incident(G, L)
        ensures t.source in Ball(G, start, d) && t.target in Ball(G, start, d)
      {
        assert Edge(t.source, t.target) in G.labels;
        if t.source in L {
          assert Adjacent(G, t.source, t.target);
          assert t.target in Level(G, start, d);
        } else {
          assert Adjacent(G, t.target, t.source);
          assert t.source in Level(G, start, d);
        }
      }
    }
  }

  /** The traversal, one depth at a time: the frontier is the set of nodes
      queued at the current depth. */
  method Expand(G: Digraph, seeds: set<Json>, hops: int) returns (nodes: set<Json>, edges: set<Relation>)
    ensures nodes == TraversedNodes(G, seeds, hops)
    ensures edges == TraversedEdges(G, seeds, hops)
  {
    var start := Start(G, seeds);
    var frontier := start;
    nodes := start;
    edges := {};
    var d: nat := 0;
    while d < hops
      invariant d == 0 || d <= hops
      invariant frontier == Level(G, start, d)
      invariant nodes == Ball(G, start, d)
      invariant edges == EdgesBelow(G, start, d)
      decreases hops - d
    {
      edges := edges + Incident(G, frontier);
      frontier := Neighbours(G, frontier);
      nodes := nodes + frontier;
      d := d + 1;
    }
  }

  /** An undirected walk: consecutive vertices are adjacent. */
  predicate IsWalk(G: Digraph, w: seq<Json>) {
    |w| >= 1 && forall i :: 0 <= i < |w| - 1 ==> Adjacent(G, w[i], w[i + 1])
  }

  /** `w` walks from a start node to `v`. */
  predicate WalkTo(G: Digraph, start: set<Json>, w: seq<Json>, v: Json) {
    IsWalk(G, w) && w[0] in start && w[|w| - 1] == v
  }

  lemma ExtendWalk(G: Digraph, start: set<Json>, w: seq<Json>, u: Json, v: Json)
    requires WalkTo(G, start, w, u) && Adjacent(G, u, v)
    ensures WalkTo(G, start, w + [v], v)
  {
    var w' := w + [v];
    forall i | 0 <= i < |w'| - 1
      ensures Adjacent(G, w'[i], w'[i + 1])
    {
      assert w'[i] == w[i];
      if i + 1 < |w| {
        assert w'[i + 1] == w[i + 1];
      }
    }
  }

  /** Every node queued at depth `d` ends a walk of `d` steps from the start. */
  lemma {:induction false} LevelHasWalk(G: Digraph, start: set<Json>, d: nat, v: Json)
    requires v in Level(G, start, d)
    ensures exists w :: |w| == d + 1 && WalkTo(G, start, w, v)
  {
    if d == 0 {
      assert WalkTo(G, start, [v], v);
    } else {
      var u :| u in Level(G, start, d - 1) && Adjacent(G, u, v);
      LevelHasWalk(G, start, d - 1, u);
      var w :| |w| == d && WalkTo(G, start, w, u);
      ExtendWalk(G, start, w, u, v);
    }
  }

  /** The end of every walk of `d` steps from the start is queued at depth `d`. */
  lemma {:induction false} WalkReachesLevel(G: Digraph, start: set<Json>, w: seq<Json>, v: Json)
    requires WalkTo(G, start, w, v)
    ensures v in Level(G, start, |w| - 1)
    decreases |w|
  {
    var d := |w| - 1;
    if d > 0 {
      var u := w[d - 1];
      var p := w[..d];
      assert forall i :: 0 <= i < d ==> p[i] == w[i];
      assert WalkTo(G, start, p, u);
      WalkReachesLevel(G, start, p, u);
      assert Adjacent(G, u, v);
    }
  }

  /** Depth `d` holds exactly the ends of walks of `d` steps from the start. */
  lemma LevelIsWalkEnds(G: Digraph, start: set<Json>, d: nat, v: Json)
    ensures v in Level(G, start, d) <==> exists w :: |w| == d + 1 && WalkTo(G, start, w, v)
  {
    if v in Level(G, start, d) {
      LevelHasWalk(G, start, d, v);
    }
    if exists w :: |w| == d + 1 && WalkTo(G, start, w, v) {
      var w :| |w| == d + 1 && WalkTo(G, start, w, v);
      WalkReachesLevel(G, start, w, v);
    }
  }

  /** The nodes within `d` steps are those reached by some walk of at most `d` steps. */
  lemma {:induction false} BallIsNearWalkEnds(G: Digraph, start: set<Json>, d: nat, v: Json)
    ensures v in Ball(G, start, d) <==> exists w :: 1 <= |w| <= d + 1 && WalkTo(G, start, w, v)
  {
    LevelIsWalkEnds(G, start, d, v);
    if d > 0 {
      BallIsNearWalkEnds(G, start, d - 1, v);
      if exists w :: 1 <= |w| <= d + 1 && WalkTo(G, start, w, v) {
        var w :| 1 <= |w| <= d + 1 && WalkTo(G, start, w, v);
        if |w| <= d {
          assert v in Ball(G, start, d - 1);
        } else {
          assert v in Level(G, start, d);
        }
      }
    }
  }

  /** A traversed node is a seed in the graph or at the end of a walk of at
      most `hops` steps from one; the seeds in the graph are always traversed. */
  lemma TraversedNodesAreNear(G: Digraph, seeds: set<Json>, hops: int, v: Json)
    ensures v in TraversedNodes(G, seeds, hops)
            <==> exists w :: 1 <= |w| <= (if hops <= 0 then 1 else hops + 1) && WalkTo(G, Start(G, seeds), w, v)
  {
    var start := Start(G, seeds);
    if hops <= 0 {
      BallIsNearWalkEnds(G, start, 0, v);
    } else {
      BallIsNearWalkEnds(G, start, hops, v);
    }
  }

  lemma {:induction false} LevelInGraph(G: Digraph, start: set<Json>, d: nat)
    requires WellFormed(G)
    requires start <= G.vertices
    ensures Level(G, start, d) <= G.vertices
  {
    if d > 0 {
      LevelInGraph(G, start, d - 1);
    }
  }

  /** The traversal never leaves the graph. */
  lemma {:induction false} BallInGraph(G: Digraph, start: set<Json>, d: nat)
    requires WellFormed(G)
    requires start <= G.vertices
    ensures start <= Ball(G, start, d) <= G.vertices
  {
    if d > 0 {
      BallInGraph(G, start, d - 1);
      LevelInGraph(G, start, d);
    }
  }

  lemma {:induction false} IncidentUnion(G: Digraph, A: set<Json>, B: set<Json>)
    ensures Incident(G, A + B) == Incident(G, A) + Incident(G, B)
  {
  }

  /** The edges recorded by depth `d` are those touching a node within `d - 1` steps. */
  lemma {:induction false} EdgesBelowTouchBall(G: Digraph, start: set<Json>, d: nat)
    requires d >= 1
    ensures EdgesBelow(G, start, d) == Incident(G, Ball(G, start, d - 1))
  {
    if d > 1 {
      EdgesBelowTouchBall(G, start, d - 1);
      IncidentUnion(G, Ball(G, start, d - 2), Level(G, start, d - 1));
    }
  }

  /** A traversed edge triple is an edge of `G` carrying its own label that
      touches a node within `hops - 1` steps; with `hops <= 0` no edge is traversed. */
  lemma TraversedEdgesTouchBall(G: Digraph, seeds: set<Json>, hops: int)
    ensures hops <= 0 ==> TraversedEdges(G, seeds, hops) == {}
    ensures hops > 0 ==> TraversedEdges(G, seeds, hops) == Incident(G, Ball(G, Start(G, seeds), hops - 1))
  {
    if hops > 0 {
      EdgesBelowTouchBall(G, Start(G, seeds), hops);
    }
  }

  /** With no seed in the graph nothing is reached and no edge is recorded. */
  lemma {:induction false} EmptyStartReachesNothing(G: Digraph, d: nat)
    ensures Level(G, {}, d) == {} && Ball(G, {}, d) == {} && EdgesBelow(G, {}, d) == {}
  {
    if d > 0 {
      EmptyStartReachesNothing(G, d - 1);
    }
  }
}
