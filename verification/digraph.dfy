/**
 The `nx.DiGraph` that `search_graph` builds from the merged graph: one
 vertex per merged node id, and one directed edge per merged relation whose
 endpoints are both merged ids. A repeated `(source, target)` pair keeps a
 single edge whose `relation` attribute is the one written last.
 */
module Digraph {
  import opened Json
  import opened Normalize
  import opened Merging

  datatype Edge = Edge(from: Json, to: Json)

  /** Vertices, and the `relation` attribute of each directed edge. Node
      attributes are never read back, so they are not kept. */
  datatype Digraph = Digraph(vertices: set<Json>, labels: map<Edge, Json>)

  /** Every edge joins two vertices. */
  predicate WellFormed(G: Digraph) {
    forall e :: e in G.labels ==> e.from in G.vertices && e.to in G.vertices
  }

  /** Relation `r` becomes edge `e` of a graph on `vertices`. */
  predicate Carries(vertices: set<Json>, r: Relation, e: Edge) {
    r.source == e.from && r.target == e.to && e.from in vertices && e.to in vertices
  }

  /** The `for r in relations: ... G.add_edge(...)` loop; later writes overwrite earlier ones. */
  function EdgeLabels(vertices: set<Json>, relations: seq<Relation>): (m: map<Edge, Json>)
    ensures forall e :: e in m ==> e.from in vertices && e.to in vertices
    decreases |relations|
  {
    if relations == [] then map[]
    else
      var m := EdgeLabels(vertices, relations[..|relations| - 1]);
      var r := relations[|relations| - 1];
      if r.source in vertices && r.target in vertices then m[Edge(r.source, r.target) := r.relation] else m
  }

  /** The graph of a merged `node_map` and `relations`. */
  function BuildGraph(g: Graph): (G: Digraph)
    ensures WellFormed(G)
    ensures forall v :: v in G.vertices <==> exists i :: 0 <= i < |g.nodes| && g.nodes[i].id == v
  {
    var vertices := set i | 0 <= i < |g.nodes| :: g.nodes[i].id;
    Digraph(vertices, EdgeLabels(vertices, g.relations))
  }

  /** An edge exists exactly when some relation carries it, and its label
      is that of the last relation that does. */
  lemma {:induction false} LastLabelWins(vertices: set<Json>, relations: seq<Relation>, e: Edge)
    ensures e in EdgeLabels(vertices, relations)
            <==> exists i :: 0 <= i < |relations| && Carries(vertices, relations[i], e)
    ensures e in EdgeLabels(vertices, relations) ==>
              exists i :: 0 <= i < |relations| && Carries(vertices, relations[i], e)
                          && EdgeLabels(vertices, relations)[e] == relations[i].relation
                          && forall j :: i < j < |relations| ==> !Carries(vertices, relations[j], e)
    decreases |relations|
  {
    if relations != [] {
      var n := |relations| - 1;
      var p := relations[..n];
      var r := relations[n];
      LastLabelWins(vertices, p, e);
      assert forall i :: 0 <= i < n ==> p[i] == relations[i];
      if Carries(vertices, r, e) {
        assert EdgeLabels(vertices, relations)[e] == r.relation;
      } else if e in EdgeLabels(vertices, relations) {
        assert EdgeLabels(vertices, relations)[e] == EdgeLabels(vertices, p)[e];
        var i :| 0 <= i < n && Carries(vertices, p[i], e)
                 && EdgeLabels(vertices, p)[e] == p[i].relation
                 && forall j :: i < j < n ==> !Carries(vertices, p[j], e);
        assert Carries(vertices, relations[i], e);
      } else {
        forall i | 0 <= i < |relations|
          ensures !Carries(vertices, relations[i], e)
        {
          if i < n {
            assert relations[i] == p[i];
          }
        }
      }
    }
  }

  /** Dropping relations whose endpoints are not merged ids: an edge joins
      two merged nodes and comes from some merged relation. */
  lemma EdgeOrigin(g: Graph, e: Edge)
    requires e in BuildGraph(g).labels
    ensures exists i :: 0 <= i < |g.relations| && g.relations[i].source == e.from && g.relations[i].target == e.to
                        && g.relations[i].relation == BuildGraph(g).labels[e]
    ensures (exists i :: 0 <= i < |g.nodes| && g.nodes[i].id == e.from)
            && (exists i :: 0 <= i < |g.nodes| && g.nodes[i].id == e.to)
  {
    var G := BuildGraph(g);
    LastLabelWins(G.vertices, g.relations, e);
  }
}
