/**
 The merge loops of `aggregated_graph` (and, on the top hits only, of
 `search_graph`): every document's nodes are normalised and kept first
 writer wins by id in `node_map`; its relations are normalised and kept
 once per `(source, target, relation)` triple in `relation_set`. A dict key
 or set member that is a list or a dict raises `TypeError`, which aborts
 the whole request.
 */
module Merging {
  import opened Results
  import opened Json
  import opened Store
  import opened Normalize
  import opened Dedup

  /** The merged graph: `node_map` values in insertion order and the `relations` list. */
  datatype Graph = Graph(nodes: seq<Node>, relations: seq<Relation>)

  const EmptyGraph := Graph([], [])

  /** `node_map` is keyed by node id. */
  function NodeKey(n: Node): Json {
    n.id
  }

  /** `relation_set` is keyed by the whole triple. */
  function RelKey(r: Relation): Relation {
    r
  }

  /** A raw node that survives `if not nn or not nn.get('id'): continue`. */
  function NodeCandidate(variant: Variant, raw: Json): (r: Option<Node>)
    ensures r.Some? <==> NormalizeNode(variant, raw).Some? && Truthy(NormalizeNode(variant, raw).value.id)
    ensures r.Some? ==> r.value == NormalizeNode(variant, raw).value
  {
    match NormalizeNode(variant, raw)
    case Some(n) => if Truthy(n.id) then Some(n) else None
    case None => None
  }

  /** A raw relation that survives the `source`/`target` truthiness filter. */
  function RelCandidate(variant: Variant, raw: Json): (r: Option<Relation>)
    ensures r.Some? <==> NormalizeRelation(variant, raw).Some?
                         && Truthy(NormalizeRelation(variant, raw).value.source)
                         && Truthy(NormalizeRelation(variant, raw).value.target)
    ensures r.Some? ==> r.value == NormalizeRelation(variant, raw).value
  {
    match NormalizeRelation(variant, raw)
    case Some(rel) => if Truthy(rel.source) && Truthy(rel.target) then Some(rel) else None
    case None => None
  }

  /** The candidates of a list of raw nodes, in order: every kept node is
      the candidate of some raw node, and every raw node that has a
      candidate contributes it. */
  function NodeCandidates(variant: Variant, raws: seq<Json>): (r: seq<Node>)
    ensures forall n :: n in r ==> Truthy(n.id)
    ensures |r| <= |raws|
  {
    if raws == [] then []
    else
      (match NodeCandidate(variant, raws[0]) case Some(n) => [n] case None => [])
      + NodeCandidates(variant, raws[1..])
  }

  /** Every kept node is the candidate of some raw node, and every raw node
      that has a candidate contributes it. */
  lemma {:induction false} NodeCandidatesMembers(variant: Variant, raws: seq<Json>)
    ensures forall n :: n in NodeCandidates(variant, raws) ==> exists x :: x in raws && NodeCandidate(variant, x) == Some(n)
    ensures forall x :: x in raws && NodeCandidate(variant, x).Some? ==> NodeCandidate(variant, x).value in NodeCandidates(variant, raws)
  {
    if raws != [] {
      NodeCandidatesMembers(variant, raws[1..]);
      assert forall x :: x in raws ==> x == raws[0] || x in raws[1..];
      assert forall x :: x in raws[1..] ==> x in raws;
    }
  }

  /** The candidates of a concatenation are those of its parts, in order;
      with the one-element case this fixes the order of `NodeCandidates`. */
  lemma {:induction false} NodeCandidatesAppend(variant: Variant, a: seq<Json>, b: seq<Json>)
    ensures NodeCandidates(variant, a + b) == NodeCandidates(variant, a) + NodeCandidates(variant, b)
    decreases |a|
  {
    if a != [] {
      var ab := a + b;
      assert ab[0] == a[0] && ab[1..] == a[1..] + b;
      NodeCandidatesAppend(variant, a[1..], b);
      var here := NodeCandidates(variant, [a[0]]);
      NodeCandidatesSingle(variant, a[0]);
      assert NodeCandidates(variant, ab) == here + NodeCandidates(variant, ab[1..]);
      assert NodeCandidates(variant, a) == here + NodeCandidates(variant, a[1..]);
    } else {
      assert a + b == b;
    }
  }

  /** One raw node contributes its candidate, or nothing. */
  lemma NodeCandidatesSingle(variant: Variant, x: Json)
    ensures NodeCandidates(variant, [x])
            == match NodeCandidate(variant, x) case Some(n) => [n] case None => []
  {
    assert [x][1..] == [];
  }

  /** The candidates of a list of raw relations, in order. */
  function RelCandidates(variant: Variant, raws: seq<Json>): (r: seq<Relation>)
    ensures forall rel :: rel in r ==> Truthy(rel.source) && Truthy(rel.target) && Truthy(rel.relation)
    ensures |r| <= |raws|
  {
    if raws == [] then []
    else
      (match RelCandidate(variant, raws[0]) case Some(rel) => [rel] case None => [])
      + RelCandidates(variant, raws[1..])
  }

  lemma {:induction false} RelCandidatesMembers(variant: Variant, raws: seq<Json>)
    ensures forall rel :: rel in RelCandidates(variant, raws) ==> exists x :: x in raws && RelCandidate(variant, x) == Some(rel)
    ensures forall x :: x in raws && RelCandidate(variant, x).Some? ==> RelCandidate(variant, x).value in RelCandidates(variant, raws)
  {
    if raws != [] {
      RelCandidatesMembers(variant, raws[1..]);
      assert forall x :: x in raws ==> x == raws[0] || x in raws[1..];
      assert forall x :: x in raws[1..] ==> x in raws;
    }
  }

  lemma {:induction false} RelCandidatesAppend(variant: Variant, a: seq<Json>, b: seq<Json>)
    ensures RelCandidates(variant, a + b) == RelCandidates(variant, a) + RelCandidates(variant, b)
    decreases |a|
  {
    if a != [] {
      var ab := a + b;
      assert ab[0] == a[0] && ab[1..] == a[1..] + b;
      RelCandidatesAppend(variant, a[1..], b);
      var here := RelCandidates(variant, [a[0]]);
      RelCandidatesSingle(variant, a[0]);
      assert RelCandidates(variant, ab) == here + RelCandidates(variant, ab[1..]);
      assert RelCandidates(variant, a) == here + RelCandidates(variant, a[1..]);
    } else {
      assert a + b == b;
    }
  }

  lemma RelCandidatesSingle(variant: Variant, x: Json)
    ensures RelCandidates(variant, [x])
            == match RelCandidate(variant, x) case Some(rel) => [rel] case None => []
  {
    assert [x][1..] == [];
  }

  predicate IdsHashable(ns: seq<Node>) {
    forall i :: 0 <= i < |ns| ==> Hashable(ns[i].id)
  }

  predicate TriplesHashable(rs: seq<Relation>) {
    forall i :: 0 <= i < |rs| ==> Hashable(rs[i].source) && Hashable(rs[i].target) && Hashable(rs[i].relation)
  }

  /** The node loop as written: `nid not in node_map` hashes the id first.
      It only ever adds to `node_map`, and its only failure is `TypeError`. */
  function AddNodes(acc: seq<Node>, variant: Variant, raws: seq<Json>): (r: Outcome<seq<Node>>)
    ensures r.Raised? ==> r.error == TypeError
    ensures r.Done? ==> acc <= r.value
    decreases |raws|
  {
    if raws == [] then Done(acc)
    else
      match NodeCandidate(variant, raws[0])
      case None => AddNodes(acc, variant, raws[1..])
      case Some(n) =>
        if !Hashable(n.id) then Raised(TypeError)
        else AddNodes(if HasKey(acc, NodeKey, n.id) then acc else acc + [n], variant, raws[1..])
  }

  /** The relation loop as written: `key in relation_set` hashes the triple
      first. It only ever appends, and its only failure is `TypeError`. */
  function AddRelations(acc: seq<Relation>, variant: Variant, raws: seq<Json>): (r: Outcome<seq<Relation>>)
    ensures r.Raised? ==> r.error == TypeError
    ensures r.Done? ==> acc <= r.value
    decreases |raws|
  {
    if raws == [] then Done(acc)
    else
      match RelCandidate(variant, raws[0])
      case None => AddRelations(acc, variant, raws[1..])
      case Some(rel) =>
        if !(Hashable(rel.source) && Hashable(rel.target) && Hashable(rel.relation)) then Raised(TypeError)
        else AddRelations(if HasKey(acc, RelKey, rel) then acc else acc + [rel], variant, raws[1..])
  }

  lemma IdsHashableCons(n: Node, rest: seq<Node>)
    ensures IdsHashable([n] + rest) <==> Hashable(n.id) && IdsHashable(rest)
  {
    var all := [n] + rest;
    if Hashable(n.id) && IdsHashable(rest) {
      forall i | 0 <= i < |all|
        ensures Hashable(all[i].id)
      {
        if i > 0 {
          assert all[i] == rest[i - 1];
        }
      }
    }
    if IdsHashable(all) {
      assert all[0] == n;
      forall i | 0 <= i < |rest|
        ensures Hashable(rest[i].id)
      {
        assert rest[i] == all[i + 1];
      }
    }
  }

  lemma TriplesHashableCons(rel: Relation, rest: seq<Relation>)
    ensures TriplesHashable([rel] + rest)
            <==> Hashable(rel.source) && Hashable(rel.target) && Hashable(rel.relation) && TriplesHashable(rest)
  {
    var all := [rel] + rest;
    if Hashable(rel.source) && Hashable(rel.target) && Hashable(rel.relation) && TriplesHashable(rest) {
      forall i | 0 <= i < |all|
        ensures Hashable(all[i].source) && Hashable(all[i].target) && Hashable(all[i].relation)
      {
        if i > 0 {
          assert all[i] == rest[i - 1];
        }
      }
    }
    if TriplesHashable(all) {
      assert all[0] == rel;
      forall i | 0 <= i < |rest|
        ensures Hashable(rest[i].source) && Hashable(rest[i].target) && Hashable(rest[i].relation)
      {
        assert rest[i] == all[i + 1];
      }
    }
  }

  /** The node loop raises exactly when some candidate id is unhashable;
      otherwise it is the first-writer-wins walk over the candidates. */
  lemma {:induction false} AddNodesSpec(acc: seq<Node>, variant: Variant, raws: seq<Json>)
    ensures AddNodes(acc, variant, raws)
            == if IdsHashable(NodeCandidates(variant, raws))
               then Done(Extend(acc, NodeCandidates(variant, raws), NodeKey))
               else Raised(TypeError)
    decreases |raws|
  {
    if raws != [] {
      AddNodesSpec(acc, variant, raws[1..]);
      var rest := NodeCandidates(variant, raws[1..]);
      match NodeCandidate(variant, raws[0])
      case None =>
        assert NodeCandidates(variant, raws) == rest;
      case Some(n) =>
        var all := NodeCandidates(variant, raws);
        assert all == [n] + rest;
        IdsHashableCons(n, rest);
        if Hashable(n.id) {
          AddNodesSpec(if HasKey(acc, NodeKey, n.id) then acc else acc + [n], variant, raws[1..]);
        }
    }
  }

  lemma {:induction false} AddRelationsSpec(acc: seq<Relation>, variant: Variant, raws: seq<Json>)
    ensures AddRelations(acc, variant, raws)
            == if TriplesHashable(RelCandidates(variant, raws))
               then Done(Extend(acc, RelCandidates(variant, raws), RelKey))
               else Raised(TypeError)
    decreases |raws|
  {
    if raws != [] {
      var rest := RelCandidates(variant, raws[1..]);
      match RelCandidate(variant, raws[0])
      case None =>
        AddRelationsSpec(acc, variant, raws[1..]);
        assert RelCandidates(variant, raws) == rest;
      case Some(rel) =>
        var all := RelCandidates(variant, raws);
        assert all == [rel] + rest;
        TriplesHashableCons(rel, rest);
        if Hashable(rel.source) && Hashable(rel.target) && Hashable(rel.relation) {
          AddRelationsSpec(if HasKey(acc, RelKey, rel) then acc else acc + [rel], variant, raws[1..]);
        }
    }
  }

  /** The node candidates one document contributes (none when its content cannot be read). */
  function DocNodes(variant: Variant, content: Json): seq<Node> {
    match Containers(content)
    case Done(parts) => NodeCandidates(variant, parts.nodes)
    case Raised(_) => []
  }

  function DocRelations(variant: Variant, content: Json): seq<Relation> {
    match Containers(content)
    case Done(parts) => RelCandidates(variant, parts.relations)
    case Raised(_) => []
  }

  /** Merging this document cannot raise. */
  predicate DocOk(variant: Variant, content: Json) {
    Containers(content).Done? && IdsHashable(DocNodes(variant, content))
    && TriplesHashable(DocRelations(variant, content))
  }

  /** One iteration of `for o in Ontology.objects.all()` (or `for hit in
      results`): a content that is not a mapping raises on `.get`; otherwise
      the graph only grows. */
  function MergeDocument(g: Graph, variant: Variant, content: Json): (r: Outcome<Graph>)
    ensures !content.JObj? ==> r == Raised(AttributeError)
    ensures r.Done? ==> g.nodes <= r.value.nodes && g.relations <= r.value.relations
  {
    match Containers(content)
    case Raised(e) => Raised(e)
    case Done(parts) =>
      match AddNodes(g.nodes, variant, parts.nodes)
      case Raised(e) => Raised(e)
      case Done(nodes) =>
        match AddRelations(g.relations, variant, parts.relations)
        case Raised(e) => Raised(e)
        case Done(relations) => Done(Graph(nodes, relations))
  }

  lemma MergeDocumentSpec(g: Graph, variant: Variant, content: Json)
    ensures MergeDocument(g, variant, content).Done? <==> DocOk(variant, content)
    ensures DocOk(variant, content) ==>
              MergeDocument(g, variant, content).value
              == Graph(Extend(g.nodes, DocNodes(variant, content), NodeKey),
                       Extend(g.relations, DocRelations(variant, content), RelKey))
  {
    match Containers(content)
    case Raised(_) =>
    case Done(parts) =>
      AddNodesSpec(g.nodes, variant, parts.nodes);
      AddRelationsSpec(g.relations, variant, parts.relations);
  }

  /** The merge loop over documents, continuing from `g`; what was merged
      before is kept. */
  function MergeFrom(g: Graph, variant: Variant, contents: seq<Json>): (r: Outcome<Graph>)
    ensures r.Done? ==> g.nodes <= r.value.nodes && g.relations <= r.value.relations
    decreases |contents|
  {
    if contents == [] then Done(g)
    else
      match MergeDocument(g, variant, contents[0])
      case Raised(e) => Raised(e)
      case Done(g') => MergeFrom(g', variant, contents[1..])
  }

  /** Every node candidate of every document, in document order. */
  function NodeStream(variant: Variant, contents: seq<Json>): seq<Node> {
    if contents == [] then [] else DocNodes(variant, contents[0]) + NodeStream(variant, contents[1..])
  }

  function RelationStream(variant: Variant, contents: seq<Json>): seq<Relation> {
    if contents == [] then [] else DocRelations(variant, contents[0]) + RelationStream(variant, contents[1..])
  }

  predicate AllOk(variant: Variant, contents: seq<Json>) {
    forall i :: 0 <= i < |contents| ==> DocOk(variant, contents[i])
  }

  lemma AllOkCons(variant: Variant, contents: seq<Json>)
    requires contents != []
    ensures AllOk(variant, contents) <==> DocOk(variant, contents[0]) && AllOk(variant, contents[1..])
  {
    var rest := contents[1..];
    if DocOk(variant, contents[0]) && AllOk(variant, rest) {
      forall i | 0 <= i < |contents|
        ensures DocOk(variant, contents[i])
      {
        if i > 0 {
          assert contents[i] == rest[i - 1];
        }
      }
    }
    if AllOk(variant, contents) {
      forall i | 0 <= i < |rest|
        ensures DocOk(variant, rest[i])
      {
        assert rest[i] == contents[i + 1];
      }
    }
  }

  /** The document loop succeeds exactly when no document raises, and then
      it is one first-occurrence walk over all nodes and one over all relations. */
  lemma {:induction false} MergeFromSpec(g: Graph, variant: Variant, contents: seq<Json>)
    ensures MergeFrom(g, variant, contents).Done? <==> AllOk(variant, contents)
    ensures AllOk(variant, contents) ==>
              MergeFrom(g, variant, contents).value
              == Graph(Extend(g.nodes, NodeStream(variant, contents), NodeKey),
                       Extend(g.relations, RelationStream(variant, contents), RelKey))
    decreases |contents|
  {
    if contents != [] {
      var c := contents[0];
      var rest := contents[1..];
      MergeDocumentSpec(g, variant, c);
      AllOkCons(variant, contents);
      if DocOk(variant, c) {
        var g' := MergeDocument(g, variant, c).value;
        MergeFromSpec(g', variant, rest);
        ExtendAppend(g.nodes, DocNodes(variant, c), NodeStream(variant, rest), NodeKey);
        ExtendAppend(g.relations, DocRelations(variant, c), RelationStream(variant, rest), RelKey);
      }
    }
  }

  /** The whole merge from an empty `node_map` and `relation_set`: it
      succeeds exactly when no document raises. */
  function Merge(variant: Variant, contents: seq<Json>): (r: Outcome<Graph>)
    ensures r.Done? <==> AllOk(variant, contents)
  {
    MergeFromSpec(EmptyGraph, variant, contents);
    MergeFrom(EmptyGraph, variant, contents)
  }

  /** Merged nodes are the first candidate with each id, across all
      documents in order; merged relations are the distinct triples in order
      of first appearance. */
  lemma MergeKeepsFirst(variant: Variant, contents: seq<Json>)
    requires Merge(variant, contents).Done?
    ensures Merge(variant, contents).value
            == Graph(Firsts(NodeStream(variant, contents), NodeKey), Firsts(RelationStream(variant, contents), RelKey))
  {
    MergeFromSpec(EmptyGraph, variant, contents);
    DedupIsFirsts(NodeStream(variant, contents), NodeKey);
    DedupIsFirsts(RelationStream(variant, contents), RelKey);
  }

  /** Merged node ids are distinct, and so are merged relation triples. */
  lemma MergeDistinct(variant: Variant, contents: seq<Json>)
    requires Merge(variant, contents).Done?
    ensures var g := Merge(variant, contents).value;
            && (forall i, j :: 0 <= i < j < |g.nodes| ==> g.nodes[i].id != g.nodes[j].id)
            && (forall i, j :: 0 <= i < j < |g.relations| ==> g.relations[i] != g.relations[j])
  {
    MergeKeepsFirst(variant, contents);
    FirstsDistinct(NodeStream(variant, contents), NodeKey);
    FirstsDistinct(RelationStream(variant, contents), RelKey);
  }

  /** Every candidate id of every document has a merged node, and every
      candidate relation is in the merged list. */
  lemma MergeComplete(variant: Variant, contents: seq<Json>)
    requires Merge(variant, contents).Done?
    ensures var g := Merge(variant, contents).value;
            && (forall n :: n in NodeStream(variant, contents) ==> HasKey(g.nodes, NodeKey, n.id))
            && (forall r :: r in RelationStream(variant, contents) ==> r in g.relations)
  {
    MergeKeepsFirst(variant, contents);
    var g := Merge(variant, contents).value;
    var ns := NodeStream(variant, contents);
    var rs := RelationStream(variant, contents);
    forall n | n in ns
      ensures HasKey(g.nodes, NodeKey, n.id)
    {
      FirstsKeys(ns, NodeKey, n.id);
      var k :| 0 <= k < |ns| && ns[k] == n;
      assert NodeKey(ns[k]) == n.id;
    }
    forall r | r in rs
      ensures r in g.relations
    {
      FirstsKeys(rs, RelKey, r);
      var k :| 0 <= k < |rs| && rs[k] == r;
      assert RelKey(rs[k]) == r;
    }
  }

  /** First writer wins: each merged node is the earliest candidate, over
      all documents in order, that carries its id. */
  lemma MergeFirstWriterWins(variant: Variant, contents: seq<Json>, i: int)
    requires Merge(variant, contents).Done?
    requires 0 <= i < |Merge(variant, contents).value.nodes|
    ensures var ns := NodeStream(variant, contents);
            exists k :: 0 <= k < |ns| && ns[k] == Merge(variant, contents).value.nodes[i] && FirstAt(ns, NodeKey, k)
  {
    MergeKeepsFirst(variant, contents);
    FirstsAreFirst(NodeStream(variant, contents), NodeKey, i);
  }

  /** Merging `a + b` is merging `a`, then `b` from where `a` left off; a
      raise in `a` ends it. */
  lemma {:induction false} MergeFromAppend(g: Graph, variant: Variant, a: seq<Json>, b: seq<Json>)
    ensures MergeFrom(g, variant, a + b)
            == match MergeFrom(g, variant, a)
               case Raised(e) => Raised(e)
               case Done(g') => MergeFrom(g', variant, b)
    decreases |a|
  {
    if a == [] {
      assert a + b == b;
    } else {
      assert (a + b)[0] == a[0] && (a + b)[1..] == a[1..] + b;
      match MergeDocument(g, variant, a[0])
      case Raised(_) =>
      case Done(g') => MergeFromAppend(g', variant, a[1..], b);
    }
  }

  /** Storing every document twice does not change the outcome of the merge. */
  lemma MergeTwice(variant: Variant, contents: seq<Json>)
    ensures Merge(variant, contents + contents) == Merge(variant, contents)
  {
    MergeFromAppend(EmptyGraph, variant, contents, contents);
    MergeFromSpec(EmptyGraph, variant, contents);
    if AllOk(variant, contents) {
      var g := Merge(variant, contents).value;
      MergeFromSpec(g, variant, contents);
      var ns := NodeStream(variant, contents);
      var rs := RelationStream(variant, contents);
      DedupIsFirsts(ns, NodeKey);
      DedupIsFirsts(rs, RelKey);
      forall k | 0 <= k < |ns|
        ensures HasKey(g.nodes, NodeKey, NodeKey(ns[k]))
      {
        FirstsKeys(ns, NodeKey, NodeKey(ns[k]));
      }
      forall k | 0 <= k < |rs|
        ensures HasKey(g.relations, RelKey, RelKey(rs[k]))
      {
        FirstsKeys(rs, RelKey, RelKey(rs[k]));
      }
      ExtendNothingNew(g.nodes, ns, NodeKey);
      ExtendNothingNew(g.relations, rs, RelKey);
    }
  }

  /** Every stored document read as `o.json or {}`, in store order. */
  function StoreContents(docs: seq<Document>): (r: seq<Json>)
    ensures |r| == |docs|
    ensures forall i :: 0 <= i < |docs| ==> r[i] == Content(docs[i])
  {
    seq(|docs|, i requires 0 <= i < |docs| => Content(docs[i]))
  }

  /** `aggregated_graph`: the merge over every stored document with the
      aggregation copy of the normalisers. It fails exactly when some
      document raises; otherwise its nodes are the first node with each id
      and its relations the distinct triples, in store order. */
  function Aggregate(docs: seq<Document>): (r: Outcome<Graph>)
    ensures r.Done? <==> AllOk(AggregateCopy, StoreContents(docs))
    ensures r.Done? ==>
              r.value == Graph(Firsts(NodeStream(AggregateCopy, StoreContents(docs)), NodeKey),
                               Firsts(RelationStream(AggregateCopy, StoreContents(docs)), RelKey))
  {
    var r := Merge(AggregateCopy, StoreContents(docs));
    if r.Done? then
      MergeKeepsFirst(AggregateCopy, StoreContents(docs));
      r
    else
      r
  }
}
