/**
 The schema normalisers. `aggregated_graph` and `search_graph` each define
 their own `normalize_node` and `normalize_relation`; the two copies differ,
 so the variant is a parameter. Field priorities follow Python's `or`
 chains literally, so a chain whose every operand is falsy yields its last
 operand.
 */
module Normalize {
  import opened Results
  import opened Json
  import opened Store

  /** Which copy of the normalisers: the one in `aggregated_graph` or the one in `search_graph`. */
  datatype Variant = AggregateCopy | SearchCopy

  /** A canonical node `{id, label, type}` (`caption` holds the label, a word Dafny reserves); the values are the raw JSON found. */
  datatype Node = Node(id: Json, caption: Json, kind: Json)

  /** A canonical relation `{source, target, relation}`. Its identity is the whole triple. */
  datatype Relation = Relation(source: Json, target: Json, relation: Json)

  const Entity: Json := JStr("Entity")
  const RelatedTo: Json := JStr("related_to")

  /** `normalize_node(n)`. */
  function NormalizeNode(variant: Variant, n: Json): (r: Option<Node>)
    ensures r.Some? <==> n.JStr? || n.JObj?
    ensures n.JStr? ==> r == Some(Node(n, n, Entity))
    ensures n.JObj? ==>
              (Truthy(r.value.id) <==>
                 Truthy(Get(n.fields, "id")) || Truthy(Get(n.fields, "label")) || Truthy(Get(n.fields, "name")))
    ensures n.JObj? && Truthy(Get(n.fields, "id")) ==> r.value.id == Get(n.fields, "id")
    ensures n.JObj? && !Truthy(Get(n.fields, "id")) && Truthy(Get(n.fields, "label")) ==> r.value.id == Get(n.fields, "label")
    ensures n.JObj? && !Truthy(Get(n.fields, "id")) && !Truthy(Get(n.fields, "label")) ==> r.value.id == Get(n.fields, "name")
    ensures n.JObj? && Truthy(Get(n.fields, "label")) ==> r.value.caption == Get(n.fields, "label")
    ensures n.JObj? && !Truthy(Get(n.fields, "label")) && Truthy(Get(n.fields, "name")) ==> r.value.caption == Get(n.fields, "name")
    ensures n.JObj? && (Truthy(Get(n.fields, "label")) || Truthy(Get(n.fields, "name"))) ==> Truthy(r.value.caption)
    ensures n.JObj? && !Truthy(Get(n.fields, "label")) && !Truthy(Get(n.fields, "name")) ==> r.value.caption == r.value.id
    ensures n.JObj? && Truthy(Get(n.fields, "type")) ==> r.value.kind == Get(n.fields, "type")
    ensures n.JObj? && !Truthy(Get(n.fields, "type")) && Truthy(Get(n.fields, "class")) ==> r.value.kind == Get(n.fields, "class")
    ensures n.JObj? && !Truthy(Get(n.fields, "type")) && !Truthy(Get(n.fields, "class")) ==>
              r.value.kind == (if variant == AggregateCopy then Or(Get(n.fields, "label"), Entity) else Entity)
  {
    match n
    case JStr(_) => Some(Node(n, n, Entity))
    case JObj(fs) =>
      var id := Or(Get(fs, "id"), Or(Get(fs, "label"), Get(fs, "name")));
      var caption := Or(Get(fs, "label"), Or(Get(fs, "name"), id));
      var kind := match variant
        case AggregateCopy => Or(Get(fs, "type"), Or(Get(fs, "class"), Or(Get(fs, "label"), Entity)))
        case SearchCopy => Or(Get(fs, "type"), Or(Get(fs, "class"), Entity));
      Some(Node(id, caption, kind))
    case _ => None
  }

  /** `normalize_relation(r)`: only a non-empty mapping normalises. */
  function NormalizeRelation(variant: Variant, r: Json): (o: Option<Relation>)
    ensures o.Some? <==> r.JObj? && r.fields != []
    ensures o.Some? ==> Truthy(o.value.relation)
    ensures o.Some? && Truthy(Get(r.fields, "source")) ==> o.value.source == Get(r.fields, "source")
    ensures o.Some? && !Truthy(Get(r.fields, "source")) && Truthy(Get(r.fields, "from")) ==> o.value.source == Get(r.fields, "from")
    ensures o.Some? && !Truthy(Get(r.fields, "source")) && !Truthy(Get(r.fields, "from")) ==>
              o.value.source == Get(r.fields, if variant == AggregateCopy then "s" else "from")
    ensures o.Some? && Truthy(Get(r.fields, "target")) ==> o.value.target == Get(r.fields, "target")
    ensures o.Some? && !Truthy(Get(r.fields, "target")) && Truthy(Get(r.fields, "to")) ==> o.value.target == Get(r.fields, "to")
    ensures o.Some? && !Truthy(Get(r.fields, "target")) && !Truthy(Get(r.fields, "to")) ==>
              o.value.target == Get(r.fields, if variant == AggregateCopy then "t" else "to")
    ensures o.Some? && Truthy(Get(r.fields, "relation")) ==> o.value.relation == Get(r.fields, "relation")
    ensures o.Some? && !Truthy(Get(r.fields, "relation")) && Truthy(Get(r.fields, "label")) ==> o.value.relation == Get(r.fields, "label")
    ensures o.Some? && variant == AggregateCopy && !Truthy(Get(r.fields, "relation")) && !Truthy(Get(r.fields, "label"))
            && Truthy(Get(r.fields, "type"))
            ==> o.value.relation == Get(r.fields, "type")
    ensures (o.Some? && !Truthy(Get(r.fields, "relation")) && !Truthy(Get(r.fields, "label"))
             && (variant == SearchCopy || !Truthy(Get(r.fields, "type"))))
            ==> o.value.relation == RelatedTo
  {
    if !Truthy(r) then None
    else
      match r
      case JObj(fs) =>
        (match variant
         case AggregateCopy =>
           Some(Relation(
             Or(Get(fs, "source"), Or(Get(fs, "from"), Get(fs, "s"))),
             Or(Get(fs, "target"), Or(Get(fs, "to"), Get(fs, "t"))),
             Or(Get(fs, "relation"), Or(Get(fs, "label"), Or(Get(fs, "type"), RelatedTo)))))
         case SearchCopy =>
           Some(Relation(
             Or(Get(fs, "source"), Get(fs, "from")),
             Or(Get(fs, "target"), Get(fs, "to")),
             Or(Get(fs, "relation"), Or(Get(fs, "label"), RelatedTo)))))
      case _ => None
  }

  /** The two node normalisers agree on id and label and differ only in the
      type fallback: the aggregation copy falls back to the raw label before
      "Entity", the search copy goes straight to "Entity". */
  lemma NodeVariantsDiffer(n: Json)
    ensures NormalizeNode(AggregateCopy, n).Some? == NormalizeNode(SearchCopy, n).Some?
    ensures NormalizeNode(AggregateCopy, n).Some? ==>
              var a := NormalizeNode(AggregateCopy, n).value;
              var b := NormalizeNode(SearchCopy, n).value;
              a.id == b.id && a.caption == b.caption
              && (a.kind != b.kind <==>
                    n.JObj? && !Truthy(Get(n.fields, "type")) && !Truthy(Get(n.fields, "class"))
                    && Truthy(Get(n.fields, "label")) && Get(n.fields, "label") != Entity)
  {
  }

  /** The relation normalisers agree on every relation whose endpoints and
      label are each found under a key both copies read; only the fallback
      keys `s`, `t` and `type`, which the search copy ignores, can make them
      read a relation differently (`ShortKeysOnlyInAggregation`). */
  lemma RelationVariantsDiffer(r: Json)
    requires r.JObj?
    requires Truthy(Get(r.fields, "source")) || Truthy(Get(r.fields, "from"))
    requires Truthy(Get(r.fields, "target")) || Truthy(Get(r.fields, "to"))
    requires Truthy(Get(r.fields, "relation")) || Truthy(Get(r.fields, "label"))
    ensures NormalizeRelation(AggregateCopy, r) == NormalizeRelation(SearchCopy, r)
  {
  }

  /** A relation given only as `{"s": a, "t": b}` with truthy `a`, `b`: the
      aggregation copy reads its endpoints, the search copy leaves them None. */
  lemma ShortKeysOnlyInAggregation(a: Json, b: Json)
    requires Truthy(a) && Truthy(b)
    ensures var r := JObj([Member("s", a), Member("t", b)]);
            NormalizeRelation(AggregateCopy, r) == Some(Relation(a, b, RelatedTo))
            && NormalizeRelation(SearchCopy, r) == Some(Relation(JNull, JNull, RelatedTo))
  {
    var fs := [Member("s", a), Member("t", b)];
    assert Get(fs, "source") == JNull && Get(fs, "from") == JNull && Get(fs, "s") == a;
    assert Get(fs, "target") == JNull && Get(fs, "to") == JNull && Get(fs, "t") == b;
    assert Get(fs, "relation") == JNull && Get(fs, "label") == JNull && Get(fs, "type") == JNull;
  }

  /** Python's `for x in v` over a container value: a list yields its items,
      a string its characters, a mapping its keys; anything else raises. */
  function Iterate(v: Json): (r: Outcome<seq<Json>>)
    ensures r.Done? <==> v.JArr? || v.JStr? || v.JObj?
    ensures v.JArr? ==> r == Done(v.items)
    ensures v.JStr? ==> r.Done? && |r.value| == |v.s|
    ensures v.JStr? ==> forall i :: 0 <= i < |v.s| ==> r.value[i] == JStr([v.s[i]])
    ensures v.JObj? ==> r.Done? && |r.value| == |v.fields|
    ensures v.JObj? ==> forall i :: 0 <= i < |v.fields| ==> r.value[i] == JStr(v.fields[i].key)
    ensures r.Raised? ==> r.error == TypeError
  {
    match v
    case JArr(items) => Done(items)
    case JStr(s) => Done(seq(|s|, i requires 0 <= i < |s| => JStr([s[i]])))
    case JObj(fs) => Done(seq(|fs|, i requires 0 <= i < |fs| => JStr(fs[i].key)))
    case _ => Raised(TypeError)
  }

  /** `for x in (v or [])` raises: `v` is truthy but neither a list, a string nor a mapping. */
  predicate ForRaises(v: Json) {
    Truthy(v) && !(v.JArr? || v.JStr? || v.JObj?)
  }

  /** The raw node and relation items of a document's content. */
  datatype Parts = Parts(nodes: seq<Json>, relations: seq<Json>)

  /** `data.get('nodes') or data.get('entities') or []` and the same for
      `relations`/`edges`, then iterated. A content that is not a mapping
      raises on `.get`; a truthy container that is not iterable raises on `for`. */
  function Containers(data: Json): (r: Outcome<Parts>)
    ensures !data.JObj? ==> r == Raised(AttributeError)
    ensures data.JObj? && !Truthy(Get(data.fields, "nodes")) && !Truthy(Get(data.fields, "entities"))
            && !Truthy(Get(data.fields, "relations")) && !Truthy(Get(data.fields, "edges"))
            ==> r == Done(Parts([], []))
    ensures data.JObj? && Get(data.fields, "nodes").JArr? && Truthy(Get(data.fields, "nodes")) && r.Done?
            ==> r.value.nodes == Get(data.fields, "nodes").items
    ensures data.JObj? && r.Done? && Truthy(Get(data.fields, "nodes"))
            ==> Iterate(Get(data.fields, "nodes")) == Done(r.value.nodes)
    ensures data.JObj? && r.Done? && !Truthy(Get(data.fields, "nodes")) && Truthy(Get(data.fields, "entities"))
            ==> Iterate(Get(data.fields, "entities")) == Done(r.value.nodes)
    ensures data.JObj? && r.Done? && !Truthy(Get(data.fields, "nodes")) && !Truthy(Get(data.fields, "entities"))
            ==> r.value.nodes == []
    ensures data.JObj? && r.Done? && Truthy(Get(data.fields, "relations"))
            ==> Iterate(Get(data.fields, "relations")) == Done(r.value.relations)
    ensures data.JObj? && r.Done? && !Truthy(Get(data.fields, "relations")) && Truthy(Get(data.fields, "edges"))
            ==> Iterate(Get(data.fields, "edges")) == Done(r.value.relations)
    ensures data.JObj? && r.Done? && !Truthy(Get(data.fields, "relations")) && !Truthy(Get(data.fields, "edges"))
            ==> r.value.relations == []
    ensures data.JObj? && r.Raised? ==> r.error == TypeError
    ensures data.JObj? ==>
              (r.Raised? <==>
                 ForRaises(Or(Get(data.fields, "nodes"), Get(data.fields, "entities")))
                 || ForRaises(Or(Get(data.fields, "relations"), Get(data.fields, "edges"))))
  {
    match data
    case JObj(fs) =>
      var nodes := Or(Get(fs, "nodes"), Or(Get(fs, "entities"), JArr([])));
      var rels := Or(Get(fs, "relations"), Or(Get(fs, "edges"), JArr([])));
      (match (Iterate(nodes), Iterate(rels))
       case (Done(ns), Done(rs)) => Done(Parts(ns, rs))
       case (Raised(e), _) => Raised(e)
       case (_, Raised(e)) => Raised(e))
    case _ => Raised(AttributeError)
  }

  /** The parts of a stored document, read through `o.json or {}`. */
  function DocumentParts(d: Document): Outcome<Parts> {
    Containers(Content(d))
  }
}
