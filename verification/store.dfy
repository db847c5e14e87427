/**
 The document store as the views read it: `Ontology.objects.all()` becomes a
 sequence of (id, json) records in store order.
 */
module Store {
  import opened Json

  /** One stored ontology: its integer primary key and its raw JSON. */
  datatype Document = Document(id: int, json: Json)

  /** `o.json or {}`: a falsy document reads as the empty mapping. */
  function Content(d: Document): (r: Json)
    ensures Truthy(d.json) ==> r == d.json
    ensures !Truthy(d.json) ==> r == JObj([])
  {
    if Truthy(d.json) then d.json else JObj([])
  }
}
