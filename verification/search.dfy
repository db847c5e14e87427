/**
 `search_graph`: an empty query falls back to `aggregated_graph`; otherwise
 the top-k hits of the lexical scorer are merged (search copy of the
 normalisers), each hit gets a snippet of the nodes whose id or label
 contains the stripped, lower-cased query, seeds are the truthy matched ids
 (or the hit ids as strings when there are none), and the merged graph is
 expanded `hops` steps from the seeds.
 */
module Search {
  import opened Results
  import opened Text
  import opened Json
  import opened Store
  import opened Normalize
  import opened Merging
  import opened Ranking
  import opened Digraph
  import opened Traverse
  import opened Dedup
  import opened Seqs

  /** One entry of `matches`. */
  datatype Snippet = Snippet(id: int, score: real, matched: seq<Json>, nodes: seq<Node>, relations: seq<Relation>)

  /** The value a raw node is matched under for `key`: `n.get(key) or ''`
      for a mapping, `str(n)` otherwise. */
  function MatchField(n: Json, key: string): (r: Json)
    ensures n.JObj? && Truthy(Get(n.fields, key)) ==> r == Get(n.fields, key)
    ensures n.JObj? && !Truthy(Get(n.fields, key)) ==> r == JStr("")
    ensures !n.JObj? ==> r == JStr(Str(n))
    ensures n.JStr? ==> r == n
  {
    if n.JObj? then Or(Get(n.fields, key), JStr("")) else JStr(Str(n))
  }

  /** `qlow in str(nid).lower() or qlow in str(label).lower()`. The empty
      string is in every string, and a string node is matched on its own
      lower-cased text. */
  predicate IsMatch(qlow: string, n: Json): (b: bool)
    ensures qlow == [] ==> b
    ensures n.JStr? ==> (b <==> Contains(Lower(n.s), qlow))
  {
    assert qlow == [] ==> OccursAt(Lower(Str(MatchField(n, "id"))), qlow, 0);
    Contains(Lower(Str(MatchField(n, "id"))), qlow) || Contains(Lower(Str(MatchField(n, "label"))), qlow)
  }

  /** `repr("it's")` is `"it's"`: a string holding a single quote and no
      double quote is shown in double quotes, with nothing escaped. */
  lemma ApostropheRepr()
    ensures ReprString("it's") == "\"it's\""
  {
    var q := QuoteFor("it's");
    assert "it's"[2] == '\'';
    assert q == '"';
    assert EscapeAll("s", q) == "s";
    assert EscapeAll("'s", q) == "'s";
    assert EscapeAll("t's", q) == "t's";
    assert EscapeAll("it's", q) == "it's";
  }

  /** The node of the example below: id `x`, and a list label holding `it's`. */
  function ApostropheNode(): Json {
    JObj([Member("id", JStr("x")), Member("label", JArr([JStr("it's")]))])
  }

  /** A one-item list of a string prints as that string's `repr` in brackets. */
  lemma SingletonListStr(t: string)
    ensures Str(JArr([JStr(t)])) == "[" + ReprString(t) + "]"
  {
    assert ReprItems([JStr(t)]) == Repr(JStr(t));
  }

  lemma ApostropheLabel()
    ensures MatchField(ApostropheNode(), "label") == JArr([JStr("it's")])
  {
    var n := ApostropheNode();
    assert n.fields[1..][0].key == "label";
    assert Get(n.fields[1..], "label") == JArr([JStr("it's")]);
  }

  lemma ApostropheLabelShown()
    ensures Str(MatchField(ApostropheNode(), "label")) == "[\"it's\"]"
  {
    ApostropheLabel();
    SingletonListStr("it's");
    ApostropheRepr();
    BracketApostrophe();
  }

  lemma BracketApostrophe()
    ensures "[" + "\"it's\"" + "]" == "[\"it's\"]"
  {
  }

  lemma ApostropheTextNoMatch()
    ensures !Contains(Lower("[\"it's\"]"), "'it")
  {
    var shown := "[\"it's\"]";
    var low := Lower(shown);
    assert low == shown by {
      forall k | 0 <= k < |shown|
        ensures low[k] == shown[k]
      {
        assert !IsUpper(shown[k]);
      }
    }
    forall i | 0 <= i <= |low| - 3
      ensures !OccursAt(low, "'it", i)
    {
      assert low[i..i + 3][0] == low[i] && low[i..i + 3][1] == low[i + 1];
    }
  }

  /** `str()` of a list label holding `it's` is `["it's"]`, so the query
      `'it` does not match the node, neither by its id nor by its label. */
  lemma QuotedLabelDoesNotMatch()
    ensures Str(MatchField(ApostropheNode(), "label")) == "[\"it's\"]"
    ensures !IsMatch("'it", ApostropheNode())
  {
    ApostropheLabelShown();
    ApostropheTextNoMatch();
    assert |Lower(Str(MatchField(ApostropheNode(), "id")))| == 1;
  }

  function MatchAll(qlow: string, raws: seq<Json>): (r: seq<Json>)
    ensures |r| <= |raws|
    ensures forall x :: x in r <==> exists i :: 0 <= i < |raws| && IsMatch(qlow, raws[i]) && MatchField(raws[i], "id") == x
  {
    if raws == [] then []
    else
      var rest := MatchAll(qlow, raws[1..]);
      assert forall i :: 0 < i < |raws| ==> raws[i] == raws[1..][i - 1];
      (if IsMatch(qlow, raws[0]) then [MatchField(raws[0], "id")] else []) + rest
  }

  /** `matched_ids`: nothing matches an empty `qlow`. */
  function Matched(qlow: string, raws: seq<Json>): (r: seq<Json>)
    ensures qlow == [] ==> r == []
    ensures forall x :: x in r <==> qlow != [] && exists i :: 0 <= i < |raws| && IsMatch(qlow, raws[i]) && MatchField(raws[i], "id") == x
  {
    if qlow == [] then [] else MatchAll(qlow, raws)
  }

  /** The key a raw node is looked up under in `mid_set`: `n.get('id')` for
      a mapping, `n` itself otherwise. It agrees with the match id for a
      string node and for a mapping with a truthy id; any other scalar node
      is matched under its text but looked up as itself, so it never finds
      its own match id. */
  function SnippetKey(n: Json): (r: Json)
    ensures n.JObj? ==> r == Get(n.fields, "id")
    ensures !n.JObj? ==> r == n
    ensures n.JStr? || (n.JObj? && Truthy(r)) ==> r == MatchField(n, "id")
    ensures !n.JObj? && !n.JStr? ==> r != MatchField(n, "id")
  {
    if n.JObj? then Get(n.fields, "id") else n
  }

  /** The snippet's node loop: every raw node whose key is a matched id, normalised. Looking a list
      or a mapping up in `mid_set` raises. */
  function SnippetNodes(mids: seq<Json>, raws: seq<Json>): (r: Outcome<seq<Node>>)
    ensures r.Done? <==> forall i :: 0 <= i < |raws| ==> Hashable(SnippetKey(raws[i]))
    ensures r.Raised? ==> r.error == TypeError
    ensures r.Done? ==> forall nn :: nn in r.value ==>
              exists i :: 0 <= i < |raws| && SnippetKey(raws[i]) in mids && NormalizeNode(SearchCopy, raws[i]) == Some(nn)
    ensures r.Done? ==> forall i :: (0 <= i < |raws| && SnippetKey(raws[i]) in mids && NormalizeNode(SearchCopy, raws[i]).Some?)
                                   ==> NormalizeNode(SearchCopy, raws[i]).value in r.value
  {
    if raws == [] then Done([])
    else
      var key := SnippetKey(raws[0]);
      assert forall i :: 0 < i < |raws| ==> raws[i] == raws[1..][i - 1];
      if !Hashable(key) then Raised(TypeError)
      else
        match SnippetNodes(mids, raws[1..])
        case Raised(e) => Raised(e)
        case Done(rest) =>
          var here := if key in mids then (match NormalizeNode(SearchCopy, raws[0]) case Some(nn) => [nn] case None => []) else [];
          Done(here + rest)
  }

  /** The snippet relation is kept and neither lookup raises. `rr.get('source') in mid_set` hashes
      the source; the target is looked up only when the source is present. */
  predicate RelLookupOk(mids: seq<Json>, raw: Json) {
    match NormalizeRelation(SearchCopy, raw)
    case None => true
    case Some(rel) => Hashable(rel.source) && (rel.source in mids ==> Hashable(rel.target))
  }

  /** One step of the snippet's relation loop: the normalised relation when
      both endpoints are matched. */
  function SnippetRelation(mids: seq<Json>, raw: Json): (r: Outcome<seq<Relation>>)
    ensures r.Done? <==> RelLookupOk(mids, raw)
    ensures r.Raised? ==> r.error == TypeError
    ensures r.Done? ==> forall rel :: rel in r.value ==>
              rel.source in mids && rel.target in mids && NormalizeRelation(SearchCopy, raw) == Some(rel)
    ensures r.Done? && NormalizeRelation(SearchCopy, raw).Some?
            && NormalizeRelation(SearchCopy, raw).value.source in mids
            && NormalizeRelation(SearchCopy, raw).value.target in mids
            ==> NormalizeRelation(SearchCopy, raw).value in r.value
  {
    match NormalizeRelation(SearchCopy, raw)
    case None => Done([])
    case Some(rel) =>
      if !Hashable(rel.source) then Raised(TypeError)
      else if rel.source !in mids then Done([])
      else if !Hashable(rel.target) then Raised(TypeError)
      else if rel.target in mids then Done([rel])
      else Done([])
  }

  /** One raw relation contributes at most one relation: its normalised
      form, exactly when both endpoints are matched ids. */
  lemma SnippetRelationValue(mids: seq<Json>, raw: Json)
    requires SnippetRelation(mids, raw).Done?
    ensures SnippetRelation(mids, raw).value
            == if NormalizeRelation(SearchCopy, raw).Some?
                  && NormalizeRelation(SearchCopy, raw).value.source in mids
                  && NormalizeRelation(SearchCopy, raw).value.target in mids
               then [NormalizeRelation(SearchCopy, raw).value] else []
  {
  }

  /** The snippet's relation loop: every normalised relation with both endpoints matched. */
  function SnippetRelations(mids: seq<Json>, raws: seq<Json>): (r: Outcome<seq<Relation>>)
    ensures r.Done? <==> forall i :: 0 <= i < |raws| ==> RelLookupOk(mids, raws[i])
    ensures r.Raised? ==> r.error == TypeError
    ensures r.Done? ==> forall rel :: rel in r.value ==>
              rel.source in mids && rel.target in mids
              && exists i :: 0 <= i < |raws| && NormalizeRelation(SearchCopy, raws[i]) == Some(rel)
    ensures r.Done? ==> forall i :: (0 <= i < |raws| && NormalizeRelation(SearchCopy, raws[i]).Some?
                                     && NormalizeRelation(SearchCopy, raws[i]).value.source in mids
                                     && NormalizeRelation(SearchCopy, raws[i]).value.target in mids)
                                   ==> NormalizeRelation(SearchCopy, raws[i]).value in r.value
  {
    if raws == [] then Done([])
    else
      assert forall i :: 0 < i < |raws| ==> raws[i] == raws[1..][i - 1];
      match SnippetRelation(mids, raws[0])
      case Raised(e) => Raised(e)
      case Done(here) =>
        match SnippetRelations(mids, raws[1..])
        case Raised(e) => Raised(e)
        case Done(rest) => Done(here + rest)
  }

  /** One raw node adds its match id to `matched_ids` exactly when it
      matches a non-empty `qlow`. */
  lemma MatchedSingle(qlow: string, n: Json)
    ensures Matched(qlow, [n]) == if qlow != [] && IsMatch(qlow, n) then [MatchField(n, "id")] else []
  {
    if qlow != [] {
      assert [n][1..] == [];
    }
  }

  /** `matched_ids` follows the raw nodes in order: the list for a
      concatenation is the lists of its parts, one after the other. */
  lemma MatchedAppend(qlow: string, a: seq<Json>, b: seq<Json>)
    ensures Matched(qlow, a + b) == Matched(qlow, a) + Matched(qlow, b)
  {
    if qlow != [] {
      MatchAllAppend(qlow, a, b);
    }
  }

  lemma {:induction false} MatchAllAppend(qlow: string, a: seq<Json>, b: seq<Json>)
    ensures MatchAll(qlow, a + b) == MatchAll(qlow, a) + MatchAll(qlow, b)
    decreases |a|
  {
    if a == [] {
      assert a + b == b;
    } else {
      var here := if IsMatch(qlow, a[0]) then [MatchField(a[0], "id")] else [];
      assert (a + b)[0] == a[0];
      assert (a + b)[1..] == a[1..] + b;
      MatchAllAppend(qlow, a[1..], b);
      AppendAssoc(here, MatchAll(qlow, a[1..]), MatchAll(qlow, b));
    }
  }

  /** One raw node: looking its key up raises when the key is unhashable;
      otherwise the node is kept, normalised, exactly when its key is a
      matched id and it normalises. */
  lemma SnippetNodesSingle(mids: seq<Json>, n: Json)
    ensures SnippetNodes(mids, [n])
            == if !Hashable(SnippetKey(n)) then Raised(TypeError)
               else Done(if SnippetKey(n) in mids && NormalizeNode(SearchCopy, n).Some? then [NormalizeNode(SearchCopy, n).value] else [])
  {
    assert [n][1..] == [];
    assert SnippetNodes(mids, []) == Done([]);
    var here := if SnippetKey(n) in mids then (match NormalizeNode(SearchCopy, n) case Some(nn) => [nn] case None => []) else [];
    assert here + [] == here;
  }

  /** The snippet's node loop keeps raw order and multiplicity: running it
      over a concatenation is running it over each part in turn. */
  lemma {:induction false} SnippetNodesAppend(mids: seq<Json>, a: seq<Json>, b: seq<Json>)
    ensures SnippetNodes(mids, a + b) == ThenAppend(SnippetNodes(mids, a), SnippetNodes(mids, b))
    decreases |a|
  {
    if a == [] {
      assert a + b == b;
      match SnippetNodes(mids, b)
      case Raised(_) =>
      case Done(y) => assert [] + y == y;
    } else {
      assert (a + b)[0] == a[0];
      assert (a + b)[1..] == a[1..] + b;
      SnippetNodesAppend(mids, a[1..], b);
      if Hashable(SnippetKey(a[0])) {
        match SnippetNodes(mids, a[1..])
        case Raised(_) =>
        case Done(x) =>
          match SnippetNodes(mids, b)
          case Raised(_) =>
          case Done(y) =>
            var here := if SnippetKey(a[0]) in mids then (match NormalizeNode(SearchCopy, a[0]) case Some(nn) => [nn] case None => []) else [];
            AppendAssoc(here, x, y);
      }
    }
  }

  /** One raw relation contributes what `SnippetRelation` says. */
  lemma SnippetRelationsSingle(mids: seq<Json>, raw: Json)
    ensures SnippetRelations(mids, [raw]) == SnippetRelation(mids, raw)
  {
    assert [raw][1..] == [];
    match SnippetRelation(mids, raw)
    case Raised(_) =>
    case Done(x) => assert x + [] == x;
  }

  /** The snippet's relation loop keeps raw order and multiplicity. */
  lemma {:induction false} SnippetRelationsAppend(mids: seq<Json>, a: seq<Json>, b: seq<Json>)
    ensures SnippetRelations(mids, a + b) == ThenAppend(SnippetRelations(mids, a), SnippetRelations(mids, b))
    decreases |a|
  {
    if a == [] {
      assert a + b == b;
      match SnippetRelations(mids, b)
      case Raised(_) =>
      case Done(y) => assert [] + y == y;
    } else {
      assert (a + b)[0] == a[0];
      assert (a + b)[1..] == a[1..] + b;
      SnippetRelationsAppend(mids, a[1..], b);
      match SnippetRelation(mids, a[0])
      case Raised(_) =>
      case Done(here) =>
        match SnippetRelations(mids, a[1..])
        case Raised(_) =>
        case Done(x) =>
          match SnippetRelations(mids, b)
          case Raised(_) =>
          case Done(y) => AppendAssoc(here, x, y);
    }
  }

  /** The `matched_ids` are all hashable, so `set(matched_ids)` does not raise. */
  predicate AllHashable(xs: seq<Json>) {
    forall i :: 0 <= i < |xs| ==> Hashable(xs[i])
  }

  /** The snippet of a hit can be built: nothing matched, or the matched ids
      and every key the two snippet loops look up in `mid_set` are hashable. */
  predicate SnippetOk(qlow: string, parts: Parts) {
    var matched := Matched(qlow, parts.nodes);
    matched == []
    || (AllHashable(matched)
        && (forall i :: 0 <= i < |parts.nodes| ==> Hashable(SnippetKey(parts.nodes[i])))
        && (forall i :: 0 <= i < |parts.relations| ==> RelLookupOk(matched, parts.relations[i])))
  }

  /** The entry of `hit_snippets` for one hit. It is built exactly when
      `SnippetOk` holds; otherwise a lookup raises `TypeError`. */
  function MakeSnippet(hit: Hit, qlow: string, parts: Parts): (r: Outcome<Snippet>)
    ensures r.Done? <==> SnippetOk(qlow, parts)
    ensures r.Raised? ==> r.error == TypeError
    ensures r.Done? ==> r.value.id == hit.id && r.value.score == hit.score
                        && r.value.matched == Matched(qlow, parts.nodes)
    ensures Matched(qlow, parts.nodes) == [] ==> r == Done(Snippet(hit.id, hit.score, [], [], []))
    ensures r.Done? ==> forall rel :: rel in r.value.relations ==> rel.source in r.value.matched && rel.target in r.value.matched
    ensures r.Done? && Matched(qlow, parts.nodes) != [] ==>
              SnippetNodes(Matched(qlow, parts.nodes), parts.nodes) == Done(r.value.nodes)
              && SnippetRelations(Matched(qlow, parts.nodes), parts.relations) == Done(r.value.relations)
  {
    var matched := Matched(qlow, parts.nodes);
    if matched == [] then Done(Snippet(hit.id, hit.score, [], [], []))
    else if !AllHashable(matched) then Raised(TypeError)
    else
      match SnippetNodes(matched, parts.nodes)
      case Raised(e) => Raised(e)
      case Done(nodes) =>
        match SnippetRelations(matched, parts.relations)
        case Raised(e) => Raised(e)
        case Done(relations) => Done(Snippet(hit.id, hit.score, matched, nodes, relations))
  }

  /** `hit.get('ontology') or {}`. */
  function HitContent(hit: Hit): (r: Json)
    ensures Truthy(hit.ontology) ==> r == hit.ontology
    ensures !Truthy(hit.ontology) ==> r == JObj([])
  {
    Or(hit.ontology, JObj([]))
  }

  function HitContents(hits: seq<Hit>): (r: seq<Json>)
    ensures |r| == |hits|
    ensures forall i :: 0 <= i < |hits| ==> r[i] == HitContent(hits[i])
  {
    seq(|hits|, i requires 0 <= i < |hits| => HitContent(hits[i]))
  }

  /** A hit already carries `o.json or {}`, so reading it again changes nothing. */
  lemma HitContentIsContent(docs: seq<Document>, scores: seq<real>, h: Hit)
    requires IsHitOf(docs, scores, h)
    ensures HitContent(h) == Content(docs[h.pos])
  {
  }

  /** The merged graph and the snippets so far. */
  datatype Progress = Progress(graph: Graph, snippets: seq<Snippet>)

  /** One hit is processed without raising: its document merges with the
      search copy of the normalisers and its snippet can be built. */
  predicate HitOk(qlow: string, hit: Hit) {
    DocOk(SearchCopy, HitContent(hit)) && SnippetOk(qlow, Containers(HitContent(hit)).value)
  }

  /** One iteration of `for hit in results`: merge, then match, then
      snippet. A hit whose content is not a mapping raises on `.get`; a
      mapping raises `TypeError` exactly when the hit is not `HitOk`. */
  function ProcessHit(st: Progress, qlow: string, hit: Hit): (r: Outcome<Progress>)
    ensures !HitContent(hit).JObj? ==> r == Raised(AttributeError)
    ensures r.Done? <==> HitOk(qlow, hit)
    ensures HitContent(hit).JObj? && r.Raised? ==> r.error == TypeError
    ensures r.Done? ==> st.graph.nodes <= r.value.graph.nodes && st.graph.relations <= r.value.graph.relations
    ensures r.Done? ==> |r.value.snippets| == |st.snippets| + 1 && r.value.snippets[..|st.snippets|] == st.snippets
  {
    match Containers(HitContent(hit))
    case Raised(e) => Raised(e)
    case Done(parts) =>
      AddNodesSpec(st.graph.nodes, SearchCopy, parts.nodes);
      AddRelationsSpec(st.graph.relations, SearchCopy, parts.relations);
      match AddNodes(st.graph.nodes, SearchCopy, parts.nodes)
      case Raised(e) => Raised(e)
      case Done(nodes) =>
        match AddRelations(st.graph.relations, SearchCopy, parts.relations)
        case Raised(e) => Raised(e)
        case Done(relations) =>
          match MakeSnippet(hit, qlow, parts)
          case Raised(e) => Raised(e)
          case Done(snippet) => Done(Progress(Graph(nodes, relations), st.snippets + [snippet]))
  }

  /** Every hit is processed without raising. */
  predicate HitsOk(qlow: string, hits: seq<Hit>) {
    forall i :: 0 <= i < |hits| ==> HitOk(qlow, hits[i])
  }

  lemma HitsOkCons(qlow: string, hits: seq<Hit>)
    requires hits != []
    ensures HitsOk(qlow, hits) <==> HitOk(qlow, hits[0]) && HitsOk(qlow, hits[1..])
  {
    assert forall i :: 0 < i < |hits| ==> hits[i] == hits[1..][i - 1];
  }

  /** The loop `for hit in results`: it finishes exactly when every hit is
      `HitOk`, with one snippet per hit, and the merged graph only grows. */
  function ProcessHits(st: Progress, qlow: string, hits: seq<Hit>): (r: Outcome<Progress>)
    ensures r.Done? <==> HitsOk(qlow, hits)
    ensures r.Done? ==> st.graph.nodes <= r.value.graph.nodes && st.graph.relations <= r.value.graph.relations
    ensures r.Done? ==> |r.value.snippets| == |st.snippets| + |hits|
    decreases |hits|
  {
    if hits == [] then Done(st)
    else
      HitsOkCons(qlow, hits);
      match ProcessHit(st, qlow, hits[0])
      case Raised(e) => Raised(e)
      case Done(st') => ProcessHits(st', qlow, hits[1..])
  }

  /** The ids a hit's snippet matches. */
  function HitMatches(qlow: string, hit: Hit): (r: seq<Json>)
    ensures qlow == [] ==> r == []
  {
    match Containers(HitContent(hit))
    case Done(parts) => Matched(qlow, parts.nodes)
    case Raised(_) => []
  }

  /** A hit's matched ids are the match ids of its raw nodes whose id or
      label contains `qlow`. */
  lemma HitMatchesMeaning(qlow: string, hit: Hit, x: Json)
    requires Containers(HitContent(hit)).Done?
    ensures var raws := Containers(HitContent(hit)).value.nodes;
            x in HitMatches(qlow, hit)
            <==> qlow != [] && exists j :: 0 <= j < |raws| && IsMatch(qlow, raws[j]) && MatchField(raws[j], "id") == x
  {
  }

  /** One hit merges its document with the search copy of the normalisers. */
  lemma ProcessHitMerges(st: Progress, qlow: string, hit: Hit)
    requires ProcessHit(st, qlow, hit).Done?
    ensures MergeDocument(st.graph, SearchCopy, HitContent(hit)) == Done(ProcessHit(st, qlow, hit).value.graph)
  {
  }

  /** One hit appends one snippet, carrying the hit's id and matched ids. */
  lemma ProcessHitSnippet(st: Progress, qlow: string, hit: Hit)
    requires ProcessHit(st, qlow, hit).Done?
    ensures var snips := ProcessHit(st, qlow, hit).value.snippets;
            |snips| == |st.snippets| + 1 && snips[..|st.snippets|] == st.snippets
            && snips[|st.snippets|].id == hit.id
            && snips[|st.snippets|].matched == HitMatches(qlow, hit)
    ensures var snip := ProcessHit(st, qlow, hit).value.snippets[|st.snippets|];
          var parts := Containers(HitContent(hit)).value;
          (HitMatches(qlow, hit) == [] ==> snip.nodes == [] && snip.relations == [])
          && (HitMatches(qlow, hit) != [] ==>
                SnippetNodes(HitMatches(qlow, hit), parts.nodes) == Done(snip.nodes)
                && SnippetRelations(HitMatches(qlow, hit), parts.relations) == Done(snip.relations))
  {
  }

  /** The search merge is the merge of the hit documents only, with the
      search copy of the normalisers. */
  lemma {:induction false} ProcessHitsMerges(st: Progress, qlow: string, hits: seq<Hit>)
    requires ProcessHits(st, qlow, hits).Done?
    ensures MergeFrom(st.graph, SearchCopy, HitContents(hits)) == Done(ProcessHits(st, qlow, hits).value.graph)
    decreases |hits|
  {
    if hits != [] {
      ProcessHitMerges(st, qlow, hits[0]);
      var st' := ProcessHit(st, qlow, hits[0]).value;
      ProcessHitsMerges(st', qlow, hits[1..]);
      assert HitContents(hits)[0] == HitContent(hits[0]);
      assert HitContents(hits)[1..] == HitContents(hits[1..]);
    }
  }

  /** The hit loop runs the first hit, then the rest from where it left off. */
  lemma ProcessHitsStep(st: Progress, qlow: string, hits: seq<Hit>)
    requires hits != []
    requires ProcessHits(st, qlow, hits).Done?
    ensures ProcessHit(st, qlow, hits[0]).Done?
    ensures ProcessHits(st, qlow, hits) == ProcessHits(ProcessHit(st, qlow, hits[0]).value, qlow, hits[1..])
  {
  }

  /** The `matched_ids` of each snippet, in order. */
  function MatchedLists(snips: seq<Snippet>): (r: seq<seq<Json>>)
    ensures |r| == |snips|
    ensures forall i :: 0 <= i < |snips| ==> r[i] == snips[i].matched
  {
    seq(|snips|, i requires 0 <= i < |snips| => snips[i].matched)
  }

  /** The matched ids of each hit, in hit order. */
  function HitsMatches(qlow: string, hits: seq<Hit>): (r: seq<seq<Json>>)
    ensures |r| == |hits|
  {
    if hits == [] then [] else [HitMatches(qlow, hits[0])] + HitsMatches(qlow, hits[1..])
  }

  lemma {:induction false} HitsMatchesAt(qlow: string, hits: seq<Hit>, i: int)
    requires 0 <= i < |hits|
    ensures HitsMatches(qlow, hits)[i] == HitMatches(qlow, hits[i])
  {
    if i > 0 {
      HitsMatchesAt(qlow, hits[1..], i - 1);
    }
  }

  /** Each hit adds one snippet, in hit order, carrying the ids the hit matched. */
  lemma {:induction false} ProcessHitsSnippets(st: Progress, qlow: string, hits: seq<Hit>)
    requires ProcessHits(st, qlow, hits).Done?
    ensures var snips := ProcessHits(st, qlow, hits).value.snippets;
            |snips| == |st.snippets| + |hits| && snips[..|st.snippets|] == st.snippets
            && MatchedLists(snips[|st.snippets|..]) == HitsMatches(qlow, hits)
    decreases |hits|
  {
    if hits != [] {
      ProcessHitsStep(st, qlow, hits);
      ProcessHitSnippet(st, qlow, hits[0]);
      var st' := ProcessHit(st, qlow, hits[0]).value;
      ProcessHitsSnippets(st', qlow, hits[1..]);
      SnippetsCompose(st.snippets, st'.snippets, ProcessHits(st', qlow, hits[1..]).value.snippets,
                      HitMatches(qlow, hits[0]), HitsMatches(qlow, hits[1..]));
    }
  }

  /** Sequence bookkeeping for one step of the hit loop: `b` is `a` plus a
      snippet matching `m`, and `c` extends `b` with snippets matching `rest`. */
  lemma SnippetsCompose(a: seq<Snippet>, b: seq<Snippet>, c: seq<Snippet>, m: seq<Json>, rest: seq<seq<Json>>)
    requires |b| == |a| + 1 && b[..|a|] == a && b[|a|].matched == m
    requires |c| == |b| + |rest| && c[..|b|] == b && MatchedLists(c[|b|..]) == rest
    ensures |c| == |a| + 1 + |rest| && c[..|a|] == a && MatchedLists(c[|a|..]) == [m] + rest
  {
    var n := |a|;
    assert c[..n] == b[..n];
    assert c[n..] == [c[n]] + c[n + 1..];
    assert c[n] == b[n];
  }

  /** The truthy matched ids of every snippet (`if mid: seed_ids.add(mid)`). */
  function MatchedSeeds(snips: seq<Snippet>): (r: set<Json>)
    ensures forall x :: x in r ==> Truthy(x)
    ensures forall x :: x in r ==> exists i, j :: 0 <= i < |snips| && 0 <= j < |snips[i].matched| && snips[i].matched[j] == x
    ensures forall i, j :: 0 <= i < |snips| && 0 <= j < |snips[i].matched| && Truthy(snips[i].matched[j])
              ==> snips[i].matched[j] in r
  {
    set i, j | 0 <= i < |snips| && 0 <= j < |snips[i].matched| && Truthy(snips[i].matched[j]) :: snips[i].matched[j]
  }

  /** The fallback seeds: `str(hit id)` for every hit with a truthy id. */
  function IdSeeds(hits: seq<Hit>): (r: set<Json>)
    ensures forall x :: x in r ==> Truthy(x) && x.JStr?
    ensures forall x :: x in r ==> exists h :: h in hits && h.id != 0 && x == JStr(IntText(h.id))
    ensures forall h :: h in hits && h.id != 0 ==> JStr(IntText(h.id)) in r
  {
    set h | h in hits && h.id != 0 :: JStr(IntText(h.id))
  }

  /** Some snippet matched a truthy id. */
  predicate AnyTruthyMatch(snips: seq<Snippet>) {
    exists i, j :: 0 <= i < |snips| && 0 <= j < |snips[i].matched| && Truthy(snips[i].matched[j])
  }

  /** `seed_ids`: the truthy matched ids when there is one, otherwise the hit ids. */
  function Seeds(snips: seq<Snippet>, hits: seq<Hit>): (r: set<Json>)
    ensures forall x :: x in r ==> Truthy(x)
    ensures AnyTruthyMatch(snips) ==> r == MatchedSeeds(snips)
    ensures !AnyTruthyMatch(snips) ==> r == IdSeeds(hits)
  {
    var matched := MatchedSeeds(snips);
    if matched != {} then matched else IdSeeds(hits)
  }

  /** A mapping node without a truthy id matches under the id `''`, so it
      never becomes a seed even when its label matches. */
  lemma LabelOnlyNodeIsNoSeed(qlow: string, n: Json, snips: seq<Snippet>, hits: seq<Hit>)
    requires n.JObj? && !Truthy(Get(n.fields, "id"))
    ensures MatchField(n, "id") == JStr("")
    ensures MatchField(n, "id") !in Seeds(snips, hits)
  {
  }

  /** `int(request.GET.get('hops', 1))`, falling back to 1 when it does not parse. */
  function Hops(raw: Option<int>): (h: int)
    ensures raw.Some? ==> h == raw.value
    ensures raw.None? ==> h == 1
  {
    match raw
    case Some(h) => h
    case None => 1
  }

  /** A node of the reply: the merged node plus `highlight`. */
  datatype OutNode = OutNode(node: Node, highlight: bool)

  /** The reply's relations: the traversed triples (a set, listed in no
      particular order) or the merged relation list. */
  datatype RelationsOut = InOrder(list: seq<Relation>) | AnyOrder(triples: set<Relation>)

  datatype Found = Found(nodes: seq<OutNode>, relations: RelationsOut, matches: seq<Snippet>, seeds: set<Json>, hops: int)

  datatype Reply = Fallback(graph: Graph) | Searched(found: Found)

  /** `final_node_map`: every merged node when nothing was traversed,
      otherwise the traversed ones, each flagged when its id is a seed. */
  function FinalNodes(nodes: seq<Node>, seeds: set<Json>, traversed: set<Json>): (r: seq<OutNode>)
    ensures forall o :: o in r ==> (o.highlight <==> o.node.id in seeds)
    ensures forall o :: o in r ==> o.node in nodes && (traversed == {} || o.node.id in traversed)
    ensures forall n :: n in nodes && (traversed == {} || n.id in traversed) ==> OutNode(n, n.id in seeds) in r
    ensures traversed == {} ==> |r| == |nodes| && forall i :: 0 <= i < |r| ==> r[i].node == nodes[i]
    decreases |nodes|
  {
    if nodes == [] then []
    else
      var rest := FinalNodes(nodes[1..], seeds, traversed);
      var n := nodes[0];
      var head := if traversed == {} || n.id in traversed then [OutNode(n, n.id in seeds)] else [];
      FinalNodesCons(nodes, seeds, traversed, head, rest);
      head + rest
  }

  /** One step of the assembly loop: the first node, kept or not, in front
      of the assembled rest. */
  lemma FinalNodesCons(nodes: seq<Node>, seeds: set<Json>, traversed: set<Json>, head: seq<OutNode>, rest: seq<OutNode>)
    requires nodes != []
    requires var n := nodes[0];
             head == if traversed == {} || n.id in traversed then [OutNode(n, n.id in seeds)] else []
    requires forall o :: o in rest ==> (o.highlight <==> o.node.id in seeds)
    requires forall o :: o in rest ==> o.node in nodes[1..] && (traversed == {} || o.node.id in traversed)
    requires forall n :: n in nodes[1..] && (traversed == {} || n.id in traversed) ==> OutNode(n, n.id in seeds) in rest
    requires traversed == {} ==> |rest| == |nodes| - 1 && forall i :: 0 <= i < |rest| ==> rest[i].node == nodes[i + 1]
    ensures var r := head + rest;
            && (forall o :: o in r ==> (o.highlight <==> o.node.id in seeds))
            && (forall o :: o in r ==> o.node in nodes && (traversed == {} || o.node.id in traversed))
            && (forall n :: n in nodes && (traversed == {} || n.id in traversed) ==> OutNode(n, n.id in seeds) in r)
            && (traversed == {} ==> |r| == |nodes| && forall i :: 0 <= i < |r| ==> r[i].node == nodes[i])
  {
    var r := head + rest;
    forall o | o in r
      ensures o.node in nodes
    {
      if o !in head {
        assert o.node in nodes[1..];
      }
    }
    forall n | n in nodes && (traversed == {} || n.id in traversed)
      ensures OutNode(n, n.id in seeds) in r
    {
      if n != nodes[0] {
        assert n in nodes[1..];
      }
    }
    if traversed == {} {
      forall i | 0 <= i < |r|
        ensures r[i].node == nodes[i]
      {
        if i > 0 {
          assert r[i] == rest[i - 1];
        }
      }
    }
  }

  /** The merged nodes a list of reply nodes carries, in order. */
  function NodesOf(os: seq<OutNode>): (ns: seq<Node>)
    ensures |ns| == |os|
    ensures forall i :: 0 <= i < |os| ==> ns[i] == os[i].node
  {
    seq(|os|, i requires 0 <= i < |os| => os[i].node)
  }

  /** `a` can be read off `b` left to right, skipping entries of `b`. */
  predicate IsSubseq(a: seq<Node>, b: seq<Node>)
    decreases |b|
  {
    if a == [] then true
    else if b == [] then false
    else if a[0] == b[0] then IsSubseq(a[1..], b[1..])
    else IsSubseq(a, b[1..])
  }

  /** One step of `final_node_map`: the first merged node, when kept, in
      front of the nodes kept from the rest. */
  lemma FinalNodesStep(nodes: seq<Node>, seeds: set<Json>, traversed: set<Json>)
    requires nodes != []
    ensures NodesOf(FinalNodes(nodes, seeds, traversed))
            == (if traversed == {} || nodes[0].id in traversed then [nodes[0]] else [])
               + NodesOf(FinalNodes(nodes[1..], seeds, traversed))
  {
    var n0 := nodes[0];
    var head := if traversed == {} || n0.id in traversed then [OutNode(n0, n0.id in seeds)] else [];
    var rest := FinalNodes(nodes[1..], seeds, traversed);
    FinalNodesUnfold(nodes, seeds, traversed);
    NodesOfAppend(head, rest);
    assert NodesOf(head) == if traversed == {} || n0.id in traversed then [n0] else [];
  }

  lemma FinalNodesUnfold(nodes: seq<Node>, seeds: set<Json>, traversed: set<Json>)
    requires nodes != []
    ensures var n0 := nodes[0];
            FinalNodes(nodes, seeds, traversed)
            == (if traversed == {} || n0.id in traversed then [OutNode(n0, n0.id in seeds)] else [])
               + FinalNodes(nodes[1..], seeds, traversed)
  {
  }

  lemma NodesOfAppend(a: seq<OutNode>, b: seq<OutNode>)
    ensures NodesOf(a + b) == NodesOf(a) + NodesOf(b)
  {
    var l := NodesOf(a + b);
    var rr := NodesOf(a) + NodesOf(b);
    assert |l| == |rr|;
    forall i | 0 <= i < |l|
      ensures l[i] == rr[i]
    {
      if i >= |a| {
        assert (a + b)[i] == b[i - |a|];
      }
    }
  }

  /** `final_node_map` keeps the merged nodes in merge order. */
  lemma {:induction false} FinalNodesSubseq(nodes: seq<Node>, seeds: set<Json>, traversed: set<Json>)
    ensures IsSubseq(NodesOf(FinalNodes(nodes, seeds, traversed)), nodes)
    decreases |nodes|
  {
    if nodes != [] {
      var n0 := nodes[0];
      var rest := FinalNodes(nodes[1..], seeds, traversed);
      var tail := NodesOf(rest);
      FinalNodesSubseq(nodes[1..], seeds, traversed);
      FinalNodesStep(nodes, seeds, traversed);
      var ns := NodesOf(FinalNodes(nodes, seeds, traversed));
      if traversed == {} || n0.id in traversed {
        assert ns == [n0] + tail;
        assert ns[0] == nodes[0] && ns[1..] == tail;
      } else {
        assert ns == tail;
        if tail != [] {
          assert rest[0] in rest;
          assert tail[0].id in traversed;
          assert tail[0] != nodes[0];
        }
      }
    }
  }

  /** `ns` holds each node of `nodes` whose id is kept exactly as often as
      `nodes` does, and no other node; every id is kept when `traversed` is
      empty. */
  ghost predicate KeepsCounts(ns: seq<Node>, nodes: seq<Node>, traversed: set<Json>) {
    forall n :: multiset(ns)[n] == if traversed == {} || n.id in traversed then multiset(nodes)[n] else 0
  }

  /** `final_node_map` holds each kept merged node exactly as often as the
      merged list does, and no other node. */
  lemma {:induction false} FinalNodesCounts(nodes: seq<Node>, seeds: set<Json>, traversed: set<Json>)
    ensures KeepsCounts(NodesOf(FinalNodes(nodes, seeds, traversed)), nodes, traversed)
    decreases |nodes|
  {
    if nodes == [] {
      assert NodesOf(FinalNodes(nodes, seeds, traversed)) == [];
    } else {
      var n0 := nodes[0];
      var tail := NodesOf(FinalNodes(nodes[1..], seeds, traversed));
      FinalNodesCounts(nodes[1..], seeds, traversed);
      FinalNodesStep(nodes, seeds, traversed);
      var head := if traversed == {} || n0.id in traversed then [n0] else [];
      var ns := NodesOf(FinalNodes(nodes, seeds, traversed));
      assert ns == head + tail;
      assert multiset(ns) == multiset(head) + multiset(tail);
      assert nodes == [n0] + nodes[1..];
      assert multiset(nodes) == multiset{n0} + multiset(nodes[1..]);
      forall n: Node
        ensures multiset(ns)[n] == if traversed == {} || n.id in traversed then multiset(nodes)[n] else 0
      {
        assert multiset(tail)[n] == if traversed == {} || n.id in traversed then multiset(nodes[1..])[n] else 0;
      }
    }
  }

  /** The reply's nodes and relations. */
  datatype Assembly = Assembly(nodes: seq<OutNode>, relations: RelationsOut)

  /** The `DiGraph` of the merged graph, the expansion from `seeds`, and the
      final assembly of nodes and relations: only merged nodes are returned,
      each flagged iff its id is a seed, and relations listed in order are
      the merged list. */
  function Assemble(g: Graph, seeds: set<Json>, hops: int): (a: Assembly)
    ensures forall o :: o in a.nodes ==> o.node in g.nodes && (o.highlight <==> o.node.id in seeds)
    ensures a.relations.InOrder? ==> a.relations.list == g.relations
    ensures a.relations.AnyOrder? ==> a.relations.triples != {}
  {
    var G := BuildGraph(g);
    var walk := G.vertices != {} && seeds != {};
    var tn := if walk then TraversedNodes(G, seeds, hops) else {};
    var te := if walk then TraversedEdges(G, seeds, hops) else {};
    var relations := if te != {} then AnyOrder(te) else InOrder(g.relations);
    Assembly(FinalNodes(g.nodes, seeds, tn), relations)
  }

  /** Everything after the merge: seeds, `hops`, then the assembly. */
  function Finish(st: Progress, hits: seq<Hit>, hopsArg: Option<int>): (f: Found)
    ensures f.matches == st.snippets
    ensures f.seeds == Seeds(st.snippets, hits)
    ensures f.hops == Hops(hopsArg)
  {
    var seeds := Seeds(st.snippets, hits);
    var hops := Hops(hopsArg);
    var a := Assemble(st.graph, seeds, hops);
    Found(a.nodes, a.relations, st.snippets, seeds, hops)
  }

  /** The search branch for given hits: one snippet per hit, the seeds of
      those snippets, and the parsed `hops`. */
  function Respond(hits: seq<Hit>, qlow: string, hopsArg: Option<int>): (r: Outcome<Found>)
    ensures r.Done? <==> HitsOk(qlow, hits)
    ensures r.Done? ==> |r.value.matches| == |hits|
    ensures r.Done? ==> r.value.seeds == Seeds(r.value.matches, hits) && r.value.hops == Hops(hopsArg)
  {
    match ProcessHits(Progress(EmptyGraph, []), qlow, hits)
    case Raised(e) => Raised(e)
    case Done(st) => Done(Finish(st, hits, hopsArg))
  }

  /** `search_graph` over the store, with `q`, `k` and the raw `hops`
      parameter: an empty `q` answers with the aggregated graph, any other
      query with a search reply exactly when every top-k hit is `HitOk`. */
  function SearchGraph(docs: seq<Document>, q: string, k: int, hopsArg: Option<int>): (r: Outcome<Reply>)
    ensures q == [] ==> (r.Done? <==> AllOk(AggregateCopy, StoreContents(docs)))
    ensures q == [] && r.Done? ==>
              r.value == Fallback(Graph(Firsts(NodeStream(AggregateCopy, StoreContents(docs)), NodeKey),
                                        Firsts(RelationStream(AggregateCopy, StoreContents(docs)), RelKey)))
    ensures q != [] ==> (r.Done? <==> HitsOk(Lower(Strip(q)), TopK(q, docs, k)))
    ensures q != [] && r.Done? ==> r.value.Searched? && r.value.found.hops == Hops(hopsArg)
  {
    if q == [] then
      match Aggregate(docs)
      case Raised(e) => Raised(e)
      case Done(g) => Done(Fallback(g))
    else
      match Respond(TopK(q, docs, k), Lower(Strip(q)), hopsArg)
      case Raised(e) => Raised(e)
      case Done(f) => Done(Searched(f))
  }

  /** When no seed is a merged node id nothing is traversed: every merged
      node is returned, in merge order, with the merged relation list. */
  lemma AssembleWithoutSeedInGraph(g: Graph, seeds: set<Json>, hops: int)
    requires Start(BuildGraph(g), seeds) == {}
    ensures var a := Assemble(g, seeds, hops);
            && |a.nodes| == |g.nodes|
            && (forall i :: 0 <= i < |a.nodes| ==> a.nodes[i].node == g.nodes[i])
            && a.relations == InOrder(g.relations)
  {
    if hops > 0 {
      EmptyStartReachesNothing(BuildGraph(g), hops);
    }
  }

  /** With `hops <= 0` no edge is traversed, so the merged relation list is
      returned; when some seed is a merged id, only the seed nodes are
      returned and every one of them is highlighted. */
  lemma AssembleWithoutHops(g: Graph, seeds: set<Json>, hops: int)
    requires hops <= 0
    ensures var a := Assemble(g, seeds, hops);
            var start := Start(BuildGraph(g), seeds);
            && a.relations == InOrder(g.relations)
            && (start != {} ==> forall o :: o in a.nodes ==> o.highlight && o.node.id in start)
  {
  }

  /** Once a seed is a merged id, the returned nodes are the merged nodes
      whose id was traversed. */
  lemma AssembleNodesTraversed(g: Graph, seeds: set<Json>, hops: int)
    requires Start(BuildGraph(g), seeds) != {}
    ensures var tn := TraversedNodes(BuildGraph(g), seeds, hops);
            var a := Assemble(g, seeds, hops);
            && (forall o :: o in a.nodes ==> o.node.id in tn)
            && (forall n :: n in g.nodes && n.id in tn ==> exists o :: o in a.nodes && o.node == n)
    ensures var tn := TraversedNodes(BuildGraph(g), seeds, hops);
            var ns := NodesOf(Assemble(g, seeds, hops).nodes);
            IsSubseq(ns, g.nodes) && KeepsCounts(ns, g.nodes, tn)
  {
    var G := BuildGraph(g);
    var S := Start(G, seeds);
    var tn := TraversedNodes(G, seeds, hops);
    var x :| x in S;
    if hops > 0 {
      BallInGraph(G, S, hops);
    }
    assert x in tn;
    FinalNodesSubseq(g.nodes, seeds, tn);
    FinalNodesCounts(g.nodes, seeds, tn);
  }

  /** Once a seed is a merged id, every returned node lies within `hops`
      undirected steps of such a seed. */
  lemma AssembleNodesAreNear(g: Graph, seeds: set<Json>, hops: int, o: OutNode)
    requires Start(BuildGraph(g), seeds) != {}
    requires o in Assemble(g, seeds, hops).nodes
    ensures exists w :: 1 <= |w| <= (if hops <= 0 then 1 else hops + 1)
                        && WalkTo(BuildGraph(g), Start(BuildGraph(g), seeds), w, o.node.id)
  {
    AssembleNodesTraversed(g, seeds, hops);
    TraversedNodesAreNear(BuildGraph(g), seeds, hops, o.node.id);
  }

  /** Once a seed is a merged id and `hops > 0`, the returned relations are
      the edges touching a node within `hops - 1` steps of a seed, each with
      its last-written label, or the merged list when there is no such edge. */
  lemma AssembleEdges(g: Graph, seeds: set<Json>, hops: int)
    requires Start(BuildGraph(g), seeds) != {}
    requires hops > 0
    ensures var G := BuildGraph(g);
            var touched := Incident(G, Ball(G, Start(G, seeds), hops - 1));
            Assemble(g, seeds, hops).relations == if touched == {} then InOrder(g.relations) else AnyOrder(touched)
  {
    TraversedEdgesTouchBall(BuildGraph(g), seeds, hops);
  }

  /** A non-empty query is answered from its top-k hits: the reply is the
      assembly of the search-copy merge of exactly those hits' contents,
      with one snippet per hit and the seeds those snippets give. */
  lemma SearchGraphAssembles(docs: seq<Document>, q: string, k: int, hopsArg: Option<int>)
    requires q != []
    requires SearchGraph(docs, q, k, hopsArg).Done?
    ensures var hits := TopK(q, docs, k);
            var f := SearchGraph(docs, q, k, hopsArg).value.found;
            && Merge(SearchCopy, HitContents(hits)).Done?
            && Assembly(f.nodes, f.relations) == Assemble(Merge(SearchCopy, HitContents(hits)).value, f.seeds, f.hops)
            && |f.matches| == |hits|
            && f.seeds == Seeds(f.matches, hits)
            && f.hops == Hops(hopsArg)
  {
    ProcessHitsMerges(Progress(EmptyGraph, []), Lower(Strip(q)), TopK(q, docs, k));
  }

  /** A query made only of whitespace has no token, so no document scores
      and there is no hit. */
  lemma BlankQueryHasNoHits(docs: seq<Document>, q: string, k: int)
    requires Strip(q) == []
    ensures TopK(q, docs, k) == []
  {
    assert forall i :: 0 <= i < |q| ==> !IsWordChar(q[i]);
    TokensEmptyIff(q);
    var sc := Scores(q, docs);
    assert Positives(sc) == {};
    var hits := TopK(q, docs, k);
    assert forall h :: h in hits ==> h.pos in Positives(sc);
  }

  /** With no hit and nothing matched, the search answers with nothing: no
      node, no relation, no snippet and no seed. */
  lemma BlankQueryFindsNothing(docs: seq<Document>, q: string, k: int, hopsArg: Option<int>)
    requires q != [] && Strip(q) == []
    ensures TopK(q, docs, k) == []
    ensures SearchGraph(docs, q, k, hopsArg) == Done(Searched(Found([], InOrder([]), [], {}, Hops(hopsArg))))
  {
    BlankQueryHasNoHits(docs, q, k);
    assert MatchedSeeds([]) == {} && IdSeeds([]) == {};
    assert BuildGraph(EmptyGraph).vertices == {};
  }

  /** The search branch merges exactly the hit documents, and every returned
      node is a merged node flagged iff its id is a seed. */
  lemma RespondMergesHits(hits: seq<Hit>, qlow: string, hopsArg: Option<int>)
    requires Respond(hits, qlow, hopsArg).Done?
    ensures Merge(SearchCopy, HitContents(hits)).Done?
    ensures var f := Respond(hits, qlow, hopsArg).value;
            forall o :: o in f.nodes ==>
              o.node in Merge(SearchCopy, HitContents(hits)).value.nodes && (o.highlight <==> o.node.id in f.seeds)
  {
    ProcessHitsMerges(Progress(EmptyGraph, []), qlow, hits);
  }

  /** For any given hits, an empty stripped query matches no node, so the
      seeds fall back to the hit ids. Through `SearchGraph` a non-empty
      query that strips to nothing has no hits at all
      (`BlankQueryFindsNothing`); this is the hit loop's own behaviour. */
  lemma BlankQuerySeedsAreHitIds(hits: seq<Hit>, qlow: string, hopsArg: Option<int>)
    requires qlow == []
    requires Respond(hits, qlow, hopsArg).Done?
    ensures var f := Respond(hits, qlow, hopsArg).value;
            (forall s :: s in f.matches ==> s.matched == []) && f.seeds == IdSeeds(hits)
  {
    var st0 := Progress(EmptyGraph, []);
    ProcessHitsSnippets(st0, qlow, hits);
    var f := Respond(hits, qlow, hopsArg).value;
    var snips := f.matches;
    assert snips[|st0.snippets|..] == snips;
    forall i | 0 <= i < |snips|
      ensures snips[i].matched == []
    {
      HitsMatchesAt(qlow, hits, i);
      assert MatchedLists(snips)[i] == snips[i].matched;
    }
    assert MatchedSeeds(snips) == {};
  }

  /** Each seed is either a hit id or a matched id: the id of a node of one
      of the hits whose id or label contains the stripped, lower-cased query. */
  lemma SeedsComeFromMatches(hits: seq<Hit>, qlow: string, hopsArg: Option<int>, x: Json)
    requires Respond(hits, qlow, hopsArg).Done?
    requires x in Respond(hits, qlow, hopsArg).value.seeds
    ensures x in IdSeeds(hits)
            || (Truthy(x) && exists i :: 0 <= i < |hits| && x in HitMatches(qlow, hits[i]))
  {
    var st0 := Progress(EmptyGraph, []);
    ProcessHitsSnippets(st0, qlow, hits);
    var f := Respond(hits, qlow, hopsArg).value;
    var snips := f.matches;
    assert snips[|st0.snippets|..] == snips;
    if x !in IdSeeds(hits) {
      var i, j :| 0 <= i < |snips| && 0 <= j < |snips[i].matched| && Truthy(snips[i].matched[j]) && snips[i].matched[j] == x;
      HitsMatchesAt(qlow, hits, i);
      assert MatchedLists(snips)[i] == snips[i].matched;
    }
  }

  /** The query branch of `search_graph` runs on the top-k hits, whose
      contents are the stored contents of the ranked documents. */
  lemma TopHitContents(docs: seq<Document>, q: string, k: int, i: int)
    requires 0 <= i < |TopK(q, docs, k)|
    ensures var h := TopK(q, docs, k)[i];
            h.pos < |docs| && HitContents(TopK(q, docs, k))[i] == Content(docs[h.pos])
  {
    var hits := TopK(q, docs, k);
    assert hits[i] in hits;
  }
}
