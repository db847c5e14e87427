# Ontology graph search: a Dafny model

This project models the query core of an ontology-graph backend. The
backend is a Django view module that merges many stored JSON ontologies into
one graph and answers free-text searches over it. The model covers these
parts of `ontologies/views.py`:

- **Lexical scorer.** `_tokens`, `_collect_text`, `_score_query_against_doc`
  and `query_top_k_local`. A document's strings are collected with weights
  that depend on their depth and on their dict key. Both the query and those
  strings are lower-cased and cut into `\w+` tokens. The score is the weight
  of shared tokens divided by the total weight plus the number of query
  tokens. The positive scores are sorted with a stable descending sort and
  cut with `[:k]`.
- **Two normalisers.** `aggregated_graph` and `search_graph` each define
  their own `normalize_node` and `normalize_relation`, and the two copies
  differ.
- **Merge loops.** Nodes are kept first writer wins by id. Relations are kept
  once per `(source, target, relation)` triple.
- **Search pipeline.**
  - Only the top-k hits are merged.
  - Nodes are matched per hit against the stripped, lower-cased query.
  - Each hit gets a snippet.
  - Seeds are the truthy matched ids, or the hit ids when there are none.
  - The graph is a `DiGraph` where the last label written wins and dangling
    relations are dropped.
  - The breadth-first expansion has no visited set.
  - The final assembly sets `highlight` on seed nodes. It falls back to
    every merged node when nothing was traversed, and to the merged relation
    list when no edge was traversed.

Implicit Python failures are part of the model: `.get` on a document that
is not a mapping, `for` over a non-iterable, and a list or dict used as a
dict key or set member. These abort the request. Each operation that can
raise returns `Outcome<T>`, which is `Done(value)` or `Raised(AttributeError | TypeError)`.

Modules, one per file:

- `Results`: `Option` and `Outcome`.
- `Seqs`: a sequence fact the list-building proofs share.
- `Text`: ASCII `lower`, `\w+` tokens, `strip`, substring search, `str(int)`.
- `Json`: JSON values with Python truthiness, `dict.get`, `or`, hashability, `str`.
- `Store`: stored documents.
- `Scorer`, `Ranking`: the lexical scorer.
- `Normalize`: both normaliser copies, and reading a document's node and relation containers.
- `Dedup`: the generic first-occurrence walk and its reference definition.
- `Merging`: both merge loops and `aggregated_graph`.
- `Digraph`: the `nx.DiGraph`.
- `Traverse`: the expansion and its walk characterisation.
- `Search`: `search_graph`.

### Behaviour worth noting

- The search graph is built from the merged top-k hit documents only. The
  rest of the store does not contribute (`Search.SearchGraphAssembles`).
- The expansion keeps no visited set. Nodes and edges are recorded for every
  queued pair below the hop limit. The nodes reached are exactly the ends of
  undirected walks of at most `hops` steps (`Traverse.TraversedNodesAreNear`).
  The edges are every edge touching a node within `hops - 1` steps
  (`Traverse.TraversedEdgesTouchBall`), not only tree edges.
- With `hops <= 0` no edge is traversed, so the reply carries the whole
  merged relation list (`Search.AssembleWithoutHops`).
- Nodes are matched against `q.strip().lower()`, not against the raw query.
  A non-empty query of only whitespace has no token, so no document scores
  and the reply is empty: no node, relation, snippet or seed
  (`Search.BlankQueryFindsNothing`).
- The score is not monotone in the query. `len(q_tokens)` is in the
  denominator, so adding a query token the document lacks strictly lowers a
  positive score (`Scorer.ExtraQueryTokenLowersOverlap`).
- A malformed node or relation is not always skipped. An
  unhashable id or triple raises `TypeError`, and a document that is not a
  mapping raises `AttributeError` (`Merging.AddNodesSpec`,
  `Merging.MergeFromSpec`).
- The two normaliser copies differ. The aggregation copy falls back to
  `label` for the type and reads `s`/`t`/`type`; the search copy does neither
  (`Normalize.NodeVariantsDiffer`, `Normalize.ShortKeysOnlyInAggregation`).
- A node's own match does not always put it in its snippet. A number,
  boolean or None node is matched under its `str()` text, but the snippet
  loop looks it up in `mid_set` as itself (`Search.SnippetKey`).
- There is no rebuild debouncer in the view code.

## Model

In the source column, `views.py` stands for `django_backend/django_backend/ontologies/views.py`.

| member | source | states |
|---|---|---|
| Text.Lower | django_backend/django_backend/ontologies/views.py:14 | `lower()` maps each character on its own, so the length is kept |
| Text.Runs | django_backend/django_backend/ontologies/views.py:11-14 | `findall(r"\w+")`: every token is non-empty and made only of word characters; there is no token iff the text has no word character |
| Text.RunsAreMaximal | django_backend/django_backend/ontologies/views.py:11-14 | each token is a maximal run of word characters found in the text (a non-word character or the text's edge on both sides), the tokens are in text order, and no two touch |
| Text.Tokens | django_backend/django_backend/ontologies/views.py:13-14 | `_tokens(text)`: every token is a non-empty run of word characters with no upper-case letter |
| Text.RunsKeepWordChars | django_backend/django_backend/ontologies/views.py:11-14 | gluing the tokens back together gives exactly the word characters of the text, in order: only separators are dropped |
| Text.TokensEmptyIff | django_backend/django_backend/ontologies/views.py:13-14 | `_tokens(text)` is empty iff the text has no word character; lower-casing changes no character class |
| Text.Strip | django_backend/django_backend/ontologies/views.py:251 | `strip()` returns a slice of its input with only whitespace removed at either end, starts and ends with a non-space, and is empty iff the input is all whitespace |
| Text.IntText | django_backend/django_backend/ontologies/views.py:303 | `str(id)` is non-empty and starts with `-` iff the id is negative |
| Text.NatText | django_backend/django_backend/ontologies/views.py:303 | the decimal digits of a natural number have no leading zero unless the number is 0 |
| Text.NatTextValue | django_backend/django_backend/ontologies/views.py:303 | reading the digits of `str(n)` back gives `n` |
| Text.IntTextValue | django_backend/django_backend/ontologies/views.py:303 | `int(str(i)) == i`: after the optional minus sign the digits read back as the magnitude of `i` |
| Text.IntTextInjective | django_backend/django_backend/ontologies/views.py:303 | distinct hit ids give distinct fallback seed strings |
| Json.Get | django_backend/django_backend/ontologies/views.py:134 | `dict.get(key)`: the value of the first entry whose key is `key`; a non-None result is stored under `key`; a missing key gives None |
| Json.Truthy | django_backend/django_backend/ontologies/views.py:134-136 | Python truthiness: a value is false exactly when it is None, False, 0, 0.0, the empty string, the empty list or the empty mapping |
| Json.Or | django_backend/django_backend/ontologies/views.py:134-136 | `a or b` is `a` when `a` is truthy and `b` otherwise, so it is truthy iff either operand is |
| Json.Str | django_backend/django_backend/ontologies/views.py:43 | `str(v)`: a string is itself, and any other value prints as its `repr` |
| Json.Repr | django_backend/django_backend/ontologies/views.py:259-261 | `repr(v)`: `None`, `True` and `False` as words; an int as its decimal text; a float as its carried text; a string quoted so that the quoted text reads back to it; a list as `[`, its items' reprs joined with `, `, and `]`; a mapping as `{`, its `key: value` entries joined with `, `, and `}` |
| Json.JoinCons | django_backend/django_backend/ontologies/views.py:259-261 | `sep.join`, built from the back, splits after its first part, so the recursive list and mapping printers produce the join |
| Json.QuoteFor | django_backend/django_backend/ontologies/views.py:259-261 | `repr` of a string uses double quotes exactly when the string holds a single quote and no double quote |
| Json.Escape | django_backend/django_backend/ontologies/views.py:259-261 | inside the quotes a plain printable character is shown as itself; a backslash, the chosen quote, tab, newline, carriage return and unprintable characters are shown as backslash escapes |
| Json.ReprString | django_backend/django_backend/ontologies/views.py:259-261 | `repr(s)` opens and closes with the chosen quote |
| Json.EscapeAllRoundTrip | django_backend/django_backend/ontologies/views.py:259-261 | the escaped text reads back to the string, so no two strings escape alike |
| Json.ReprStringRoundTrip | django_backend/django_backend/ontologies/views.py:259-261 | the text between the quotes of `repr(s)` reads back to `s` |
| Store.Content | django_backend/django_backend/ontologies/views.py:77 | `o.json or {}`: a truthy document is read as is, a falsy one as the empty mapping |
| Scorer.DepthWeight | django_backend/django_backend/ontologies/views.py:21 | `max(1.0, 3.0 - depth * 0.3)` lies in [1, 3], is 3 at the top level and reaches its floor 1 exactly from depth 7 on |
| Scorer.DepthWeightAntitone | django_backend/django_backend/ontologies/views.py:21 | a deeper string never weighs more than a shallower one |
| Scorer.KeyWeight | django_backend/django_backend/ontologies/views.py:32-35 | the key weight is 2.5 exactly when the lower-cased key contains `label`, `name`, `title`, `desc` or `summary`, and 1 otherwise |
| Scorer.Scale | django_backend/django_backend/ontologies/views.py:39-40 | nested texts keep their strings and have their weights multiplied by the key weight, so weights stay at least 1 |
| Scorer.Collect | django_backend/django_backend/ontologies/views.py:16-47 | every collected weight is at least 1; None contributes nothing; a string contributes itself at the depth weight; a number or boolean contributes its `str()` at weight 1 |
| Scorer.ScalarUnderKey | django_backend/django_backend/ontologies/views.py:36-37 | a scalar under a key contributes `str(v)` at the key weight, whatever the depth |
| Scorer.NestedUnderKey | django_backend/django_backend/ontologies/views.py:38-40 | a list or mapping under a key contributes its own texts collected one level deeper, each weight multiplied by the key weight |
| Scorer.CollectFieldsAppend | django_backend/django_backend/ontologies/views.py:31-41 | a mapping contributes its entries' texts one entry after another, in key order |
| Scorer.CollectFields | django_backend/django_backend/ontologies/views.py:30-41 | the mapping branch: every weight it emits is at least 1 |
| Scorer.CollectItemsAppend | django_backend/django_backend/ontologies/views.py:26-29 | a list contributes its items' texts one item after another |
| Scorer.CollectItems | django_backend/django_backend/ontologies/views.py:26-29 | the list branch: every weight it emits is at least 1 |
| Scorer.CollectTexts | django_backend/django_backend/ontologies/views.py:16-47 | the collected texts are exactly the `str()` of every scalar leaf of the document, in document order, whatever the weights |
| Scorer.CollectItemsTexts | django_backend/django_backend/ontologies/views.py:26-29 | the texts of a list are the scalar leaves of its items, in order |
| Scorer.CollectFieldsTexts | django_backend/django_backend/ontologies/views.py:30-41 | the texts of a mapping are the scalar leaves of its values, in order |
| Scorer.Occurrences | django_backend/django_backend/ontologies/views.py:56-59 | token occurrences keep weights of at least 1; there are none iff no collected text has a token |
| Scorer.OccurrenceSound | django_backend/django_backend/ontologies/views.py:57-59 | every token occurrence is a token of some collected text and carries that text's weight |
| Scorer.OccurrenceComplete | django_backend/django_backend/ontologies/views.py:57-59 | every token of every collected text is counted with that text's weight |
| Scorer.OccurrencesAppend | django_backend/django_backend/ontologies/views.py:57-59 | the occurrences of two runs of texts are those of each run in turn |
| Scorer.OccurrencesSingle | django_backend/django_backend/ontologies/views.py:57-59 | one text yields one occurrence per token occurrence, in token order, each with the text's weight; with `OccurrencesAppend` this fixes every occurrence of every text |
| Scorer.TotalWeightIsMass | django_backend/django_backend/ontologies/views.py:56-67 | `doc_sum`, the sum of `token_weights`, is the sum over the collected texts of weight times number of tokens, since `+= weight` runs once per token occurrence |
| Scorer.WeightInBounds | django_backend/django_backend/ontologies/views.py:62-67 | `intersect` lies between 0 and `doc_sum`, and `doc_sum` is at least the number of token occurrences |
| Scorer.WeightInPositive | django_backend/django_backend/ontologies/views.py:62-67 | `intersect` is positive iff some document token is a query token |
| Scorer.WeightInMonotone | django_backend/django_backend/ontologies/views.py:62-67 | a larger query token set never lowers `intersect` |
| Scorer.WeightInIgnoresAbsent | django_backend/django_backend/ontologies/views.py:62-67 | a query token absent from the document adds nothing to `intersect` |
| Scorer.OverlapBounds | django_backend/django_backend/ontologies/views.py:68-71 | the score lies in [0, 1) and is positive iff the document and query share a token |
| Scorer.Overlap | django_backend/django_backend/ontologies/views.py:60-71 | the score is 0 with no query tokens or no occurrences; otherwise `doc_sum` is at least 1, so the `doc_sum <= 0` guard never fires, and the score is `intersect / (doc_sum + len(q_tokens))` |
| Scorer.ExtraQueryTokenLowersOverlap | django_backend/django_backend/ontologies/views.py:70 | adding a query token that the document lacks strictly lowers a positive score |
| Scorer.Score | django_backend/django_backend/ontologies/views.py:49-71 | the score lies in [0, 1); it is 0 with no query tokens or no document tokens, and positive iff the query and document token sets meet |
| Ranking.Scored | django_backend/django_backend/ontologies/views.py:76-80 | the kept results are exactly the documents with a positive score, each with its own id, score and content, in store order |
| Ranking.Scores | django_backend/django_backend/ontologies/views.py:76-78 | one score per stored document, in store order, each the document's `o.json or {}` scored against the query |
| Ranking.ScoredCount | django_backend/django_backend/ontologies/views.py:76-80 | there is one result per positively scored document |
| Ranking.Insert | django_backend/django_backend/ontologies/views.py:81 | insertion is a permutation of the list plus the new hit |
| Ranking.InsertRanked | django_backend/django_backend/ontologies/views.py:81 | inserting a hit earlier in store order than all others keeps the list ranked |
| Ranking.SortByScore | django_backend/django_backend/ontologies/views.py:81 | the sort is a permutation of its input |
| Ranking.SortByScoreRanked | django_backend/django_backend/ontologies/views.py:81 | the stable descending sort orders by score and breaks ties in store order |
| Ranking.SlicePrefix | django_backend/django_backend/ontologies/views.py:82 | `results[:k]` is a prefix of length min(k, n), or n + k clipped at 0 for negative k |
| Ranking.RankTopK | django_backend/django_backend/ontologies/views.py:73-82 | the top-k cut: the hits are ranked, each a positive hit; for k >= 0 there are min(k, number of positive documents) of them, for k < 0 the positive documents less |k|; a dropped positive document ranks below every kept one: it scores less, or the same and comes later in the store |
| Ranking.TopK | django_backend/django_backend/ontologies/views.py:73-82 | `query_top_k_local`: ranked positive-score stored documents; exactly min(k, number of positively scored documents) of them for k >= 0 and that number less |k| (at least 0) for k < 0; a dropped positive document scores less than every kept one, or the same and comes later in the store |
| Normalize.NormalizeNode | django_backend/django_backend/ontologies/views.py:129-138 | strings and mappings normalise and nothing else does; a string is its own id and label; the id is `id`, else `label`, else `name`; the label is `label`, else `name`, else the id; the type is `type`, else `class`, else (aggregation copy) `label`, else `Entity` |
| Normalize.NodeVariantsDiffer | django_backend/django_backend/ontologies/views.py:204-212 | the two node normalisers agree on id and label and differ in type exactly when only a non-"Entity" label is there to fall back to |
| Normalize.NormalizeRelation | django_backend/django_backend/ontologies/views.py:140-148 | only a non-empty mapping normalises; the source is `source`, else `from`, else (aggregation copy) `s`; the target is `target`, else `to`, else (aggregation copy) `t`; the relation is `relation`, else `label`, else (aggregation copy) `type`, else `related_to`, so it is always truthy |
| Normalize.RelationVariantsDiffer | django_backend/django_backend/ontologies/views.py:214-222 | relations whose endpoints and label are found under the keys both copies read normalise the same in both copies |
| Normalize.ShortKeysOnlyInAggregation | django_backend/django_backend/ontologies/views.py:144-145 | `{"s": a, "t": b}` has endpoints in the aggregation copy and none in the search copy |
| Normalize.Iterate | django_backend/django_backend/ontologies/views.py:155 | `for x in v` succeeds exactly on lists, strings and mappings, yielding the items, the one-character strings, or the keys, in order; anything else raises `TypeError` |
| Normalize.Containers | django_backend/django_backend/ontologies/views.py:151-153 | a content that is not a mapping raises `AttributeError`; nodes are read from `nodes`, else `entities`, else nothing, and relations from `relations`, else `edges`, else nothing; the read raises `TypeError` exactly when the chosen container is truthy and not iterable |
| Dedup.FirstsKeys | django_backend/django_backend/ontologies/views.py:159-161 | first-occurrence deduplication loses no key and invents none |
| Dedup.Extend | django_backend/django_backend/ontologies/views.py:155-171 | the walk only appends to what was kept before, and each appended element comes from the stream |
| Dedup.FirstsDistinct | django_backend/django_backend/ontologies/views.py:159-161 | no two kept elements share a key |
| Dedup.FirstsAreFirst | django_backend/django_backend/ontologies/views.py:159-161 | every kept element is the first stream element with its key |
| Dedup.ExtendIsFirsts | django_backend/django_backend/ontologies/views.py:155-161 | the loop that tests keys against what it has kept computes the reference definition that tests against the stream prefix |
| Dedup.DedupIsFirsts | django_backend/django_backend/ontologies/views.py:155-161 | walking a whole stream from empty state yields its first-occurrence deduplication |
| Dedup.ExtendAppend | django_backend/django_backend/ontologies/views.py:150 | walking two streams in turn is walking their concatenation, which is how the document loop composes |
| Dedup.ExtendNothingNew | django_backend/django_backend/ontologies/views.py:168-169 | elements whose keys are all present already change nothing |
| Merging.NodeCandidate | django_backend/django_backend/ontologies/views.py:156-158 | a raw node is merged iff it normalises to a node with a truthy id |
| Merging.RelCandidate | django_backend/django_backend/ontologies/views.py:164-166 | a raw relation is merged iff it normalises with truthy source and target |
| Merging.NodeCandidates | django_backend/django_backend/ontologies/views.py:155-158 | every surviving node has a truthy id, and there are no more than raw nodes |
| Merging.NodeCandidatesMembers | django_backend/django_backend/ontologies/views.py:155-158 | a node survives iff it is the normalised form, with a truthy id, of one of the raw nodes |
| Merging.NodeCandidatesAppend | django_backend/django_backend/ontologies/views.py:155-158 | the survivors of two runs of raw nodes are those of each run in turn, so raw order is kept |
| Merging.NodeCandidatesSingle | django_backend/django_backend/ontologies/views.py:155-158 | one raw node contributes its normalised form when that has a truthy id, and nothing otherwise |
| Merging.RelCandidates | django_backend/django_backend/ontologies/views.py:163-166 | every surviving relation has truthy source, target and relation, and there are no more than raw relations |
| Merging.RelCandidatesMembers | django_backend/django_backend/ontologies/views.py:163-166 | a relation survives iff it is the normalised form, with truthy endpoints, of one of the raw relations |
| Merging.RelCandidatesAppend | django_backend/django_backend/ontologies/views.py:163-166 | the survivors of two runs of raw relations are those of each run in turn, so raw order is kept |
| Merging.RelCandidatesSingle | django_backend/django_backend/ontologies/views.py:163-166 | one raw relation contributes its normalised form when both endpoints are truthy, and nothing otherwise |
| Merging.AddNodes | django_backend/django_backend/ontologies/views.py:155-161 | the node loop only adds to `node_map`, and its only failure is `TypeError` |
| Merging.AddRelations | django_backend/django_backend/ontologies/views.py:163-171 | the relation loop only appends to `relations`, and its only failure is `TypeError` |
| Merging.MergeDocument | django_backend/django_backend/ontologies/views.py:151-171 | a document whose content is not a mapping raises `AttributeError`; otherwise merging only grows the graph |
| Merging.MergeFrom | django_backend/django_backend/ontologies/views.py:150-171 | the document loop keeps everything merged before it |
| Merging.AddNodesSpec | django_backend/django_backend/ontologies/views.py:155-161 | the node loop raises `TypeError` iff some surviving id is unhashable, and is otherwise the first-writer-wins walk by id |
| Merging.AddRelationsSpec | django_backend/django_backend/ontologies/views.py:163-171 | the relation loop raises `TypeError` iff some surviving triple is unhashable, and is otherwise the first-occurrence walk by triple |
| Merging.MergeDocumentSpec | django_backend/django_backend/ontologies/views.py:151-171 | one document merges without raising iff its containers read and its ids and triples hash; it then extends both walks |
| Merging.MergeFromSpec | django_backend/django_backend/ontologies/views.py:150-171 | the document loop succeeds iff no document raises, and is then one walk over all node candidates and one over all relation candidates |
| Merging.Merge | django_backend/django_backend/ontologies/views.py:150-173 | the merge succeeds exactly when no document raises |
| Merging.MergeKeepsFirst | django_backend/django_backend/ontologies/views.py:150-173 | the merged nodes and relations are the first-occurrence deduplications of all candidates in document order |
| Merging.MergeDistinct | django_backend/django_backend/ontologies/views.py:159-170 | merged node ids are distinct and merged triples are distinct |
| Merging.MergeComplete | django_backend/django_backend/ontologies/views.py:155-171 | every candidate id has a merged node and every candidate relation is merged |
| Merging.MergeFirstWriterWins | django_backend/django_backend/ontologies/views.py:159-161 | each merged node is the earliest candidate, across all documents in order, that carries its id |
| Merging.MergeFromAppend | django_backend/django_backend/ontologies/views.py:150-171 | merging `a + b` is merging `a`, then `b` from its result; a raise in `a` ends it |
| Merging.MergeTwice | django_backend/django_backend/ontologies/views.py:150-174 | storing every document twice changes neither the merged graph nor whether the merge raises |
| Merging.StoreContents | django_backend/django_backend/ontologies/views.py:150-151 | each stored document is read as `o.json or {}`, in store order |
| Merging.Aggregate | django_backend/django_backend/ontologies/views.py:122-174 | `aggregated_graph` fails exactly when some stored document raises; otherwise its nodes are the first node with each id and its relations the distinct triples, over the store in order |
| Digraph.EdgeLabels | django_backend/django_backend/ontologies/views.py:288-291 | every edge joins two vertices |
| Digraph.BuildGraph | django_backend/django_backend/ontologies/views.py:284-291 | the vertices are exactly the merged node ids, and every edge joins two of them |
| Digraph.LastLabelWins | django_backend/django_backend/ontologies/views.py:288-291 | an edge exists iff some relation between merged ids carries it, and its label is that of the last such relation |
| Digraph.EdgeOrigin | django_backend/django_backend/ontologies/views.py:288-291 | every edge comes from a merged relation with the same label and joins two merged nodes |
| Traverse.Neighbours | django_backend/django_backend/ontologies/views.py:324-331 | successors and predecessors: a node is a neighbour iff an edge in either direction joins it to the set |
| Traverse.Incident | django_backend/django_backend/ontologies/views.py:324-331 | the recorded triples are exactly the edges touching the set, each with its own label |
| Traverse.Start | django_backend/django_backend/ontologies/views.py:316-319 | depth 0 holds exactly the seeds that are vertices |
| Traverse.Expand | django_backend/django_backend/ontologies/views.py:311-331 | the depth-by-depth loop computes the traversed node set and edge set |
| Traverse.TraversedNodes | django_backend/django_backend/ontologies/views.py:311-331 | `traversed_nodes` holds every seed that is in the graph, and nothing outside a well-formed graph |
| Traverse.TraversedEdges | django_backend/django_backend/ontologies/views.py:311-331 | no edge is recorded when `hops <= 0`; every recorded edge joins two traversed nodes |
| Traverse.EdgesBelowJoinBall | django_backend/django_backend/ontologies/views.py:324-331 | an edge recorded while expanding a node below depth d joins that node and the neighbour it queues, both within d steps |
| Traverse.LevelHasWalk | django_backend/django_backend/ontologies/views.py:320-331 | every node queued at depth d ends an undirected walk of d steps from a seed |
| Traverse.WalkReachesLevel | django_backend/django_backend/ontologies/views.py:320-331 | the end of every d-step walk from a seed is queued at depth d |
| Traverse.LevelIsWalkEnds | django_backend/django_backend/ontologies/views.py:320-331 | depth d holds exactly the ends of d-step walks from the seeds |
| Traverse.BallIsNearWalkEnds | django_backend/django_backend/ontologies/views.py:320-331 | the nodes queued at depth at most d are the ends of walks of at most d steps |
| Traverse.TraversedNodesAreNear | django_backend/django_backend/ontologies/views.py:311-331 | a node is traversed iff a walk of at most `hops` steps (0 when `hops <= 0`) leads to it from a seed in the graph |
| Traverse.BallInGraph | django_backend/django_backend/ontologies/views.py:324-330 | the traversal never leaves the graph and always contains the seeds it started from |
| Traverse.EdgesBelowTouchBall | django_backend/django_backend/ontologies/views.py:320-331 | the edges recorded by depth d are those touching a node within d - 1 steps |
| Traverse.TraversedEdgesTouchBall | django_backend/django_backend/ontologies/views.py:320-331 | no edge is traversed when `hops <= 0`; otherwise the traversed edges are those touching a node within `hops - 1` steps |
| Traverse.EmptyStartReachesNothing | django_backend/django_backend/ontologies/views.py:314-319 | with no seed in the graph nothing is reached and no edge is recorded |
| Search.MatchField | django_backend/django_backend/ontologies/views.py:257-262 | a mapping matches under its truthy `id` (or `label`) or `''`; any other node matches under `str(n)`, so a string under itself |
| Search.IsMatch | django_backend/django_backend/ontologies/views.py:263 | an empty query is in every string, so it matches every node; a string node matches iff its lower-cased text contains the query |
| Search.QuotedLabelDoesNotMatch | django_backend/django_backend/ontologies/views.py:257-262 | a node whose label is the list `["it's"]` prints it with double quotes, so the query `'it` matches neither its id nor its label |
| Search.MatchAll | django_backend/django_backend/ontologies/views.py:254-264 | an id is matched iff some raw node whose id or label contains the query has that match id |
| Search.Matched | django_backend/django_backend/ontologies/views.py:251-264 | as `MatchAll`, and an empty stripped query matches nothing |
| Search.MatchedSingle | django_backend/django_backend/ontologies/views.py:254-264 | one raw node adds its match id exactly when it matches a non-empty query |
| Search.MatchedAppend | django_backend/django_backend/ontologies/views.py:254-264 | `matched_ids` follows the raw nodes in order: the ids of a concatenation are those of each part in turn, one per matching node |
| Search.MatchAllAppend | django_backend/django_backend/ontologies/views.py:257-264 | the match loop over a concatenation is the loop over each part in turn |
| Search.SnippetNodes | django_backend/django_backend/ontologies/views.py:271-276 | the loop raises iff some lookup key is unhashable; the snippet nodes are exactly the normalised raw nodes whose key is a matched id |
| Search.SnippetRelations | django_backend/django_backend/ontologies/views.py:277-280 | the loop raises iff a lookup it makes is unhashable; the snippet relations are exactly the normalised relations with both endpoints matched |
| Search.SnippetKey | django_backend/django_backend/ontologies/views.py:272 | the lookup key is `n.get('id')` for a mapping and `n` otherwise; it equals the match id for a string node and for a mapping with a truthy id, and never for a node that is neither a string nor a mapping |
| Search.SnippetNodesSingle | django_backend/django_backend/ontologies/views.py:271-276 | one raw node raises when its key is unhashable; otherwise it contributes its normalised form exactly when its key is a matched id and it normalises |
| Search.SnippetNodesAppend | django_backend/django_backend/ontologies/views.py:271-276 | the node loop over a concatenation is the loop over each part in turn: the first raise ends it, otherwise the lists are concatenated, so raw order and multiplicity are kept |
| Search.SnippetRelation | django_backend/django_backend/ontologies/views.py:277-280 | one relation's lookups raise iff one it makes is unhashable; it contributes its normalised form iff both endpoints are matched |
| Search.SnippetRelationValue | django_backend/django_backend/ontologies/views.py:277-280 | one raw relation contributes at most one relation: its normalised form, exactly when both endpoints are matched ids |
| Search.SnippetRelationsSingle | django_backend/django_backend/ontologies/views.py:277-280 | the relation loop over one raw relation is that relation's step |
| Search.SnippetRelationsAppend | django_backend/django_backend/ontologies/views.py:277-280 | the relation loop over a concatenation is the loop over each part in turn, so raw order and multiplicity are kept |
| Search.MakeSnippet | django_backend/django_backend/ontologies/views.py:266-282 | a snippet carries the hit's id, score and matched ids; with no match it is empty; otherwise its nodes and relations are exactly what the node loop and the relation loop return for the matched ids; it is built exactly when the matched ids and every key the two loops look up are hashable, and otherwise raises `TypeError` |
| Search.HitContent | django_backend/django_backend/ontologies/views.py:227 | `hit.get('ontology') or {}` |
| Search.ProcessHit | django_backend/django_backend/ontologies/views.py:226-282 | one hit: a content that is not a mapping raises `AttributeError`; the hit succeeds exactly when its document merges and its snippet can be built, and a mapping otherwise raises `TypeError`; on success the merged graph only grows and exactly one snippet is appended |
| Search.ProcessHits | django_backend/django_backend/ontologies/views.py:226-282 | the hit loop succeeds exactly when every hit does; it then adds one snippet per hit and only grows the merged graph |
| Search.HitMatchesMeaning | django_backend/django_backend/ontologies/views.py:251-264 | a hit's matched ids are the match ids of its raw nodes whose id or label contains the query |
| Search.ProcessHitMerges | django_backend/django_backend/ontologies/views.py:226-248 | one hit merges its document with the search copy of the normalisers |
| Search.ProcessHitSnippet | django_backend/django_backend/ontologies/views.py:250-282 | one hit appends exactly one snippet with its id and matched ids, whose nodes and relations are empty without a match and otherwise the two snippet loops' results over the hit's raw nodes and relations |
| Search.ProcessHitsMerges | django_backend/django_backend/ontologies/views.py:226-248 | the search merge is exactly the merge of the hit documents |
| Search.ProcessHitsSnippets | django_backend/django_backend/ontologies/views.py:226-282 | there is one snippet per hit, in hit order, with that hit's matched ids |
| Search.MatchedSeeds | django_backend/django_backend/ontologies/views.py:294-298 | the matched seeds are exactly the truthy matched ids of all snippets |
| Search.IdSeeds | django_backend/django_backend/ontologies/views.py:300-303 | the fallback seeds are exactly `str(id)` of every hit with a truthy id, each a non-empty string |
| Search.Seeds | django_backend/django_backend/ontologies/views.py:293-303 | the seeds are the truthy matched ids when some snippet matched a truthy id, and the fallback hit ids otherwise; every seed is truthy |
| Search.LabelOnlyNodeIsNoSeed | django_backend/django_backend/ontologies/views.py:257-259 | a mapping node without a truthy id matches under `''` and never becomes a seed |
| Search.Hops | django_backend/django_backend/ontologies/views.py:306-309 | a parsed `hops` is used as is; an unparsable one falls back to 1 |
| Search.Finish | django_backend/django_backend/ontologies/views.py:293-309 | the reply carries the snippets as `matches`, the seeds they give and the parsed `hops` |
| Search.FinalNodes | django_backend/django_backend/ontologies/views.py:335-341 | `highlight` is set iff the id is a seed; with nothing traversed every merged node is returned in order, otherwise the traversed ones |
| Search.FinalNodesSubseq | django_backend/django_backend/ontologies/views.py:335-341 | the returned nodes follow the merged order |
| Search.FinalNodesCounts | django_backend/django_backend/ontologies/views.py:335-341 | each merged node whose id was traversed (every one when nothing was) is returned exactly as often as it is merged, and no other node is returned |
| Search.Assemble | django_backend/django_backend/ontologies/views.py:284-348 | only merged nodes are returned, each flagged iff its id is a seed; relations listed in order are the merged list, and traversed triples are returned only when there are some |
| Search.AssembleWithoutSeedInGraph | django_backend/django_backend/ontologies/views.py:311-348 | when no seed is a merged id, every merged node is returned in merge order, with the merged relation list |
| Search.AssembleWithoutHops | django_backend/django_backend/ontologies/views.py:320-348 | with `hops <= 0` the merged relation list is returned, and when a seed is in the graph only seed nodes come back, all highlighted |
| Search.AssembleNodesTraversed | django_backend/django_backend/ontologies/views.py:311-341 | once a seed is in the graph, the returned nodes are exactly the traversed merged nodes, in merge order and each as often as merged |
| Search.AssembleNodesAreNear | django_backend/django_backend/ontologies/views.py:311-341 | once a seed is in the graph, every returned node is within `hops` undirected steps of a seed in the graph |
| Search.AssembleEdges | django_backend/django_backend/ontologies/views.py:311-348 | with a seed in the graph and `hops > 0`, the relations are the edges touching a node within `hops - 1` steps, or the merged list when there are none |
| Search.Respond | django_backend/django_backend/ontologies/views.py:197-354 | the search branch succeeds exactly when every hit does; a reply has one snippet per hit, the seeds those snippets give, and the parsed `hops` |
| Search.SearchGraph | django_backend/django_backend/ontologies/views.py:177-354 | an empty `q` answers with `aggregated_graph`'s result and fails exactly when it does; any other query answers with a search reply, carrying the parsed `hops`, exactly when every top-k hit succeeds |
| Search.SearchGraphAssembles | django_backend/django_backend/ontologies/views.py:177-354 | a search reply is the assembly of the search-copy merge of exactly the top-k hits' contents, with one snippet per hit and the seeds they give |
| Search.BlankQueryFindsNothing | django_backend/django_backend/ontologies/views.py:178-354 | a non-empty query of only whitespace has no hits and gets an empty reply: no node, relation, snippet or seed |
| Search.RespondMergesHits | django_backend/django_backend/ontologies/views.py:197-248 | a successful search merges the hit documents, and every returned node is a merged node flagged iff its id is a seed |
| Search.BlankQuerySeedsAreHitIds | django_backend/django_backend/ontologies/views.py:251-303 | for given hits, an empty stripped query matches no node, and the seeds are the hit ids |
| Search.SeedsComeFromMatches | django_backend/django_backend/ontologies/views.py:293-303 | every seed is a hit id or a truthy id matched in one of the hits |
| Search.TopHitContents | django_backend/django_backend/ontologies/views.py:197-229 | the documents the search merges are the stored contents of the top-k ranked documents |

## Left out

- Document creation (`create`), `upload_document` and `remote_query` are not modelled. They are storage, file upload and remote-service plumbing.
- The FAISS index is not modelled: `load_index`, `build_index` and the `DJANGO_BUILD_FAISS` switch. It is called only for side effects, and its failures are swallowed.
- `remote_index`, the signal handlers, settings and the front end are not part of this model.
- The `k` parameter is taken as an integer. `int(request.GET.get('k', 5))` can raise on a non-integer, and that raise is not modelled. For `hops`, only "parsed or not" is modelled (`Search.Hops`).
- The HTTP layer is not modelled. `Response` objects become datatypes, and a raise becomes `Raised(kind)` rather than an error page.
- Text processing is ASCII only. `lower()`, `\w` and `strip()` follow the ASCII (and, for whitespace, Latin-1) rules. The Unicode tables are not modelled.
- Json.Repr: `repr` of a string escapes unprintable characters up to U+00FF only. Characters above U+00FF are shown as themselves, while Python escapes the unprintable ones among them with `\u` or `\U`; the Unicode printability table is not modelled.
- Floating point is not modelled. Weights and scores are exact reals, and `float(...)` is the identity. `str()` of a JSON float is carried as text with the value.
- Python's cross-type key equality is not modelled. In Python, `1`, `1.0` and `True` are the same dict key; here JSON values are equal only structurally.
- A JSON object is a list of entries with distinct keys, as `json.loads` produces. `dict.get` returns the first entry with the key.
- `_collect_text`'s final `str(obj)` fallback is not modelled. It cannot be reached for JSON values.
- Orders that come from Python sets are not modelled: the list of seeds and the traversed relations. These are sets in the model.
- `DiGraph` node attributes are not modelled, because they are never read back.
- The queue's length and running time are not modelled. With no visited set, the queue can grow exponentially with `hops`. Only the sets it fills are modelled.
- SearchGraph: an empty `q` is answered with the aggregated graph, as the call `aggregated_graph(request)` intends. Both views are Django REST framework `api_view`s, and handing the already wrapped request on to the second one may fail inside the framework. The framework is not part of this model.
- `Ontology.objects.all()` is the store in its given order. The model's default ordering is not part of this model.
