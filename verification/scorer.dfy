/**
 The lexical scorer of the query views: a walk over a schema-less JSON
 document that emits weighted texts, and a weighted token-overlap score of a
 query against those texts. Weights and scores are exact reals; float
 rounding is not modelled.
 */
module Scorer {
  import opened Text
  import opened Json
  import opened Seqs

  /** A text found in the document with the weight its position earns. */
  datatype WeightedText = WeightedText(text: string, weight: real)

  /** One token of one emitted text, carrying that text's weight. */
  datatype Occurrence = Occurrence(token: string, weight: real)

  /** Weight of a string at nesting depth `depth`: max(1.0, 3.0 - 0.3 * depth).
      Top-level text weighs 3, and from depth 7 on every string weighs 1. */
  function DepthWeight(depth: nat): (w: real)
    ensures 1.0 <= w <= 3.0
    ensures depth == 0 ==> w == 3.0
    ensures w == 1.0 <==> depth >= 7
  {
    var raw := 3.0 - 0.3 * depth as real;
    if raw > 1.0 then raw else 1.0
  }

  /** Deeper strings never weigh more than shallower ones. */
  lemma DepthWeightAntitone(shallow: nat, deep: nat)
    requires shallow <= deep
    ensures DepthWeight(deep) <= DepthWeight(shallow)
  {
  }

  /** Key fragments that mark a descriptive field. */
  const DescriptiveKeyParts: seq<string> := ["label", "name", "title", "desc", "summary"]

  predicate IsDescriptiveKey(key: string) {
    exists part | part in DescriptiveKeyParts :: Contains(Lower(key), part)
  }

  /** 2.5 for a key whose lower-cased form contains a descriptive fragment, else 1. */
  function KeyWeight(key: string): (w: real)
    ensures w == 1.0 || w == 2.5
    ensures w == 2.5 <==> IsDescriptiveKey(key)
  {
    if IsDescriptiveKey(key) then 2.5 else 1.0
  }

  /** Multiplies every weight by `factor`. */
  function Scale(texts: seq<WeightedText>, factor: real): (r: seq<WeightedText>)
    requires factor >= 1.0
    ensures |r| == |texts|
    ensures forall i :: 0 <= i < |r| ==> r[i].text == texts[i].text && r[i].weight == texts[i].weight * factor
    ensures (forall t :: t in texts ==> t.weight >= 1.0) ==> forall t :: t in r ==> t.weight >= 1.0
  {
    var r := seq(|texts|, i requires 0 <= i < |texts| => WeightedText(texts[i].text, texts[i].weight * factor));
    forall i | 0 <= i < |texts| && texts[i].weight >= 1.0
      ensures r[i].weight >= 1.0
    {
      AtLeastOneProduct(texts[i].weight, factor);
    }
    r
  }

  lemma AtLeastOneProduct(a: real, b: real)
    requires a >= 1.0 && b >= 1.0
    ensures a * b >= 1.0
  {
    assert a * b - a == a * (b - 1.0);
    assert a * (b - 1.0) >= 0.0;
  }

  /** `_collect_text(obj, depth)`: None emits nothing; a string emits itself at
      the depth weight; a number or boolean emits its `str()` at weight 1; a
      list emits its items at depth + 1; a mapping emits, per entry, the
      scalar value at the key weight, or the nested value's texts at depth + 1
      multiplied by the key weight. Every emitted weight is at least 1. */
  function Collect(obj: Json, depth: nat): (r: seq<WeightedText>)
    ensures forall t :: t in r ==> t.weight >= 1.0
    ensures obj == JNull ==> r == []
    ensures obj.JStr? ==> r == [WeightedText(obj.s, DepthWeight(depth))]
    ensures obj.JBool? || obj.JInt? || obj.JFloat? ==> r == [WeightedText(Str(obj), 1.0)]
  {
    match obj
    case JNull => []
    case JStr(s) => [WeightedText(s, DepthWeight(depth))]
    case JBool(_) => [WeightedText(Str(obj), 1.0)]
    case JInt(_) => [WeightedText(Str(obj), 1.0)]
    case JFloat(_, _) => [WeightedText(Str(obj), 1.0)]
    case JArr(items) => CollectItems(items, depth + 1)
    case JObj(fields) => CollectFields(fields, depth)
  }

  /** The list branch of `_collect_text`, each item at `depth`. */
  function CollectItems(items: seq<Json>, depth: nat): (r: seq<WeightedText>)
    ensures forall t :: t in r ==> t.weight >= 1.0
  {
    if items == [] then []
    else Collect(items[0], depth) + CollectItems(items[1..], depth)
  }

  /** The mapping branch of `_collect_text` for a mapping found at `depth`. */
  function CollectFields(fields: seq<Member>, depth: nat): (r: seq<WeightedText>)
    ensures forall t :: t in r ==> t.weight >= 1.0
  {
    if fields == [] then []
    else
      var m := fields[0];
      var kw := KeyWeight(m.key);
      var here := if IsScalar(m.value) then [WeightedText(Str(m.value), kw)]
                  else Scale(Collect(m.value, depth + 1), kw);
      here + CollectFields(fields[1..], depth)
  }

  /** A string directly under a key scores the key weight, not the depth weight. */
  lemma ScalarUnderKey(key: string, value: Json, depth: nat)
    requires IsScalar(value)
    ensures Collect(JObj([Member(key, value)]), depth) == [WeightedText(Str(value), KeyWeight(key))]
  {
    var fields := [Member(key, value)];
    assert fields[1..] == [];
    assert CollectFields(fields[1..], depth) == [];
  }

  /** A nested (non-scalar) value under a key contributes its own texts,
      collected one level deeper, each multiplied by the key weight. */
  lemma NestedUnderKey(key: string, value: Json, depth: nat)
    requires !IsScalar(value)
    ensures Collect(JObj([Member(key, value)]), depth) == Scale(Collect(value, depth + 1), KeyWeight(key))
  {
    var fields := [Member(key, value)];
    assert fields[1..] == [];
    assert CollectFields(fields[1..], depth) == [];
  }

  /** A mapping emits the texts of its entries one after another: collecting
      a mapping is collecting each one-entry mapping in turn. */
  lemma {:induction false} CollectFieldsAppend(a: seq<Member>, b: seq<Member>, depth: nat)
    ensures CollectFields(a + b, depth) == CollectFields(a, depth) + CollectFields(b, depth)
    decreases |a|
  {
    if a != [] {
      assert (a + b)[1..] == a[1..] + b;
      CollectFieldsAppend(a[1..], b, depth);
    } else {
      assert a + b == b;
    }
  }

  /** A list emits the texts of its items one after another. */
  lemma {:induction false} CollectItemsAppend(a: seq<Json>, b: seq<Json>, depth: nat)
    ensures CollectItems(a + b, depth) == CollectItems(a, depth) + CollectItems(b, depth)
    decreases |a|
  {
    if a != [] {
      assert (a + b)[1..] == a[1..] + b;
      CollectItemsAppend(a[1..], b, depth);
    } else {
      assert a + b == b;
    }
  }

  /** The texts of a list of weighted texts, weights dropped. */
  function Texts(ws: seq<WeightedText>): (r: seq<string>)
    ensures |r| == |ws|
    ensures forall i :: 0 <= i < |ws| ==> r[i] == ws[i].text
  {
    seq(|ws|, i requires 0 <= i < |ws| => ws[i].text)
  }

  /** Reference definition of what `_collect_text` emits, weights aside:
      the `str()` of every scalar leaf of the value, in document order, and
      nothing for None. */
  function Leaves(obj: Json): seq<string> {
    match obj
    case JNull => []
    case JArr(items) => LeavesOfItems(items)
    case JObj(fields) => LeavesOfFields(fields)
    case _ => [Str(obj)]
  }

  function LeavesOfItems(items: seq<Json>): seq<string> {
    if items == [] then [] else Leaves(items[0]) + LeavesOfItems(items[1..])
  }

  function LeavesOfFields(fields: seq<Member>): seq<string> {
    if fields == [] then [] else Leaves(fields[0].value) + LeavesOfFields(fields[1..])
  }

  /** `_collect_text` emits exactly the scalar leaves of the document, in
      order, one text per leaf, whatever the weights. */
  lemma {:induction false} CollectTexts(obj: Json, depth: nat)
    ensures Texts(Collect(obj, depth)) == Leaves(obj)
    decreases obj, 2
  {
    match obj
    case JArr(items) => CollectItemsTexts(items, depth + 1);
    case JObj(fields) => CollectFieldsTexts(fields, depth);
    case _ =>
  }

  lemma {:induction false} CollectItemsTexts(items: seq<Json>, depth: nat)
    ensures Texts(CollectItems(items, depth)) == LeavesOfItems(items)
    decreases items, 1
  {
    if items != [] {
      CollectTexts(items[0], depth);
      CollectItemsTexts(items[1..], depth);
      TextsAppend(Collect(items[0], depth), CollectItems(items[1..], depth));
    }
  }

  lemma {:induction false} CollectFieldsTexts(fields: seq<Member>, depth: nat)
    ensures Texts(CollectFields(fields, depth)) == LeavesOfFields(fields)
    decreases fields, 1
  {
    if fields != [] {
      var m := fields[0];
      var kw := KeyWeight(m.key);
      var here := if IsScalar(m.value) then [WeightedText(Str(m.value), kw)]
                  else Scale(Collect(m.value, depth + 1), kw);
      assert m in fields;
      if !IsScalar(m.value) {
        CollectTexts(m.value, depth + 1);
        assert Texts(here) == Texts(Collect(m.value, depth + 1));
      }
      assert Texts(here) == Leaves(m.value);
      CollectFieldsTexts(fields[1..], depth);
      TextsAppend(here, CollectFields(fields[1..], depth));
    }
  }

  lemma TextsAppend(a: seq<WeightedText>, b: seq<WeightedText>)
    ensures Texts(a + b) == Texts(a) + Texts(b)
  {
  }

  /** Each token, in order, carrying weight `w`. */
  function Tagged(toks: seq<string>, w: real): (r: seq<Occurrence>)
    ensures |r| == |toks|
    ensures forall i :: 0 <= i < |toks| ==> r[i] == Occurrence(toks[i], w)
  {
    seq(|toks|, i requires 0 <= i < |toks| => Occurrence(toks[i], w))
  }

  predicate AllWeightsAtLeastOne(occ: seq<Occurrence>) {
    forall o :: o in occ ==> o.weight >= 1.0
  }

  predicate AllTextWeightsAtLeastOne(texts: seq<WeightedText>) {
    forall t :: t in texts ==> t.weight >= 1.0
  }

  /** No text has a token. */
  predicate NoTokens(texts: seq<WeightedText>) {
    forall t :: t in texts ==> Tokens(t.text) == []
  }

  /** The tokens of each emitted text, each carrying the text's weight. */
  function Occurrences(texts: seq<WeightedText>): (r: seq<Occurrence>)
    ensures AllTextWeightsAtLeastOne(texts) ==> AllWeightsAtLeastOne(r)
    ensures r == [] <==> NoTokens(texts)
  {
    if texts == [] then []
    else
      var toks := Tokens(texts[0].text);
      var first := Tagged(toks, texts[0].weight);
      assert texts[0] in texts;
      assert forall t :: t in texts[1..] ==> t in texts;
      first + Occurrences(texts[1..])
  }

  /** Every occurrence is a token of one of the texts, carrying that text's weight. */
  lemma {:induction false} OccurrenceSound(texts: seq<WeightedText>, o: Occurrence)
    requires o in Occurrences(texts)
    ensures exists t :: t in texts && o.token in Tokens(t.text) && o.weight == t.weight
  {
    var toks := Tokens(texts[0].text);
    var first := Tagged(toks, texts[0].weight);
    assert Occurrences(texts) == first + Occurrences(texts[1..]);
    if o in first {
      var i :| 0 <= i < |toks| && first[i] == o;
      assert texts[0] in texts && o.token in toks;
    } else {
      OccurrenceSound(texts[1..], o);
      var t :| t in texts[1..] && o.token in Tokens(t.text) && o.weight == t.weight;
      assert t in texts;
    }
  }

  /** Every token of every text occurs, carrying that text's weight. */
  lemma {:induction false} OccurrenceComplete(texts: seq<WeightedText>, t: WeightedText, tok: string)
    requires t in texts && tok in Tokens(t.text)
    ensures Occurrence(tok, t.weight) in Occurrences(texts)
  {
    var toks := Tokens(texts[0].text);
    var first := Tagged(toks, texts[0].weight);
    assert Occurrences(texts) == first + Occurrences(texts[1..]);
    if t == texts[0] {
      var i :| 0 <= i < |toks| && toks[i] == tok;
      assert first[i] == Occurrence(tok, t.weight);
    } else {
      assert t in texts[1..];
      OccurrenceComplete(texts[1..], t, tok);
    }
  }

  /** The occurrences of a concatenation are those of its parts, in order. */
  lemma {:induction false} OccurrencesAppend(a: seq<WeightedText>, b: seq<WeightedText>)
    ensures Occurrences(a + b) == Occurrences(a) + Occurrences(b)
    decreases |a|
  {
    if a != [] {
      var first := Tagged(Tokens(a[0].text), a[0].weight);
      assert (a + b)[0] == a[0];
      assert (a + b)[1..] == a[1..] + b;
      OccurrencesUnfold(a + b);
      OccurrencesUnfold(a);
      OccurrencesAppend(a[1..], b);
      AppendAssoc(first, Occurrences(a[1..]), Occurrences(b));
    } else {
      assert a + b == b;
    }
  }

  lemma OccurrencesUnfold(texts: seq<WeightedText>)
    requires texts != []
    ensures Occurrences(texts) == Tagged(Tokens(texts[0].text), texts[0].weight) + Occurrences(texts[1..])
  {
  }


  /** One text yields one occurrence per token, in token order, each with
      the text's weight: `token_weights[t] += weight` runs once per token. */
  lemma OccurrencesSingle(t: WeightedText)
    ensures Occurrences([t]) == Tagged(Tokens(t.text), t.weight)
  {
    assert [t][1..] == [];
  }

  /** Total weight mass of the occurrences (`doc_sum`). */
  function TotalWeight(occ: seq<Occurrence>): real {
    if occ == [] then 0.0 else occ[0].weight + TotalWeight(occ[1..])
  }

  /** Weight mass of the occurrences whose token is in `q` (`intersect`). */
  function WeightIn(occ: seq<Occurrence>, q: set<string>): real {
    if occ == [] then 0.0
    else (if occ[0].token in q then occ[0].weight else 0.0) + WeightIn(occ[1..], q)
  }

  /** A text's weight counted once per token of the text. */
  function TextMass(t: WeightedText): real {
    |Tokens(t.text)| as real * t.weight
  }

  /** The mass of every text. */
  function Mass(texts: seq<WeightedText>): real {
    if texts == [] then 0.0 else TextMass(texts[0]) + Mass(texts[1..])
  }

  lemma {:induction false} TotalWeightAppend(a: seq<Occurrence>, b: seq<Occurrence>)
    ensures TotalWeight(a + b) == TotalWeight(a) + TotalWeight(b)
    decreases |a|
  {
    if a == [] {
      assert a + b == b;
    } else {
      assert (a + b)[0] == a[0];
      assert (a + b)[1..] == a[1..] + b;
      TotalWeightAppend(a[1..], b);
    }
  }

  lemma {:induction false} UniformWeight(occ: seq<Occurrence>, w: real)
    requires forall i :: 0 <= i < |occ| ==> occ[i].weight == w
    ensures TotalWeight(occ) == |occ| as real * w
    decreases |occ|
  {
    if occ != [] {
      UniformWeight(occ[1..], w);
    }
  }

  /** `doc_sum`, the sum of the `token_weights` values, is every text's
      weight times its number of tokens. */
  lemma {:induction false} TotalWeightIsMass(texts: seq<WeightedText>)
    ensures TotalWeight(Occurrences(texts)) == Mass(texts)
    decreases |texts|
  {
    if texts != [] {
      var t, rest := texts[0], texts[1..];
      OccurrencesCons(texts);
      TotalWeightAppend(Occurrences([t]), Occurrences(rest));
      SingleMass(t);
      TotalWeightIsMass(rest);
    }
  }

  lemma OccurrencesCons(texts: seq<WeightedText>)
    requires texts != []
    ensures Occurrences(texts) == Occurrences([texts[0]]) + Occurrences(texts[1..])
  {
    assert texts == [texts[0]] + texts[1..];
    OccurrencesAppend([texts[0]], texts[1..]);
  }

  lemma SingleMass(t: WeightedText)
    ensures TotalWeight(Occurrences([t])) == TextMass(t)
  {
    SingleTotal(t);
    TaggedTextMass(t);
  }

  lemma SingleTotal(t: WeightedText)
    ensures TotalWeight(Occurrences([t])) == TotalWeight(Tagged(Tokens(t.text), t.weight))
  {
    OccurrencesSingle(t);
  }

  lemma TaggedTextMass(t: WeightedText)
    ensures TotalWeight(Tagged(Tokens(t.text), t.weight)) == TextMass(t)
  {
    TaggedMass(Tokens(t.text), t.weight);
  }


  lemma TaggedMass(toks: seq<string>, w: real)
    ensures TotalWeight(Tagged(toks, w)) == |toks| as real * w
  {
    UniformWeight(Tagged(toks, w), w);
  }





  /** The matched mass lies between 0 and the total mass, and the total mass
      is at least the number of occurrences. */
  lemma {:induction false} WeightInBounds(occ: seq<Occurrence>, q: set<string>)
    requires AllWeightsAtLeastOne(occ)
    ensures 0.0 <= WeightIn(occ, q) <= TotalWeight(occ)
    ensures TotalWeight(occ) >= |occ| as real
  {
    if occ != [] {
      assert forall o :: o in occ[1..] ==> o in occ;
      WeightInBounds(occ[1..], q);
    }
  }

  /** The matched mass is positive exactly when some occurrence's token is queried. */
  lemma {:induction false} WeightInPositive(occ: seq<Occurrence>, q: set<string>)
    requires AllWeightsAtLeastOne(occ)
    ensures WeightIn(occ, q) > 0.0 <==> exists o :: o in occ && o.token in q
  {
    if occ != [] {
      assert forall o :: o in occ[1..] ==> o in occ;
      WeightInPositive(occ[1..], q);
      WeightInBounds(occ[1..], q);
      assert forall o :: o in occ ==> o == occ[0] || o in occ[1..];
    }
  }

  /** A larger token set never matches less mass. */
  lemma {:induction false} WeightInMonotone(occ: seq<Occurrence>, q: set<string>, q': set<string>)
    requires AllWeightsAtLeastOne(occ)
    requires q <= q'
    ensures WeightIn(occ, q) <= WeightIn(occ, q')
  {
    if occ != [] {
      assert forall o :: o in occ[1..] ==> o in occ;
      WeightInMonotone(occ[1..], q, q');
    }
  }

  /** Tokens not present in the document contribute no matched mass. */
  lemma {:induction false} WeightInIgnoresAbsent(occ: seq<Occurrence>, q: set<string>, t: string)
    requires forall o :: o in occ ==> o.token != t
    ensures WeightIn(occ, q + {t}) == WeightIn(occ, q)
  {
    if occ != [] {
      assert forall o :: o in occ[1..] ==> o in occ;
      WeightInIgnoresAbsent(occ[1..], q, t);
    }
  }

  /** With every weight at least 1, `doc_sum <= 0` never holds. */
  lemma TotalWeightPositive(occ: seq<Occurrence>)
    ensures AllWeightsAtLeastOne(occ) && occ != [] ==> TotalWeight(occ) >= 1.0
  {
    if AllWeightsAtLeastOne(occ) && occ != [] {
      WeightInBounds(occ, {});
    }
  }

  /** `intersect / (doc_sum + |Q|)`, 0 when the query or the document has no tokens. */
  function Overlap(q: set<string>, occ: seq<Occurrence>): (r: real)
    ensures |q| == 0 || occ == [] ==> r == 0.0
    ensures AllWeightsAtLeastOne(occ) && |q| != 0 && occ != [] ==> TotalWeight(occ) >= 1.0 && r == WeightIn(occ, q) / (TotalWeight(occ) + |q| as real)
  {
    TotalWeightPositive(occ);
    if |q| == 0 || occ == [] then 0.0
    else
      var total := TotalWeight(occ);
      if total <= 0.0 then 0.0 else WeightIn(occ, q) / (total + |q| as real)
  }

  lemma OverlapBounds(q: set<string>, occ: seq<Occurrence>)
    requires AllWeightsAtLeastOne(occ)
    ensures 0.0 <= Overlap(q, occ) < 1.0
    ensures Overlap(q, occ) > 0.0 <==> exists o :: o in occ && o.token in q
  {
    if |q| != 0 && occ != [] {
      WeightInBounds(occ, q);
      WeightInPositive(occ, q);
      var denom := TotalWeight(occ) + |q| as real;
      var hit := WeightIn(occ, q);
      assert Overlap(q, occ) == hit / denom;
      QuotientBounds(hit, denom);
    }
  }

  /** A quotient of a non-negative number by a larger one lies in [0, 1)
      and is positive iff the numerator is. */
  lemma QuotientBounds(a: real, d: real)
    requires 0.0 <= a < d
    ensures 0.0 <= a / d < 1.0
    ensures a / d > 0.0 <==> a > 0.0
  {
    assert d > 0.0;
    assert a / d * d == a;
    assert a / d < 1.0;
    assert a > 0.0 ==> a / d > 0.0;
  }


  /** Adding a query token the document lacks strictly lowers a positive
      score: `|Q|` sits in the denominator, so a query that is a superset of
      another can score lower against the same document. */
  lemma ExtraQueryTokenLowersOverlap(q: set<string>, t: string, occ: seq<Occurrence>)
    requires AllWeightsAtLeastOne(occ)
    requires t !in q
    requires forall o :: o in occ ==> o.token != t
    requires Overlap(q, occ) > 0.0
    ensures Overlap(q + {t}, occ) < Overlap(q, occ)
  {
    WeightInIgnoresAbsent(occ, q, t);
    WeightInBounds(occ, q);
    OverlapBounds(q, occ);
    WeightInPositive(occ, q);
    var hit := WeightIn(occ, q);
    var total := TotalWeight(occ);
    var n := |q| as real;
    assert |q + {t}| == |q| + 1;
    assert hit > 0.0;
    var small := total + n;
    var big := total + n + 1.0;
    assert small > 0.0;
    DividingByMoreGivesLess(hit, small, big);
  }

  /** A positive amount spread over a larger positive total is a smaller share. */
  lemma DividingByMoreGivesLess(hit: real, small: real, big: real)
    requires hit > 0.0 && 0.0 < small < big
    ensures hit / big < hit / small
  {
    var a, b := hit / big, hit / small;
    assert a * big == hit;
    assert b * small == hit;
    assert a * small < a * big by {
      assert a > 0.0;
      assert a * big - a * small == a * (big - small);
    }
    assert a * small < b * small;
  }

  /** The query's token set `Q`. */
  function QueryTokens(query: string): set<string> {
    set t | t in Tokens(query)
  }

  /** Every token the document yields. */
  function DocTokens(doc: Json): set<string> {
    set o | o in Occurrences(Collect(doc, 0)) :: o.token
  }

  lemma SharedTokenIff(q: set<string>, occ: seq<Occurrence>)
    ensures (exists o :: o in occ && o.token in q) <==> q * (set o | o in occ :: o.token) != {}
  {
    var toks := set o | o in occ :: o.token;
    if exists o :: o in occ && o.token in q {
      var o :| o in occ && o.token in q;
      assert o.token in q * toks;
    }
  }

  /** `_score_query_against_doc(query, doc)`: a score in [0, 1) that is
      positive exactly when the query and the document share a token, and 0
      when the query has no tokens or the document yields none. */
  function Score(query: string, doc: Json): (s: real)
    ensures 0.0 <= s < 1.0
    ensures Tokens(query) == [] ==> s == 0.0
    ensures DocTokens(doc) == {} ==> s == 0.0
    ensures s > 0.0 <==> QueryTokens(query) * DocTokens(doc) != {}
  {
    var q := QueryTokens(query);
    var collected := Collect(doc, 0);
    var occ := Occurrences(collected);
    OverlapBounds(q, occ);
    SharedTokenIff(q, occ);
    assert Tokens(query) == [] ==> |q| == 0;
    if |q| == 0 then
      0.0
    else if collected == [] then
      0.0
    else
      Overlap(q, occ)
  }
}
