/**
 `query_top_k_local`: score every stored document against the query, keep
 the positive scores, sort them in descending order with Python's stable
 sort, and cut the list with the slice `[:k]`.
 */
module Ranking {
  import opened Json
  import opened Store
  import opened Scorer

  /** One kept document: its position in the store, its id, its score and
      its content (`o.json or {}`). */
  datatype Hit = Hit(pos: nat, id: int, score: real, ontology: Json)

  /** The score of every store entry, in store order. */
  function Scores(query: string, docs: seq<Document>): (r: seq<real>)
    ensures |r| == |docs|
    ensures forall i :: 0 <= i < |docs| ==> r[i] == Score(query, Content(docs[i]))
  {
    seq(|docs|, i requires 0 <= i < |docs| => Score(query, Content(docs[i])))
  }

  /** `h` is the scored form of the store entry at `h.pos`. */
  predicate IsHitOf(docs: seq<Document>, scores: seq<real>, h: Hit) {
    h.pos < |docs| && h.pos < |scores|
    && h.id == docs[h.pos].id
    && h.ontology == Content(docs[h.pos])
    && h.score == scores[h.pos]
  }

  predicate IncreasingPos(hits: seq<Hit>) {
    forall i, j :: 0 <= i < j < |hits| ==> hits[i].pos < hits[j].pos
  }

  /** `a` may stand before `b` in a ranked list. */
  predicate RanksBefore(a: Hit, b: Hit) {
    a.score > b.score || (a.score == b.score && a.pos < b.pos)
  }

  /** Descending score, ties in store order: what a stable descending sort of
      store-ordered hits yields. */
  predicate Ranked(hits: seq<Hit>) {
    forall i, j :: 0 <= i < j < |hits| ==> RanksBefore(hits[i], hits[j])
  }

  /** The documents with a positive score, in store order. */
  function Scored(docs: seq<Document>, scores: seq<real>): (hits: seq<Hit>)
    requires |scores| == |docs|
    ensures forall h :: h in hits ==> h.score > 0.0 && IsHitOf(docs, scores, h)
    ensures forall i :: 0 <= i < |docs| && scores[i] > 0.0 ==> exists h :: h in hits && h.pos == i
    ensures IncreasingPos(hits)
    decreases |docs|
  {
    if docs == [] then []
    else
      var n := |docs| - 1;
      var earlier := Scored(docs[..n], scores[..n]);
      var x := Hit(n, docs[n].id, scores[n], Content(docs[n]));
      var hits := if scores[n] > 0.0 then earlier + [x] else earlier;
      assert forall i :: 0 <= i < n ==> scores[..n][i] == scores[i];
      ScoredKeepsHits(docs, scores, earlier);
      ScoredKeepsPositives(docs, scores, earlier, hits);
      if scores[n] > 0.0 then AppendIncreasing(earlier, x); hits else hits
  }

  lemma ScoredKeepsHits(docs: seq<Document>, scores: seq<real>, earlier: seq<Hit>)
    requires docs != [] && |scores| == |docs|
    requires forall h :: h in earlier ==> IsHitOf(docs[..|docs| - 1], scores[..|docs| - 1], h)
    ensures forall h :: h in earlier ==> IsHitOf(docs, scores, h) && h.pos < |docs| - 1
  {
    var n := |docs| - 1;
    forall h | h in earlier
      ensures IsHitOf(docs, scores, h)
    {
      assert IsHitOf(docs[..n], scores[..n], h);
      assert docs[h.pos] == docs[..n][h.pos] && scores[h.pos] == scores[..n][h.pos];
    }
  }

  lemma ScoredKeepsPositives(docs: seq<Document>, scores: seq<real>, earlier: seq<Hit>, hits: seq<Hit>)
    requires docs != [] && |scores| == |docs|
    requires forall i :: 0 <= i < |docs| - 1 && scores[i] > 0.0 ==> exists h :: h in earlier && h.pos == i
    requires var n := |docs| - 1;
             hits == if scores[n] > 0.0 then earlier + [Hit(n, docs[n].id, scores[n], Content(docs[n]))] else earlier
    ensures forall i :: 0 <= i < |docs| && scores[i] > 0.0 ==> exists h :: h in hits && h.pos == i
  {
    var n := |docs| - 1;
    forall i | 0 <= i < |docs| && scores[i] > 0.0
      ensures exists h :: h in hits && h.pos == i
    {
      if i < n {
        var h :| h in earlier && h.pos == i;
        assert h in hits;
      } else {
        assert hits[|hits| - 1].pos == i;
      }
    }
  }

  lemma AppendIncreasing(earlier: seq<Hit>, x: Hit)
    requires forall h :: h in earlier ==> h.pos < x.pos
    requires IncreasingPos(earlier)
    ensures IncreasingPos(earlier + [x])
  {
    var hits := earlier + [x];
    forall i, j | 0 <= i < j < |hits|
      ensures hits[i].pos < hits[j].pos
    {
      assert hits[i] == earlier[i];
      if j < |earlier| {
        assert hits[j] == earlier[j];
      }
    }
  }

  lemma RankedCons(a: Hit, rest: seq<Hit>)
    requires Ranked(rest)
    requires forall x :: x in rest ==> RanksBefore(a, x)
    ensures Ranked([a] + rest)
  {
    var r := [a] + rest;
    forall i, j | 0 <= i < j < |r|
      ensures RanksBefore(r[i], r[j])
    {
      if i == 0 {
        assert r[j] == rest[j - 1];
      } else {
        assert r[i] == rest[i - 1] && r[j] == rest[j - 1];
      }
    }
  }

  /** Places `h` after every hit that scores strictly more and before the
      rest: one step of a stable descending insertion sort. */
  function Insert(h: Hit, hits: seq<Hit>): (r: seq<Hit>)
    ensures multiset(r) == multiset(hits) + multiset{h}
  {
    if hits == [] || hits[0].score <= h.score then
      [h] + hits
    else
      assert hits == [hits[0]] + hits[1..];
      [hits[0]] + Insert(h, hits[1..])
  }

  /** Inserting a hit that comes earlier in the store than every ranked hit
      keeps the list ranked. */
  lemma {:induction false} InsertRanked(h: Hit, hits: seq<Hit>)
    requires Ranked(hits)
    requires forall x :: x in hits ==> h.pos < x.pos
    ensures Ranked(Insert(h, hits))
  {
    if hits == [] || hits[0].score <= h.score {
      forall x | x in hits
        ensures RanksBefore(h, x)
      {
        var j :| 0 <= j < |hits| && hits[j] == x;
        if j > 0 {
          assert RanksBefore(hits[0], hits[j]);
        }
      }
      RankedCons(h, hits);
    } else {
      var tail := hits[1..];
      assert Ranked(tail) by {
        forall i, j | 0 <= i < j < |tail|
          ensures RanksBefore(tail[i], tail[j])
        {
          assert tail[i] == hits[i + 1] && tail[j] == hits[j + 1];
        }
      }
      assert forall x :: x in tail ==> x in hits;
      InsertRanked(h, tail);
      var rest := Insert(h, tail);
      forall x | x in rest
        ensures RanksBefore(hits[0], x)
      {
        assert x in multiset(tail) + multiset{h};
        if x != h {
          assert x in tail;
          var j :| 0 <= j < |tail| && tail[j] == x;
          assert hits[j + 1] == x;
        }
      }
      RankedCons(hits[0], rest);
    }
  }

  /** `results.sort(key=score, reverse=True)` as a stable insertion sort. */
  function SortByScore(hits: seq<Hit>): (r: seq<Hit>)
    ensures multiset(r) == multiset(hits)
  {
    if hits == [] then []
    else
      assert hits == [hits[0]] + hits[1..];
      Insert(hits[0], SortByScore(hits[1..]))
  }

  /** Sorting store-ordered hits yields a permutation in descending score
      order that keeps store order among equal scores. */
  lemma {:induction false} SortByScoreRanked(hits: seq<Hit>)
    requires IncreasingPos(hits)
    ensures Ranked(SortByScore(hits))
  {
    if hits != [] {
      var tail := hits[1..];
      assert IncreasingPos(tail) by {
        forall i, j | 0 <= i < j < |tail|
          ensures tail[i].pos < tail[j].pos
        {
          assert tail[i] == hits[i + 1] && tail[j] == hits[j + 1];
        }
      }
      SortByScoreRanked(tail);
      var rest := SortByScore(tail);
      forall x | x in rest
        ensures hits[0].pos < x.pos
      {
        assert x in multiset(tail);
        var j :| 0 <= j < |tail| && tail[j] == x;
        assert hits[j + 1] == x;
      }
      InsertRanked(hits[0], rest);
    }
  }

  /** Python's `xs[:k]`: the first k elements; a negative k drops |k| from the end. */
  function SlicePrefix(hits: seq<Hit>, k: int): (r: seq<Hit>)
    ensures r <= hits
    ensures k >= 0 ==> |r| == if k < |hits| then k else |hits|
    ensures k < 0 ==> |r| == if |hits| + k > 0 then |hits| + k else 0
  {
    if k >= 0 then
      (if k < |hits| then hits[..k] else hits)
    else
      (if |hits| + k > 0 then hits[..|hits| + k] else [])
  }

  /** The top-k cut over precomputed scores. */
  function RankTopK(docs: seq<Document>, scores: seq<real>, k: int): (r: seq<Hit>)
    requires |scores| == |docs|
    ensures k >= 0 ==> |r| <= k
    ensures forall h :: h in r ==> h.score > 0.0 && IsHitOf(docs, scores, h)
    ensures Ranked(r)
    ensures k >= 0 ==> |r| == if k < |Scored(docs, scores)| then k else |Scored(docs, scores)|
    ensures k < 0 ==> |r| == if |Scored(docs, scores)| + k > 0 then |Scored(docs, scores)| + k else 0
    ensures forall i, h :: 0 <= i < |docs| && scores[i] > 0.0 && (forall x :: x in r ==> x.pos != i) && h in r
              ==> scores[i] <= h.score
    ensures forall i, h :: 0 <= i < |docs| && scores[i] > 0.0 && (forall x :: x in r ==> x.pos != i) && h in r
              ==> scores[i] < h.score || (scores[i] == h.score && h.pos < i)
  {
    var scored := Scored(docs, scores);
    var sorted := SortByScore(scored);
    SortByScoreRanked(scored);
    var r := SlicePrefix(sorted, k);
    assert |sorted| == |scored| by {
      assert |multiset(sorted)| == |multiset(scored)|;
    }
    PrefixRanked(sorted, r);
    assert forall x :: x in r ==> x in sorted;
    assert forall x :: x in sorted ==> x in multiset(scored);
    CutScoresNoHigher(docs, scores, scored, sorted, r);
    r
  }

  lemma PrefixRanked(sorted: seq<Hit>, r: seq<Hit>)
    requires Ranked(sorted) && r <= sorted
    ensures Ranked(r)
  {
    forall i, j | 0 <= i < j < |r|
      ensures RanksBefore(r[i], r[j])
    {
      assert r[i] == sorted[i] && r[j] == sorted[j];
    }
  }

  /** Every positive entry that did not survive the cut ranks below every kept one. */
  lemma CutScoresNoHigher(docs: seq<Document>, scores: seq<real>, scored: seq<Hit>, sorted: seq<Hit>, r: seq<Hit>)
    requires |scores| == |docs|
    requires forall i :: 0 <= i < |docs| && scores[i] > 0.0 ==> exists h :: h in scored && h.pos == i
    requires forall h :: h in scored ==> IsHitOf(docs, scores, h)
    requires multiset(sorted) == multiset(scored)
    requires Ranked(sorted) && r <= sorted
    ensures forall i, h :: 0 <= i < |docs| && scores[i] > 0.0 && (forall x :: x in r ==> x.pos != i) && h in r
              ==> scores[i] <= h.score
    ensures forall i, h :: 0 <= i < |docs| && scores[i] > 0.0 && (forall x :: x in r ==> x.pos != i) && h in r
              ==> scores[i] < h.score || (scores[i] == h.score && h.pos < i)
  {
    forall i, h | 0 <= i < |docs| && scores[i] > 0.0 && (forall x :: x in r ==> x.pos != i) && h in r
      ensures scores[i] < h.score || (scores[i] == h.score && h.pos < i)
    {
      var g :| g in scored && g.pos == i;
      assert IsHitOf(docs, scores, g);
      assert g in multiset(sorted);
      var j :| 0 <= j < |sorted| && sorted[j] == g;
      var a :| 0 <= a < |r| && r[a] == h;
      assert sorted[a] == h;
      assert forall b :: 0 <= b < |r| ==> r[b] == sorted[b] && r[b].pos != i;
      assert a < j;
      assert RanksBefore(sorted[a], sorted[j]);
    }
  }

  /** The store positions with a positive score. */
  function Positives(scores: seq<real>): set<int> {
    set i | 0 <= i < |scores| && scores[i] > 0.0
  }

  lemma PositivesSnoc(scores: seq<real>)
    requires scores != []
    ensures var n := |scores| - 1;
            n !in Positives(scores[..n])
            && Positives(scores) == Positives(scores[..n]) + (if scores[n] > 0.0 then {n} else {})
  {
    var n := |scores| - 1;
    assert forall i :: 0 <= i < n ==> scores[..n][i] == scores[i];
  }

  lemma ScoredStep(docs: seq<Document>, scores: seq<real>)
    requires |scores| == |docs| && docs != []
    ensures var n := |docs| - 1;
            |Scored(docs, scores)| == |Scored(docs[..n], scores[..n])| + (if scores[n] > 0.0 then 1 else 0)
  {
  }

  /** One hit per positively scored entry. */
  lemma {:induction false} ScoredCount(docs: seq<Document>, scores: seq<real>)
    requires |scores| == |docs|
    ensures |Scored(docs, scores)| == |Positives(scores)|
    decreases |docs|
  {
    if docs == [] {
      assert Positives(scores) == {};
    } else {
      var n := |docs| - 1;
      ScoredCount(docs[..n], scores[..n]);
      ScoredStep(docs, scores);
      PositivesSnoc(scores);
      var before := Positives(scores[..n]);
      if scores[n] > 0.0 {
        assert Positives(scores) == before + {n};
        assert |before + {n}| == |before| + 1;
      } else {
        assert Positives(scores) == before;
      }
    }
  }

  /** `query_top_k_local(query, k)`: at most k hits (for k >= 0), each a
      positively scored store entry carrying its score, in descending score
      with ties in store order; no positively scored entry that was cut
      scores more than one that was kept. */
  function TopK(query: string, docs: seq<Document>, k: int): (r: seq<Hit>)
    ensures k >= 0 ==> |r| <= k
    ensures k >= 0 ==> |r| == if k < |Positives(Scores(query, docs))| then k else |Positives(Scores(query, docs))|
    ensures k < 0 ==> |r| == if |Positives(Scores(query, docs))| + k > 0 then |Positives(Scores(query, docs))| + k else 0
    ensures forall h :: h in r ==> h.score > 0.0 && IsHitOf(docs, Scores(query, docs), h)
    ensures Ranked(r)
    ensures forall i, h :: 0 <= i < |docs| && Scores(query, docs)[i] > 0.0
              && (forall x :: x in r ==> x.pos != i) && h in r
              ==> Scores(query, docs)[i] <= h.score
    ensures forall i, h :: 0 <= i < |docs| && Scores(query, docs)[i] > 0.0
              && (forall x :: x in r ==> x.pos != i) && h in r
              ==> Scores(query, docs)[i] < h.score || (Scores(query, docs)[i] == h.score && h.pos < i)
  {
    ScoredCount(docs, Scores(query, docs));
    RankTopK(docs, Scores(query, docs), k)
  }
}
