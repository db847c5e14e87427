/**
 First-writer-wins deduplication, the pattern both merge loops follow: walk
 a stream, keep an element only when no kept element has its key yet. The
 node merge keys by id (`node_map`), the relation merge by the whole triple
 (`relation_set`).
 */
module Dedup {

  predicate HasKey<T, K(==)>(xs: seq<T>, key: T -> K, k: K) {
    exists i | 0 <= i < |xs| :: key(xs[i]) == k
  }

  /** Appends each stream element whose key is not yet present, in stream order. */
  function Extend<T, K(==)>(acc: seq<T>, stream: seq<T>, key: T -> K): (r: seq<T>)
    ensures |acc| <= |r| && r[..|acc|] == acc
    ensures forall i :: |acc| <= i < |r| ==> r[i] in stream
    decreases |stream|
  {
    if stream == [] then acc
    else
      var x := stream[0];
      Extend(if HasKey(acc, key, key(x)) then acc else acc + [x], stream[1..], key)
  }

  /** The reference definition: keep `stream[k]` exactly when no earlier
      stream element has its key (the test looks at the stream prefix, not at
      what was kept). */
  function Firsts<T, K(==)>(stream: seq<T>, key: T -> K): seq<T>
    decreases |stream|
  {
    if stream == [] then []
    else
      var p := stream[..|stream| - 1];
      var x := stream[|stream| - 1];
      Firsts(p, key) + (if HasKey(p, key, key(x)) then [] else [x])
  }

  /** `stream[k]` has no earlier element with the same key. */
  ghost predicate FirstAt<T, K>(stream: seq<T>, key: T -> K, k: int)
    requires 0 <= k < |stream|
  {
    forall m :: 0 <= m < k ==> key(stream[m]) != key(stream[k])
  }

  /** Deduplication loses no key and invents none. */
  lemma {:induction false} FirstsKeys<T, K>(stream: seq<T>, key: T -> K, k: K)
    ensures HasKey(Firsts(stream, key), key, k) <==> HasKey(stream, key, k)
    decreases |stream|
  {
    if stream != [] {
      var p := stream[..|stream| - 1];
      var x := stream[|stream| - 1];
      FirstsKeys(p, key, k);
      var f := Firsts(p, key);
      var out := Firsts(stream, key);
      assert out == f + (if HasKey(p, key, key(x)) then [] else [x]);
      if HasKey(out, key, k) {
        var i :| 0 <= i < |out| && key(out[i]) == k;
        if i < |f| {
          assert out[i] == f[i];
          var j :| 0 <= j < |p| && key(p[j]) == k;
          assert stream[j] == p[j];
        } else {
          assert key(stream[|stream| - 1]) == k;
        }
      }
      if HasKey(stream, key, k) {
        var j :| 0 <= j < |stream| && key(stream[j]) == k;
        if j < |p| {
          assert key(p[j]) == k;
          var i :| 0 <= i < |f| && key(f[i]) == k;
          assert out[i] == f[i];
        } else if HasKey(p, key, key(x)) {
          var m :| 0 <= m < |p| && key(p[m]) == key(x);
          var i :| 0 <= i < |f| && key(f[i]) == key(x);
          assert out[i] == f[i];
        } else {
          assert out[|f|] == x;
        }
      }
    }
  }

  /** No two elements of `xs` share a key. */
  predicate KeysDistinct<T, K(==)>(xs: seq<T>, key: T -> K) {
    forall i, j :: 0 <= i < j < |xs| ==> key(xs[i]) != key(xs[j])
  }

  /** No two kept elements share a key. */
  lemma {:induction false} FirstsDistinct<T, K>(stream: seq<T>, key: T -> K)
    ensures KeysDistinct(Firsts(stream, key), key)
    decreases |stream|
  {
    if stream != [] {
      var p := stream[..|stream| - 1];
      var x := stream[|stream| - 1];
      FirstsDistinct(p, key);
      var f := Firsts(p, key);
      var out := Firsts(stream, key);
      assert KeysDistinct(f, key);
      if HasKey(p, key, key(x)) {
        assert out == f;
      } else {
        assert out == f + [x];
        FirstsKeys(p, key, key(x));
        assert !HasKey(f, key, key(x));
        assert forall m :: 0 <= m < |f| ==> key(f[m]) != key(x);
        forall i, j | 0 <= i < j < |out|
          ensures key(out[i]) != key(out[j])
        {
          assert out[i] == f[i];
          if j < |f| {
            assert out[j] == f[j];
          } else {
            assert j == |f| && out[j] == x;
          }
        }
      }
    }
  }

  /** Every kept element is the first stream element with its key. */
  lemma {:induction false} FirstsAreFirst<T, K>(stream: seq<T>, key: T -> K, i: int)
    requires 0 <= i < |Firsts(stream, key)|
    ensures exists k :: 0 <= k < |stream| && stream[k] == Firsts(stream, key)[i] && FirstAt(stream, key, k)
    decreases |stream|
  {
    var p := stream[..|stream| - 1];
    var x := stream[|stream| - 1];
    var f := Firsts(p, key);
    var out := Firsts(stream, key);
    if i < |f| {
      assert out[i] == f[i];
      FirstsAreFirst(p, key, i);
      var k :| 0 <= k < |p| && p[k] == f[i] && FirstAt(p, key, k);
      assert stream[k] == out[i] && FirstAt(stream, key, k);
    } else {
      assert out[i] == x;
      assert FirstAt(stream, key, |p|);
    }
  }

  /** Walking a whole stream from nothing yields its reference deduplication. */
  lemma {:induction false} DedupIsFirsts<T, K>(stream: seq<T>, key: T -> K)
    ensures Extend([], stream, key) == Firsts(stream, key)
    decreases |stream|
  {
    if stream != [] {
      var p := stream[..|stream| - 1];
      var x := stream[|stream| - 1];
      assert p + [x] == stream;
      DedupIsFirsts(p, key);
      ExtendAppend([], p, [x], key);
      ExtendSingle(Firsts(p, key), x, key);
      FirstsSnoc(p, x, key);
    }
  }

  /** The fold the source runs, which tests keys against what it has kept so
      far, computes the reference definition from any deduplicated prefix. */
  lemma ExtendIsFirsts<T, K>(p: seq<T>, stream: seq<T>, key: T -> K)
    ensures Extend(Firsts(p, key), stream, key) == Firsts(p + stream, key)
  {
    DedupIsFirsts(p, key);
    ExtendAppend([], p, stream, key);
    DedupIsFirsts(p + stream, key);
  }

  /** Walking one element keeps it exactly when its key is new. */
  lemma ExtendSingle<T, K>(acc: seq<T>, x: T, key: T -> K)
    ensures Extend(acc, [x], key) == if HasKey(acc, key, key(x)) then acc else acc + [x]
  {
    assert [x][1..] == [];
  }

  /** One more stream element is kept exactly when the kept prefix lacks its key. */
  lemma FirstsSnoc<T, K>(p: seq<T>, x: T, key: T -> K)
    ensures Firsts(p + [x], key)
            == if HasKey(Firsts(p, key), key, key(x)) then Firsts(p, key) else Firsts(p, key) + [x]
  {
    var q := p + [x];
    FirstsKeys(p, key, key(x));
    assert q[..|q| - 1] == p;
  }

  /** Walking two streams one after the other is walking their concatenation. */
  lemma {:induction false} ExtendAppend<T, K>(acc: seq<T>, a: seq<T>, b: seq<T>, key: T -> K)
    ensures Extend(Extend(acc, a, key), b, key) == Extend(acc, a + b, key)
    decreases |a|
  {
    if a != [] {
      var x := a[0];
      var acc' := if HasKey(acc, key, key(x)) then acc else acc + [x];
      assert (a + b)[0] == x && (a + b)[1..] == a[1..] + b;
      assert Extend(acc, a + b, key) == Extend(acc', a[1..] + b, key);
      assert Extend(acc, a, key) == Extend(acc', a[1..], key);
      ExtendAppend(acc', a[1..], b, key);
    } else {
      assert a + b == b;
    }
  }

  /** Walking a stream whose keys are all present already changes nothing. */
  lemma {:induction false} ExtendNothingNew<T, K>(acc: seq<T>, stream: seq<T>, key: T -> K)
    requires forall k :: 0 <= k < |stream| ==> HasKey(acc, key, key(stream[k]))
    ensures Extend(acc, stream, key) == acc
    decreases |stream|
  {
    if stream != [] {
      assert HasKey(acc, key, key(stream[0]));
      ExtendNothingNew(acc, stream[1..], key);
    }
  }
}
