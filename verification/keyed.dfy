/**
  Immutable list editing keyed by an identity field, as the editor does with
  `filter` and `map` over its arrays of days and payments. The key is read by
  a projection `key`; identities are compared with `===`, modelled as `==`.
*/
module Keyed {

  /** No two elements of `xs` share a key. */
  predicate UniqueKeys<T, K(==)>(xs: seq<T>, key: T -> K) {
    forall i, j :: 0 <= i < j < |xs| ==> key(xs[i]) != key(xs[j])
  }

  /** No element of `xs` has key `id`. */
  predicate Absent<T, K(==)>(xs: seq<T>, key: T -> K, id: K) {
    forall k :: 0 <= k < |xs| ==> key(xs[k]) != id
  }

  /** Number of elements of `xs` whose key is `id`. */
  function CountKey<T, K(==)>(xs: seq<T>, key: T -> K, id: K): nat {
    if xs == [] then 0
    else (if key(xs[0]) == id then 1 else 0) + CountKey(xs[1..], key, id)
  }

  /** `xs` occurs in `ys` in the same order, possibly with elements of `ys` between. */
  predicate IsSubsequence<T(==)>(xs: seq<T>, ys: seq<T>)
    decreases |ys|
  {
    if xs == [] then true
    else if ys == [] then false
    else (xs[0] == ys[0] && IsSubsequence(xs[1..], ys[1..])) || IsSubsequence(xs, ys[1..])
  }

  /** No element has key `id` exactly when none is counted. */
  lemma {:induction false} CountKeyZero<T, K>(xs: seq<T>, key: T -> K, id: K)
    ensures CountKey(xs, key, id) == 0 <==> Absent(xs, key, id)
    decreases |xs|
  {
    if xs != [] {
      CountKeyZero(xs[1..], key, id);
      assert forall k :: 0 <= k < |xs[1..]| ==> xs[1..][k] == xs[k + 1];
    }
  }

  /** `xs.filter(x => key(x) !== id)`. */
  function RemoveKey<T(==), K(==)>(xs: seq<T>, key: T -> K, id: K): (r: seq<T>)
    ensures |r| == |xs| - CountKey(xs, key, id)
    ensures Absent(r, key, id)
    decreases |xs|
  {
    if xs == [] then []
    else if key(xs[0]) == id then RemoveKey(xs[1..], key, id)
    else
      var rest := RemoveKey(xs[1..], key, id);
      var r := [xs[0]] + rest;
      assert forall k :: 1 <= k < |r| ==> r[k] == rest[k - 1];
      r
  }

  /** What filtering keeps: every element of the result comes from `xs`, every
      element of `xs` without key `id` survives, the order is kept, and nothing
      is lost when no element has key `id`. */
  lemma {:induction false} RemoveKeyContents<T, K>(xs: seq<T>, key: T -> K, id: K)
    ensures var r := RemoveKey(xs, key, id);
      && (forall k :: 0 <= k < |r| ==> r[k] in xs)
      && (forall k :: 0 <= k < |xs| && key(xs[k]) != id ==> xs[k] in r)
      && IsSubsequence(r, xs)
      && (CountKey(xs, key, id) == 0 ==> r == xs)
    decreases |xs|
  {
    if xs != [] {
      RemoveKeyContents(xs[1..], key, id);
      var rest := RemoveKey(xs[1..], key, id);
      assert xs == [xs[0]] + xs[1..];
      assert forall k :: 1 <= k < |xs| ==> xs[k] == xs[1..][k - 1];
      if key(xs[0]) != id {
        var r := [xs[0]] + rest;
        assert r[1..] == rest;
        assert forall k :: 1 <= k < |r| ==> r[k] == rest[k - 1];
      }
    }
  }

  /** `xs.map(x => key(x) === id ? f(x) : x)`. */
  function UpdateKey<T, K(==)>(xs: seq<T>, key: T -> K, id: K, f: T -> T): (r: seq<T>)
    ensures |r| == |xs|
    ensures forall k :: 0 <= k < |xs| ==> r[k] == (if key(xs[k]) == id then f(xs[k]) else xs[k])
    decreases |xs|
  {
    if xs == [] then []
    else [if key(xs[0]) == id then f(xs[0]) else xs[0]] + UpdateKey(xs[1..], key, id, f)
  }

  /** The tail of a list with unique keys has unique keys, none equal to the head's. */
  lemma UniqueTail<T, K>(xs: seq<T>, key: T -> K)
    requires xs != [] && UniqueKeys(xs, key)
    ensures UniqueKeys(xs[1..], key)
    ensures Absent(xs[1..], key, key(xs[0]))
  {
    forall i, j | 0 <= i < j < |xs[1..]| ensures key(xs[1..][i]) != key(xs[1..][j]) {
      assert xs[1..][i] == xs[i + 1] && xs[1..][j] == xs[j + 1];
    }
    forall m | 0 <= m < |xs[1..]| ensures key(xs[1..][m]) != key(xs[0]) {
      assert xs[1..][m] == xs[m + 1];
    }
  }

  /** A key absent from `xs` is absent from any list drawn from `xs`. */
  lemma AbsentFromDrawn<T, K>(ys: seq<T>, xs: seq<T>, key: T -> K, id: K)
    requires forall k :: 0 <= k < |ys| ==> ys[k] in xs
    requires Absent(xs, key, id)
    ensures Absent(ys, key, id)
  {
    forall k | 0 <= k < |ys| ensures key(ys[k]) != id {
      var m :| 0 <= m < |xs| && xs[m] == ys[k];
    }
  }

  lemma UniqueCons<T, K>(x: T, ys: seq<T>, key: T -> K)
    requires UniqueKeys(ys, key) && Absent(ys, key, key(x))
    ensures UniqueKeys([x] + ys, key)
  {
    var r := [x] + ys;
    forall i, j | 0 <= i < j < |r| ensures key(r[i]) != key(r[j]) {
      assert r[j] == ys[j - 1];
      if i > 0 {
        assert r[i] == ys[i - 1];
      }
    }
  }

  /** Filtering keeps keys unique. */
  lemma {:induction false} RemoveKeyKeepsUnique<T, K>(xs: seq<T>, key: T -> K, id: K)
    requires UniqueKeys(xs, key)
    ensures UniqueKeys(RemoveKey(xs, key, id), key)
    decreases |xs|
  {
    if xs != [] {
      UniqueTail(xs, key);
      RemoveKeyKeepsUnique(xs[1..], key, id);
      RemoveKeyContents(xs[1..], key, id);
      var rest := RemoveKey(xs[1..], key, id);
      if key(xs[0]) != id {
        AbsentFromDrawn(rest, xs[1..], key, key(xs[0]));
        UniqueCons(xs[0], rest, key);
      }
    }
  }

  /** Filtering distributes over concatenation. */
  lemma {:induction false} RemoveKeyAppend<T, K>(a: seq<T>, b: seq<T>, key: T -> K, id: K)
    ensures RemoveKey(a + b, key, id) == RemoveKey(a, key, id) + RemoveKey(b, key, id)
    decreases |a|
  {
    if a == [] {
      assert a + b == b;
    } else {
      assert (a + b)[0] == a[0];
      assert (a + b)[1..] == a[1..] + b;
      RemoveKeyAppend(a[1..], b, key, id);
    }
  }

  /** With unique keys, filtering out the key found at position `k` removes
      exactly that element. */
  lemma RemoveKeyAt<T, K>(xs: seq<T>, key: T -> K, k: nat)
    requires UniqueKeys(xs, key)
    requires k < |xs|
    ensures RemoveKey(xs, key, key(xs[k])) == xs[..k] + xs[k + 1..]
  {
    AbsentAround(xs, key, k);
    CutAt(xs, k);
    RemoveKeyCut(xs[..k], xs[k], xs[k + 1..], key);
  }

  lemma PrefixNext<T>(xs: seq<T>, k: nat)
    requires k < |xs|
    ensures xs[..k + 1] == xs[..k] + [xs[k]]
  {
  }

  lemma CutAt<T>(xs: seq<T>, k: nat)
    requires k < |xs|
    ensures xs == xs[..k] + ([xs[k]] + xs[k + 1..])
  {
  }

  /** Filtering out the key of `x` from `before + [x] + after` leaves
      `before + after` when neither side holds that key. */
  lemma RemoveKeyCut<T, K>(before: seq<T>, x: T, after: seq<T>, key: T -> K)
    requires Absent(before, key, key(x)) && Absent(after, key, key(x))
    ensures RemoveKey(before + ([x] + after), key, key(x)) == before + after
  {
    var id := key(x);
    RemoveKeyAppend(before, [x] + after, key, id);
    RemoveKeyAppend([x], after, key, id);
    RemoveKeyNone(before, key, id);
    RemoveKeyNone(after, key, id);
    RemoveKeySingle(x, key);
    assert [] + after == after;
  }

  lemma AbsentAround<T, K>(xs: seq<T>, key: T -> K, k: nat)
    requires UniqueKeys(xs, key)
    requires k < |xs|
    ensures Absent(xs[..k], key, key(xs[k])) && Absent(xs[k + 1..], key, key(xs[k]))
  {
    var before, after := xs[..k], xs[k + 1..];
    forall m | 0 <= m < |before| ensures key(before[m]) != key(xs[k]) {
      assert before[m] == xs[m];
    }
    forall m | 0 <= m < |after| ensures key(after[m]) != key(xs[k]) {
      assert after[m] == xs[k + 1 + m];
    }
  }

  /** Filtering out a key no element has changes nothing. */
  lemma RemoveKeyNone<T, K>(xs: seq<T>, key: T -> K, id: K)
    requires Absent(xs, key, id)
    ensures RemoveKey(xs, key, id) == xs
  {
    CountKeyZero(xs, key, id);
    RemoveKeyContents(xs, key, id);
  }

  lemma RemoveKeySingle<T, K>(x: T, key: T -> K)
    ensures RemoveKey([x], key, key(x)) == []
  {
    assert [x][1..] == [];
  }
}
