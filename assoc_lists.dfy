/**
 * Insertion-ordered dictionaries: a JavaScript object with string keys.
 * Assigning a fresh key appends it, re-assigning an existing key keeps its
 * position, `delete` removes it, and `Object.keys`/`Object.values` list the
 * entries in insertion order.
 */
module AssocLists {
  import opened Common

  /** The keys of `a` in insertion order (`Object.keys`). */
  function Keys<K, V>(a: seq<(K, V)>): seq<K>
  {
    seq(|a|, i requires 0 <= i < |a| => a[i].0)
  }

  /**
   * The values of `a` in insertion order (`Object.values`): one per entry,
   * so that pairing them with `Keys(a)` gives back the entries.
   */
  function Values<K, V>(a: seq<(K, V)>): (r: seq<V>)
    ensures |r| == |Keys(a)| == |a|
    ensures forall i :: 0 <= i < |a| ==> (Keys(a)[i], r[i]) == a[i]
  {
    seq(|a|, i requires 0 <= i < |a| => a[i].1)
  }

  /** No key occurs twice: `a` is the entry list of a real object. */
  predicate DistinctKeys<K(==), V>(a: seq<(K, V)>)
  {
    forall i, j :: 0 <= i < j < |a| ==> a[i].0 != a[j].0
  }

  /** The position of the first occurrence of `x` in `s`, if any. */
  function FirstIndex<T(==)>(s: seq<T>, x: T): (r: Option<nat>)
    ensures r.None? <==> x !in s
    ensures r.Some? ==> r.value < |s| && s[r.value] == x && x !in s[..r.value]
  {
    if s == [] then None
    else if s[0] == x then Some(0)
    else
      match FirstIndex(s[1..], x)
      case None => None
      case Some(i) =>
        assert s[..i + 1] == [s[0]] + s[1..][..i];
        Some(i + 1)
  }

  /** `obj[k]`: the value stored under `k`, or None when `k` is absent. */
  function Lookup<K(==), V>(a: seq<(K, V)>, k: K): (r: Option<V>)
    ensures r.None? <==> k !in Keys(a)
    ensures r.Some? ==> (k, r.value) in a
    ensures DistinctKeys(a) ==> forall i :: 0 <= i < |a| && a[i].0 == k ==> r == Some(a[i].1)
  {
    match FirstIndex(Keys(a), k)
    case None => DeleteAbsent(a, k); None
    case Some(i) => Some(a[i].1)
  }

  /** `obj[k] = v`: overwrite in place when `k` is present, append otherwise. */
  function Put<K(==,!new), V>(a: seq<(K, V)>, k: K, v: V): (r: seq<(K, V)>)
    ensures Keys(r) == if k in Keys(a) then Keys(a) else Keys(a) + [k]
    ensures Lookup(r, k) == Some(v)
    ensures forall j :: j != k ==> Lookup(r, j) == Lookup(a, j)
    ensures DistinctKeys(a) ==> DistinctKeys(r)
    ensures k in Keys(a) ==> Values(r) == Values(a)[FirstIndex(Keys(a), k).value := v]
    ensures k !in Keys(a) ==> Values(r) == Values(a) + [v]
    ensures forall e :: e in r ==> e in a || e == (k, v)
  {
    match FirstIndex(Keys(a), k)
    case None => PutAppends(a, k, v); a + [(k, v)]
    case Some(i) => PutOverwrites(a, k, v, i); a[i := (k, v)]
  }

  lemma PutAppends<K(!new), V>(a: seq<(K, V)>, k: K, v: V)
    requires k !in Keys(a)
    ensures Keys(a + [(k, v)]) == Keys(a) + [k]
    ensures Values(a + [(k, v)]) == Values(a) + [v]
    ensures Lookup(a + [(k, v)], k) == Some(v)
    ensures forall j :: j != k ==> Lookup(a + [(k, v)], j) == Lookup(a, j)
    ensures DistinctKeys(a) ==> DistinctKeys(a + [(k, v)])
  {
    var r := a + [(k, v)];
    assert Keys(r) == Keys(a) + [k];
    forall j | j != k ensures Lookup(r, j) == Lookup(a, j) {
      FirstIndexAppend(Keys(a), k, j);
    }
    FirstIndexAppend(Keys(a), k, k);
    if DistinctKeys(a) {
      forall m, n | 0 <= m < n < |r| ensures r[m].0 != r[n].0 {
        if n == |a| { assert Keys(a)[m] == r[m].0; }
      }
    }
  }

  lemma PutOverwrites<K, V>(a: seq<(K, V)>, k: K, v: V, i: nat)
    requires FirstIndex(Keys(a), k) == Some(i)
    ensures Keys(a[i := (k, v)]) == Keys(a)
    ensures Values(a[i := (k, v)]) == Values(a)[i := v]
    ensures Lookup(a[i := (k, v)], k) == Some(v)
    ensures forall j :: j != k ==> Lookup(a[i := (k, v)], j) == Lookup(a, j)
    ensures DistinctKeys(a) ==> DistinctKeys(a[i := (k, v)])
    ensures forall e :: e in a[i := (k, v)] ==> e in a || e == (k, v)
  {
  }

  /** Appending a different element does not move the first occurrence of `x`. */
  lemma FirstIndexAppend<T>(s: seq<T>, y: T, x: T)
    requires y !in s
    ensures FirstIndex(s + [y], x) == if x == y then Some(|s|) else FirstIndex(s, x)
  {
    if s != [] {
      assert (s + [y])[1..] == s[1..] + [y];
      FirstIndexAppend(s[1..], y, x);
    }
  }

  /** The entries of `a` whose key is not `k`, in their original order. */
  function Without<K(==), V>(a: seq<(K, V)>, k: K): seq<(K, V)>
  {
    if a == [] then []
    else if a[0].0 == k then Without(a[1..], k)
    else [a[0]] + Without(a[1..], k)
  }

  /** `delete obj[k]`: removes the entry for `k`, keeping the order of the others. */
  function Delete<K(==,!new), V(!new)>(a: seq<(K, V)>, k: K): (r: seq<(K, V)>)
    requires DistinctKeys(a)
    ensures r == Without(a, k)
    ensures k !in Keys(r)
    ensures forall j :: j != k ==> Lookup(r, j) == Lookup(a, j)
    ensures DistinctKeys(r)
    ensures |r| == if k in Keys(a) then |a| - 1 else |a|
    ensures forall e :: e in r <==> e in a && e.0 != k
  {
    match FirstIndex(Keys(a), k)
    case None => DeleteAbsent(a, k); WithoutAbsent(a, k); a
    case Some(i) => DeleteAt(a, k, i); WithoutAt(a, k, i); a[..i] + a[i + 1..]
  }

  /** Filtering out a key that no entry has leaves the list as it was. */
  lemma {:induction false} WithoutAbsent<K, V>(a: seq<(K, V)>, k: K)
    requires forall e :: e in a ==> e.0 != k
    ensures Without(a, k) == a
  {
    if a != [] {
      assert a[0] in a;
      WithoutAbsent(a[1..], k);
    }
  }

  /** With distinct keys, filtering out `k` is cutting out its one entry. */
  lemma {:induction false} WithoutAt<K, V>(a: seq<(K, V)>, k: K, i: nat)
    requires DistinctKeys(a)
    requires i < |a| && a[i].0 == k
    ensures Without(a, k) == a[..i] + a[i + 1..]
  {
    if i == 0 {
      forall e | e in a[1..] ensures e.0 != k {
        var n :| 0 <= n < |a[1..]| && a[1..][n] == e;
        assert a[n + 1] == e;
      }
      WithoutAbsent(a[1..], k);
    } else {
      WithoutAt(a[1..], k, i - 1);
      assert a[..i] == [a[0]] + a[1..][..i - 1];
      assert a[i + 1..] == a[1..][i..];
    }
  }

  lemma DeleteAbsent<K, V>(a: seq<(K, V)>, k: K)
    requires k !in Keys(a)
    ensures forall e :: e in a ==> e.0 != k
  {
    forall e | e in a ensures e.0 != k {
      var n :| 0 <= n < |a| && a[n] == e;
      assert Keys(a)[n] == e.0;
    }
  }

  lemma DeleteAt<K, V>(a: seq<(K, V)>, k: K, i: nat)
    requires DistinctKeys(a)
    requires FirstIndex(Keys(a), k) == Some(i)
    ensures var r := a[..i] + a[i + 1..];
      && k !in Keys(r)
      && DistinctKeys(r)
      && (forall e :: e in r <==> e in a && e.0 != k)
      && (forall j :: j != k ==> Lookup(r, j) == Lookup(a, j))
  {
  }

  /** In an object, looking a key up finds exactly the entry stored for it. */
  lemma LookupIsMembership<K, V>(a: seq<(K, V)>, k: K)
    ensures DistinctKeys(a) ==> forall v :: Lookup(a, k) == Some(v) <==> (k, v) in a
  {
  }
}
