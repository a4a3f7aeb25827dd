/** Python's insertion-ordered `dict`, as a sequence of key/value pairs.
    Iteration order is sequence order; assigning to a key that is already
    present replaces its value in place, a new key goes to the end. */
module Dict {
  import opened Core

  type Dict<K, V> = seq<(K, V)>

  function Keys<K, V>(d: Dict<K, V>): seq<K>
  {
    seq(|d|, i requires 0 <= i < |d| => d[i].0)
  }

  /** A well-formed dict never holds a key twice. */
  predicate DistinctKeys<K(==), V>(d: Dict<K, V>)
  {
    forall i, j :: 0 <= i < j < |d| ==> d[i].0 != d[j].0
  }

  /** Position of `k` in iteration order, if present. */
  function IndexOf<K(==), V>(d: Dict<K, V>, k: K): (r: Option<nat>)
    ensures r.Some? ==> r.value < |d| && d[r.value].0 == k
    ensures r.Some? ==> forall j :: 0 <= j < r.value ==> d[j].0 != k
    ensures r.None? <==> forall j :: 0 <= j < |d| ==> d[j].0 != k
  {
    FirstIndex(d, (kv: (K, V)) => kv.0 == k)
  }

  /** `d.get(k)`. */
  function Get<K(==), V>(d: Dict<K, V>, k: K): Option<V>
  {
    match IndexOf(d, k)
    case None => None
    case Some(i) => Some(d[i].1)
  }

  /** `d[k] = v`: an existing key keeps its position and gets the new value;
      a new key is appended at the end. */
  function Put<K(==), V>(d: Dict<K, V>, k: K, v: V): (r: Dict<K, V>)
    ensures IndexOf(d, k).Some? ==> r == d[IndexOf(d, k).value := (k, v)]
    ensures IndexOf(d, k).None? ==> r == d + [(k, v)]
  {
    if |d| == 0 then [(k, v)]
    else if d[0].0 == k then [(k, v)] + d[1..]
    else
      var rest := Put(d[1..], k, v);
      assert IndexOf(d[1..], k).Some? ==> IndexOf(d, k) == Some(IndexOf(d[1..], k).value + 1);
      [d[0]] + rest
  }

  /** The first position holding `k` is the one `IndexOf` reports. */
  lemma IndexOfIs<K, V>(d: Dict<K, V>, k: K, i: nat)
    requires i < |d| && d[i].0 == k
    requires forall j :: 0 <= j < i ==> d[j].0 != k
    ensures IndexOf(d, k) == Some(i)
  {
  }

  /** After `d[k] = v`, `k` maps to `v`. */
  lemma PutGetSame<K, V>(d: Dict<K, V>, k: K, v: V)
    ensures Get(Put(d, k, v), k) == Some(v)
  {
    var r := Put(d, k, v);
    match IndexOf(d, k)
    case Some(i) => IndexOfIs(r, k, i);
    case None => IndexOfIs(r, k, |d|);
  }

  /** After `d[k] = v`, every other key keeps its value. */
  lemma PutGetOther<K, V>(d: Dict<K, V>, k: K, v: V, k': K)
    requires k' != k
    ensures Get(Put(d, k, v), k') == Get(d, k')
  {
    var r := Put(d, k, v);
    assert forall j :: 0 <= j < |d| ==> (r[j].0 == k' <==> d[j].0 == k');
    match IndexOf(d, k')
    case None =>
      assert forall j :: 0 <= j < |r| ==> r[j].0 != k';
    case Some(m) =>
      IndexOfIs(r, k', m);
  }

  /** `d[k] = v` keeps the key order, appending `k` when it is new. */
  lemma PutKeys<K, V>(d: Dict<K, V>, k: K, v: V)
    ensures IndexOf(d, k).Some? ==> Keys(Put(d, k, v)) == Keys(d)
    ensures IndexOf(d, k).None? ==> Keys(Put(d, k, v)) == Keys(d) + [k]
  {
  }

  /** A dict without duplicate keys still has none after `d[k] = v`. */
  lemma PutDistinct<K, V>(d: Dict<K, V>, k: K, v: V)
    requires DistinctKeys(d)
    ensures DistinctKeys(Put(d, k, v))
  {
  }

  /** `d[k] = v` in one statement: `k` maps to `v`, every other key keeps
      its value, and a key already present keeps the key order. */
  lemma PutEffect<K, V>(d: Dict<K, V>, k: K, v: V)
    ensures Get(Put(d, k, v), k) == Some(v)
    ensures forall k' :: k' != k ==> Get(Put(d, k, v), k') == Get(d, k')
    ensures IndexOf(d, k).Some? ==> Keys(Put(d, k, v)) == Keys(d)
  {
    PutGetSame(d, k, v);
    PutKeys(d, k, v);
    forall k' | k' != k ensures Get(Put(d, k, v), k') == Get(d, k') {
      PutGetOther(d, k, v, k');
    }
  }

  /** Sum of the values of an integer-valued dict. */
  function Sum<K>(d: Dict<K, int>): int
  {
    if |d| == 0 then 0 else d[0].1 + Sum(d[1..])
  }

  /** Changing the value at one position shifts the sum by exactly the
      difference between the new and the old value. */
  lemma {:induction false} SumUpdate<K>(d: Dict<K, int>, i: nat, v: int)
    requires i < |d|
    ensures Sum(d[i := (d[i].0, v)]) == Sum(d) - d[i].1 + v
    decreases i
  {
    var r := d[i := (d[i].0, v)];
    if i == 0 {
      assert r[1..] == d[1..];
    } else {
      SumUpdate(d[1..], i - 1, v);
      assert r[1..] == d[1..][i - 1 := (d[i].0, v)];
    }
  }

  /** Giving the first position of a key a new value: that key maps to
      the new value, and every other key and the key order are unchanged. */
  lemma UpdateAt<K, V>(d: Dict<K, V>, i: nat, v: V)
    requires i < |d| && IndexOf(d, d[i].0) == Some(i)
    ensures Get(d[i := (d[i].0, v)], d[i].0) == Some(v)
    ensures forall k' :: k' != d[i].0 ==> Get(d[i := (d[i].0, v)], k') == Get(d, k')
    ensures Keys(d[i := (d[i].0, v)]) == Keys(d)
  {
    var r := d[i := (d[i].0, v)];
    IndexOfIs(r, d[i].0, i);
    forall k' | k' != d[i].0 ensures Get(r, k') == Get(d, k') {
      assert forall j :: 0 <= j < |d| ==> (r[j].0 == k' <==> d[j].0 == k');
      match IndexOf(d, k')
      case None =>
      case Some(m) => IndexOfIs(r, k', m);
    }
  }

  /** `d[k] += 1` on a present key: `k` counts one more, every other key
      keeps its value, the key order is kept, and the total rises by one.
      The value is updated where it stands, as `d[k] = v` does for a key
      already present. */
  function Increment<K(==, !new)>(d: Dict<K, int>, k: K): (r: Dict<K, int>)
    requires Get(d, k).Some?
    ensures Get(r, k) == Some(Get(d, k).value + 1)
    ensures forall k' :: k' != k ==> Get(r, k') == Get(d, k')
    ensures Keys(r) == Keys(d)
    ensures Sum(r) == Sum(d) + 1
    ensures |r| == |d| && forall i :: 0 <= i < |d| ==> r[i].1 >= d[i].1
  {
    var i := IndexOf(d, k).value;
    UpdateAt(d, i, d[i].1 + 1);
    SumUpdate(d, i, d[i].1 + 1);
    d[i := (k, d[i].1 + 1)]
  }
}
