/** `Dictionary<K, V>` as an insertion-ordered list of key/value pairs.
    Setting a present key overwrites its value in place; setting a new key
    appends it, so enumeration order is insertion order (the behaviour of
    a .NET dictionary from which nothing is ever removed). */
module Dictionaries {
  import opened Wrappers

  type Dict<K, V> = seq<(K, V)>

  /** No key occurs twice. */
  predicate DistinctKeys<K(==), V>(d: Dict<K, V>) {
    forall i, j :: 0 <= i < j < |d| ==> d[i].0 != d[j].0
  }

  predicate HasKey<K(==), V>(d: Dict<K, V>, k: K) {
    exists i :: 0 <= i < |d| && d[i].0 == k
  }

  /** The position of the first pair with key `k`. */
  function IndexOf<K(==), V>(d: Dict<K, V>, k: K): (r: Option<nat>)
    ensures r.None? <==> !HasKey(d, k)
    ensures r.Some? ==> r.value < |d| && d[r.value].0 == k
    ensures r.Some? ==> forall j :: 0 <= j < r.value ==> d[j].0 != k
  {
    if d == [] then None
    else if d[0].0 == k then Some(0)
    else
      var r := IndexOf(d[1..], k);
      assert HasKey(d, k) ==> HasKey(d[1..], k) by {
        if HasKey(d, k) {
          var i :| 0 <= i < |d| && d[i].0 == k;
          assert d[1..][i - 1] == d[i];
        }
      }
      if r.None? then None else Some(r.value + 1)
  }

  /** The first position holding `k` is unique. */
  lemma IndexOfFirst<K, V>(d: Dict<K, V>, k: K, i: nat)
    requires i < |d| && d[i].0 == k
    requires forall j :: 0 <= j < i ==> d[j].0 != k
    ensures IndexOf(d, k) == Some(i)
  {
    var r := IndexOf(d, k);
    assert r.Some?;
    assert !(r.value < i) && !(i < r.value);
  }

  /** `TryGetValue`. */
  function Lookup<K(==), V>(d: Dict<K, V>, k: K): (r: Option<V>)
    ensures r.Some? <==> HasKey(d, k)
  {
    match IndexOf(d, k)
    case Some(i) => Some(d[i].1)
    case None => None
  }

  /** In a dictionary with distinct keys every stored pair is what `Lookup`
      finds. */
  lemma LookupStored<K, V>(d: Dict<K, V>, i: nat)
    requires DistinctKeys(d)
    requires i < |d|
    ensures Lookup(d, d[i].0) == Some(d[i].1)
  {
    IndexOfFirst(d, d[i].0, i);
  }

  /** The indexer setter `d[k] = v`: overwrite in place, or append. */
  function Set<K(==), V>(d: Dict<K, V>, k: K, v: V): (r: Dict<K, V>)
    ensures HasKey(d, k) ==> |r| == |d| && forall i :: 0 <= i < |d| ==> r[i].0 == d[i].0
    ensures !HasKey(d, k) ==> r == d + [(k, v)]
    ensures DistinctKeys(d) ==> DistinctKeys(r)
  {
    match IndexOf(d, k)
    case Some(i) => d[i := (k, v)]
    case None => d + [(k, v)]
  }

  /** After `d[k] = v`, looking up `k` gives `v` and every other key gives
      what it gave before. */
  lemma LookupAfterSet<K, V>(d: Dict<K, V>, k: K, v: V, q: K)
    ensures Lookup(Set(d, k, v), q) == if q == k then Some(v) else Lookup(d, q)
  {
    var r := Set(d, k, v);
    match IndexOf(d, k)
    case Some(i) =>
      if q == k {
        IndexOfFirst(r, k, i);
      } else {
        match IndexOf(d, q)
        case Some(j) => IndexOfFirst(r, q, j);
        case None => assert !HasKey(r, q);
      }
    case None =>
      if q == k {
        IndexOfFirst(r, k, |d|);
      } else {
        match IndexOf(d, q)
        case Some(j) => IndexOfFirst(r, q, j);
        case None => assert !HasKey(r, q);
      }
  }
}
