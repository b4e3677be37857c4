/** Option and Result, and Python dictionaries modelled as ordered association lists.

    A Python `dict` keeps its keys in insertion order and holds each key once.  Here a
    dictionary is a `seq<(K, V)>`: iteration follows the sequence, lookup finds the first
    pair with the key, and `DistinctKeys` is the "each key once" invariant, stated
    separately so that every operation can say whether it keeps it.
 */
module Base {

  datatype Option<T> = None | Some(value: T)

  datatype Result<T, E> = Ok(value: T) | Err(error: E)

  /** Every key occurs at most once. */
  ghost predicate DistinctKeys<K, V>(items: seq<(K, V)>) {
    forall a, b :: 0 <= a < b < |items| ==> items[a].0 != items[b].0
  }

  /** True iff some pair carries key `k` (Python's `k in d`). */
  predicate HasKey<K(==), V>(items: seq<(K, V)>, k: K) {
    exists i :: 0 <= i < |items| && items[i].0 == k
  }

  /** Index of the first pair with key `k`. */
  function FindKey<K(==), V>(items: seq<(K, V)>, k: K): (r: Option<nat>)
    ensures r.Some? ==> r.value < |items| && items[r.value].0 == k
    ensures r.Some? ==> forall i :: 0 <= i < r.value ==> items[i].0 != k
    ensures r.None? <==> !HasKey(items, k)
  {
    if |items| == 0 then None
    else if items[0].0 == k then Some(0)
    else match FindKey(items[1..], k)
      case None => None
      case Some(i) => Some(i + 1)
  }

  /** `d[k]`, or `None` where Python raises `KeyError`. */
  function Lookup<K(==), V>(items: seq<(K, V)>, k: K): Option<V> {
    match FindKey(items, k)
    case None => None
    case Some(i) => Some(items[i].1)
  }

  /** `d.get(k, default)`. */
  function LookupOr<K(==), V>(items: seq<(K, V)>, k: K, default: V): V {
    match Lookup(items, k)
    case None => default
    case Some(v) => v
  }

  /** `d[k] = v`: replaces the value in place when `k` is present, appends otherwise. */
  function Upsert<K(==), V>(items: seq<(K, V)>, k: K, v: V): (r: seq<(K, V)>)
    ensures HasKey(r, k)
    ensures FindKey(items, k).Some? ==> |r| == |items|
    ensures FindKey(items, k).None? ==> r == items + [(k, v)]
  {
    match FindKey(items, k)
    case None =>
      var r := items + [(k, v)];
      assert r[|items|].0 == k;
      r
    case Some(i) =>
      var r := items[i := (k, v)];
      assert r[i].0 == k;
      r
  }

  /** In a dictionary with distinct keys, the lookup of the key at index `i` finds index `i`. */
  lemma FindKeyAt<K, V>(items: seq<(K, V)>, i: nat)
    requires DistinctKeys(items) && i < |items|
    ensures FindKey(items, items[i].0) == Some(i)
  {
  }

  /** The value found under a key is stored under it. */
  lemma LookupIn<K, V>(items: seq<(K, V)>, k: K)
    requires Lookup(items, k).Some?
    ensures (k, Lookup(items, k).value) in items
  {
  }

  /** With distinct keys, a pair is in the dictionary iff the lookup of its key yields its value. */
  lemma LookupMember<K, V>(items: seq<(K, V)>, k: K, v: V)
    requires DistinctKeys(items)
    ensures Lookup(items, k) == Some(v) <==> (k, v) in items
  {
    if (k, v) in items {
      var i :| 0 <= i < |items| && items[i] == (k, v);
      FindKeyAt(items, i);
    }
  }

  /** Only the key and the position of a pair matter to `FindKey`. */
  lemma FindKeySameKeys<K, V, W>(a: seq<(K, V)>, b: seq<(K, W)>, k: K)
    requires |a| == |b| && forall i :: 0 <= i < |a| ==> a[i].0 == b[i].0
    ensures FindKey(a, k) == FindKey(b, k)
  {
    if |a| > 0 && a[0].0 != k {
      FindKeySameKeys(a[1..], b[1..], k);
    }
  }

  /** `d[k] = v` makes `d[k]` read `v` and leaves every other key's value alone. */
  lemma {:induction false} UpsertLookup<K, V>(items: seq<(K, V)>, k: K, v: V, k': K)
    ensures Lookup(Upsert(items, k, v), k') == if k' == k then Some(v) else Lookup(items, k')
  {
    var r := Upsert(items, k, v);
    match FindKey(items, k)
    case None =>
      if k' != k {
        match FindKey(items, k')
        case None =>
          assert !HasKey(r, k') by {
            forall i | 0 <= i < |r| ensures r[i].0 != k' {
              if i < |items| { assert r[i] == items[i]; }
            }
          }
        case Some(j) =>
          assert r[j] == items[j];
          assert forall i :: 0 <= i < j ==> r[i] == items[i];
      } else {
        assert r[|items|] == (k, v);
        assert forall i :: 0 <= i < |items| ==> r[i].0 != k;
      }
    case Some(i) =>
      if k' != k {
        FindKeySameKeys(items, r, k');
      } else {
        FindKeySameKeys(items, r, k);
      }
  }

  /** `d[k] = v` keeps the keys distinct. */
  lemma UpsertDistinct<K, V>(items: seq<(K, V)>, k: K, v: V)
    requires DistinctKeys(items)
    ensures DistinctKeys(Upsert(items, k, v))
  {
  }
}
