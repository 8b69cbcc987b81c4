/** A Python `dict` as an association list kept in insertion order: assigning
    to an existing key replaces its value where it stands, assigning to a new
    key appends, and `del` removes the entry and closes the gap. */
module OrderedDict {
  import opened Optional
  import opened Selection

  /** The keys, in iteration order. */
  function KeyList<K, V>(d: seq<(K, V)>): (ks: seq<K>)
    ensures |ks| == |d|
    decreases |d|
  {
    if |d| == 0 then [] else [d[0].0] + KeyList(d[1..])
  }

  /** `d.values()`, in iteration order. */
  function ValueList<K, V>(d: seq<(K, V)>): (vs: seq<V>)
    ensures |vs| == |d|
    decreases |d|
  {
    if |d| == 0 then [] else [d[0].1] + ValueList(d[1..])
  }

  /** No key occurs twice: the invariant every Python dict keeps. */
  predicate NoDupKeys<K(==), V>(d: seq<(K, V)>)
    decreases |d|
  {
    |d| == 0 || (d[0].0 !in KeyList(d[1..]) && NoDupKeys(d[1..]))
  }

  /** `d.get(k)`: the value stored under `k`, or `None` when `k` is not a key. */
  function Get<K(==), V>(d: seq<(K, V)>, k: K): (r: Option<V>)
    ensures r.None? <==> k !in KeyList(d)
    ensures r.Some? ==> (k, r.value) in d
    decreases |d|
  {
    if |d| == 0 then None
    else if d[0].0 == k then Some(d[0].1)
    else Get(d[1..], k)
  }

  /** `d[k] = v`. */
  function Put<K(==,!new), V>(d: seq<(K, V)>, k: K, v: V): (r: seq<(K, V)>)
    ensures Get(r, k) == Some(v)
    ensures forall k' :: k' != k ==> Get(r, k') == Get(d, k')
    ensures k in KeyList(d) ==> KeyList(r) == KeyList(d)
    ensures k !in KeyList(d) ==> KeyList(r) == KeyList(d) + [k]
    ensures NoDupKeys(d) ==> NoDupKeys(r)
    decreases |d|
  {
    if |d| == 0 then [(k, v)]
    else if d[0].0 == k then [(k, v)] + d[1..]
    else [d[0]] + Put(d[1..], k, v)
  }

  /** `del d[k]` when `k` is a key; no change otherwise. */
  function Remove<K(==,!new), V>(d: seq<(K, V)>, k: K): (r: seq<(K, V)>)
    ensures k in KeyList(d) ==> |r| == |d| - 1
    ensures k !in KeyList(d) ==> r == d
    ensures forall k' :: k' != k ==> Get(r, k') == Get(d, k')
    ensures forall x :: x in KeyList(r) ==> x in KeyList(d)
    ensures NoDupKeys(d) ==> NoDupKeys(r) && k !in KeyList(r)
    decreases |d|
  {
    if |d| == 0 then []
    else if d[0].0 == k then d[1..]
    else [d[0]] + Remove(d[1..], k)
  }

  /** Removing a key keeps every other key, in the same relative order. */
  lemma {:induction false} RemoveKeepsOrder<K(!new), V>(d: seq<(K, V)>, k: K)
    requires NoDupKeys(d)
    ensures KeyList(Remove(d, k)) == Select(KeyList(d), OtherThan(k))
    decreases |d|
  {
    if |d| > 0 {
      if d[0].0 == k {
        SelectAll(KeyList(d[1..]), OtherThan(k));
      } else {
        RemoveKeepsOrder(d[1..], k);
      }
    }
  }

  /** The predicate "is not `k`". */
  function OtherThan<K(==)>(k: K): K -> bool
  {
    x => x != k
  }

  /** `Put` then `Remove` of a fresh key gives back the original dict. */
  lemma {:induction false} RemovePutFresh<K(!new), V>(d: seq<(K, V)>, k: K, v: V)
    requires k !in KeyList(d)
    ensures Remove(Put(d, k, v), k) == d
    decreases |d|
  {
    if |d| > 0 {
      RemovePutFresh(d[1..], k, v);
    }
  }

  /** Assigning twice to the same key is assigning the second value once. */
  lemma {:induction false} PutPut<K(!new), V>(d: seq<(K, V)>, k: K, v1: V, v2: V)
    ensures Put(Put(d, k, v1), k, v2) == Put(d, k, v2)
    decreases |d|
  {
    if |d| > 0 && d[0].0 != k {
      PutPut(d[1..], k, v1, v2);
    }
  }

  /** Iterating the values after `d[k] = v` on an existing key sees `v` at the old position. */
  lemma {:induction false} PutExistingValues<K(!new), V>(d: seq<(K, V)>, k: K, v: V)
    requires NoDupKeys(d)
    requires k in KeyList(d)
    ensures |ValueList(Put(d, k, v))| == |ValueList(d)|
    ensures forall i :: 0 <= i < |d| ==>
      ValueList(Put(d, k, v))[i] == (if d[i].0 == k then v else d[i].1)
    decreases |d|
  {
    var r := Put(d, k, v);
    if d[0].0 == k {
      assert r == [(k, v)] + d[1..];
      ValuesTail(r);
      ValuesTail(d);
      forall i | 0 < i < |d|
        ensures ValueList(r)[i] == d[i].1 && d[i].0 != k
      {
        NotInKeyList(d[1..], k, i - 1);
        ValueAt(d[1..], i - 1);
      }
    } else {
      PutExistingValues(d[1..], k, v);
    }
  }

  /** The value at position `i` of the value list is `d[i].1`. */
  lemma {:induction false} ValueAt<K, V>(d: seq<(K, V)>, i: nat)
    requires i < |d|
    ensures ValueList(d)[i] == d[i].1
    decreases |d|
  {
    if i > 0 {
      ValueAt(d[1..], i - 1);
    }
  }

  /** Unfolding the value list one step. */
  lemma ValuesTail<K, V>(d: seq<(K, V)>)
    requires |d| > 0
    ensures ValueList(d)[1..] == ValueList(d[1..])
  {
  }

  /** A key absent from `KeyList(d)` is at no position of `d`. */
  lemma {:induction false} NotInKeyList<K, V>(d: seq<(K, V)>, k: K, i: nat)
    requires k !in KeyList(d)
    requires i < |d|
    ensures d[i].0 != k
    decreases |d|
  {
    if i > 0 {
      NotInKeyList(d[1..], k, i - 1);
    }
  }

  /** A stored value is among the dict's values. */
  lemma {:induction false} GetInValues<K(!new), V>(d: seq<(K, V)>, k: K)
    requires Get(d, k).Some?
    ensures Get(d, k).value in ValueList(d)
    decreases |d|
  {
    if d[0].0 != k {
      GetInValues(d[1..], k);
    }
  }

  /** After `d[k] = v` the values are `v` and values that were already there. */
  lemma {:induction false} PutValues<K(!new), V>(d: seq<(K, V)>, k: K, v: V, x: V)
    requires x in ValueList(Put(d, k, v))
    ensures x == v || x in ValueList(d)
    decreases |d|
  {
    if |d| > 0 && d[0].0 != k {
      if x != d[0].1 {
        PutValues(d[1..], k, v, x);
      }
    }
  }

  /** Deleting a key adds no value. */
  lemma {:induction false} RemoveValues<K(!new), V>(d: seq<(K, V)>, k: K, x: V)
    requires x in ValueList(Remove(d, k))
    ensures x in ValueList(d)
    decreases |d|
  {
    if |d| > 0 && d[0].0 != k {
      if x != d[0].1 {
        RemoveValues(d[1..], k, x);
      }
    }
  }
}
