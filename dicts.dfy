/**
 * A Python dict as the journal uses it: JSON objects are loaded and saved
 * with their items in insertion order, so a dict is a sequence of
 * (key, value) items. Assigning to a present key keeps its position,
 * assigning to a new key appends, and `del` keeps the order of the rest.
 */
module Dicts {

  type Dict<K, V> = seq<(K, V)>

  /** The keys of `d`, in iteration order. */
  function Keys<K, V>(d: Dict<K, V>): (ks: seq<K>)
    ensures |ks| == |d|
    ensures forall i :: 0 <= i < |d| ==> ks[i] == d[i].0
  {
    seq(|d|, i requires 0 <= i < |d| => d[i].0)
  }

  /** No key occurs twice: what every dict satisfies. */
  predicate DistinctKeys<K(==), V>(d: Dict<K, V>) {
    forall i, j :: 0 <= i < j < |d| ==> d[i].0 != d[j].0
  }

  /** The position of key `k`, or -1 when `k` is absent. */
  function IndexOf<K(==), V>(d: Dict<K, V>, k: K): (i: int)
    ensures -1 <= i < |d|
    ensures i == -1 <==> k !in Keys(d)
    ensures 0 <= i ==> d[i].0 == k && forall j :: 0 <= j < i ==> d[j].0 != k
  {
    if d == [] then -1
    else if d[0].0 == k then 0
    else
      var i := IndexOf(d[1..], k);
      KeysCons(d[0], d[1..]);
      if i < 0 then -1 else i + 1
  }

  /** `d[k]` for a present key. */
  function Lookup<K(==), V>(d: Dict<K, V>, k: K): V
    requires k in Keys(d)
  {
    d[IndexOf(d, k)].1
  }

  /** `d.get(k, dflt)`. */
  function Get<K(==), V>(d: Dict<K, V>, k: K, dflt: V): V {
    if k in Keys(d) then Lookup(d, k) else dflt
  }

  /**
   * `d[k] = v`: a present key keeps its position and takes the new value,
   * a new key is appended; every other item stays where it was.
   */
  function Put<K(==), V>(d: Dict<K, V>, k: K, v: V): (r: Dict<K, V>)
    ensures Keys(r) == if k in Keys(d) then Keys(d) else Keys(d) + [k]
    ensures k in Keys(r) && Lookup(r, k) == v
    ensures forall j :: 0 <= j < |d| && d[j].0 != k ==> r[j] == d[j]
    ensures DistinctKeys(d) ==> DistinctKeys(r)
  {
    var i := IndexOf(d, k);
    if i < 0 then d + [(k, v)] else d[i := (k, v)]
  }

  /** Reading after writing: only the written key changes its value. */
  lemma GetPut<K, V>(d: Dict<K, V>, k: K, v: V, x: K, dflt: V)
    ensures Get(Put(d, k, v), x, dflt) == if x == k then v else Get(d, x, dflt)
  {
    if x != k && x in Keys(d) {
      var m := IndexOf(d, x);
      assert Put(d, k, v)[m] == d[m];
      assert IndexOf(Put(d, k, v), x) == m;
    }
  }

  /**
   * `del d[k]` (or nothing when `k` is absent): the item at `k` goes, the
   * others keep their order.
   */
  function Del<K(==), V>(d: Dict<K, V>, k: K): (r: Dict<K, V>)
    ensures k !in Keys(d) ==> r == d
    ensures |r| == if k in Keys(d) then |d| - 1 else |d|
  {
    var i := IndexOf(d, k);
    if i < 0 then d else d[..i] + d[i + 1..]
  }

  /** The items of `d` whose key is not in `ks`, in their order. */
  function DropKeys<K(==), V>(d: Dict<K, V>, ks: seq<K>): (r: Dict<K, V>)
    ensures |r| <= |d|
    ensures forall x :: x in Keys(r) ==> x in Keys(d) && x !in ks
    ensures DistinctKeys(d) ==> DistinctKeys(r)
  {
    if d == [] then []
    else
      var rest := DropKeys(d[1..], ks);
      if d[0].0 in ks then rest else
        KeysCons(d[0], rest);
        HeadKeyFresh(d);
        ConsDistinctKeys(d[0], rest);
        [d[0]] + rest
  }

  /** In a dict with distinct keys, the first key does not occur again. */
  lemma HeadKeyFresh<K, V>(d: Dict<K, V>)
    requires d != []
    ensures DistinctKeys(d) ==> d[0].0 !in Keys(d[1..]) && DistinctKeys(d[1..])
  {
    if DistinctKeys(d) {
      forall j | 0 <= j < |d[1..]|
        ensures Keys(d[1..])[j] != d[0].0
      {
        assert d[1..][j] == d[j + 1];
      }
    }
  }

  lemma KeysCons<K, V>(e: (K, V), d: Dict<K, V>)
    ensures Keys([e] + d) == [e.0] + Keys(d)
  {
    var l, r := Keys([e] + d), [e.0] + Keys(d);
    forall i | 0 <= i < |l|
      ensures l[i] == r[i]
    {
      if i > 0 {
        assert ([e] + d)[i] == d[i - 1];
      }
    }
  }

  /** An item whose key is new, put in front of a dict, keeps the keys distinct. */
  lemma ConsDistinctKeys<K, V>(e: (K, V), d: Dict<K, V>)
    ensures DistinctKeys(d) && e.0 !in Keys(d) ==> DistinctKeys([e] + d)
  {
    if DistinctKeys(d) && e.0 !in Keys(d) {
      forall i, j | 0 <= i < j < |[e] + d|
        ensures ([e] + d)[i].0 != ([e] + d)[j].0
      {
        if i == 0 {
          assert Keys(d)[j - 1] == d[j - 1].0;
        }
      }
    }
  }

  lemma {:induction false} DropKeysAppend<K, V>(a: Dict<K, V>, b: Dict<K, V>, ks: seq<K>)
    ensures DropKeys(a + b, ks) == DropKeys(a, ks) + DropKeys(b, ks)
  {
    if a == [] {
      assert a + b == b;
    } else {
      assert (a + b)[0] == a[0] && (a + b)[1..] == a[1..] + b;
      DropKeysAppend(a[1..], b, ks);
    }
  }

  /** Every item whose key is not removed survives. */
  lemma {:induction false} DropKeysKeeps<K, V>(d: Dict<K, V>, ks: seq<K>)
    ensures forall j :: 0 <= j < |d| && d[j].0 !in ks ==> d[j] in DropKeys(d, ks)
  {
    if d != [] {
      DropKeysKeeps(d[1..], ks);
      assert forall j :: 1 <= j < |d| ==> d[j] == d[1..][j - 1];
    }
  }

  lemma {:induction false} DropKeysNone<K, V>(d: Dict<K, V>, ks: seq<K>)
    requires forall j :: 0 <= j < |d| ==> d[j].0 !in ks
    ensures DropKeys(d, ks) == d
  {
    if d != [] {
      DropKeysNone(d[1..], ks);
    }
  }

  lemma {:induction false} DropKeysTwice<K, V>(d: Dict<K, V>, ks: seq<K>, more: seq<K>)
    ensures DropKeys(DropKeys(d, ks), more) == DropKeys(d, ks + more)
  {
    if d != [] {
      DropKeysTwice(d[1..], ks, more);
      var rest := DropKeys(d[1..], ks);
      if d[0].0 !in ks {
        assert ([d[0]] + rest)[1..] == rest;
      }
    }
  }

  /** With distinct keys, deleting `k` drops exactly the item keyed `k`, keeping the order of the rest. */
  lemma DelIsDrop<K, V>(d: Dict<K, V>, k: K)
    requires DistinctKeys(d)
    ensures Del(d, k) == DropKeys(d, [k])
  {
    var i := IndexOf(d, k);
    if i < 0 {
      NoKey(d, k);
      DropKeysNone(d, [k]);
    } else {
      var before, after := d[..i], d[i + 1..];
      NoKeyBefore(d, k, i);
      NoKeyAfter(d, k, i, after);
      SplitAt(d, i);
      DropSplit(before, d[i], after, k);
    }
  }

  lemma NoKey<K, V>(d: Dict<K, V>, k: K)
    requires k !in Keys(d)
    ensures forall j :: 0 <= j < |d| ==> d[j].0 !in [k]
  {
    forall j | 0 <= j < |d|
      ensures d[j].0 !in [k]
    {
      assert Keys(d)[j] == d[j].0;
    }
  }

  lemma SplitAt<K, V>(d: Dict<K, V>, i: int)
    requires 0 <= i < |d|
    ensures d == d[..i] + [d[i]] + d[i + 1..]
  {
  }

  lemma NoKeyBefore<K, V>(d: Dict<K, V>, k: K, i: int)
    requires 0 <= i < |d| && forall j :: 0 <= j < i ==> d[j].0 != k
    ensures forall j :: 0 <= j < |d[..i]| ==> d[..i][j].0 !in [k]
  {
  }

  lemma NoKeyAfter<K, V>(d: Dict<K, V>, k: K, i: int, after: Dict<K, V>)
    requires DistinctKeys(d) && 0 <= i < |d| && d[i].0 == k && after == d[i + 1..]
    ensures forall j :: 0 <= j < |after| ==> after[j].0 !in [k]
  {
    forall j | 0 <= j < |after|
      ensures after[j].0 !in [k]
    {
      assert after[j] == d[i + 1 + j];
    }
  }

  lemma DropSplit<K, V>(before: Dict<K, V>, e: (K, V), after: Dict<K, V>, k: K)
    requires e.0 == k
    requires forall j :: 0 <= j < |before| ==> before[j].0 !in [k]
    requires forall j :: 0 <= j < |after| ==> after[j].0 !in [k]
    ensures DropKeys(before + [e] + after, [k]) == before + after
  {
    DropKeysAppend(before + [e], after, [k]);
    DropOne(before, e, k);
    DropKeysNone(before, [k]);
    DropKeysNone(after, [k]);
  }

  lemma DropOne<K, V>(before: Dict<K, V>, e: (K, V), k: K)
    requires e.0 == k
    ensures DropKeys(before + [e], [k]) == DropKeys(before, [k])
  {
    DropKeysAppend(before, [e], [k]);
    assert DropKeys([e], [k]) == [];
  }

  /** Deleting the keys of `ks`, one after another, drops exactly the items keyed in `ks`. */
  lemma DelAfterDrop<K, V>(d: Dict<K, V>, ks: seq<K>, k: K)
    requires DistinctKeys(d)
    ensures Del(DropKeys(d, ks), k) == DropKeys(d, ks + [k])
  {
    DelIsDrop(DropKeys(d, ks), k);
    DropKeysTwice(d, ks, [k]);
  }
}
