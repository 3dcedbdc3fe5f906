/**
 * Counting into a dict, as in `counts[k] = counts.get(k, 0) + 1`, and
 * Python's `max(counts.items(), key=lambda x: x[1])`, which returns the
 * first item of largest count in iteration order.
 */
module Counting {
  import opened Dicts
  import opened Wrappers

  /** The number of occurrences of `x` in `s`. */
  function Count<K(==)>(s: seq<K>, x: K): nat
  {
    if s == [] then 0
    else Count(s[..|s| - 1], x) + (if s[|s| - 1] == x then 1 else 0)
  }

  /** The index of the first occurrence of `x` in `s`. */
  function FirstIndex<K(==)>(s: seq<K>, x: K): (i: nat)
    requires x in s
    ensures i < |s| && s[i] == x
    ensures forall j :: 0 <= j < i ==> s[j] != x
  {
    if s[0] == x then 0 else 1 + FirstIndex(s[1..], x)
  }

  /** The sum of the counts of a dict of counts. */
  function Sum<K>(d: Dict<K, int>): int
  {
    if d == [] then 0 else d[0].1 + Sum(d[1..])
  }

  /** One step of counting: `counts[k] = counts.get(k, 0) + 1`. */
  function Bump<K(==)>(counts: Dict<K, int>, k: K): Dict<K, int>
  {
    Put(counts, k, Get(counts, k, 0) + 1)
  }

  /**
   * The dict the counting loop builds from the keys `s`, one `Bump` per
   * key; `TallyMeaning` states what it holds.
   */
  function Tally<K(==)>(s: seq<K>): (r: Dict<K, int>)
    ensures DistinctKeys(r)
  {
    if s == [] then [] else Bump(Tally(s[..|s| - 1]), s[|s| - 1])
  }

  /**
   * The tally holds every key of `s` once, with its number of occurrences,
   * and the counts add up to `|s|`.
   */
  lemma {:induction false} TallyMeaning<K(!new)>(s: seq<K>)
    ensures forall x :: x in Keys(Tally(s)) <==> x in s
    ensures forall x :: Get(Tally(s), x, 0) == Count(s, x)
    ensures Sum(Tally(s)) == |s|
  {
    if s != [] {
      var prefix, last := s[..|s| - 1], s[|s| - 1];
      TallyMeaning(prefix);
      TallyStep(s, Tally(prefix));
    }
  }

  /** One turn of the counting loop keeps the tally's description true. */
  lemma TallyStep<K(!new)>(s: seq<K>, t: Dict<K, int>)
    requires s != []
    requires DistinctKeys(t)
    requires forall x :: x in Keys(t) <==> x in s[..|s| - 1]
    requires forall x :: Get(t, x, 0) == Count(s[..|s| - 1], x)
    requires Sum(t) == |s| - 1
    ensures forall x :: x in Keys(Bump(t, s[|s| - 1])) <==> x in s
    ensures forall x :: Get(Bump(t, s[|s| - 1]), x, 0) == Count(s, x)
    ensures Sum(Bump(t, s[|s| - 1])) == |s|
  {
    BumpKeys(s[..|s| - 1], s[|s| - 1], t, s);
    BumpCounts(s, t);
    SumBump(t, s[|s| - 1]);
  }

  lemma BumpKeys<K>(prefix: seq<K>, last: K, t: Dict<K, int>, s: seq<K>)
    requires s == prefix + [last]
    requires forall x :: x in Keys(t) <==> x in prefix
    ensures forall x :: x in Keys(Bump(t, last)) <==> x in s
  {
    forall x
      ensures x in Keys(Bump(t, last)) <==> x in s
    {
      assert x in s <==> x in prefix || x == last;
    }
  }

  lemma BumpCounts<K>(s: seq<K>, t: Dict<K, int>)
    requires s != []
    requires forall x :: Get(t, x, 0) == Count(s[..|s| - 1], x)
    ensures forall x :: Get(Bump(t, s[|s| - 1]), x, 0) == Count(s, x)
  {
    var prefix, last := s[..|s| - 1], s[|s| - 1];
    forall x
      ensures Get(Bump(t, last), x, 0) == Count(s, x)
    {
      GetBump(t, last, x);
      assert Count(s, x) == Count(prefix, x) + (if last == x then 1 else 0);
    }
  }

  /** Counting `last` adds one to its count and leaves every other count alone. */
  lemma GetBump<K>(t: Dict<K, int>, last: K, x: K)
    ensures Get(Bump(t, last), x, 0) == if x == last then Get(t, last, 0) + 1 else Get(t, x, 0)
  {
    BumpIsPut(t, last);
    GetAfterPut(t, last, x, Bump(t, last));
  }

  lemma BumpIsPut<K>(t: Dict<K, int>, k: K)
    ensures Bump(t, k) == Put(t, k, Get(t, k, 0) + 1)
  {
  }

  lemma GetAfterPut<K>(t: Dict<K, int>, k: K, x: K, r: Dict<K, int>)
    requires r == Put(t, k, Get(t, k, 0) + 1)
    ensures Get(r, x, 0) == if x == k then Get(t, k, 0) + 1 else Get(t, x, 0)
  {
    GetPut(t, k, Get(t, k, 0) + 1, x, 0);
  }

  /** Counting one more key is one more turn of the loop. */
  lemma TallySnoc<K>(s: seq<K>, x: K)
    ensures Tally(s + [x]) == Bump(Tally(s), x)
  {
    assert (s + [x])[..|s|] == s;
  }

  lemma {:induction false} SumAppend<K>(d: Dict<K, int>, e: (K, int))
    ensures Sum(d + [e]) == Sum(d) + e.1
  {
    if d != [] {
      assert (d + [e])[1..] == d[1..] + [e];
      SumAppend(d[1..], e);
    }
  }

  lemma {:induction false} SumUpdate<K>(d: Dict<K, int>, i: nat, e: (K, int))
    requires i < |d|
    ensures Sum(d[i := e]) == Sum(d) - d[i].1 + e.1
  {
    if i > 0 {
      assert d[i := e][1..] == d[1..][i - 1 := e];
      SumUpdate(d[1..], i - 1, e);
    }
  }

  /** Counting one more key adds one to the total. */
  lemma SumBump<K>(d: Dict<K, int>, k: K)
    ensures Sum(Bump(d, k)) == Sum(d) + 1
  {
    BumpIsPut(d, k);
    SumPut(d, k, Get(d, k, 0) + 1);
  }

  /** Storing `v` under `k` replaces its old count, or 0 when it had none, by `v`. */
  lemma SumPut<K>(d: Dict<K, int>, k: K, v: int)
    ensures Sum(Put(d, k, v)) == Sum(d) - Get(d, k, 0) + v
  {
    var i := IndexOf(d, k);
    if i < 0 {
      SumAppend(d, (k, v));
    } else {
      SumUpdate(d, i, (k, v));
    }
  }

  /** The tally lists its keys in the order in which they first occur in `s`. */
  lemma {:induction false} TallyOrder<K(!new)>(s: seq<K>)
    ensures forall p, q :: 0 <= p < q < |Tally(s)| ==>
      Tally(s)[p].0 in s && Tally(s)[q].0 in s &&
      FirstIndex(s, Tally(s)[p].0) < FirstIndex(s, Tally(s)[q].0)
  {
    if s != [] {
      var prefix, last := s[..|s| - 1], s[|s| - 1];
      assert s == prefix + [last];
      TallySnoc(prefix, last);
      TallyMeaning(prefix);
      TallyOrder(prefix);
      TallyOrderStep(prefix, last, Tally(prefix), s, Tally(s));
    } else {
      assert Tally(s) == [];
    }
  }

  /** Counting `last` after `prefix` keeps the keys in first-occurrence order. */
  lemma TallyOrderStep<K>(prefix: seq<K>, last: K, t: Dict<K, int>, s: seq<K>, r: Dict<K, int>)
    requires s == prefix + [last] && r == Bump(t, last)
    requires DistinctKeys(t)
    requires forall x :: x in Keys(t) <==> x in prefix
    requires forall p, q :: 0 <= p < q < |t| ==>
      t[p].0 in prefix && t[q].0 in prefix && FirstIndex(prefix, t[p].0) < FirstIndex(prefix, t[q].0)
    ensures forall p, q :: 0 <= p < q < |r| ==>
      r[p].0 in s && r[q].0 in s && FirstIndex(s, r[p].0) < FirstIndex(s, r[q].0)
  {
    assert forall p :: 0 <= p < |r| ==> Keys(r)[p] == r[p].0;
    assert forall p :: 0 <= p < |t| ==> Keys(t)[p] == t[p].0;
    assert Keys(r) == if last in Keys(t) then Keys(t) else Keys(t) + [last];
    forall x | x in prefix
      ensures FirstIndex(s, x) == FirstIndex(prefix, x)
    {
      FirstIndexExtend(prefix, last, x);
    }
    forall p, q | 0 <= p < q < |r|
      ensures r[p].0 in s && r[q].0 in s && FirstIndex(s, r[p].0) < FirstIndex(s, r[q].0)
    {
      assert Keys(r)[p] == Keys(t)[p];
      if q < |t| {
        assert Keys(r)[q] == Keys(t)[q];
      } else {
        assert r[q].0 == last && last !in prefix;
        FirstIndexLast(prefix, last);
      }
    }
  }

  lemma FirstIndexExtend<K>(s: seq<K>, y: K, x: K)
    requires x in s
    ensures FirstIndex(s + [y], x) == FirstIndex(s, x)
  {
    var i, j := FirstIndex(s + [y], x), FirstIndex(s, x);
    assert (s + [y])[j] == x;
  }

  lemma FirstIndexLast<K>(s: seq<K>, y: K)
    requires y !in s
    ensures FirstIndex(s + [y], y) == |s|
  {
    var i := FirstIndex(s + [y], y);
  }

  /**
   * Python's `max(items, key=count)`: the index of an item of largest
   * count, the first such one in iteration order.
   */
  function FirstMaxIndex<K>(d: Dict<K, int>): (m: nat)
    requires |d| > 0
    ensures m < |d|
    ensures forall p :: 0 <= p < |d| ==> d[p].1 <= d[m].1
    ensures forall p :: 0 <= p < m ==> d[p].1 < d[m].1
  {
    if |d| == 1 then 0
    else
      var m := FirstMaxIndex(d[..|d| - 1]);
      if d[|d| - 1].1 > d[m].1 then |d| - 1 else m
  }

  /**
   * What the "most counted key" analytics return for the keys `s`: None
   * exactly when there is nothing to count, otherwise a key `k` with its
   * count `c`, where no key is counted more than `c` times and every key
   * occurring first before `k` is counted fewer than `c` times.
   */
  ghost predicate IsFirstMostCounted<K>(s: seq<K>, r: Option<(K, int)>)
  {
    match r
    case None => s == []
    case Some(kc) =>
      && kc.0 in s
      && kc.1 == Count(s, kc.0)
      && (forall j :: 0 <= j < |s| ==> Count(s, s[j]) <= kc.1)
      && (forall j :: 0 <= j < FirstIndex(s, kc.0) ==> Count(s, s[j]) < kc.1)
  }

  /** The description above leaves no choice: at most one result meets it. */
  lemma FirstMostCountedUnique<K>(s: seq<K>, r1: Option<(K, int)>, r2: Option<(K, int)>)
    requires IsFirstMostCounted(s, r1) && IsFirstMostCounted(s, r2)
    ensures r1 == r2
  {
    if r1.Some? && r2.Some? {
      var k1, c1, k2, c2 := r1.value.0, r1.value.1, r2.value.0, r2.value.1;
      var i1, i2 := FirstIndex(s, k1), FirstIndex(s, k2);
      assert c1 <= c2 by { assert Count(s, s[i1]) <= c2; }
      assert c2 <= c1 by { assert Count(s, s[i2]) <= c1; }
    }
  }
}
