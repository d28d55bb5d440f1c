/**
 * Python `dict` as the list of its items in insertion order.  Assigning to a key that is
 * present replaces its value in place; a new key is appended.
 */
module Dicts {
  import opened Wrappers

  type Dict<K(==), V> = seq<(K, V)>

  predicate DistinctKeys<K(==), V>(d: Dict<K, V>) {
    forall i, j :: 0 <= i < j < |d| ==> d[i].0 != d[j].0
  }

  /** `d.get(k)` */
  function Get<K(==), V>(d: Dict<K, V>, k: K): Option<V> {
    if d == [] then None
    else if d[0].0 == k then Some(d[0].1)
    else Get(d[1..], k)
  }

  /** `d.get(k)` finds the item with key `k`, and is `None` exactly when there is none. */
  lemma {:induction false} GetFindsItem<K, V>(d: Dict<K, V>, k: K)
    ensures Get(d, k).None? <==> forall i :: 0 <= i < |d| ==> d[i].0 != k
    ensures Get(d, k).Some? ==> exists i :: 0 <= i < |d| && d[i] == (k, Get(d, k).value)
  {
    if d != [] && d[0].0 != k {
      GetFindsItem(d[1..], k);
      if Get(d, k).Some? {
        var i :| 0 <= i < |d[1..]| && d[1..][i] == (k, Get(d, k).value);
        assert d[i + 1] == (k, Get(d, k).value);
      }
    }
  }

  /** `d[k] = v` */
  function Assign<K(==, !new), V>(d: Dict<K, V>, k: K, v: V): (r: Dict<K, V>)
    ensures Get(r, k) == Some(v)
    ensures forall k' :: k' != k ==> Get(r, k') == Get(d, k')
    ensures |r| == if Get(d, k).Some? then |d| else |d| + 1
    ensures Get(d, k).None? ==> r == d + [(k, v)]
    ensures forall p :: p in r ==> p in d || p == (k, v)
    ensures DistinctKeys(d) ==> DistinctKeys(r)
  {
    if d == [] then [(k, v)]
    else if d[0].0 == k then
      var r := [(k, v)] + d[1..];
      assert r[1..] == d[1..];
      GetFindsItem(d[1..], k);
      r
    else
      var rest := Assign(d[1..], k, v);
      var r := [d[0]] + rest;
      assert r[1..] == rest;
      GetFindsItem(d[1..], d[0].0);
      GetFindsItem(rest, d[0].0);
      r
  }

  /** The number of elements that `entry` maps to a pair. */
  function CountEntries<T, K(==), V>(xs: seq<T>, entry: T -> Option<(K, V)>): (n: nat)
    ensures n <= |xs|
  {
    if xs == [] then 0
    else CountEntries(xs[..|xs| - 1], entry) + (if entry(xs[|xs| - 1]).Some? then 1 else 0)
  }

  /**
   * The dict a loop builds when it starts from `{}`, visits `xs` in order and, for each element
   * that `entry` maps to a pair `(k, v)`, performs `d[k] = v` (elements mapped to `None` are
   * skipped).
   */
  function Build<T, K(==, !new), V>(xs: seq<T>, entry: T -> Option<(K, V)>): (d: Dict<K, V>)
    ensures DistinctKeys(d)
    ensures |d| <= CountEntries(xs, entry)
    decreases |xs|
  {
    if xs == [] then []
    else
      var d := Build(xs[..|xs| - 1], entry);
      match entry(xs[|xs| - 1])
      case None => d
      case Some((k, v)) => Assign(d, k, v)
  }

  /** One more step of the loop that `Build` describes. */
  lemma BuildStep<T, K(!new), V>(xs: seq<T>, i: nat, entry: T -> Option<(K, V)>)
    requires i < |xs|
    ensures Build(xs[..i + 1], entry) ==
      match entry(xs[i])
      case None => Build(xs[..i], entry)
      case Some((k, v)) => Assign(Build(xs[..i], entry), k, v)
  {
    assert xs[..i + 1][..i] == xs[..i];
  }

  /** `entry` maps `x` to a pair with key `k`. */
  predicate HasKey<T, K(==), V>(entry: T -> Option<(K, V)>, x: T, k: K) {
    entry(x).Some? && entry(x).value.0 == k
  }

  /**
   * Last write wins: a key is in the built dict exactly when some element maps to it, and its
   * value is the one carried by the last such element.
   */
  lemma {:induction false} BuildLastWins<T, K(!new), V>(xs: seq<T>, entry: T -> Option<(K, V)>, k: K)
    ensures Get(Build(xs, entry), k).None? <==> forall i :: 0 <= i < |xs| ==> !HasKey(entry, xs[i], k)
    ensures Get(Build(xs, entry), k).Some? ==>
      exists i :: 0 <= i < |xs| && entry(xs[i]) == Some((k, Get(Build(xs, entry), k).value)) &&
        forall j :: i < j < |xs| ==> !HasKey(entry, xs[j], k)
    decreases |xs|
  {
    if xs != [] {
      var pre, last := xs[..|xs| - 1], xs[|xs| - 1];
      BuildLastWins(pre, entry, k);
      assert forall i :: 0 <= i < |pre| ==> pre[i] == xs[i];
      if HasKey(entry, last, k) {
        assert entry(xs[|xs| - 1]) == Some((k, Get(Build(xs, entry), k).value));
      } else if Get(Build(pre, entry), k).Some? {
        var i :| 0 <= i < |pre| && entry(pre[i]) == Some((k, Get(Build(pre, entry), k).value)) &&
          forall j :: i < j < |pre| ==> !HasKey(entry, pre[j], k);
        assert forall j :: i < j < |xs| ==> !HasKey(entry, xs[j], k);
      }
    }
  }

  /** Every item of the built dict is a pair that some element was mapped to. */
  lemma {:induction false} BuildItemsFromEntries<T, K(!new), V>(xs: seq<T>, entry: T -> Option<(K, V)>)
    ensures forall p :: p in Build(xs, entry) ==> exists i :: 0 <= i < |xs| && entry(xs[i]) == Some(p)
    decreases |xs|
  {
    if xs != [] {
      var pre := xs[..|xs| - 1];
      BuildItemsFromEntries(pre, entry);
      assert forall i :: 0 <= i < |pre| ==> pre[i] == xs[i];
    }
  }

  /** A dict whose every item is mapped to itself is rebuilt unchanged. */
  lemma {:induction false} BuildOfFixedItems<K(!new), V>(d: Dict<K, V>, entry: ((K, V)) -> Option<(K, V)>)
    requires DistinctKeys(d)
    requires forall i :: 0 <= i < |d| ==> entry(d[i]) == Some(d[i])
    ensures Build(d, entry) == d
    decreases |d|
  {
    if d != [] {
      var pre := d[..|d| - 1];
      var last := d[|d| - 1];
      assert DistinctKeys(pre);
      assert forall i :: 0 <= i < |pre| ==> pre[i] == d[i];
      BuildOfFixedItems(pre, entry);
      GetFindsItem(pre, last.0);
      assert Get(pre, last.0).None?;
      calc {
        Build(d, entry);
        { assert d[..|d| - 1] == pre; assert entry(last) == Some(last); }
        Assign(Build(pre, entry), last.0, last.1);
        Assign(pre, last.0, last.1);
        pre + [(last.0, last.1)];
        { assert d == pre + [last]; }
        d;
      }
    }
  }
}
