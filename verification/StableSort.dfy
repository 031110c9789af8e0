/** `Array.prototype.sort` with a numeric comparison: a stable order of the indices of a list
    by a pair of keys. */
module StableSort {
  /** Compared by `first`, then by `second`. */
  datatype Key = Key(first: int, second: int)

  /** Entry `a` of the list belongs before entry `b`; equal keys keep their places. */
  predicate Before(keys: seq<Key>, a: nat, b: nat)
    requires a < |keys| && b < |keys|
  {
    || keys[a].first < keys[b].first
    || (keys[a].first == keys[b].first && keys[a].second < keys[b].second)
    || (keys[a] == keys[b] && a < b)
  }

  ghost predicate InOrder(keys: seq<Key>, order: seq<nat>) {
    && (forall k :: 0 <= k < |order| ==> order[k] < |keys|)
    && (forall a, b :: 0 <= a < b < |order| ==> Before(keys, order[a], order[b]))
  }

  /** Every index of the list once, in sorted order. */
  ghost predicate IsStableOrder(keys: seq<Key>, order: seq<nat>) {
    && |order| == |keys|
    && InOrder(keys, order)
    && (forall i: nat :: i < |keys| <==> i in order)
  }

  function Insert(keys: seq<Key>, order: seq<nat>, i: nat): (longer: seq<nat>)
    requires i < |keys| && InOrder(keys, order) && i !in order
    ensures |longer| == |order| + 1 && InOrder(keys, longer)
    ensures forall k: nat :: k in longer <==> k == i || k in order
  {
    if order == [] then [i]
    else
      var last := order[|order| - 1];
      var rest := order[..|order| - 1];
      assert order == rest + [last];
      if Before(keys, last, i) then
        order + [i]
      else
        var shorter := Insert(keys, rest, i);
        assert forall k :: 0 <= k < |shorter| ==> shorter[k] in shorter && (shorter[k] == i || shorter[k] in rest);
        assert forall k :: 0 <= k < |rest| ==> Before(keys, rest[k], last) by {
          assert forall k :: 0 <= k < |rest| ==> rest[k] == order[k];
        }
        shorter + [last]
  }

  function OrderUpTo(keys: seq<Key>, n: nat): (order: seq<nat>)
    requires n <= |keys|
    ensures |order| == n && InOrder(keys, order)
    ensures forall i: nat :: i in order <==> i < n
  {
    if n == 0 then [] else Insert(keys, OrderUpTo(keys, n - 1), n - 1)
  }

  function StableOrder(keys: seq<Key>): (order: seq<nat>)
    ensures IsStableOrder(keys, order)
  {
    OrderUpTo(keys, |keys|)
  }

  /** The items at the given places. */
  function Arrange<T>(items: seq<T>, places: seq<nat>): (arranged: seq<T>)
    requires forall k :: 0 <= k < |places| ==> places[k] < |items|
    ensures |arranged| == |places|
  {
    seq(|places|, k requires 0 <= k < |places| => items[places[k]])
  }

  /** There is only one such order, so nothing depends on the sorting algorithm. */
  lemma {:induction false} StableOrderIsUnique(keys: seq<Key>, a: seq<nat>, b: seq<nat>)
    requires |a| == |b| && InOrder(keys, a) && InOrder(keys, b) && forall i: nat :: i in a <==> i in b
    ensures a == b
    decreases |a|
  {
    if a != [] {
      assert a[0] in b && |b| > 0 && b[0] in a;
      FirstIsFirst(keys, a, b);
      FirstIsFirst(keys, b, a);
      forall i: nat ensures i in a[1..] <==> i in b[1..] {
        assert i in a <==> i == a[0] || i in a[1..];
        assert i in b <==> i == b[0] || i in b[1..];
      }
      StableOrderIsUnique(keys, a[1..], b[1..]);
    }
  }

  lemma FirstIsFirst(keys: seq<Key>, a: seq<nat>, b: seq<nat>)
    requires InOrder(keys, a) && InOrder(keys, b) && |a| > 0 && |b| > 0 && b[0] in a && a[0] in b
    ensures a[0] == b[0] && a[0] !in a[1..]
  {
    var k :| 0 <= k < |a| && a[k] == b[0];
    var l :| 0 <= l < |b| && b[l] == a[0];
  }
}
