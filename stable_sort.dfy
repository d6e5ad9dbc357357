/**
 * Python's `list.sort(key=...)` is stable: items with equal keys keep their
 * relative order. The model sorts positions: the result lists every position
 * of the input once, ordered by key and, among equal keys, by position.
 */
module StableSort {

  /** Position `i` comes before position `j`: smaller key, or equal key and earlier position. */
  predicate Before(keys: seq<real>, i: nat, j: nat)
    requires i < |keys| && j < |keys|
  {
    keys[i] < keys[j] || (keys[i] == keys[j] && i < j)
  }

  /** `order` is the stable sorted arrangement of the positions of `keys`. */
  ghost predicate IsStableOrder(keys: seq<real>, order: seq<nat>) {
    && |order| == |keys|
    && (forall k :: 0 <= k < |order| ==> order[k] < |keys|)
    && (forall i :: 0 <= i < |keys| ==> i in order)
    && (forall a, b :: 0 <= a < b < |order| ==> Before(keys, order[a], order[b]))
  }

  /** The elements of `xs` rearranged by `order`. */
  function Arrange<T>(xs: seq<T>, order: seq<nat>): (r: seq<T>)
    requires forall k :: 0 <= k < |order| ==> order[k] < |xs|
    ensures |r| == |order|
    ensures forall k :: 0 <= k < |order| ==> r[k] == xs[order[k]]
  {
    seq(|order|, k requires 0 <= k < |order| => xs[order[k]])
  }

  /** Every pair of positions of `order` is in `Before` order. */
  ghost predicate Sorted(keys: seq<real>, order: seq<nat>)
    requires forall k :: 0 <= k < |order| ==> order[k] < |keys|
  {
    forall a, b :: 0 <= a < b < |order| ==> Before(keys, order[a], order[b])
  }

  /** Stable sort by key, as `sort(key=...)` does: insertion of each position after all with key not above its own. */
  method StableOrder(keys: seq<real>) returns (order: seq<nat>)
    ensures IsStableOrder(keys, order)
  {
    order := [];
    var i := 0;
    while i < |keys|
      invariant 0 <= i <= |keys|
      invariant |order| == i
      invariant forall k :: 0 <= k < |order| ==> order[k] < i
      invariant forall j :: 0 <= j < i ==> j in order
      invariant Sorted(keys, order)
    {
      var p := |order|;
      while p > 0 && keys[order[p - 1]] > keys[i]
        invariant 0 <= p <= |order|
        invariant forall k :: p <= k < |order| ==> keys[order[k]] > keys[i]
      {
        p := p - 1;
      }
      InsertSorted(keys, order, p, i);
      order := order[..p] + [i] + order[p..];
      i := i + 1;
    }
  }

  /** Inserting position `i`, larger than every position present, after the last entry whose key is not above its own keeps the order sorted and loses nothing. */
  lemma InsertSorted(keys: seq<real>, order: seq<nat>, p: nat, i: nat)
    requires i < |keys| && p <= |order|
    requires forall k :: 0 <= k < |order| ==> order[k] < i
    requires Sorted(keys, order)
    requires p > 0 ==> keys[order[p - 1]] <= keys[i]
    requires forall k :: p <= k < |order| ==> keys[order[k]] > keys[i]
    ensures var o := order[..p] + [i] + order[p..];
      && (forall k :: 0 <= k < |o| ==> o[k] < i + 1)
      && (forall j :: j in order ==> j in o)
      && i in o
      && Sorted(keys, o)
  {
    var o := order[..p] + [i] + order[p..];
    assert forall k :: 0 <= k < p ==> o[k] == order[k];
    assert o[p] == i;
    assert forall k :: p < k < |o| ==> o[k] == order[k - 1];
    forall a, b | 0 <= a < b < |o| ensures Before(keys, o[a], o[b]) {
      if b == p {
        if a < p - 1 { assert Before(keys, order[a], order[p - 1]); }
      } else if a == p {
        assert keys[order[b - 1]] > keys[i];
      } else if a > p {
        assert Before(keys, order[a - 1], order[b - 1]);
      } else if b > p {
        assert Before(keys, order[a], order[b - 1]);
      }
    }
    forall j | j in order ensures j in o {
      var k :| 0 <= k < |order| && order[k] == j;
      if k < p { assert o[k] == j; } else { assert o[k + 1] == j; }
    }
  }

  /** The stable order is unique: any two arrangements meeting `IsStableOrder` are equal. */
  lemma StableOrderUnique(keys: seq<real>, o1: seq<nat>, o2: seq<nat>)
    requires IsStableOrder(keys, o1) && IsStableOrder(keys, o2)
    ensures o1 == o2
  {
    AgreeFrom(keys, o1, o2, 0);
  }

  /** Two stable orders that agree below `k` agree everywhere. */
  lemma {:induction false} AgreeFrom(keys: seq<real>, o1: seq<nat>, o2: seq<nat>, k: nat)
    requires IsStableOrder(keys, o1) && IsStableOrder(keys, o2)
    requires k <= |o1| && forall j :: 0 <= j < k ==> o1[j] == o2[j]
    ensures o1 == o2
    decreases |o1| - k
  {
    if k < |o1| {
      var x, y := o1[k], o2[k];
      assert y in o1 && x in o2;
      var m :| 0 <= m < |o1| && o1[m] == y;
      var m' :| 0 <= m' < |o2| && o2[m'] == x;
      assert m < k ==> Before(keys, o2[m], o2[k]);
      assert m' < k ==> Before(keys, o1[m'], o1[k]);
      assert m > k ==> Before(keys, o1[k], o1[m]);
      assert m' > k ==> Before(keys, o2[k], o2[m']);
      AgreeFrom(keys, o1, o2, k + 1);
    }
  }

  /** The first position of a stable order carries the smallest key. */
  lemma FirstIsLeast(keys: seq<real>, order: seq<nat>, i: nat)
    requires IsStableOrder(keys, order) && i < |keys|
    ensures keys[order[0]] <= keys[i]
  {
    assert i in order;
    var m :| 0 <= m < |order| && order[m] == i;
    if m > 0 { assert Before(keys, order[0], order[m]); }
  }
}
