/** List helpers shared by the builder and the graph reader. */
module Lists {

  /** No element occurs twice. */
  predicate NoDup<T(==,!new)>(s: seq<T>) {
    forall i, j :: 0 <= i < j < |s| ==> s[i] != s[j]
  }

  /**
   * `for x in xs: if x not in acc: acc.append(x)`: the elements of `xs` not yet
   * listed, appended once each in order of first appearance.
   */
  function AppendUnseen<T(==,!new)>(acc: seq<T>, xs: seq<T>): (r: seq<T>)
    ensures acc <= r
    ensures forall x :: x in r <==> x in acc || x in xs
    ensures NoDup(acc) ==> NoDup(r)
  {
    if xs == [] then acc
    else
      var r := AppendUnseen(acc, xs[..|xs| - 1]);
      var x := xs[|xs| - 1];
      assert forall y :: y in xs <==> y in xs[..|xs| - 1] || y == x;
      if x in r then r else r + [x]
  }

  /** Elements appended later first appeared later in `xs`. */
  lemma {:induction false} AppendUnseenFirstAppearance<T(!new)>(acc: seq<T>, xs: seq<T>, a: nat, b: nat, k: nat)
    requires |acc| <= a < b < |AppendUnseen(acc, xs)|
    requires k < |xs| && xs[k] == AppendUnseen(acc, xs)[b]
    ensures AppendUnseen(acc, xs)[a] in xs[..k]
  {
    var r := AppendUnseen(acc, xs);
    var xs' := xs[..|xs| - 1];
    var r' := AppendUnseen(acc, xs');
    var x := xs[|xs| - 1];
    assert r == r' || r == r' + [x];
    assert a < |r'|;
    assert r[a] == r'[a];
    AppendUnseenNew(acc, xs', a);
    if k == |xs| - 1 {
      assert xs[..k] == xs';
    } else {
      assert xs'[k] == xs[k];
      assert b < |r'|;
      assert r[b] == r'[b];
      AppendUnseenFirstAppearance(acc, xs', a, b, k);
      assert xs'[..k] == xs[..k];
    }
  }

  /** What `AppendUnseen` adds after `acc` is not in `acc`. */
  lemma {:induction false} AppendUnseenNew<T(!new)>(acc: seq<T>, xs: seq<T>, a: nat)
    requires |acc| <= a < |AppendUnseen(acc, xs)|
    ensures AppendUnseen(acc, xs)[a] !in acc
    ensures AppendUnseen(acc, xs)[a] in xs
  {
    var xs' := xs[..|xs| - 1];
    var r' := AppendUnseen(acc, xs');
    if a < |r'| {
      AppendUnseenNew(acc, xs', a);
    }
  }

  /** The lists of `gs` one after another. */
  function Flatten<T>(gs: seq<seq<T>>): seq<T> {
    if gs == [] then [] else Flatten(gs[..|gs| - 1]) + gs[|gs| - 1]
  }

  lemma FlattenSnoc<T>(gs: seq<seq<T>>, g: seq<T>)
    ensures Flatten(gs + [g]) == Flatten(gs) + g
  {
    assert (gs + [g])[..|gs|] == gs;
  }

  /** Every element of one of the lists is in the flattened list. */
  lemma {:induction false} FlattenMember<T>(gs: seq<seq<T>>, i: nat)
    requires i < |gs|
    ensures forall x :: x in gs[i] ==> x in Flatten(gs)
  {
    var last := |gs| - 1;
    if i < last {
      FlattenMember(gs[..last], i);
      assert gs[..last][i] == gs[i];
    }
  }

  lemma TakeSnoc<T>(s: seq<T>, i: nat)
    requires i < |s|
    ensures s[..i + 1] == s[..i] + [s[i]]
  {
  }

  /** The elements of a non-empty list are those of its front and its last one. */
  lemma SnocMembers<T>(s: seq<T>)
    requires s != []
    ensures forall x :: x in s <==> x in s[..|s| - 1] || x == s[|s| - 1]
  {
    assert s == s[..|s| - 1] + [s[|s| - 1]];
  }

  /** In a list without repeats, the last element is not in the front, and the front has no repeats. */
  lemma NoDupSnoc<T(!new)>(s: seq<T>)
    requires s != [] && NoDup(s)
    ensures s[|s| - 1] !in s[..|s| - 1] && NoDup(s[..|s| - 1])
  {
  }
}
