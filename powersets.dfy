/** Finite lists read as sets: duplicate-freedom, the elements of a list,
    filtering a list by a set and the list of all subsets of a list. */
module PowerSets {

  /** No element occurs twice (a Python `list(s)` of a set `s`). */
  predicate NoDup<T(==)>(xs: seq<T>) {
    forall i, j :: 0 <= i < j < |xs| ==> xs[i] != xs[j]
  }

  function Elems<T(==)>(xs: seq<T>): set<T> {
    set x | x in xs
  }

  function Pow2(n: nat): (r: nat)
    ensures r >= 1
  {
    if n == 0 then 1 else 2 * Pow2(n - 1)
  }

  /** The elements of `xs` that are not in `s`, in the order of `xs`. */
  function Without<T(==)>(xs: seq<T>, s: set<T>): (r: seq<T>)
    ensures Elems(r) == Elems(xs) - s
    ensures NoDup(xs) ==> NoDup(r)
  {
    if xs == [] then []
    else
      var rest := Without(xs[1..], s);
      assert Elems(xs) == {xs[0]} + Elems(xs[1..]);
      if xs[0] in s then rest
      else
        assert NoDup(xs) ==> xs[0] !in Elems(rest);
        assert Elems([xs[0]] + rest) == {xs[0]} + Elems(rest);
        [xs[0]] + rest
  }

  /** Every subset of the elements of `xs`: first the subsets without
      `xs[0]`, then the same subsets with `xs[0]` added. */
  function PowerSet<T(==)>(xs: seq<T>): (r: seq<set<T>>)
    ensures |r| == Pow2(|xs|)
    ensures forall k :: 0 <= k < |r| ==> r[k] <= Elems(xs)
  {
    if xs == [] then [{}]
    else
      var rest := PowerSet(xs[1..]);
      rest + seq(|rest|, k requires 0 <= k < |rest| => rest[k] + {xs[0]})
  }

  /** An element of a non-empty list is in all but its last element or is
      the last one. */
  lemma InSnoc<T>(xs: seq<T>, x: T)
    requires xs != []
    ensures x in xs <==> x in xs[..|xs| - 1] || x == xs[|xs| - 1]
  {
    assert xs == xs[..|xs| - 1] + [xs[|xs| - 1]];
  }

  /** Every subset of the list's elements is listed. */
  lemma {:induction false} PowerSetComplete<T>(xs: seq<T>, s: set<T>)
    requires s <= Elems(xs)
    ensures s in PowerSet(xs)
  {
    if xs == [] {
      assert s == {};
      assert PowerSet(xs)[0] == s;
    } else {
      var rest := PowerSet(xs[1..]);
      assert Elems(xs) == {xs[0]} + Elems(xs[1..]);
      if xs[0] in s {
        PowerSetComplete(xs[1..], s - {xs[0]});
        var k :| 0 <= k < |rest| && rest[k] == s - {xs[0]};
        assert PowerSet(xs)[|rest| + k] == s;
      } else {
        PowerSetComplete(xs[1..], s);
        var k :| 0 <= k < |rest| && rest[k] == s;
        assert PowerSet(xs)[k] == s;
      }
    }
  }

  /** Membership in the power list is exactly being a subset. */
  lemma PowerSetMembership<T>(xs: seq<T>, s: set<T>)
    ensures s in PowerSet(xs) <==> s <= Elems(xs)
  {
    if s <= Elems(xs) {
      PowerSetComplete(xs, s);
    }
  }

  /** A list without duplicates has a power list without duplicates:
      every subset is listed exactly once. */
  lemma {:induction false} PowerSetDistinct<T>(xs: seq<T>)
    requires NoDup(xs)
    ensures NoDup(PowerSet(xs))
  {
    if xs != [] {
      var x := xs[0];
      var rest := PowerSet(xs[1..]);
      assert NoDup(xs[1..]);
      PowerSetDistinct(xs[1..]);
      assert x !in Elems(xs[1..]);
      var r := PowerSet(xs);
      assert forall k :: 0 <= k < |rest| ==> x !in rest[k];
      forall i, j | 0 <= i < j < |r|
        ensures r[i] != r[j]
      {
        if j < |rest| {
          assert r[i] == rest[i] && r[j] == rest[j];
        } else if i < |rest| {
          assert x !in r[i] && x in r[j];
        } else {
          assert r[i] == rest[i - |rest|] + {x};
          assert r[j] == rest[j - |rest|] + {x};
          assert r[i] - {x} == rest[i - |rest|];
          assert r[j] - {x} == rest[j - |rest|];
        }
      }
    }
  }

  /** The concatenation of two duplicate-free lists with no common element
      is duplicate-free. */
  lemma NoDupConcat<T>(a: seq<T>, b: seq<T>)
    requires NoDup(a) && NoDup(b)
    requires forall x :: x in a ==> x !in b
    ensures NoDup(a + b)
  {
    var c := a + b;
    forall i, j | 0 <= i < j < |c|
      ensures c[i] != c[j]
    {
      if j < |a| {
        assert c[i] == a[i] && c[j] == a[j];
      } else if i >= |a| {
        assert c[i] == b[i - |a|] && c[j] == b[j - |a|];
      } else {
        assert c[i] == a[i] && c[j] == b[j - |a|];
        assert a[i] in a && b[j - |a|] in b;
      }
    }
  }

  /** A duplicate-free list has as many elements as its set. */
  lemma {:induction false} NoDupCard<T>(xs: seq<T>)
    requires NoDup(xs)
    ensures |Elems(xs)| == |xs|
  {
    if xs != [] {
      assert NoDup(xs[1..]);
      NoDupCard(xs[1..]);
      assert Elems(xs) == {xs[0]} + Elems(xs[1..]);
      assert xs[0] !in Elems(xs[1..]);
    }
  }
}
