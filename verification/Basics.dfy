/** Machine integers, bytes and a few facts about sequences shared by the protocol models. */
module Basics {

  const TWO_31: nat := 0x8000_0000
  const TWO_32: nat := 0x1_0000_0000
  const TWO_63: nat := 0x8000_0000_0000_0000
  const TWO_64: nat := 0x1_0000_0000_0000_0000

  type byte = x: int | 0 <= x < 0x100
  type uint16 = x: int | 0 <= x < 0x1_0000
  type uint32 = x: int | 0 <= x < 0x1_0000_0000
  type int64 = x: int | -0x8000_0000_0000_0000 <= x < 0x8000_0000_0000_0000

  datatype Option<+T> = None | Some(value: T)

  function Min(a: nat, b: nat): nat {
    if a < b then a else b
  }

  ghost predicate Distinct<T>(s: seq<T>) {
    forall i, j :: 0 <= i < j < |s| ==> s[i] != s[j]
  }

  ghost function Elements<T(!new)>(s: seq<T>): set<T> {
    set x | x in s
  }

  /** A sequence has at most as many elements as positions, and as many exactly when none repeats. */
  lemma {:induction false} ElementCount<T(!new)>(s: seq<T>)
    ensures |Elements(s)| <= |s|
    ensures |Elements(s)| == |s| <==> Distinct(s)
  {
    if s == [] {
      assert Elements(s) == {};
    } else {
      var front, x := s[..|s| - 1], s[|s| - 1];
      ElementCount(front);
      assert s == front + [x];
      assert Elements(s) == Elements(front) + {x};
      if x in front {
        assert Elements(s) == Elements(front);
        assert !Distinct(s);
      } else {
        assert Distinct(s) <==> Distinct(front);
      }
    }
  }

  /** Two finite sets, one inside the other, are equal when they have the same size. */
  lemma SubsetOfSameSize<T>(a: set<T>, b: set<T>)
    requires a <= b
    ensures |a| <= |b|
    ensures |a| == |b| ==> a == b
  {
    assert b == a + (b - a);
  }

  /** Rearranging a sequence of distinct values leaves them distinct. */
  lemma PermutationStaysDistinct<T(!new)>(s: seq<T>, t: seq<T>)
    requires multiset(s) == multiset(t)
    requires Distinct(s)
    ensures Distinct(t) && Elements(s) == Elements(t) && |s| == |t|
  {
    assert |multiset(s)| == |s| && |multiset(t)| == |t|;
    forall x ensures x in s <==> x in t {
      assert x in s <==> x in multiset(s);
      assert x in t <==> x in multiset(t);
    }
    ElementCount(s);
    assert Elements(s) == Elements(t);
    ElementCount(t);
  }

  /** A strictly increasing sequence of `n` numbers below `n` counts 0, 1, 2, ... */
  lemma {:induction false} IncreasingBelowLength(a: seq<nat>, i: nat)
    requires forall j, k :: 0 <= j < k < |a| ==> a[j] < a[k]
    requires forall j :: 0 <= j < |a| ==> a[j] < |a|
    requires i < |a|
    ensures a[i] == i
  {
    AtLeastPosition(a, i);
    AtMostPosition(a, i);
  }

  lemma {:induction false} AtLeastPosition(a: seq<nat>, i: nat)
    requires forall j, k :: 0 <= j < k < |a| ==> a[j] < a[k]
    requires i < |a|
    ensures a[i] >= i
  {
    if i > 0 {
      AtLeastPosition(a, i - 1);
    }
  }

  lemma {:induction false} AtMostPosition(a: seq<nat>, i: nat)
    requires forall j, k :: 0 <= j < k < |a| ==> a[j] < a[k]
    requires forall j :: 0 <= j < |a| ==> a[j] < |a|
    requires i < |a|
    ensures a[i] <= i
    decreases |a| - i
  {
    if i < |a| - 1 {
      AtMostPosition(a, i + 1);
    }
  }
}
