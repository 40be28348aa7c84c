/** The binary searches of viskores/LowerBound.h and viskores/UpperBound.h, with a
    comparison given as a function. */
module Bounds {
  import opened Arithmetic

  /** Halvings until nothing is left: the number of binary digits of n. */
  function Digits(n: nat): nat {
    if n == 0 then 0 else 1 + Digits(n / 2)
  }

  lemma {:induction false} DigitsMonotone(m: nat, n: nat)
    requires m <= n
    ensures Digits(m) <= Digits(n)
  {
    if m == 0 {
    } else {
      DigitsMonotone(m / 2, n / 2);
    }
  }

  /** For n > 0, Digits(n) is one more than the base-two logarithm rounded down. */
  lemma {:induction false} DigitsIsLogarithm(n: nat)
    requires 0 < n
    ensures Pow2(Digits(n) - 1) <= n < Pow2(Digits(n))
  {
    if n == 1 {
    } else {
      DigitsIsLogarithm(n / 2);
      var d := Digits(n / 2);
      assert Digits(n) == d + 1;
      assert Pow2(d + 1) == 2 * Pow2(d) && Pow2(d) == 2 * Pow2(d - 1);
    }
  }

  /** The elements for which p holds come first. */
  ghost predicate Partitioned<T>(a: seq<T>, p: T -> bool) {
    forall i, j :: 0 <= i < j < |a| && p(a[j]) ==> p(a[i])
  }

  ghost predicate Splits<T>(a: seq<T>, p: T -> bool, k: nat) {
    k <= |a| && (forall i :: 0 <= i < k ==> p(a[i])) && (forall i :: k <= i < |a| ==> !p(a[i]))
  }

  /** On any range it makes at most one comparison for each binary digit of the
      length; on a partitioned one it finds the partition point. */
  method LowerBound<T>(a: seq<T>, val: T, comp: (T, T) -> bool) returns (result: nat, ghost comparisons: nat)
    ensures result <= |a| && comparisons <= Digits(|a|)
    ensures Partitioned(a, x => comp(x, val)) ==> Splits(a, x => comp(x, val), result)
  {
    var first, len := 0, |a|;
    comparisons := 0;
    while len != 0
      invariant 0 <= first && 0 <= len && first + len <= |a|
      invariant comparisons + Digits(len) <= Digits(|a|)
      invariant Partitioned(a, x => comp(x, val)) ==>
                  (forall i :: 0 <= i < first ==> comp(a[i], val)) && (forall i :: first + len <= i < |a| ==> !comp(a[i], val))
      decreases len
    {
      var halfLen := len / 2;
      var mid := first + halfLen;
      DigitsMonotone(len - (halfLen + 1), halfLen);
      comparisons := comparisons + 1;
      if comp(a[mid], val) {
        first := mid + 1;
        len := len - (halfLen + 1);
      } else {
        len := halfLen;
      }
    }
    result := first;
  }

  method UpperBound<T>(a: seq<T>, val: T, comp: (T, T) -> bool) returns (result: nat, ghost comparisons: nat)
    ensures result <= |a| && comparisons <= Digits(|a|)
    ensures Partitioned(a, x => !comp(val, x)) ==> Splits(a, x => !comp(val, x), result)
  {
    var first, len := 0, |a|;
    comparisons := 0;
    while len != 0
      invariant 0 <= first && 0 <= len && first + len <= |a|
      invariant comparisons + Digits(len) <= Digits(|a|)
      invariant Partitioned(a, x => !comp(val, x)) ==>
                  (forall i :: 0 <= i < first ==> !comp(val, a[i])) && (forall i :: first + len <= i < |a| ==> comp(val, a[i]))
      decreases len
    {
      var halfLen := len / 2;
      var mid := first + halfLen;
      DigitsMonotone(len - (halfLen + 1), halfLen);
      comparisons := comparisons + 1;
      if !comp(val, a[mid]) {
        first := mid + 1;
        len := len - (halfLen + 1);
      } else {
        len := halfLen;
      }
    }
    result := first;
  }

  // ----- sorted ranges

  predicate Equivalent<T>(comp: (T, T) -> bool, x: T, y: T) {
    !comp(x, y) && !comp(y, x)
  }

  ghost predicate StrictWeakOrder<T(!new)>(comp: (T, T) -> bool) {
    && (forall x :: !comp(x, x))
    && (forall x, y, z :: comp(x, y) && comp(y, z) ==> comp(x, z))
    && (forall x, y, z :: Equivalent(comp, x, y) && Equivalent(comp, y, z) ==> Equivalent(comp, x, z))
  }

  ghost predicate Sorted<T>(a: seq<T>, comp: (T, T) -> bool) {
    forall i, j :: 0 <= i < j < |a| ==> !comp(a[j], a[i])
  }

  lemma Asymmetric<T(!new)>(comp: (T, T) -> bool, x: T, y: T)
    requires StrictWeakOrder(comp)
    ensures !(comp(x, y) && comp(y, x))
  {
    assert !comp(x, x);
  }

  /** Nothing fits between x and z without being above x or below z. */
  lemma Between<T(!new)>(comp: (T, T) -> bool, x: T, y: T, z: T)
    requires StrictWeakOrder(comp) && comp(x, z)
    ensures comp(x, y) || comp(y, z)
  {
    if !comp(x, y) && !comp(y, z) {
      if !comp(y, x) && !comp(z, y) {
        assert Equivalent(comp, x, y) && Equivalent(comp, y, z);
      }
    }
  }

  lemma SortedIsPartitioned<T(!new)>(a: seq<T>, val: T, comp: (T, T) -> bool)
    requires StrictWeakOrder(comp) && Sorted(a, comp)
    ensures Partitioned(a, x => comp(x, val)) && Partitioned(a, x => !comp(val, x))
  {
    forall i, j | 0 <= i < j < |a| ensures (comp(a[j], val) ==> comp(a[i], val)) && (!comp(val, a[j]) ==> !comp(val, a[i])) {
      if comp(a[j], val) { Between(comp, a[j], a[i], val); }
      if comp(val, a[i]) { Between(comp, val, a[j], a[i]); }
    }
  }

  /** On a sorted range the two results bracket exactly the elements equivalent to
      the value, and inserting the value at either keeps the range sorted. */
  lemma BoundsBracket<T(!new)>(a: seq<T>, val: T, comp: (T, T) -> bool, lower: nat, upper: nat)
    requires StrictWeakOrder(comp) && Sorted(a, comp)
    requires Splits(a, x => comp(x, val), lower) && Splits(a, x => !comp(val, x), upper)
    ensures lower <= upper
    ensures forall i :: 0 <= i < |a| ==> (lower <= i < upper <==> Equivalent(comp, a[i], val))
    ensures Sorted(a[..lower] + [val] + a[lower..], comp)
    ensures Sorted(a[..upper] + [val] + a[upper..], comp)
  {
    if upper < |a| { Asymmetric(comp, a[upper], val); }
    InsertSorted(a, val, comp, lower);
    InsertSorted(a, val, comp, upper);
  }

  lemma InsertSorted<T>(a: seq<T>, val: T, comp: (T, T) -> bool, k: nat)
    requires Sorted(a, comp) && k <= |a|
    requires forall i :: 0 <= i < k ==> !comp(val, a[i])
    requires forall i :: k <= i < |a| ==> !comp(a[i], val)
    ensures Sorted(a[..k] + [val] + a[k..], comp)
  {
  }
}
