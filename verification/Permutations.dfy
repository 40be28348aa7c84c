/** Permutation vectors, exchanges of two positions, and the parity of the
    number of inversions. */
module Permutations {

  predicate IsPermutation(p: seq<int>) {
    && (forall i :: 0 <= i < |p| ==> 0 <= p[i] < |p|)
    && (forall i, j :: 0 <= i < j < |p| ==> p[i] != p[j])
    && (forall v :: 0 <= v < |p| ==> v in p)
  }

  predicate Distinct(p: seq<int>) {
    forall i, j :: 0 <= i < j < |p| ==> p[i] != p[j]
  }

  function Swap<T>(s: seq<T>, i: nat, j: nat): (r: seq<T>)
    requires i < |s| && j < |s|
    ensures |r| == |s|
  {
    s[i := s[j]][j := s[i]]
  }

  /** How many elements of s are below x. */
  function CountBelow(s: seq<int>, x: int): nat {
    if s == [] then 0 else (if s[0] < x then 1 else 0) + CountBelow(s[1..], x)
  }

  /** How many times a smaller number appears after a larger one. */
  function Inversions(p: seq<int>): nat {
    if p == [] then 0 else CountBelow(p[1..], p[0]) + Inversions(p[1..])
  }

  function InversionSign(p: seq<int>): real {
    if Inversions(p) % 2 == 0 then 1.0 else -1.0
  }

  function IdentityPermutation(n: nat): (p: seq<int>)
    ensures |p| == n
  {
    seq(n, i => i)
  }

  lemma SwapPermutation(p: seq<int>, i: nat, j: nat)
    requires IsPermutation(p) && i < |p| && j < |p|
    ensures IsPermutation(Swap(p, i, j))
  {
    var q := Swap(p, i, j);
    forall v | 0 <= v < |p| ensures v in q {
      assert v in p;
      var k :| 0 <= k < |p| && p[k] == v;
      assert q[if k == i then j else if k == j then i else k] == v;
    }
  }

  lemma IdentityIsPermutation(n: nat)
    ensures IsPermutation(IdentityPermutation(n))
  {
    var p := IdentityPermutation(n);
    forall v | 0 <= v < n ensures v in p { assert p[v] == v; }
  }

  lemma {:induction false} CountBelowNone(s: seq<int>, x: int)
    requires forall i :: 0 <= i < |s| ==> x <= s[i]
    ensures CountBelow(s, x) == 0
  {
    if s == [] {
    } else {
      CountBelowNone(s[1..], x);
    }
  }

  lemma {:induction false} IncreasingHasNoInversions(p: seq<int>)
    requires forall i, j :: 0 <= i < j < |p| ==> p[i] < p[j]
    ensures Inversions(p) == 0
  {
    if p == [] {
    } else {
      CountBelowNone(p[1..], p[0]);
      IncreasingHasNoInversions(p[1..]);
    }
  }

  lemma {:induction false} CountBelowAdjacentSwap(s: seq<int>, r: nat, x: int)
    requires r + 1 < |s|
    ensures CountBelow(Swap(s, r, r + 1), x) == CountBelow(s, x)
  {
    var t := Swap(s, r, r + 1);
    if r == 0 {
      assert t[1..][1..] == s[1..][1..];
    } else {
      CountBelowAdjacentSwap(s[1..], r - 1, x);
      assert t[1..] == Swap(s[1..], r - 1, r);
    }
  }

  lemma {:induction false} AdjacentSwapFlipsParity(p: seq<int>, r: nat)
    requires r + 1 < |p| && Distinct(p)
    ensures Inversions(Swap(p, r, r + 1)) % 2 != Inversions(p) % 2
  {
    var q := Swap(p, r, r + 1);
    if r == 0 {
      assert q[1..][1..] == p[1..][1..];
      assert p[0] != p[1];
    } else {
      CountBelowAdjacentSwap(p[1..], r - 1, p[0]);
      AdjacentSwapFlipsParity(p[1..], r - 1);
      assert q[1..] == Swap(p[1..], r - 1, r);
    }
  }

  /** A long exchange is a shorter one between two adjacent ones. */
  lemma SwapByAdjacent<T>(s: seq<T>, i: nat, j: nat)
    requires i + 1 < j < |s|
    ensures Swap(s, i, j) == Swap(Swap(Swap(s, i, i + 1), i + 1, j), i, i + 1)
  {
  }

  lemma SwapDistinct(p: seq<int>, i: nat, j: nat)
    requires i < |p| && j < |p| && Distinct(p)
    ensures Distinct(Swap(p, i, j))
  {
  }

  /** Exchanging any two positions flips the parity of the inversions. */
  lemma {:induction false} SwapFlipsParity(p: seq<int>, i: nat, j: nat)
    requires i < j < |p| && Distinct(p)
    ensures Inversions(Swap(p, i, j)) % 2 != Inversions(p) % 2
    decreases j - i
  {
    hide Distinct, Inversions, Swap;
    if j == i + 1 {
      AdjacentSwapFlipsParity(p, i);
    } else {
      var a := Swap(p, i, i + 1);
      var b := Swap(a, i + 1, j);
      SwapDistinct(p, i, i + 1);
      SwapDistinct(a, i + 1, j);
      AdjacentSwapFlipsParity(p, i);
      SwapFlipsParity(a, i + 1, j);
      AdjacentSwapFlipsParity(b, i);
      SwapByAdjacent(p, i, j);
    }
  }
}
