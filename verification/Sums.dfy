/** Finite sums of real-valued functions on an initial segment of the integers.
    Every lambda used as a summand in this project is the body of a named
    function, so that two mentions of one summand are the same term. */
module Sums {

  function Sum(f: int -> real, n: nat): real {
    if n == 0 then 0.0 else Sum(f, n - 1) + f(n - 1)
  }

  lemma {:induction false} SumCong(f: int -> real, g: int -> real, n: nat)
    requires forall k :: 0 <= k < n ==> f(k) == g(k)
    ensures Sum(f, n) == Sum(g, n)
  {
    if n == 0 {
    } else {
      SumCong(f, g, n - 1);
    }
  }

  function Plus(f: int -> real, g: int -> real): int -> real {
    k => f(k) + g(k)
  }

  function Scaled(c: real, f: int -> real): int -> real {
    k => c * f(k)
  }

  lemma {:induction false} SumPlus(f: int -> real, g: int -> real, n: nat)
    ensures Sum(Plus(f, g), n) == Sum(f, n) + Sum(g, n)
  {
    if n == 0 {
    } else {
      SumPlus(f, g, n - 1);
    }
  }

  lemma {:induction false} SumScaled(c: real, f: int -> real, n: nat)
    ensures Sum(Scaled(c, f), n) == c * Sum(f, n)
  {
    if n == 0 {
    } else {
      SumScaled(c, f, n - 1);
    }
  }

  /** The linear combination s x + t y. */
  function Combine(s: real, x: real, t: real, y: real): real {
    s * x + t * y
  }

  lemma {:induction false} SumLinear(f: int -> real, s: real, g: int -> real, t: real, h: int -> real, n: nat)
    requires forall k :: 0 <= k < n ==> h(k) == Combine(s, f(k), t, g(k))
    ensures Sum(h, n) == Combine(s, Sum(f, n), t, Sum(g, n))
  {
    if n == 0 {
    } else {
      SumLinear(f, s, g, t, h, n - 1);
    }
  }

  lemma {:induction false} SumZero(f: int -> real, n: nat)
    requires forall k :: 0 <= k < n ==> f(k) == 0.0
    ensures Sum(f, n) == 0.0
  {
    if n == 0 {
    } else {
      SumZero(f, n - 1);
    }
  }

  /** All summands but one vanish. */
  lemma {:induction false} SumSingle(f: int -> real, n: nat, p: nat)
    requires p < n
    requires forall k :: 0 <= k < n && k != p ==> f(k) == 0.0
    ensures Sum(f, n) == f(p)
  {
    if p == n - 1 { SumZero(f, n - 1); } else { SumSingle(f, n - 1, p); }
  }

  /** The summands from m on vanish. */
  lemma {:induction false} SumTruncate(f: int -> real, m: nat, n: nat)
    requires m <= n
    requires forall k :: m <= k < n ==> f(k) == 0.0
    ensures Sum(f, n) == Sum(f, m)
  {
    if m == n {
    } else {
      SumTruncate(f, m, n - 1);
    }
  }

  function Shifted(f: int -> real, d: int): int -> real {
    k => f(k + d)
  }

  lemma {:induction false} SumSplit(f: int -> real, m: nat, n: nat)
    requires m <= n
    ensures Sum(f, n) == Sum(f, m) + Sum(Shifted(f, m), n - m)
  {
    if m == n {
    } else {
      SumSplit(f, m, n - 1);
    }
  }

  function InRow(h: (int, int) -> real, i: int): int -> real {
    j => h(i, j)
  }

  function InColumn(h: (int, int) -> real, j: int): int -> real {
    i => h(i, j)
  }

  function RowSum(h: (int, int) -> real, m: nat): int -> real {
    i => Sum(InRow(h, i), m)
  }

  function ColumnSum(h: (int, int) -> real, n: nat): int -> real {
    j => Sum(InColumn(h, j), n)
  }

  lemma {:induction false} SumSwap(h: (int, int) -> real, n: nat, m: nat)
    ensures Sum(RowSum(h, m), n) == Sum(ColumnSum(h, n), m)
  {
    if n == 0 {
      SumZero(ColumnSum(h, 0), m);
    } else {
      SumSwap(h, n - 1, m);
      SumPlus(ColumnSum(h, n - 1), InRow(h, n - 1), m);
      SumCong(ColumnSum(h, n), Plus(ColumnSum(h, n - 1), InRow(h, n - 1)), m);
    }
  }
}
