/** Absolute values, powers of two, and integer multiplication and division in small
    steps. */
module Arithmetic {

  function Abs(x: real): (r: real)
    ensures 0.0 <= r && (r == x || r == -x)
  {
    if x < 0.0 then -x else x
  }

  function Pow2(n: nat): (r: nat)
    ensures 1 <= r
  {
    if n == 0 then 1 else 2 * Pow2(n - 1)
  }

  lemma MultipleGrows(w: int, d: int)
    requires 0 < w
    ensures 1 <= d ==> w <= w * d
    ensures d <= -1 ==> w * d <= -w
  {
    if 1 <= d { assert w * d == w + w * (d - 1); }
    if d <= -1 { assert w * d == -w + w * (d + 1); }
  }

  lemma DivideUnique(x: int, w: int, q: int, r: int)
    requires 0 < w && 0 <= r < w && x == w * q + r
    ensures x / w == q && x % w == r
  {
    MultipleGrows(w, x / w - q);
    assert w * (x / w - q) == w * (x / w) - w * q;
  }

  function Times(x: nat, y: nat): nat {
    x * y
  }

  lemma TimesNext(n: nat, w: nat)
    ensures Times(n + 1, w) == Times(n, w) + w
    ensures Times(0, w) == 0
  {
  }

  lemma {:induction false} TimesGrows(m: nat, n: nat, w: nat)
    requires m <= n
    ensures Times(m, w) <= Times(n, w)
  {
    if m == n {
    } else {
      TimesGrows(m, n - 1, w);
      TimesNext(n - 1, w);
    }
  }

  lemma TimesOrder(m: nat, n: nat, w: nat)
    ensures m <= n ==> Times(m, w) <= Times(n, w)
  {
    if m <= n { TimesGrows(m, n, w); }
  }

  lemma TimesZero(n: nat)
    ensures Times(n, 0) == 0
  {
  }

  lemma Division(w: nat, index: nat)
    requires 0 < w
    ensures index % w < w && index == Times(index / w, w) + index % w
  {
  }

  lemma SubIndex(n: nat, w: nat, index: nat)
    requires index < Times(n, w)
    ensures 0 < w && index / w < n && index % w < w && index == Times(index / w, w) + index % w
  {
    hide Times;
    TimesZero(n);
    Division(w, index);
    TimesOrder(n, index / w, w);
  }
}
