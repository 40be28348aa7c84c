/** FloatDistance (viskores/Math.h) on bit patterns of the binary interchange
    formats, section 3.4 of IEEE 754-2019, against the number of representable
    values between its arguments. */
module FloatDistance {
  import opened Arithmetic

  /** The number of fraction patterns, and of biased exponents that are finite. */
  datatype Format = Format(fractions: nat, exponents: nat)

  const BINARY64 := Format(0x10_0000_0000_0000, 2047)
  const BINARY32 := Format(0x80_0000, 255)

  /** The range of a 64-bit unsigned integer, the type of every distance. */
  const WORD: nat := 0x1_0000_0000_0000_0000

  /** Finite magnitudes, and twice as many, fit the result type with room for the
      value that marks non-finite arguments. */
  predicate Fits(f: Format) {
    0 < f.fractions && 0 < f.exponents && 2 * (f.fractions * f.exponents) <= WORD
  }

  lemma FormatsFit()
    ensures Fits(BINARY64) && Fits(BINARY32)
    ensures SignBit(BINARY64) == 0x8000_0000_0000_0000 && SignBit(BINARY32) == 0x8000_0000
  {
  }

  function SignBit(f: Format): nat {
    f.fractions * (f.exponents + 1)
  }

  predicate IsPattern(f: Format, b: int) {
    0 <= b < 2 * SignBit(f)
  }

  function Magnitude(f: Format, b: nat): nat {
    if b < SignBit(f) then b else b - SignBit(f)
  }

  predicate IsFinite(f: Format, b: nat) {
    Magnitude(f, b) < f.fractions * f.exponents
  }

  /** The value of an exponent and a fraction: the fraction alone for a subnormal, and
      else with its hidden bit, scaled. */
  function ScaledUnits(fractions: nat, exponent: nat, fraction: nat): nat {
    if exponent == 0 then fraction else (fractions + fraction) * Pow2(exponent - 1)
  }

  /** The value of a magnitude, in units of the smallest subnormal. */
  function UnitsOf(f: Format, m: nat): int
    requires 0 < f.fractions
  {
    ScaledUnits(f.fractions, m / f.fractions, m % f.fractions)
  }

  /** The value of a pattern, in units of the smallest subnormal. */
  function Units(f: Format, b: nat): int
    requires 0 < f.fractions
  {
    if b < SignBit(f) then UnitsOf(f, Magnitude(f, b)) else -UnitsOf(f, Magnitude(f, b))
  }

  // ----- the same, read from the fields of the interchange format

  /** The biased exponent: the bits between the sign bit and the fraction. */
  function ExponentField(f: Format, b: nat): nat
    requires 0 < f.fractions
  {
    b / f.fractions % (f.exponents + 1)
  }

  function FractionField(f: Format, b: nat): nat
    requires 0 < f.fractions
  {
    b % f.fractions
  }

  /** In both widths the fields are where the standard has them. */
  lemma FieldsOfFormats(b: nat)
    ensures ExponentField(BINARY64, b) == b / 0x10_0000_0000_0000 % 2048
    ensures FractionField(BINARY64, b) == b % 0x10_0000_0000_0000
    ensures ExponentField(BINARY32, b) == b / 0x80_0000 % 256
    ensures FractionField(BINARY32, b) == b % 0x80_0000
  {
  }

  lemma QuotientBelow(m: nat, w: nat, n: nat)
    requires 0 < w
    ensures m < w * n <==> m / w < n
  {
    var q := m / w;
    assert m == w * q + m % w;
    assert w * n == w * q + w * (n - q);
    MultipleGrows(w, n - q);
  }

  lemma FieldsOfMagnitude(f: Format, b: nat)
    requires 0 < f.fractions && IsPattern(f, b)
    ensures ExponentField(f, b) == Magnitude(f, b) / f.fractions <= f.exponents
    ensures FractionField(f, b) == Magnitude(f, b) % f.fractions
  {
    var m, w, n := Magnitude(f, b), f.fractions, f.exponents + 1;
    QuotientBelow(m, w, n);
    if b < SignBit(f) {
      DivideUnique(m / w, n, 0, m / w);
    } else {
      assert b == w * (m / w + n) + m % w by { assert w * (m / w + n) == w * (m / w) + w * n; }
      DivideUnique(b, w, m / w + n, m % w);
      DivideUnique(m / w + n, n, 1, m / w);
    }
  }

  /** A pattern is finite exactly when its exponent bits are not all ones. */
  lemma FiniteIffField(f: Format, b: nat)
    requires 0 < f.fractions && IsPattern(f, b)
    ensures IsFinite(f, b) <==> ExponentField(f, b) != f.exponents
  {
    hide ExponentField, Magnitude;
    FieldsOfMagnitude(f, b);
    QuotientBelow(Magnitude(f, b), f.fractions, f.exponents);
  }

  /** The value a pattern stands for, in units of the smallest subnormal: the fraction
      when the exponent is zero, and else the fraction with its hidden bit, scaled. */
  lemma UnitsOfFields(f: Format, b: nat)
    requires 0 < f.fractions && IsPattern(f, b)
    ensures var e, t := ExponentField(f, b), FractionField(f, b);
            var v := if e == 0 then t else (f.fractions + t) * Pow2(e - 1);
            Units(f, b) == if b < SignBit(f) then v else -v
  {
    hide ExponentField, FractionField, Magnitude;
    FieldsOfMagnitude(f, b);
  }

  function NegatePattern(f: Format, b: nat): (r: nat) {
    if b < SignBit(f) then b + SignBit(f) else b - SignBit(f)
  }

  function FloatDistancePositive(xi: nat, yi: nat): nat {
    if yi > xi then yi - xi else xi - yi
  }

  /** Signed zeros become plus zero. */
  function DropSignOfZero(f: Format, b: nat): nat
    requires 0 < f.fractions
  {
    if Units(f, b) == 0 then Magnitude(f, b) else b
  }

  /** The branches on the signs of the arguments. */
  function SignedDistance(f: Format, x: nat, y: nat): nat
    requires 0 < f.fractions
  {
    if (Units(f, x) < 0 && Units(f, y) >= 0) || (Units(f, x) >= 0 && Units(f, y) < 0) then
      var dy := if Units(f, x) < 0 then FloatDistancePositive(0, y) else FloatDistancePositive(0, NegatePattern(f, y));
      var dx := if Units(f, x) < 0 then FloatDistancePositive(0, NegatePattern(f, x)) else FloatDistancePositive(0, x);
      (dx + dy) % WORD
    else if Units(f, x) < 0 && Units(f, y) < 0 then
      FloatDistancePositive(NegatePattern(f, x), NegatePattern(f, y))
    else
      FloatDistancePositive(x, y)
  }

  /** Both widths: the narrow one widens its patterns to 64 bits before subtracting. */
  function Distance(f: Format, x: nat, y: nat): nat
    requires 0 < f.fractions
  {
    if !IsFinite(f, x) || !IsFinite(f, y) then WORD - 1
    else SignedDistance(f, DropSignOfZero(f, x), DropSignOfZero(f, y))
  }

  // ----- the encoding is strictly monotone in the magnitude

  lemma SplitMagnitude(f: Format, m: nat)
    requires 0 < f.fractions
    ensures m % f.fractions + 1 < f.fractions ==>
              (m + 1) / f.fractions == m / f.fractions && (m + 1) % f.fractions == m % f.fractions + 1
    ensures m % f.fractions + 1 == f.fractions ==>
              (m + 1) / f.fractions == m / f.fractions + 1 && (m + 1) % f.fractions == 0
  {
    var q, r, w := m / f.fractions, m % f.fractions, f.fractions;
    assert m == w * q + r;
    if r + 1 < w {
      DivideUnique(m + 1, w, q, r + 1);
    } else {
      assert w * (q + 1) == w * q + w;
      DivideUnique(m + 1, w, q + 1, 0);
    }
  }

  /** The distance from a value to the next: one unit for the subnormals and the least
      exponent, and doubling with every exponent after that. */
  function Spacing(exponent: nat): nat {
    if exponent == 0 then 1 else Pow2(exponent - 1)
  }

  lemma ScaledStep(w: nat, e: nat, r: nat)
    ensures ScaledUnits(w, e, r + 1) == ScaledUnits(w, e, r) + Spacing(e)
    ensures r + 1 == w ==> ScaledUnits(w, e + 1, 0) == ScaledUnits(w, e, r) + Spacing(e)
  {
    if 0 < e {
      Distribute(w + r, Pow2(e - 1));
      if r + 1 == w { Double(w, Pow2(e - 1)); }
    }
  }

  lemma Distribute(x: nat, p: nat)
    ensures (x + 1) * p == x * p + p
  {
  }

  lemma Double(w: nat, p: nat)
    ensures w * (2 * p) == (w + w) * p
  {
  }

  lemma UnitsOfStep(f: Format, m: nat)
    requires 0 < f.fractions
    ensures UnitsOf(f, m + 1) == UnitsOf(f, m) + Spacing(m / f.fractions)
  {
    hide ScaledUnits, Spacing;
    SplitMagnitude(f, m);
    ScaledStep(f.fractions, m / f.fractions, m % f.fractions);
  }

  lemma SpacingPositive(e: nat)
    ensures 0 < Spacing(e)
  {
  }

  lemma {:induction false} UnitsOfMonotone(f: Format, m: nat, n: nat)
    requires 0 < f.fractions && m < n
    ensures UnitsOf(f, m) < UnitsOf(f, n)
    decreases n - m
  {
    hide UnitsOf;
    UnitsOfStep(f, n - 1);
    SpacingPositive((n - 1) / f.fractions);
    if m == n - 1 {
    } else {
      UnitsOfMonotone(f, m, n - 1);
    }
  }

  // ----- so the value is strictly monotone in the signed magnitude

  /** The rank of a pattern's value; both zeros have rank zero. */
  function Ordinal(f: Format, b: nat): int {
    if b < SignBit(f) then Magnitude(f, b) as int else -(Magnitude(f, b) as int)
  }

  function ValueAt(f: Format, k: int): int
    requires 0 < f.fractions
  {
    if 0 <= k then UnitsOf(f, k) else -UnitsOf(f, -k)
  }

  lemma UnitsAtOrdinal(f: Format, b: nat)
    requires 0 < f.fractions
    ensures Units(f, b) == ValueAt(f, Ordinal(f, b))
  {
    assert UnitsOf(f, 0) == 0;
  }

  lemma ValueMonotone(f: Format, j: int, k: int)
    requires 0 < f.fractions
    ensures j < k <==> ValueAt(f, j) < ValueAt(f, k)
    ensures j == k <==> ValueAt(f, j) == ValueAt(f, k)
  {
    ValueIncreases(f, j, k);
    ValueIncreases(f, k, j);
  }

  lemma ValueIncreases(f: Format, j: int, k: int)
    requires 0 < f.fractions
    ensures j < k ==> ValueAt(f, j) < ValueAt(f, k)
  {
    hide UnitsOf;
    if j < k {
      ZeroUnits(f);
      if 0 <= j {
        UnitsOfMonotone(f, j, k);
      } else if k <= 0 {
        UnitsOfMonotone(f, -k, -j);
      } else {
        UnitsOfMonotone(f, 0, -j);
        UnitsOfMonotone(f, 0, k);
      }
    }
  }

  lemma ZeroUnits(f: Format)
    requires 0 < f.fractions
    ensures UnitsOf(f, 0) == 0
  {
  }

  lemma SignOfUnits(f: Format, b: nat)
    requires 0 < f.fractions
    ensures Units(f, b) < 0 <==> Ordinal(f, b) < 0
    ensures Units(f, b) == 0 <==> Ordinal(f, b) == 0
  {
    UnitsAtOrdinal(f, b);
    ValueMonotone(f, Ordinal(f, b), 0);
    ZeroUnits(f);
  }

  // ----- the distance is the difference of ranks

  function AbsInt(x: int): nat {
    if x < 0 then -x else x
  }

  lemma FiniteBelowHalf(f: Format, b: nat)
    requires Fits(f) && IsFinite(f, b)
    ensures 2 * Magnitude(f, b) <= WORD - 2
    ensures 0 < SignBit(f)
  {
    assert SignBit(f) == f.fractions * f.exponents + f.fractions;
  }

  lemma DropSignKeepsOrdinal(f: Format, b: nat)
    requires 0 < f.fractions
    ensures var b' := DropSignOfZero(f, b);
            && Ordinal(f, b') == Ordinal(f, b)
            && (0 <= Ordinal(f, b) ==> b' == Ordinal(f, b))
            && (Ordinal(f, b) < 0 ==> NegatePattern(f, b') == -Ordinal(f, b))
  {
    hide Units;
    assert 0 < SignBit(f) by { assert SignBit(f) == f.fractions * f.exponents + f.fractions; }
    SignOfUnits(f, b);
  }

  lemma SignedDistanceIsOrdinal(f: Format, x: nat, y: nat)
    requires 0 < f.fractions
    requires 0 <= Ordinal(f, x) ==> x == Ordinal(f, x)
    requires 0 <= Ordinal(f, y) ==> y == Ordinal(f, y)
    requires Ordinal(f, x) < 0 ==> NegatePattern(f, x) == -Ordinal(f, x)
    requires Ordinal(f, y) < 0 ==> NegatePattern(f, y) == -Ordinal(f, y)
    requires AbsInt(Ordinal(f, x)) + AbsInt(Ordinal(f, y)) < WORD
    ensures SignedDistance(f, x, y) == AbsInt(Ordinal(f, x) - Ordinal(f, y))
  {
    hide Units, Ordinal, NegatePattern;
    SignOfUnits(f, x);
    SignOfUnits(f, y);
  }

  /** The sum of the two distances to zero never wraps. */
  lemma DistanceIsOrdinal(f: Format, x: nat, y: nat)
    requires Fits(f) && IsPattern(f, x) && IsPattern(f, y) && IsFinite(f, x) && IsFinite(f, y)
    ensures Distance(f, x, y) == AbsInt(Ordinal(f, x) - Ordinal(f, y))
    ensures Distance(f, x, y) < WORD - 1
  {
    hide Units, SignBit, DropSignOfZero, SignedDistance, NegatePattern;
    FiniteBelowHalf(f, x);
    FiniteBelowHalf(f, y);
    DropSignKeepsOrdinal(f, x);
    DropSignKeepsOrdinal(f, y);
    SignedDistanceIsOrdinal(f, DropSignOfZero(f, x), DropSignOfZero(f, y));
  }

  /** The result marks non-finite arguments, those with all exponent bits set, and only
      them. */
  lemma SentinelIffNonFinite(f: Format, x: nat, y: nat)
    requires Fits(f) && IsPattern(f, x) && IsPattern(f, y)
    ensures Distance(f, x, y) == WORD - 1 <==> !IsFinite(f, x) || !IsFinite(f, y)
    ensures Distance(f, x, y) == WORD - 1 <==> ExponentField(f, x) == f.exponents || ExponentField(f, y) == f.exponents
  {
    hide ExponentField, IsFinite, SignedDistance;
    FiniteIffField(f, x);
    FiniteIffField(f, y);
    if IsFinite(f, x) && IsFinite(f, y) { DistanceIsOrdinal(f, x, y); }
  }

  /** In both widths. */
  lemma SentinelOfFormats(x: nat, y: nat)
    ensures IsPattern(BINARY64, x) && IsPattern(BINARY64, y) ==>
              (Distance(BINARY64, x, y) == 0xFFFF_FFFF_FFFF_FFFF <==>
                x / 0x10_0000_0000_0000 % 2048 == 2047 || y / 0x10_0000_0000_0000 % 2048 == 2047)
    ensures IsPattern(BINARY32, x) && IsPattern(BINARY32, y) ==>
              (Distance(BINARY32, x, y) == 0xFFFF_FFFF_FFFF_FFFF <==>
                x / 0x80_0000 % 256 == 255 || y / 0x80_0000 % 256 == 255)
  {
    hide ExponentField, Distance;
    FormatsFit();
    FieldsOfFormats(x);
    FieldsOfFormats(y);
    if IsPattern(BINARY64, x) && IsPattern(BINARY64, y) { SentinelIffNonFinite(BINARY64, x, y); }
    if IsPattern(BINARY32, x) && IsPattern(BINARY32, y) { SentinelIffNonFinite(BINARY32, x, y); }
  }

  /** Some distances: from one to two, as many patterns as there are fractions; and from
      the lowest finite value to the largest. */
  lemma SomeDistances()
    ensures Distance(BINARY64, 0x3FF0_0000_0000_0000, 0x4000_0000_0000_0000) == 0x10_0000_0000_0000
    ensures Distance(BINARY32, 0x3F80_0000, 0x4000_0000) == 0x80_0000
    ensures Distance(BINARY64, 0xFFEF_FFFF_FFFF_FFFF, 0x7FEF_FFFF_FFFF_FFFF) == 18437736874454810622
  {
    FormatsFit();
    hide Distance;
    DistanceIsOrdinal(BINARY64, 0x3FF0_0000_0000_0000, 0x4000_0000_0000_0000);
    DistanceIsOrdinal(BINARY32, 0x3F80_0000, 0x4000_0000);
    DistanceIsOrdinal(BINARY64, 0xFFEF_FFFF_FFFF_FFFF, 0x7FEF_FFFF_FFFF_FFFF);
  }

  // ----- and so the number of representable values

  /** The distinct values of finite patterns above lo and at most hi. */
  ghost function Representables(f: Format, lo: int, hi: int): set<int>
    requires 0 < f.fractions
  {
    set b: nat | b < 2 * SignBit(f) && IsFinite(f, b) && lo < Units(f, b) <= hi :: Units(f, b)
  }

  ghost function ValuesAt(f: Format, lo: int, hi: int): set<int>
    requires 0 < f.fractions
  {
    set k: int | lo < k <= hi :: ValueAt(f, k)
  }

  lemma {:induction false} CountValues(f: Format, lo: int, hi: int)
    requires 0 < f.fractions && lo <= hi
    ensures |ValuesAt(f, lo, hi)| == hi - lo
    decreases hi - lo
  {
    hide ValueAt;
    if lo < hi {
      CountValues(f, lo, hi - 1);
      forall k | lo < k < hi ensures ValueAt(f, k) != ValueAt(f, hi) { ValueMonotone(f, k, hi); }
      assert ValuesAt(f, lo, hi) == ValuesAt(f, lo, hi - 1) + {ValueAt(f, hi)};
    } else {
      assert ValuesAt(f, lo, hi) == {};
    }
  }

  /** The pattern of rank k with the smaller bits. */
  function PatternAt(f: Format, k: int): nat
    requires 0 < SignBit(f) + k && k < SignBit(f)
  {
    if 0 <= k then k else SignBit(f) - k
  }

  lemma RankedValue(f: Format, x: nat, y: nat, k: int)
    requires 0 < f.fractions && 0 < f.exponents && IsPattern(f, x) && IsPattern(f, y) && IsFinite(f, x) && IsFinite(f, y)
    requires Ordinal(f, x) < k <= Ordinal(f, y)
    ensures ValueAt(f, k) in Representables(f, Units(f, x), Units(f, y))
  {
    hide ValueAt, Units;
    assert SignBit(f) == f.fractions * f.exponents + f.fractions;
    var b := PatternAt(f, k);
    UnitsAtOrdinal(f, b);
    UnitsAtOrdinal(f, x);
    UnitsAtOrdinal(f, y);
    ValueMonotone(f, Ordinal(f, x), k);
    ValueMonotone(f, k, Ordinal(f, y));
    assert b < 2 * SignBit(f) && IsFinite(f, b);
  }

  lemma ValueRanked(f: Format, x: nat, y: nat, v: int)
    requires 0 < f.fractions && v in Representables(f, Units(f, x), Units(f, y))
    ensures v in ValuesAt(f, Ordinal(f, x), Ordinal(f, y))
  {
    hide ValueAt, Units;
    var b: nat :| b < 2 * SignBit(f) && IsFinite(f, b) && Units(f, x) < Units(f, b) <= Units(f, y) && v == Units(f, b);
    UnitsAtOrdinal(f, b);
    UnitsAtOrdinal(f, x);
    UnitsAtOrdinal(f, y);
    ValueMonotone(f, Ordinal(f, x), Ordinal(f, b));
    ValueMonotone(f, Ordinal(f, y), Ordinal(f, b));
  }

  /** For finite x <= y, the distance counts the representable values in (x, y],
      plus and minus zero being one value. */
  lemma DistanceCountsRepresentables(f: Format, x: nat, y: nat)
    requires Fits(f) && IsPattern(f, x) && IsPattern(f, y) && IsFinite(f, x) && IsFinite(f, y)
    requires Units(f, x) <= Units(f, y)
    ensures Distance(f, x, y) == |Representables(f, Units(f, x), Units(f, y))|
  {
    hide Distance, ValueAt;
    UnitsAtOrdinal(f, x);
    UnitsAtOrdinal(f, y);
    ValueMonotone(f, Ordinal(f, y), Ordinal(f, x));
    DistanceIsOrdinal(f, x, y);
    CountValues(f, Ordinal(f, x), Ordinal(f, y));
    var r, v := Representables(f, Units(f, x), Units(f, y)), ValuesAt(f, Ordinal(f, x), Ordinal(f, y));
    forall u | u in r ensures u in v { ValueRanked(f, x, y, u); }
    forall u | u in v ensures u in r {
      var k :| Ordinal(f, x) < k <= Ordinal(f, y) && u == ValueAt(f, k);
      RankedValue(f, x, y, k);
    }
    assert r == v;
  }

  // ----- a metric on values, additive along the line

  lemma DistanceIsMetric(f: Format, x: nat, y: nat, z: nat)
    requires Fits(f) && IsPattern(f, x) && IsPattern(f, y) && IsPattern(f, z)
    requires IsFinite(f, x) && IsFinite(f, y) && IsFinite(f, z)
    ensures Distance(f, x, y) == Distance(f, y, x)
    ensures Distance(f, x, y) == 0 <==> Units(f, x) == Units(f, y)
    ensures Distance(f, x, z) <= Distance(f, x, y) + Distance(f, y, z)
    ensures Units(f, x) <= Units(f, y) <= Units(f, z) ==> Distance(f, x, z) == Distance(f, x, y) + Distance(f, y, z)
  {
    hide Distance, ValueAt, Units;
    DistanceIsOrdinal(f, x, y);
    DistanceIsOrdinal(f, y, x);
    DistanceIsOrdinal(f, y, z);
    DistanceIsOrdinal(f, x, z);
    UnitsAtOrdinal(f, x);
    UnitsAtOrdinal(f, y);
    UnitsAtOrdinal(f, z);
    ValueMonotone(f, Ordinal(f, y), Ordinal(f, x));
    ValueMonotone(f, Ordinal(f, z), Ordinal(f, y));
  }
}
