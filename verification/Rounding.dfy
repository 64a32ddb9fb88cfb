/** Widening an integer to a double. */
module Rounding {
  const TWO_53 := 0x20_0000_0000_0000

  function Abs(n: int): nat {
    if n < 0 then -n else n
  }

  /** The power of two that a 53-bit significand counts in, for integers of magnitude m. */
  function UnitFor(m: nat, unit: nat): (r: nat)
    requires unit > 0
    ensures r > 0
    ensures m <= TWO_53 * unit ==> r == unit
    decreases if m <= TWO_53 * unit then 0 else m - unit
  {
    if m <= TWO_53 * unit then unit else UnitFor(m, 2 * unit)
  }

  /** The nearest multiple of a unit, ties to an even multiple. */
  function NearestMultiple(m: nat, u: nat): nat
    requires u > 0
  {
    var q, rem := m / u, m % u;
    if 2 * rem < u || (2 * rem == u && q % 2 == 0) then q * u else (q + 1) * u
  }

  /** Conversion of an integer to the nearest double, ties to even. */
  function RoundToDouble(n: int): int {
    var rounded: int := NearestMultiple(Abs(n), UnitFor(Abs(n), 1));
    if n < 0 then -rounded else rounded
  }

  lemma MultiplesOrdered(p: nat, q: nat, u: nat)
    requires p <= q
    ensures p * u <= q * u
  {}

  lemma Decomposed(m: nat, u: nat)
    requires u > 0
    ensures m == (m / u) * u + m % u && 0 <= m % u < u
  {}

  /** Rounding does not cross a multiple. */
  lemma NearestWithin(m: nat, u: nat, k: nat)
    requires u > 0
    ensures m <= k * u ==> NearestMultiple(m, u) <= k * u
    ensures k * u <= m ==> k * u <= NearestMultiple(m, u)
  {
    var q, rem := m / u, m % u;
    Decomposed(m, u);
    if k <= q {
      MultiplesOrdered(k, q, u);
      MultiplesOrdered(q, q + 1, u);
      if k < q {
        MultiplesOrdered(k + 1, q, u);
      }
    } else {
      MultiplesOrdered(q + 1, k, u);
      assert (q + 1) * u == q * u + u;
    }
  }

  lemma QuotientsOrdered(a: nat, b: nat, u: nat)
    requires u > 0 && a <= b
    ensures a / u <= b / u
  {
    Decomposed(a, u);
    Decomposed(b, u);
    if b / u < a / u {
      MultiplesOrdered(b / u + 1, a / u, u);
    }
  }

  lemma NearestMonotone(a: nat, b: nat, u: nat)
    requires u > 0 && a <= b
    ensures NearestMultiple(a, u) <= NearestMultiple(b, u)
  {
    var p, q := a / u, b / u;
    QuotientsOrdered(a, b, u);
    if p < q {
      Decomposed(a, u);
      Decomposed(b, u);
      MultiplesOrdered(p + 1, q, u);
      NearestWithin(a, u, p + 1);
      NearestWithin(b, u, q);
    } else {
      NearestMonotoneWithin(a, b, u, q);
    }
  }

  lemma NearestMonotoneWithin(a: nat, b: nat, u: nat, q: nat)
    requires u > 0 && a <= b && a / u == q == b / u
    ensures NearestMultiple(a, u) <= NearestMultiple(b, u)
  {
    Decomposed(a, u);
    Decomposed(b, u);
    MultiplesOrdered(q, q + 1, u);
  }

  /** A unit is the first that suffices. */
  lemma {:induction false} UnitBounds(m: nat, unit: nat)
    requires unit > 0
    ensures var u := UnitFor(m, unit);
      m <= TWO_53 * u && (u == unit || exists half: nat :: u == 2 * half && half >= unit && TWO_53 * half < m)
    decreases if m <= TWO_53 * unit then 0 else m - unit
  {
    if m > TWO_53 * unit {
      UnitBounds(m, 2 * unit);
      if UnitFor(m, 2 * unit) == 2 * unit {
        assert TWO_53 * unit < m;
      }
    }
  }

  /** A larger number has the same unit or one of at least twice the size. */
  lemma {:induction false} UnitsOrdered(a: nat, b: nat, unit: nat)
    requires unit > 0 && a <= b
    ensures UnitFor(a, unit) == UnitFor(b, unit) ||
      exists half: nat :: UnitFor(b, unit) == 2 * half && UnitFor(a, unit) <= half && TWO_53 * half < b
    decreases if a <= TWO_53 * unit then 0 else a - unit
  {
    if a <= TWO_53 * unit {
      UnitBounds(b, unit);
    } else {
      UnitsOrdered(a, b, 2 * unit);
    }
  }

  lemma MagnitudesMonotone(a: nat, b: nat)
    requires a <= b
    ensures NearestMultiple(a, UnitFor(a, 1)) <= NearestMultiple(b, UnitFor(b, 1))
  {
    var u, v := UnitFor(a, 1), UnitFor(b, 1);
    UnitsOrdered(a, b, 1);
    if u == v {
      NearestMonotone(a, b, u);
    } else {
      var half: nat :| v == 2 * half && u <= half && TWO_53 * half < b;
      UnitBounds(a, 1);
      NearestWithin(a, u, TWO_53);
      NearestWithin(b, v, TWO_53 / 2);
      assert TWO_53 / 2 * v == TWO_53 * half;
    }
  }

  lemma RoundMonotone(a: int, b: int)
    requires a <= b
    ensures RoundToDouble(a) <= RoundToDouble(b)
  {
    if 0 <= a {
      MagnitudesMonotone(a, b);
    } else if b < 0 {
      MagnitudesMonotone(-b, -a);
    }
  }

  lemma SmallIntegersAreDoubles(n: int)
    requires -TWO_53 <= n <= TWO_53
    ensures RoundToDouble(n) == n
  {}

  /** A real number that a double holds; beyond 2^53 these are integers. Finer fractions than a
      double has below 2^53 do no harm here and are not excluded. */
  predicate IsFloat64(d: real) {
    || -TWO_53 as real <= d <= TWO_53 as real
    || (d == d.Floor as real && RoundToDouble(d.Floor) == d.Floor)
  }

  type Float64 = d: real | IsFloat64(d)

  /** Widening an integer keeps it on its side of every double. */
  lemma WideningKeepsSide(n: int, d: Float64)
    ensures n as real <= d ==> RoundToDouble(n) as real <= d
    ensures n as real >= d ==> RoundToDouble(n) as real >= d
  {
    if -TWO_53 as real <= d <= TWO_53 as real {
      if -TWO_53 <= n <= TWO_53 {
        SmallIntegersAreDoubles(n);
      } else if n > TWO_53 {
        RoundMonotone(TWO_53, n);
        SmallIntegersAreDoubles(TWO_53);
      } else {
        RoundMonotone(n, -TWO_53);
        SmallIntegersAreDoubles(-TWO_53);
      }
    } else {
      var whole := d.Floor;
      assert IsFloat64(d);
      assert d == whole as real;
      if n <= whole {
        RoundMonotone(n, whole);
      }
      if whole <= n {
        RoundMonotone(whole, n);
      }
    }
  }

  // ----- The nearest double -----

  function Pow2(e: nat): (r: nat)
    ensures r > 0
  {
    if e == 0 then 1 else 2 * Pow2(e - 1)
  }

  /** A magnitude with a significand of at most 53 bits. */
  predicate Scaled(d: nat, k: nat, e: nat) {
    k <= TWO_53 && d == k * Pow2(e)
  }

  ghost predicate IsDouble(d: int) {
    exists k: nat, e: nat :: Scaled(Abs(d), k, e)
  }

  /** An even significand that uses all 53 bits. */
  ghost predicate IsEven(d: int) {
    exists k: nat, e: nat :: Scaled(Abs(d), k, e) && k % 2 == 0 && 2 * k >= TWO_53
  }

  lemma {:induction false} UnitIsPower(m: nat, e: nat) returns (f: nat)
    ensures f >= e && UnitFor(m, Pow2(e)) == Pow2(f)
    decreases if m <= TWO_53 * Pow2(e) then 0 else m - Pow2(e)
  {
    f := e;
    if m > TWO_53 * Pow2(e) {
      assert Pow2(e + 1) == 2 * Pow2(e);
      f := UnitIsPower(m, e + 1);
    }
  }

  lemma {:induction false} PowersDivide(e: nat, f: nat) returns (c: nat)
    requires e <= f
    ensures c > 0 && Pow2(f) == c * Pow2(e)
    decreases f
  {
    c := 1;
    if e < f {
      c := PowersDivide(e, f - 1);
      assert Pow2(f) == 2 * (c * Pow2(e)) == (2 * c) * Pow2(e);
      c := 2 * c;
    }
  }

  lemma MultiplesApart(q: nat, k: nat, u: nat)
    ensures k == q || k * u + u <= q * u || q * u + u <= k * u
  {
    if k < q {
      MultiplesOrdered(k + 1, q, u);
      assert (k + 1) * u == k * u + u;
    } else if q < k {
      MultiplesOrdered(q + 1, k, u);
      assert (q + 1) * u == q * u + u;
    }
  }

  /** No multiple of the unit is nearer, and one at the same distance loses to an even one. */
  lemma NearestOfMultiples(m: nat, u: nat, k: nat)
    requires u > 0
    ensures Abs(m - NearestMultiple(m, u)) <= Abs(m - k * u)
    ensures Abs(m - NearestMultiple(m, u)) == Abs(m - k * u) && NearestMultiple(m, u) != k * u ==>
      NearestMultiple(m, u) == (if m / u % 2 == 0 then m / u else m / u + 1) * u
  {
    Decomposed(m, u);
    var q := m / u;
    MultiplesApart(q, k, u);
    MultiplesApart(q + 1, k, u);
    assert (q + 1) * u == q * u + u;
  }

  lemma CoarseIsMultiple(d: nat, k: nat, e: nat, f: nat) returns (c: nat)
    requires Scaled(d, k, e) && f <= e
    ensures d == c * Pow2(f)
  {
    var ratio := PowersDivide(f, e);
    c := k * ratio;
    assert k * (ratio * Pow2(f)) == (k * ratio) * Pow2(f);
  }

  /** A finer double lies below the magnitudes that need the unit. */
  lemma FinerIsBelow(d: nat, k: nat, e: nat, f: nat)
    requires Scaled(d, k, e) && e < f
    ensures 2 * d <= TWO_53 * Pow2(f)
  {
    var ratio := PowersDivide(e + 1, f);
    assert Pow2(e + 1) == 2 * Pow2(e);
    MultiplesOrdered(1, ratio, Pow2(e + 1));
    MultiplesOrdered(k, TWO_53, Pow2(e));
  }

  const TWO_52 := 0x10_0000_0000_0000

  /** What the unit of a magnitude is good for. */
  lemma UnitOf(m: nat) returns (u: nat, f: nat)
    ensures u == UnitFor(m, 1) == Pow2(f) && m <= TWO_53 * u && (f == 0 || TWO_52 * u < m)
  {
    u := UnitFor(m, 1);
    assert Pow2(0) == 1;
    f := UnitIsPower(m, 0);
    UnitBounds(m, 1);
  }

  lemma RoundedScaled(m: nat) returns (k: nat, f: nat)
    ensures Scaled(NearestMultiple(m, UnitFor(m, 1)), k, f) && Pow2(f) == UnitFor(m, 1) && (k == m / Pow2(f) || k == m / Pow2(f) + 1)
  {
    var u;
    u, f := UnitOf(m);
    var r := NearestMultiple(m, u);
    k := if r == m / u * u then m / u else m / u + 1;
    NearestWithin(m, u, TWO_53);
    if k > TWO_53 {
      MultiplesOrdered(TWO_53 + 1, k, u);
    }
  }

  lemma QuotientAtLeast(m: nat, u: nat, q: nat)
    requires u > 0 && q * u <= m
    ensures q <= m / u
  {
    Decomposed(m, u);
    if m / u < q {
      MultiplesOrdered(m / u + 1, q, u);
    }
  }

  lemma TieIsEven(m: nat, u: nat, f: nat, k: nat)
    requires u == UnitFor(m, 1) == Pow2(f) && m <= TWO_53 * u && TWO_52 * u < m
    requires var r := NearestMultiple(m, u); Abs(m - r) == Abs(m - k * u) && r != k * u
    ensures IsEven(NearestMultiple(m, u))
  {
    hide NearestMultiple, UnitFor, Pow2;
    NearestOfMultiples(m, u, k);
    QuotientAtLeast(m, u, TWO_52);
    var c := if m / u % 2 == 0 then m / u else m / u + 1;
    NearestWithin(m, u, TWO_53);
    if c > TWO_53 {
      MultiplesOrdered(TWO_53 + 1, c, u);
    }
    assert Scaled(Abs(NearestMultiple(m, u)), c, f);
  }

  lemma WholeUnits(m: nat)
    ensures NearestMultiple(m, 1) == m && Pow2(0) == 1
  {}

  lemma MagnitudeNearest(m: nat, d: nat, k: nat, e: nat)
    requires Scaled(d, k, e)
    ensures var r := NearestMultiple(m, UnitFor(m, 1));
      Abs(m - r) <= Abs(m - d) && (Abs(m - r) == Abs(m - d) && r != d ==> IsEven(r))
  {
    hide IsEven, UnitFor, NearestMultiple;
    var u, f := UnitOf(m);
    WholeUnits(m);
    if f <= e {
      var c := CoarseIsMultiple(d, k, e, f);
      NearestOfMultiples(m, u, c);
      if Abs(m - NearestMultiple(m, u)) == Abs(m - d) && NearestMultiple(m, u) != d {
        TieIsEven(m, u, f, c);
      }
    } else {
      FinerIsBelow(d, k, e, f);
      NearestOfMultiples(m, u, TWO_52);
      if Abs(m - NearestMultiple(m, u)) == Abs(m - d) && NearestMultiple(m, u) != d {
        assert d == TWO_52 * u;
        TieIsEven(m, u, f, TWO_52);
      }
    }
  }

  /** Widening an integer gives a double, no double is nearer, and of two at the same distance it
      gives the one with an even significand. */
  lemma RoundsToNearest(n: int, d: int)
    requires IsDouble(d)
    ensures var r := RoundToDouble(n);
      && IsDouble(r) && Abs(n - r) <= Abs(n - d)
      && (Abs(n - r) == Abs(n - d) && r != d ==> IsEven(r))
  {
    hide UnitFor, NearestMultiple, Pow2;
    var c, f := RoundedScaled(Abs(n));
    assert Scaled(Abs(RoundToDouble(n)), c, f);
    var k: nat, e: nat :| Scaled(Abs(d), k, e);
    MagnitudeNearest(Abs(n), Abs(d), k, e);
    assert Scaled(0, 0, 0);
    MagnitudeNearest(Abs(n), 0, 0, 0);
  }
}
