/**
 The comparisons of scores mean what IEEE 754 binary64 says: the bit patterns are compared as
 the numbers they stand for, members as byte strings.
 */
module ScoreOrder {
  import opened Bytes
  import opened Scores

  /** The bits of the fraction field, and one more than its largest value. */
  const FRACTION: nat := 0x10_0000_0000_0000

  function Pow2(k: nat): (p: nat)
    ensures p > 0
  {
    if k == 0 then 1 else 2 * Pow2(k - 1)
  }

  /**
   The value of a non-negative pattern in units of the least positive number, 2^-1074: the
   fraction itself when the exponent field is 0, else the fraction with its implicit leading
   bit, shifted by the exponent. Infinity gets the next value after the largest number.
   */
  function Units(bits: nat): nat {
    var exponent, fraction := bits / 0x10_0000_0000_0000, bits % 0x10_0000_0000_0000;
    if exponent == 0 then fraction else (FRACTION + fraction) * Pow2(exponent - 1)
  }

  /** The value of any pattern that is not a NaN; the top bit is the sign. */
  function Numeric(bits: uint64): int {
    if bits < 0x8000_0000_0000_0000 then Units(bits) else -(Units(bits - 0x8000_0000_0000_0000) as int)
  }

  lemma UnitsOf(exponent: nat, fraction: nat)
    requires fraction < FRACTION
    ensures var bits := 0x10_0000_0000_0000 * exponent + fraction;
            Units(bits) == if exponent == 0 then fraction else (FRACTION + fraction) * Pow2(exponent - 1)
  {
    var bits := 0x10_0000_0000_0000 * exponent + fraction;
    assert bits / 0x10_0000_0000_0000 == exponent && bits % 0x10_0000_0000_0000 == fraction;
  }

  lemma Scale(a: nat, b: nat, p: nat)
    requires a < b && p > 0
    ensures a * p < b * p
  {
  }

  /** The next pattern is the next number. */
  lemma UnitsStep(bits: nat)
    ensures Units(bits) < Units(bits + 1)
  {
    var exponent, fraction := bits / 0x10_0000_0000_0000, bits % 0x10_0000_0000_0000;
    UnitsOf(exponent, fraction);
    if fraction + 1 < FRACTION {
      UnitsOf(exponent, fraction + 1);
      if exponent > 0 {
        Scale(FRACTION + fraction, FRACTION + fraction + 1, Pow2(exponent - 1));
      }
    } else {
      UnitsOf(exponent + 1, 0);
      if exponent > 0 {
        var p := Pow2(exponent - 1);
        assert Pow2(exponent) == 2 * p;
        assert FRACTION * (2 * p) == (2 * FRACTION) * p;
        Scale(FRACTION + fraction, 2 * FRACTION, p);
      }
    }
  }

  lemma {:induction false} UnitsMonotone(a: nat, b: nat)
    requires a < b
    ensures Units(a) < Units(b)
    decreases b - a
  {
    hide Units;
    UnitsStep(a);
    if a + 1 == b {
    } else {
      UnitsMonotone(a + 1, b);
    }
  }

  lemma {:induction false} Pow2Sum(a: nat, b: nat)
    ensures Pow2(a + b) == Pow2(a) * Pow2(b)
  {
    if a == 0 {
    } else {
      Pow2Sum(a - 1, b);
      assert 2 * (Pow2(a - 1) * Pow2(b)) == 2 * Pow2(a - 1) * Pow2(b);
    }
  }

  /** So the pattern of 1.0 stands for 2^1074 units and that of 2.0 for twice as much. */
  lemma OneAndTwo()
    ensures Numeric(0x3FF0_0000_0000_0000) == Pow2(1074)
    ensures Numeric(0x4000_0000_0000_0000) == 2 * Pow2(1074)
  {
    hide Pow2;
    UnitsOf(1023, 0);
    UnitsOf(1024, 0);
    Pow2Sum(52, 1022);
    assert Pow2(52) == FRACTION by { Pow2Of52(); }
    assert Pow2(1023) == 2 * Pow2(1022) by { Pow2Next(1022); }
    assert FRACTION * (2 * Pow2(1022)) == 2 * (FRACTION * Pow2(1022));
  }

  lemma Pow2Next(k: nat)
    ensures Pow2(k + 1) == 2 * Pow2(k)
  {
  }

  lemma Pow2Of52()
    ensures Pow2(52) == 0x10_0000_0000_0000
  {
    assert Pow2(13) == 0x2000;
    Pow2Sum(13, 13);
    Pow2Sum(26, 26);
  }

  /** NaN is an exponent field of all ones with a fraction other than 0. */
  lemma NaNExactly(bits: uint64)
    ensures IsNaN(bits) <==>
              bits / 0x10_0000_0000_0000 % 2048 == 2047 && bits % 0x10_0000_0000_0000 != 0
  {
    var low := if bits < 0x8000_0000_0000_0000 then bits else bits - 0x8000_0000_0000_0000;
    var e, f := low / 0x10_0000_0000_0000, low % 0x10_0000_0000_0000;
    assert low == 0x10_0000_0000_0000 * e + f && 0 <= e < 2048;
    assert bits / 0x10_0000_0000_0000 == e || bits / 0x10_0000_0000_0000 == e + 2048;
    assert bits % 0x10_0000_0000_0000 == f;
  }

  /** Scores are compared as the numbers they stand for; NaN compares with nothing. */
  lemma OrderIsNumeric(a: uint64, b: uint64)
    ensures ScoreLess(a, b) <==> !IsNaN(a) && !IsNaN(b) && Numeric(a) < Numeric(b)
    ensures ScoreEq(a, b) <==> !IsNaN(a) && !IsNaN(b) && Numeric(a) == Numeric(b)
  {
    var x := if a < TWO_63 then a else a - TWO_63;
    var y := if b < TWO_63 then b else b - TWO_63;
    assert Units(0) == 0;
    hide Units;
    if x < y {
      UnitsMonotone(x, y);
    } else if y < x {
      UnitsMonotone(y, x);
    }
    if 0 < x {
      UnitsMonotone(0, x);
    }
    if 0 < y {
      UnitsMonotone(0, y);
    }
  }

  /**
   The same on the patterns: positive ones are ordered as integers, negative ones the other way
   round and below all positive ones, and the two zeros are equal.
   */
  lemma OrderOnPatterns(a: uint64, b: uint64)
    requires a <= 0x7FF0_0000_0000_0000 && b <= 0x7FF0_0000_0000_0000
    ensures ScoreLess(a, b) <==> a < b
    ensures ScoreEq(a, b) <==> a == b
    ensures ScoreLess(a + TWO_63, b + TWO_63) <==> b < a
    ensures ScoreLess(a + TWO_63, b) <==> a > 0 || b > 0
    ensures !ScoreLess(a, b + TWO_63)
    ensures ScoreEq(0, TWO_63)
  {
  }

  /** Both ends of an interval belong to it; a NaN bound makes it empty. */
  lemma RangeIsNumeric(score: uint64, min: uint64, max: uint64)
    ensures InRange(score, min, max) <==>
              && !IsNaN(score) && !IsNaN(min) && !IsNaN(max)
              && Numeric(min) <= Numeric(score) <= Numeric(max)
  {
    hide Numeric, IsNaN, ScoreLess, ScoreEq;
    OrderIsNumeric(min, score);
    OrderIsNumeric(score, max);
  }

  /** Some position where both strings agree before it, and `a` ends or has the smaller byte. */
  ghost predicate Before(a: Bytes, b: Bytes) {
    exists n: nat :: DiffersAt(a, b, n)
  }

  predicate DiffersAt(a: Bytes, b: Bytes, n: nat) {
    && n <= |a| && n < |b|
    && a[..n] == b[..n]
    && (n == |a| || a[n] < b[n])
  }

  lemma HeadsAgree(a: Bytes, b: Bytes, n: nat)
    requires DiffersAt(a, b, n)
    ensures n > 0 ==> a != [] && b != [] && a[0] == b[0]
  {
    if n > 0 {
      assert a[..n][0] == b[..n][0];
    }
  }

  /** Members of equal score are compared byte by byte, a proper prefix first. */
  lemma {:induction false} LexIsBefore(a: Bytes, b: Bytes)
    ensures LexLess(a, b) <==> Before(a, b)
  {
    if a == [] || b == [] || a[0] != b[0] {
      if b != [] && (a == [] || a[0] < b[0]) {
        assert DiffersAt(a, b, 0);
      }
      if n: nat :| DiffersAt(a, b, n) {
        HeadsAgree(a, b, n);
      }
    } else {
      LexIsBefore(a[1..], b[1..]);
      if n: nat :| DiffersAt(a[1..], b[1..], n) {
        assert a[..n + 1] == [a[0]] + a[1..][..n] && b[..n + 1] == [b[0]] + b[1..][..n];
        assert DiffersAt(a, b, n + 1);
      }
      if n: nat :| DiffersAt(a, b, n) {
        assert n > 0;
        assert a[1..][..n - 1] == a[..n][1..] && b[1..][..n - 1] == b[..n][1..];
        assert DiffersAt(a[1..], b[1..], n - 1);
      }
    }
  }
}
