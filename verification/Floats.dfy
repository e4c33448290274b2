/** The IEEE-754 order of `f64` values, on their bit patterns. */
module Floats {
  import opened Bytes
  import Words
  import Counters

  /** Bit pattern of positive infinity: a larger magnitude is a NaN. */
  const INFINITY: int := 0x7ff0_0000_0000_0000

  function Magnitude(x: u64): nat {
    if x >= TWO_63 then x - TWO_63 else x
  }

  predicate IsNan(x: u64) {
    Magnitude(x) > INFINITY
  }

  /** Signed magnitude as an integer; both zeros are 0. */
  function Key(x: u64): int {
    var magnitude: int := Magnitude(x);
    if x >= TWO_63 then -magnitude else magnitude
  }

  /** `a < b`, false when either is a NaN. */
  predicate Lt(a: u64, b: u64) {
    !IsNan(a) && !IsNan(b) && Key(a) < Key(b)
  }

  predicate Ge(a: u64, b: u64) {
    !IsNan(a) && !IsNan(b) && Key(a) >= Key(b)
  }

  predicate Gt(a: u64, b: u64) {
    Lt(b, a)
  }

  // ----- the order is that of the numbers -----

  /** The weight of the exponent's last bit in a pattern: 2^52. */
  const FRACTIONS: int := 0x10_0000_0000_0000

  /** A finite magnitude as a multiple of the smallest subnormal, 2^-1074: the fraction alone when the
      exponent field is zero, and otherwise the fraction behind an implied one, scaled. */
  function Units(magnitude: nat): nat {
    var exponent, fraction := magnitude / FRACTIONS, magnitude % FRACTIONS;
    if exponent == 0 then fraction else (FRACTIONS + fraction) * Words.Pow2(exponent - 1)
  }

  predicate IsFinite(x: u64) {
    Magnitude(x) < INFINITY
  }

  /** The number a finite pattern stands for, in those units. */
  function Number(x: u64): int
    requires IsFinite(x)
  {
    var units: int := Units(Magnitude(x));
    if x >= TWO_63 then -units else units
  }

  /** Up to the next exponent. */
  lemma UnitsBelow(magnitude: nat)
    ensures var exponent := magnitude / FRACTIONS;
            if exponent == 0 then Units(magnitude) < FRACTIONS
            else FRACTIONS * Words.Pow2(exponent - 1) <= Units(magnitude) < FRACTIONS * Words.Pow2(exponent)
  {
    var exponent, fraction := magnitude / FRACTIONS, magnitude % FRACTIONS;
    if exponent > 0 {
      var p := Words.Pow2(exponent - 1);
      Words.MulStep(2 * FRACTIONS, FRACTIONS + fraction, p);
      assert 2 * FRACTIONS * p == FRACTIONS * (2 * p);
      Counters.Distribute(FRACTIONS, fraction, p);
      assert fraction * p >= 0;
    }
  }

  lemma UnitsOfOneExponent(a: nat, b: nat)
    requires a < b && a / FRACTIONS == b / FRACTIONS
    ensures Units(a) < Units(b)
  {
    var exponent := a / FRACTIONS;
    assert a % FRACTIONS < b % FRACTIONS;
    if exponent > 0 {
      Words.MulStep(FRACTIONS + b % FRACTIONS, FRACTIONS + a % FRACTIONS, Words.Pow2(exponent - 1));
    }
  }

  lemma {:induction false} PowGrows(i: nat, j: nat)
    requires i <= j
    ensures Words.Pow2(i) <= Words.Pow2(j)
    decreases j
  {
    if i < j {
      PowGrows(i, j - 1);
    }
  }

  /** Larger patterns of magnitudes stand for larger magnitudes. */
  lemma UnitsGrow(a: nat, b: nat)
    requires a < b
    ensures Units(a) < Units(b)
  {
    var i, j := a / FRACTIONS, b / FRACTIONS;
    if i == j {
      UnitsOfOneExponent(a, b);
    } else {
      UnitsBelow(a);
      UnitsBelow(b);
      PowGrows(i, j - 1);
    }
  }

  /** The comparisons on patterns are those of the numbers they stand for. */
  lemma OrderOfNumbers(a: u64, b: u64)
    requires IsFinite(a) && IsFinite(b)
    ensures Lt(a, b) <==> Number(a) < Number(b)
    ensures Gt(a, b) <==> Number(a) > Number(b)
    ensures Ge(a, b) <==> Number(a) >= Number(b)
  {
    var m, n := Magnitude(a), Magnitude(b);
    if m < n {
      UnitsGrow(m, n);
    } else if n < m {
      UnitsGrow(n, m);
    }
    if 0 < m {
      UnitsGrow(0, m);
    }
    if 0 < n {
      UnitsGrow(0, n);
    }
  }

  /** An infinity lies beyond every finite number on its side, and a NaN compares with nothing. */
  lemma OrderOfTheRest(a: u64, b: u64)
    ensures IsFinite(a) ==> Lt(a, INFINITY) && Lt(TWO_63 + INFINITY, a)
    ensures IsNan(a) || IsNan(b) ==> !Lt(a, b) && !Gt(a, b) && !Ge(a, b)
  {
  }
}
