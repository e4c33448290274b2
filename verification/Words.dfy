/** Bitwise operations on non-negative machine words. */
module Words {

  function Pow2(k: nat): (p: nat)
    ensures p > 0
  {
    if k == 0 then 1 else 2 * Pow2(k - 1)
  }

  /** `a & b` */
  function BitAnd(a: nat, b: nat): nat {
    if a == 0 || b == 0 then 0 else (if a % 2 == 1 && b % 2 == 1 then 1 else 0) + 2 * BitAnd(a / 2, b / 2)
  }

  /** `x & (2^k - 1)` is `x % 2^k`. */
  lemma {:induction false} MaskIsMod(x: nat, k: nat)
    ensures BitAnd(x, Pow2(k) - 1) == x % Pow2(k)
    decreases k
  {
    if k > 0 && x > 0 {
      MaskIsMod(x / 2, k - 1);
      var m := Pow2(k - 1);
      assert (2 * m - 1) / 2 == m - 1 && (2 * m - 1) % 2 == 1;
      ModTwice(x, m);
    } else if k == 0 {
      assert x % 1 == 0;
    } else {
      ZeroMod(Pow2(k));
    }
  }

  lemma ZeroMod(m: nat)
    requires m > 0
    ensures 0 % m == 0
  {
  }

  lemma ModTwice(x: nat, m: nat)
    requires m > 0
    ensures x % (2 * m) == x % 2 + 2 * ((x / 2) % m)
  {
    var q, r := (x / 2) / m, (x / 2) % m;
    assert x / 2 == q * m + r;
    assert x == x % 2 + 2 * (q * m + r) == q * (2 * m) + (x % 2 + 2 * r);
    ModIs(x, 2 * m, q, x % 2 + 2 * r);
  }

  lemma MulStep(a: int, b: int, m: nat)
    requires a > b
    ensures a * m >= b * m + m
  {
    assert (a - b - 1) * m >= 0;
  }

  /** Division with remainder is unique. */
  lemma ModIs(x: nat, m: nat, q: nat, r: nat)
    requires r < m && x == q * m + r
    ensures x % m == r && x / m == q
  {
    var q', r' := x / m, x % m;
    assert x == q' * m + r';
    if q > q' {
      MulStep(q, q', m);
    } else if q < q' {
      MulStep(q', q, m);
    }
  }

  lemma {:induction false} AndSelf(a: nat)
    ensures BitAnd(a, a) == a
  {
    if a > 0 {
      AndSelf(a / 2);
    }
  }

  /** `trailing_zeros` of a non-zero word. */
  function TrailingZeros(a: nat): nat
    requires a > 0
  {
    if a % 2 == 1 then 0 else 1 + TrailingZeros(a / 2)
  }

  /** The positions of the one bits, lowest first, counted from `base`. */
  function SetBits(mask: nat, base: nat): seq<nat> {
    if mask == 0 then [] else (if mask % 2 == 1 then [base] else []) + SetBits(mask / 2, base + 1)
  }

  lemma DropLowestOfOdd(mask: nat, base: nat)
    requires mask % 2 == 1
    ensures BitAnd(mask, mask - 1) == mask - 1
    ensures SetBits(mask, base) == [base] + SetBits(mask - 1, base)
  {
    var half := mask / 2;
    AndSelf(half);
    assert (mask - 1) / 2 == half && (mask - 1) % 2 == 0;
    if mask > 1 {
      assert SetBits(mask - 1, base) == [] + SetBits(half, base + 1);
    }
  }

  lemma HalvesOfEven(half: nat, base: nat)
    requires half > 0
    ensures BitAnd(2 * half, 2 * half - 1) == 2 * BitAnd(half, half - 1)
    ensures SetBits(2 * half, base) == SetBits(half, base + 1)
    ensures TrailingZeros(2 * half) == 1 + TrailingZeros(half)
  {
    var mask := 2 * half;
    assert mask / 2 == half && mask % 2 == 0 && (mask - 1) / 2 == half - 1 && (mask - 1) % 2 == 1;
    assert [] + SetBits(half, base + 1) == SetBits(half, base + 1);
  }

  /** `mask & (mask - 1)` drops the lowest one bit and keeps the others. */
  lemma {:induction false} DropLowestBit(mask: nat, base: nat)
    requires mask > 0
    ensures BitAnd(mask, mask - 1) < mask
    ensures SetBits(mask, base) == [base + TrailingZeros(mask)] + SetBits(BitAnd(mask, mask - 1), base)
    decreases mask
  {
    if mask % 2 == 1 {
      DropLowestOfOdd(mask, base);
    } else {
      var half := mask / 2;
      var rest := BitAnd(half, half - 1);
      DropLowestBit(half, base + 1);
      HalvesOfEven(half, base);
      if rest > 0 {
        HalvesOfEven(rest, base);
      }
    }
  }
}
