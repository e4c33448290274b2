/** Counters kept in machine words: masking, wrapping and the differences that survive it. */
module Counters {
  import opened Words

  lemma {:induction false} PowSplit(a: nat, b: nat)
    ensures Pow2(a + b) == Pow2(a) * Pow2(b)
    decreases a
  {
    if a > 0 {
      PowSplit(a - 1, b);
      assert 2 * (Pow2(a - 1) * Pow2(b)) == (2 * Pow2(a - 1)) * Pow2(b);
    }
  }

  lemma {:induction false} PowOrder(a: nat, b: nat)
    requires a < b
    ensures Pow2(a) < Pow2(b)
    decreases b
  {
    if a < b - 1 {
      PowOrder(a, b - 1);
    }
  }

  lemma DivMod(x: nat, m: nat)
    requires m > 0
    ensures x == (x / m) * m + x % m && x % m < m
  {
  }

  lemma Distribute(a: int, b: int, m: nat)
    ensures (a + b) * m == a * m + b * m
  {
  }

  lemma Regroup(a: int, b: int, m: nat)
    ensures a * (b * m) == (a * b) * m
  {
  }

  /** Reducing twice, by a multiple first, is reducing once. */
  lemma ModOfMod(x: nat, m: nat, k: nat)
    requires m > 0 && k > 0
    ensures k * m > 0 && (x % (k * m)) % m == x % m
  {
    MulStep(k, 0, m);
    var n := k * m;
    var q, r := x / n, x % n;
    DivMod(x, n);
    DivMod(r, m);
    ReducedTwice(x, m, k, q, r / m, r % m);
  }

  lemma ReducedTwice(x: nat, m: nat, k: nat, q: nat, q': nat, r: nat)
    requires r < m && x == q * (k * m) + (q' * m + r)
    ensures x % m == r
  {
    Regroup(q, k, m);
    Distribute(q * k, q', m);
    assert q * k >= 0;
    ModIs(x, m, q * k + q', r);
  }

  /** Masking a wrapped counter gives the counter's place in the lap. */
  lemma MaskOfWord(x: nat, bits: nat, width: nat)
    requires bits <= width
    ensures BitAnd(x % Pow2(width), Pow2(bits) - 1) == x % Pow2(bits)
  {
    PowSplit(width - bits, bits);
    ModOfMod(x, Pow2(bits), Pow2(width - bits));
    MaskIsMod(x % Pow2(width), bits);
  }

  /** Places less than a lap apart are in different slots. */
  lemma DifferentSlots(i: nat, j: nat, m: nat)
    requires i < j < i + m
    ensures i % m != j % m
  {
    if i % m == j % m {
      DivMod(i, m);
      DivMod(j, m);
      if j / m > i / m {
        MulStep(j / m, i / m, m);
      } else if j / m < i / m {
        MulStep(i / m, j / m, m);
      }
    }
  }

  lemma NextLap(i: nat, m: nat)
    requires m > 0
    ensures (i + m) % m == i % m
  {
    DivMod(i, m);
    assert (i / m + 1) * m == (i / m) * m + m;
    ModIs(i + m, m, i / m + 1, i % m);
  }

  lemma SameWord(a: nat, b: nat, m: nat)
    requires a <= b < a + m && a % m == b % m
    ensures a == b
  {
    if a < b {
      DifferentSlots(a, b, m);
    }
  }

  lemma NextWord(x: nat, m: nat)
    requires m > 0
    ensures (x % m + 1) % m == (x + 1) % m
  {
    DivMod(x, m);
    NextWordOf(x, m, x / m, x % m);
  }

  lemma NextWordOf(x: nat, m: nat, q: nat, r: nat)
    requires r < m && x == q * m + r
    ensures (r + 1) % m == (x + 1) % m
  {
    if r + 1 < m {
      ModIs(x + 1, m, q, r + 1);
      ModIs(r + 1, m, 0, r + 1);
    } else {
      Distribute(q, 1, m);
      ModIs(x + 1, m, q + 1, 0);
      ModIs(m, m, 1, 0);
    }
  }

  /** A wrapped difference is congruent to the true one. */
  lemma WrappedDifference(a: nat, b: nat, m: nat, d: nat, lap: int)
    requires m > 0 && d < m && a - b == d + lap * m
    ensures (a % m - b % m) % m == d
  {
    DivMod(a, m);
    DivMod(b, m);
    var x := a % m - b % m;
    var q := lap - a / m + b / m;
    assert (a / m) * m - (b / m) * m + x == d + lap * m;
    assert q * m == lap * m - (a / m) * m + (b / m) * m;
    assert x == d + q * m;
    EuclidIs(x, m, q, d);
  }

  lemma EuclidIs(x: int, m: nat, q: int, r: nat)
    requires r < m && x == q * m + r
    ensures x % m == r
  {
    var q', r' := x / m, x % m;
    DivModInt(x, m);
    if q > q' {
      MulStep(q, q', m);
    } else if q < q' {
      MulStep(q', q, m);
    }
  }

  lemma DivModInt(x: int, m: nat)
    requires m > 0
    ensures x == (x / m) * m + x % m && 0 <= x % m < m
  {
  }

  /** The wrapped difference of two counters is exactly a lap iff the true one is, as long as the first
      is neither more than a lap ahead nor too far behind. */
  lemma FullTest(a: nat, b: nat, cap: nat, m: nat)
    requires 0 < cap < m && a <= b + cap && b < a + m - cap
    ensures (a % m - b % m) % m == cap <==> a == b + cap
  {
    if a >= b {
      WrappedDifference(a, b, m, a - b, 0);
    } else {
      WrappedDifference(a, b, m, m - (b - a), -1);
    }
  }

  /** Adding to a wrapped count wraps the sum. */
  lemma WrappedSum(x: int, d: int, m: nat)
    requires m > 0
    ensures (x % m + d) % m == (x + d) % m
  {
    DivModInt(x, m);
    DivModInt(x % m + d, m);
    WrappedSumOf(x, d, m, x / m, x % m, (x % m + d) / m, (x % m + d) % m);
  }

  lemma WrappedSumOf(x: int, d: int, m: nat, q: int, r: int, q': int, r': nat)
    requires r' < m && x == q * m + r && r + d == q' * m + r'
    ensures (x + d) % m == r'
  {
    Distribute(q, q', m);
    EuclidIs(x + d, m, q + q', r');
  }
}
