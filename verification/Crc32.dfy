/** The CRC-32 of the log trailer (section 8 of RFC 1952): a register fed one message bit at a time
    as the reference, the byte-at-a-time loop that computes it, and the burst-error guarantee.

    A `u32` under bit operations is its 32 bits, least significant first. */
module Crc32 {
  import opened Bytes
  import opened Words
  import Counters

  /** The k low bits of n, least significant first. */
  function LowBits(n: nat, k: nat): (bits: seq<bool>)
    ensures |bits| == k
  {
    if k == 0 then [] else [n % 2 == 1] + LowBits(n / 2, k - 1)
  }

  /** The number a bit string stands for. */
  function BitsValue(bits: seq<bool>): nat {
    if bits == [] then 0 else (if bits[0] then 1 else 0) + 2 * BitsValue(bits[1..])
  }

  /** k equal bits. */
  function Fill(bit: bool, k: nat): (bits: seq<bool>)
    ensures |bits| == k && forall i :: 0 <= i < k ==> bits[i] == bit
  {
    seq(k, _ => bit)
  }

  type Word = w: seq<bool> | |w| == 32 witness Fill(false, 32)

  function WordOf(n: nat): Word {
    LowBits(n, 32)
  }

  /** The exponents below 32 of the generator polynomial. */
  const EXPONENTS: set<int> := {26, 23, 22, 16, 12, 11, 10, 8, 7, 5, 4, 2, 1, 0}

  /** The generator with its bits reflected: the coefficient of x^0 is the top bit. */
  function Poly(): Word {
    seq(32, i requires 0 <= i < 32 => 31 - i in EXPONENTS)
  }

  function Ones(): Word {
    Fill(true, 32)
  }

  function Zeros(): Word {
    Fill(false, 32)
  }

  function Xor(a: Word, b: Word): Word {
    seq(32, i requires 0 <= i < 32 => a[i] != b[i])
  }

  function And(a: Word, b: Word): Word {
    seq(32, i requires 0 <= i < 32 => a[i] && b[i])
  }

  function Not(a: Word): Word {
    seq(32, i requires 0 <= i < 32 => !a[i])
  }

  /** `a >> 1` */
  function Shr(a: Word): Word {
    a[1..] + [false]
  }

  /** One division step: shift right, and subtract the polynomial when a one fell out. */
  function Step(crc: Word): Word {
    if crc[0] then Xor(Shr(crc), Poly()) else Shr(crc)
  }

  /** A message bit enters at the low end. */
  function Fold(crc: Word, bit: bool): Word {
    crc[0 := crc[0] != bit]
  }

  /** The register after a bit string. */
  function Feed(crc: Word, bits: seq<bool>): Word
    decreases |bits|
  {
    if bits == [] then crc else Feed(Step(Fold(crc, bits[0])), bits[1..])
  }

  /** A byte string as its bits in the order the register sees them. */
  function MessageBits(bytes: seq<byte>): (bits: seq<bool>)
    ensures |bits| == 8 * |bytes|
  {
    if bytes == [] then [] else LowBits(bytes[0], 8) + MessageBits(bytes[1..])
  }

  function Checksum(bytes: seq<byte>): u32 {
    BitsValueRange(Not(Feed(Ones(), MessageBits(bytes))));
    BitsValue(Not(Feed(Ones(), MessageBits(bytes))))
  }

  // ----- bits and numbers -----

  lemma PowValues()
    ensures Pow2(8) == 256 && Pow2(32) == TWO_32
  {
    Counters.PowSplit(8, 8);
    Counters.PowSplit(16, 16);
  }

  lemma {:induction false} BitsValueThenLowBits(bits: seq<bool>)
    ensures BitsValue(bits) < Pow2(|bits|)
    ensures LowBits(BitsValue(bits), |bits|) == bits
  {
    if bits != [] {
      BitsValueThenLowBits(bits[1..]);
      assert BitsValue(bits) / 2 == BitsValue(bits[1..]);
    }
  }

  lemma BitsValueRange(w: Word)
    ensures BitsValue(w) < TWO_32
  {
    BitsValueThenLowBits(w);
    PowValues();
  }

  lemma {:induction false} LowBitsThenBitsValue(n: nat, k: nat)
    requires n < Pow2(k)
    ensures BitsValue(LowBits(n, k)) == n
  {
    if k > 0 {
      LowBitsThenBitsValue(n / 2, k - 1);
      assert LowBits(n, k)[1..] == LowBits(n / 2, k - 1);
    }
  }

  lemma {:induction false} BitsValueAppend(a: seq<bool>, b: seq<bool>)
    ensures BitsValue(a + b) == BitsValue(a) + Pow2(|a|) * BitsValue(b)
  {
    if a == [] {
      assert a + b == b;
    } else {
      assert (a + b)[1..] == a[1..] + b;
      BitsValueAppend(a[1..], b);
      DoubledProduct(Pow2(|a| - 1), BitsValue(b));
    }
  }

  lemma DoubledProduct(p: nat, v: nat)
    ensures (2 * p) * v == 2 * (p * v)
  {
  }

  lemma PolyByte0(part: seq<bool>)
    requires part == Poly()[0..8]
    ensures BitsValue(part) == 0x20
  {
    assert part == [false, false, false, false, false, true, false, false];
    assert LowBits(0x20, 8) == part;
    PowValues();
    LowBitsThenBitsValue(0x20, 8);
  }

  lemma PolyByte1(part: seq<bool>)
    requires part == Poly()[8..16]
    ensures BitsValue(part) == 0x83
  {
    assert part == [true, true, false, false, false, false, false, true];
    assert LowBits(0x83, 8) == part;
    PowValues();
    LowBitsThenBitsValue(0x83, 8);
  }

  lemma PolyByte2(part: seq<bool>)
    requires part == Poly()[16..24]
    ensures BitsValue(part) == 0xb8
  {
    assert part == [false, false, false, true, true, true, false, true];
    assert LowBits(0xb8, 8) == part;
    PowValues();
    LowBitsThenBitsValue(0xb8, 8);
  }

  lemma PolyByte3(part: seq<bool>)
    requires part == Poly()[24..32]
    ensures BitsValue(part) == 0xed
  {
    assert part == [true, false, true, true, false, true, true, true];
    assert LowBits(0xed, 8) == part;
    PowValues();
    LowBitsThenBitsValue(0xed, 8);
  }

  /** The constant in the loop is the reflected generator. */
  lemma PolyValue()
    ensures BitsValue(Poly()) == 0xedb8_8320
    ensures WordOf(0xedb8_8320) == Poly()
  {
    var p := Poly();
    var a, b, c, d := p[..8], p[8..16], p[16..24], p[24..32];
    PolyByte0(a);
    PolyByte1(b);
    PolyByte2(c);
    PolyByte3(d);
    PowValues();
    assert p == a + (b + (c + d));
    BitsValueAppend(a, b + (c + d));
    BitsValueAppend(b, c + d);
    BitsValueAppend(c, d);
    assert BitsValue(p) == 0xedb8_8320;
    BitsValueThenLowBits(p);
  }

  lemma PolyTopBit()
    ensures Poly()[31]
  {
  }

  // ----- the loop computes the register -----

  function Steps(crc: Word, n: nat): Word
    decreases n
  {
    if n == 0 then crc else Steps(Step(crc), n - 1)
  }

  lemma {:induction false} StepsNext(crc: Word, n: nat)
    ensures Steps(crc, n + 1) == Step(Steps(crc, n))
    decreases n
  {
    if n > 0 {
      StepsNext(Step(crc), n - 1);
    }
  }

  /** Whether w has no bit set from position k up. */
  predicate FitsIn(w: Word, k: nat) {
    forall i :: k <= i < 32 ==> !w[i]
  }

  lemma StepCarriesHighPart(crc: Word, w: Word)
    ensures Step(Xor(crc, w)) == Xor(Step(Fold(crc, w[0])), Shr(w))
  {
    assert Shr(Fold(crc, w[0])) == Shr(crc);
    assert Xor(crc, w)[0] == Fold(crc, w[0])[0];
  }

  /** Folding a k-bit word in at once and stepping k times feeds its bits one at a time. */
  lemma {:induction false} StepsAreFeed(crc: Word, w: Word, k: nat)
    requires k <= 32 && FitsIn(w, k)
    ensures Steps(Xor(crc, w), k) == Feed(crc, w[..k])
    decreases k
  {
    if k == 0 {
      assert Xor(crc, w) == crc;
    } else {
      StepCarriesHighPart(crc, w);
      StepsAreFeed(Step(Fold(crc, w[0])), Shr(w), k - 1);
      assert w[..k][1..] == Shr(w)[..k - 1];
    }
  }

  lemma {:induction false} LowBitsWiden(n: nat, k: nat, m: nat)
    requires k <= m && n < Pow2(k)
    ensures LowBits(n, m)[..k] == LowBits(n, k)
    ensures forall i :: k <= i < m ==> !LowBits(n, m)[i]
  {
    if k > 0 {
      LowBitsWiden(n / 2, k - 1, m - 1);
    } else if m > 0 {
      LowBitsWiden(0, 0, m - 1);
    }
  }

  lemma {:induction false} FeedAppend(crc: Word, a: seq<bool>, b: seq<bool>)
    ensures Feed(crc, a + b) == Feed(Feed(crc, a), b)
    decreases |a|
  {
    if a == [] {
      assert a + b == b;
    } else {
      assert (a + b)[1..] == a[1..] + b;
      FeedAppend(Step(Fold(crc, a[0])), a[1..], b);
    }
  }

  lemma {:induction false} MessageBitsAppend(a: seq<byte>, b: seq<byte>)
    ensures MessageBits(a + b) == MessageBits(a) + MessageBits(b)
  {
    if a == [] {
      assert a + b == b;
    } else {
      assert (a + b)[1..] == a[1..] + b;
      MessageBitsAppend(a[1..], b);
    }
  }

  lemma MessageBitsNext(bytes: seq<byte>, i: nat)
    requires i < |bytes|
    ensures MessageBits(bytes[..i + 1]) == MessageBits(bytes[..i]) + LowBits(bytes[i], 8)
  {
    assert bytes[..i + 1] == bytes[..i] + [bytes[i]];
    MessageBitsAppend(bytes[..i], [bytes[i]]);
    assert MessageBits([bytes[i]]) == LowBits(bytes[i], 8) + MessageBits([]);
  }

  /** `0u32.wrapping_sub(bit)` */
  function WrappingNegate(bit: bool): Word {
    WordOf(if bit then TWO_32 - 1 else 0)
  }

  lemma NegateFillsWord(bit: bool)
    ensures forall i :: 0 <= i < 32 ==> WrappingNegate(bit)[i] == bit
  {
    PowValues();
    if bit {
      BitsValueOfOnes(32);
      BitsValueThenLowBits(Ones());
    } else {
      LowBitsWiden(0, 0, 32);
    }
  }

  lemma {:induction false} BitsValueOfOnes(k: nat)
    ensures BitsValue(Fill(true, k)) == Pow2(k) - 1
  {
    if k > 0 {
      BitsValueOfOnes(k - 1);
      assert Fill(true, k)[1..] == Fill(true, k - 1);
    }
  }

  /** The inner loop: a byte is folded in whole, then shifted out one bit a round. */
  method ShiftIn(start: Word, b: nat, rounds: nat) returns (crc: Word)
    requires rounds <= 32 && b < Pow2(rounds)
    ensures crc == Feed(start, LowBits(b, rounds))
  {
    var word := WordOf(b);
    crc := Xor(start, word);
    ghost var mixed := crc;
    PolyValue();
    for j := 0 to rounds
      invariant crc == Steps(mixed, j)
    {
      StepsNext(mixed, j);
      var mask := WrappingNegate(crc[0]);
      MaskedStep(crc, mask);
      crc := Xor(Shr(crc), And(WordOf(0xedb8_8320), mask));
    }
    LowBitsWiden(b, rounds, 32);
    StepsAreFeed(start, word, rounds);
  }

  /** The branch-free round: the low bit, widened to a mask, selects the polynomial. */
  lemma MaskedStep(crc: Word, mask: Word)
    requires mask == WrappingNegate(crc[0])
    ensures Xor(Shr(crc), And(Poly(), mask)) == Step(crc)
  {
    NegateFillsWord(crc[0]);
  }

  /** The checksum loop of the log computes the reference register for every input. */
  method Checksum32(bytes: seq<byte>) returns (checksum: u32)
    ensures checksum == Checksum(bytes)
  {
    var crc := Ones();
    for i := 0 to |bytes|
      invariant crc == Feed(Ones(), MessageBits(bytes[..i]))
    {
      PowValues();
      crc := ShiftIn(crc, bytes[i], 8);
      MessageBitsNext(bytes, i);
      FeedAppend(Ones(), MessageBits(bytes[..i]), LowBits(bytes[i], 8));
    }
    assert bytes[..|bytes|] == bytes;
    BitsValueRange(Not(crc));
    checksum := BitsValue(Not(crc));
  }

  // ----- known answers -----

  lemma {:induction false} StepsOfZeros(n: nat)
    ensures Steps(Zeros(), n) == Zeros()
  {
    if n > 0 {
      assert Step(Zeros()) == Zeros();
      StepsOfZeros(n - 1);
    }
  }

  lemma {:induction false} BitsValueOfNot(bits: seq<bool>, flipped: seq<bool>)
    requires |flipped| == |bits| && forall i :: 0 <= i < |bits| ==> flipped[i] == !bits[i]
    ensures BitsValue(flipped) + BitsValue(bits) == Pow2(|bits|) - 1
  {
    if bits != [] {
      BitsValueOfNot(bits[1..], flipped[1..]);
    }
  }

  /** Four bytes of ones clear the register. */
  lemma FourBytesOfOnes()
    ensures Feed(Ones(), MessageBits([0xff, 0xff, 0xff, 0xff])) == Zeros()
  {
    var message := [0xff, 0xff, 0xff, 0xff];
    LowBitsOfOnes(8);
    assert MessageBits(message[3..]) == Fill(true, 8) + MessageBits([]);
    assert MessageBits(message[2..]) == Fill(true, 8) + MessageBits(message[3..]);
    assert MessageBits(message[1..]) == Fill(true, 8) + MessageBits(message[2..]);
    assert MessageBits(message) == Fill(true, 8) + MessageBits(message[1..]);
    assert MessageBits(message) == Ones()[..32];
    StepsAreFeed(Ones(), Ones(), 32);
    assert Xor(Ones(), Ones()) == Zeros();
    StepsOfZeros(32);
  }

  lemma LowBitsOfOnes(k: nat)
    ensures LowBits(Pow2(k) - 1, k) == Fill(true, k)
    ensures k == 8 ==> Pow2(k) - 1 == 0xff
  {
    PowValues();
    BitsValueOfOnes(k);
    BitsValueThenLowBits(Fill(true, k));
  }

  /** The last bit of the byte 80 is its only one. */
  lemma LastBitAlone()
    ensures Feed(Zeros(), MessageBits([0x80])) == Poly()
  {
    var bits: seq<bool> := Fill(false, 7) + [true];
    assert bits[1..] == Fill(false, 6) + [true];
    assert LowBits(0x80, 8) == bits;
    assert MessageBits([0x80]) == bits + MessageBits([]) == bits;
    FeedAppend(Zeros(), Fill(false, 7), [true]);
    StepsAreFeed(Zeros(), Zeros(), 7);
    assert Xor(Zeros(), Zeros()) == Zeros() && Zeros()[..7] == Fill(false, 7);
    StepsOfZeros(7);
    assert [true][1..] == [];
    assert Step(Fold(Zeros(), true)) == Poly();
  }

  lemma ChecksumOfRegister(message: seq<byte>, register: Word)
    requires Feed(Ones(), MessageBits(message)) == register
    ensures Checksum(message) == TWO_32 - 1 - BitsValue(register)
  {
    PowValues();
    BitsValueOfNot(register, Not(register));
  }

  lemma FiveBytes(four: seq<byte>, last: seq<byte>)
    requires Feed(Ones(), MessageBits(four)) == Zeros() && Feed(Zeros(), MessageBits(last)) == Poly()
    ensures Checksum(four + last) == 0x1247_7cdf
  {
    FeedBehind(four, last);
    ChecksumOfRegister(four + last, Poly());
    PolyValue();
  }

  lemma FeedBehind(a: seq<byte>, b: seq<byte>)
    ensures Feed(Ones(), MessageBits(a + b)) == Feed(Feed(Ones(), MessageBits(a)), MessageBits(b))
  {
    MessageBitsAppend(a, b);
    FeedAppend(Ones(), MessageBits(a), MessageBits(b));
  }

  lemma {:induction false} BitsValueOfZeros(k: nat)
    ensures BitsValue(Fill(false, k)) == 0
  {
    if k > 0 {
      BitsValueOfZeros(k - 1);
      assert Fill(false, k)[1..] == Fill(false, k - 1);
    }
  }

  lemma BitsValueOfOnesWord()
    ensures BitsValue(Ones()) == TWO_32 - 1
  {
    PowValues();
    BitsValueOfOnes(32);
  }

  /** Three answers any CRC-32 gives: 0 for no bytes, ffffffff for four bytes of ones, and 12477cdf for
      these with the byte 80 behind. */
  lemma KnownAnswers(four: seq<byte>)
    requires four == [0xff, 0xff, 0xff, 0xff]
    ensures Checksum([]) == 0 && Checksum(four) == 0xffff_ffff && Checksum(four + [0x80]) == 0x1247_7cdf
  {
    BitsValueOfOnesWord();
    ChecksumOfRegister([], Ones());
    FourBytesOfOnes();
    BitsValueOfZeros(32);
    ChecksumOfRegister(four, Zeros());
    LastBitAlone();
    FiveBytes(four, [0x80]);
  }

  // ----- burst errors -----

  function XorBits(u: seq<bool>, v: seq<bool>): (w: seq<bool>)
    requires |u| == |v|
    ensures |w| == |u|
  {
    seq(|u|, i requires 0 <= i < |u| => u[i] != v[i])
  }

  lemma StepLinear(a: Word, b: Word, x: bool, y: bool)
    ensures Xor(Step(Fold(a, x)), Step(Fold(b, y))) == Step(Fold(Xor(a, b), x != y))
  {
  }

  /** The register is linear: the difference of two runs is the run of the differences. */
  lemma {:induction false} FeedLinear(a: Word, b: Word, u: seq<bool>, v: seq<bool>)
    requires |u| == |v|
    ensures Xor(Feed(a, u), Feed(b, v)) == Feed(Xor(a, b), XorBits(u, v))
    decreases |u|
  {
    if u != [] {
      FeedLinear(Step(Fold(a, u[0])), Step(Fold(b, v[0])), u[1..], v[1..]);
      StepLinear(a, b, u[0], v[0]);
      assert XorBits(u, v)[1..] == XorBits(u[1..], v[1..]);
    }
  }

  /** A step is an invertible map of the register, because the polynomial's top bit is set. */
  lemma StepInjective(a: Word, b: Word)
    requires Step(a) == Step(b)
    ensures a == b
  {
    PolyTopBit();
    assert Step(a)[31] == a[0] && Step(b)[31] == b[0];
    forall i | 1 <= i < 32
      ensures a[i] == b[i]
    {
      assert Step(a)[i - 1] == Step(b)[i - 1];
      assert Shr(a)[i - 1] == a[i] && Shr(b)[i - 1] == b[i];
    }
  }

  /** Two registers fed the same bits meet only if they started equal. */
  lemma {:induction false} FeedInjective(a: Word, b: Word, bits: seq<bool>)
    requires Feed(a, bits) == Feed(b, bits)
    ensures a == b
    decreases |bits|
  {
    if bits != [] {
      var x, y := Fold(a, bits[0]), Fold(b, bits[0]);
      FeedInjective(Step(x), Step(y), bits[1..]);
      StepInjective(x, y);
      assert forall i :: 1 <= i < 32 ==> a[i] == x[i] && b[i] == y[i];
    }
  }

  /** A difference that dies out after k bits lay within the k low positions. */
  lemma {:induction false} VanishingDifferenceIsSmall(d: Word, e: seq<bool>)
    requires |e| <= 32
    requires Feed(d, e) == Zeros()
    ensures FitsIn(d, |e|)
    decreases |e|
  {
    if e != [] {
      var x := Fold(d, e[0]);
      VanishingDifferenceIsSmall(Step(x), e[1..]);
      PolyTopBit();
      assert Step(x)[31] == x[0];
      forall i | |e| <= i < 32
        ensures !d[i]
      {
        assert Step(x)[i - 1] == Shr(x)[i - 1] == d[i];
      }
    }
  }

  /** No non-zero pattern of at most 32 bits takes the register from zero back to zero. */
  lemma {:induction false} ShortPatternsDoNotVanish(e: seq<bool>)
    requires |e| <= 32
    requires Feed(Zeros(), e) == Zeros()
    ensures forall i :: 0 <= i < |e| ==> !e[i]
    decreases |e|
  {
    if e != [] {
      var x := Fold(Zeros(), e[0]);
      VanishingDifferenceIsSmall(Step(x), e[1..]);
      PolyTopBit();
      assert Step(x)[31] == e[0];
      assert Step(x) == Zeros();
      ShortPatternsDoNotVanish(e[1..]);
    }
  }

  lemma XorSelf(a: Word)
    ensures Xor(a, a) == Zeros()
  {
  }

  /** At most 32 bits leave the register in different states whenever they differ at all. */
  lemma WindowInjective(crc: Word, u: seq<bool>, v: seq<bool>)
    requires |u| == |v| <= 32
    requires Feed(crc, u) == Feed(crc, v)
    ensures u == v
  {
    FeedLinear(crc, crc, u, v);
    XorSelf(crc);
    XorSelf(Feed(crc, u));
    ShortPatternsDoNotVanish(XorBits(u, v));
    forall i | 0 <= i < |u|
      ensures u[i] == v[i]
    {
      assert !XorBits(u, v)[i];
    }
  }

  /** Whether two bit strings of one length differ only inside [from, from + 32). */
  ghost predicate DifferInWindow(a: seq<bool>, b: seq<bool>, from: nat) {
    && |a| == |b|
    && forall i :: 0 <= i < |a| && !(from <= i < from + 32) ==> a[i] == b[i]
  }

  /** Any single burst of at most 32 bits, at any bit position, changes the register. */
  lemma BurstChangesRegister(crc: Word, a: seq<bool>, b: seq<bool>, from: nat)
    requires DifferInWindow(a, b, from) && a != b
    ensures Feed(crc, a) != Feed(crc, b)
  {
    var p := if from <= |a| then from else |a|;
    var q := if from + 32 <= |a| then from + 32 else |a|;
    assert a == a[..p] + (a[p..q] + a[q..]) && b == b[..p] + (b[p..q] + b[q..]);
    assert a[..p] == b[..p] && a[q..] == b[q..];
    var c := Feed(crc, a[..p]);
    FeedAppend(crc, a[..p], a[p..q] + a[q..]);
    FeedAppend(crc, b[..p], b[p..q] + b[q..]);
    FeedAppend(c, a[p..q], a[q..]);
    FeedAppend(c, b[p..q], b[q..]);
    if Feed(crc, a) == Feed(crc, b) {
      FeedInjective(Feed(c, a[p..q]), Feed(c, b[p..q]), a[q..]);
      WindowInjective(c, a[p..q], b[p..q]);
    }
  }

  lemma {:induction false} MessageBitsInjective(a: seq<byte>, b: seq<byte>)
    requires |a| == |b| && MessageBits(a) == MessageBits(b)
    ensures a == b
  {
    if a != [] {
      var x, y := LowBits(a[0], 8), LowBits(b[0], 8);
      assert x == MessageBits(a)[..8] && y == MessageBits(b)[..8];
      assert MessageBits(a[1..]) == MessageBits(a)[8..] && MessageBits(b[1..]) == MessageBits(b)[8..];
      PowValues();
      LowBitsThenBitsValue(a[0], 8);
      LowBitsThenBitsValue(b[0], 8);
      MessageBitsInjective(a[1..], b[1..]);
      assert a == [a[0]] + a[1..] && b == [b[0]] + b[1..];
    }
  }

  /** Two messages of one length whose bits differ inside a single window of 32 positions,
      aligned to bytes or not, never have the same checksum. */
  lemma BurstChangesChecksum(a: seq<byte>, b: seq<byte>, from: nat)
    requires |a| == |b| && a != b
    requires DifferInWindow(MessageBits(a), MessageBits(b), from)
    ensures Checksum(a) != Checksum(b)
  {
    if MessageBits(a) == MessageBits(b) {
      MessageBitsInjective(a, b);
    }
    BurstChangesRegister(Ones(), MessageBits(a), MessageBits(b), from);
    var x, y := Feed(Ones(), MessageBits(a)), Feed(Ones(), MessageBits(b));
    BitsValueThenLowBits(Not(x));
    BitsValueThenLowBits(Not(y));
    if Not(x) == Not(y) {
      assert forall i :: 0 <= i < 32 ==> x[i] == !Not(x)[i] && y[i] == !Not(y)[i];
    }
  }

  lemma {:induction false} MessageBitAt(bytes: seq<byte>, i: nat)
    requires i < 8 * |bytes|
    ensures MessageBits(bytes)[i] == LowBits(bytes[i / 8], 8)[i % 8]
  {
    var rest := bytes[1..];
    if i < 8 {
      assert i / 8 == 0 && i % 8 == i;
    } else {
      MessageBitAt(rest, i - 8);
      assert (i - 8) / 8 == i / 8 - 1 && (i - 8) % 8 == i % 8;
      assert MessageBits(bytes)[i] == MessageBits(rest)[i - 8];
    }
  }

  /** Whether two byte strings of one length differ only inside [from, from + 4). */
  ghost predicate DifferInFourBytes(a: seq<byte>, b: seq<byte>, from: nat) {
    && |a| == |b|
    && forall i :: 0 <= i < |a| && !(from <= i < from + 4) ==> a[i] == b[i]
  }

  /** Damage confined to four consecutive bytes is one such window. */
  lemma FourByteDamageIsABurst(a: seq<byte>, b: seq<byte>, from: nat)
    requires DifferInFourBytes(a, b, from)
    ensures DifferInWindow(MessageBits(a), MessageBits(b), 8 * from)
  {
    forall i | 0 <= i < 8 * |a| && !(8 * from <= i < 8 * from + 32)
      ensures MessageBits(a)[i] == MessageBits(b)[i]
    {
      MessageBitAt(a, i);
      MessageBitAt(b, i);
      assert a[i / 8] == b[i / 8];
    }
  }

  // ----- checking a message against its stored checksum -----

  /** A byte string's bits and its little-endian value are the same number. */
  lemma {:induction false} MessageBitsValue(bytes: seq<byte>)
    ensures BitsValue(MessageBits(bytes)) == LeValue(bytes)
  {
    if bytes != [] {
      MessageBitsValue(bytes[1..]);
      BitsValueAppend(LowBits(bytes[0], 8), MessageBits(bytes[1..]));
      PowValues();
      LowBitsThenBitsValue(bytes[0], 8);
    }
  }

  /** Feeding 32 bits is folding them in as one word and feeding 32 zeros. */
  lemma {:induction false} FeedWord(crc: Word, w: Word, k: nat)
    requires k <= 32 && FitsIn(w, k)
    ensures Feed(crc, w[..k]) == Feed(Xor(crc, w), Fill(false, k))
    decreases k
  {
    if k == 0 {
      assert Xor(crc, w) == crc;
    } else {
      StepCarriesHighPart(crc, w);
      FeedWord(Step(Fold(crc, w[0])), Shr(w), k - 1);
      assert w[..k][1..] == Shr(w)[..k - 1];
      assert Fold(Xor(crc, w), false) == Xor(crc, w);
      assert Fill(false, k)[1..] == Fill(false, k - 1);
    }
  }

  /** The register after any message followed by its own checksum. */
  function Residue(): Word {
    Feed(Ones(), Fill(false, 32))
  }

  /** A stored checksum matches exactly when message and checksum together leave the residue. */
  lemma MatchIffResidue(message: seq<byte>, stored: seq<byte>)
    requires |stored| == 4
    ensures U32FromLe(stored) == Checksum(message)
            <==> Feed(Ones(), MessageBits(message + stored)) == Residue()
  {
    var c := Feed(Ones(), MessageBits(message));
    var w: Word := MessageBits(stored);
    MessageBitsAppend(message, stored);
    FeedAppend(Ones(), MessageBits(message), w);
    MessageBitsValue(stored);
    assert w[..32] == w && Not(c)[..32] == Not(c);
    FeedWord(c, Not(c), 32);
    assert Xor(c, Not(c)) == Ones();
    BitsValueThenLowBits(w);
    BitsValueThenLowBits(Not(c));
    if Feed(c, w) == Residue() {
      WindowInjective(c, w, Not(c));
    }
  }

  /** A burst of at most 32 bits anywhere in a message and its checksum, even across the two, is noticed. */
  lemma BurstBreaksMatch(message: seq<byte>, stored: seq<byte>, message': seq<byte>, stored': seq<byte>, from: nat)
    requires |stored| == |stored'| == 4 && |message| == |message'|
    requires U32FromLe(stored) == Checksum(message)
    requires message + stored != message' + stored'
    requires DifferInWindow(MessageBits(message + stored), MessageBits(message' + stored'), from)
    ensures U32FromLe(stored') != Checksum(message')
  {
    MatchIffResidue(message, stored);
    MatchIffResidue(message', stored');
    if MessageBits(message + stored) == MessageBits(message' + stored') {
      MessageBitsInjective(message + stored, message' + stored');
    }
    BurstChangesRegister(Ones(), MessageBits(message + stored), MessageBits(message' + stored'), from);
  }
}
