/** Which byte strings are UTF-8 (section 4 of RFC 3629). */
module Utf8 {
  import opened Bytes

  predicate Continues(b: byte) {
    0x80 <= b < 0xC0
  }

  /** The second byte of a longer form: no overlong form, no surrogate, nothing above U+10FFFF. */
  predicate SecondOk(first: byte, second: byte) {
    && Continues(second)
    && (first == 0xE0 ==> 0xA0 <= second)
    && (first == 0xED ==> second < 0xA0)
    && (first == 0xF0 ==> 0x90 <= second)
    && (first == 0xF4 ==> second < 0x90)
  }

  /** The length of the character in front, or 0 when none stands there. */
  function FrontLen(bytes: seq<byte>): (n: nat)
    ensures n <= |bytes|
  {
    if bytes == [] then 0
    else if bytes[0] < 0x80 then 1
    else if 0xC2 <= bytes[0] < 0xE0 then
      if |bytes| >= 2 && Continues(bytes[1]) then 2 else 0
    else if 0xE0 <= bytes[0] < 0xF0 then
      if |bytes| >= 3 && SecondOk(bytes[0], bytes[1]) && Continues(bytes[2]) then 3 else 0
    else if 0xF0 <= bytes[0] < 0xF5 then
      if |bytes| >= 4 && SecondOk(bytes[0], bytes[1]) && Continues(bytes[2]) && Continues(bytes[3]) then 4 else 0
    else 0
  }

  predicate IsUtf8(bytes: seq<byte>)
    decreases |bytes|
  {
    bytes == [] || (FrontLen(bytes) > 0 && IsUtf8(bytes[FrontLen(bytes)..]))
  }

  lemma AsciiIsUtf8(b: byte)
    requires b < 0x80
    ensures IsUtf8([b])
  {
    assert [b][1..] == [];
  }

  // ----- by scalar values -----

  predicate Scalar(p: nat) {
    p < 0xD800 || 0xE000 <= p < 0x11_0000
  }

  function Tail(n: nat): byte {
    0x80 + n % 64
  }

  /** One scalar value, in the shortest form that holds it. */
  function Encoded(p: nat): seq<byte>
    requires Scalar(p)
  {
    if p < 0x80 then [p]
    else if p < 0x800 then [0xC0 + p / 64, Tail(p)]
    else if p < 0x1_0000 then [0xE0 + p / 64 / 64, Tail(p / 64), Tail(p)]
    else [0xF0 + p / 64 / 64 / 64, Tail(p / 64 / 64), Tail(p / 64), Tail(p)]
  }

  predicate Scalars(ps: seq<nat>) {
    forall i :: 0 <= i < |ps| ==> Scalar(ps[i])
  }

  function AllEncoded(ps: seq<nat>): seq<byte>
    requires Scalars(ps)
  {
    if ps == [] then [] else Encoded(ps[0]) + AllEncoded(ps[1..])
  }

  /** A value with a continuation byte's six bits behind it. */
  lemma Joined(high: nat, b: byte) returns (p: nat)
    requires Continues(b)
    ensures p / 64 == high && Tail(p) == b && p == high * 64 + (b as int - 0x80)
  {
    p := high * 64 + (b as int - 0x80);
  }

  lemma FourBytes(a: byte, b: byte, c: byte, d: byte) returns (p: nat)
    requires 0xF0 <= a < 0xF5 && SecondOk(a, b) && Continues(c) && Continues(d)
    ensures Scalar(p) && Encoded(p) == [a, b, c, d]
  {
    var second := Joined(a - 0xF0, b);
    assert 0x10 <= second < 0x110;
    var third := Joined(second, c);
    assert 0x400 <= third < 0x4400;
    p := Joined(third, d);
  }

  lemma ThreeBytes(a: byte, b: byte, c: byte) returns (p: nat)
    requires 0xE0 <= a < 0xF0 && SecondOk(a, b) && Continues(c)
    ensures Scalar(p) && Encoded(p) == [a, b, c]
  {
    var second := Joined(a - 0xE0, b);
    assert 0x20 <= second < 0x400 && !(0x360 <= second < 0x380);
    p := Joined(second, c);
  }

  /** The scalar value in front. */
  lemma FrontIsEncoded(bytes: seq<byte>) returns (p: nat)
    requires FrontLen(bytes) > 0
    ensures Scalar(p) && bytes[..FrontLen(bytes)] == Encoded(p)
  {
    var n := FrontLen(bytes);
    if n == 1 {
      p := bytes[0];
    } else if n == 2 {
      p := Joined(bytes[0] - 0xC0, bytes[1]);
    } else if n == 3 {
      p := ThreeBytes(bytes[0], bytes[1], bytes[2]);
    } else {
      p := FourBytes(bytes[0], bytes[1], bytes[2], bytes[3]);
    }
  }

  lemma EncodedInFront(p: nat, rest: seq<byte>)
    requires Scalar(p)
    ensures FrontLen(Encoded(p) + rest) == |Encoded(p)|
  {
  }

  /** The byte strings of scalar values, each in its shortest form, are UTF-8, and no others. */
  lemma IsUtf8Iff(bytes: seq<byte>)
    ensures IsUtf8(bytes) <==> exists ps: seq<nat> :: Scalars(ps) && bytes == AllEncoded(ps)
  {
    if IsUtf8(bytes) {
      var ps := Decoded(bytes);
    }
    forall ps: seq<nat> | Scalars(ps) && bytes == AllEncoded(ps)
      ensures IsUtf8(bytes)
    {
      AllEncodedIsUtf8(ps);
    }
  }

  lemma {:induction false} Decoded(bytes: seq<byte>) returns (ps: seq<nat>)
    requires IsUtf8(bytes)
    ensures Scalars(ps) && bytes == AllEncoded(ps)
    decreases |bytes|
  {
    if bytes == [] {
      ps := [];
    } else {
      var n := FrontLen(bytes);
      var p := FrontIsEncoded(bytes);
      var rest := Decoded(bytes[n..]);
      ps := [p] + rest;
      OneMore(bytes, n, p, rest);
    }
  }

  lemma OneMore(bytes: seq<byte>, n: nat, p: nat, rest: seq<nat>)
    requires Scalar(p) && Scalars(rest) && n <= |bytes|
    requires bytes[..n] == Encoded(p) && bytes[n..] == AllEncoded(rest)
    ensures Scalars([p] + rest) && bytes == AllEncoded([p] + rest)
  {
    assert ([p] + rest)[1..] == rest && bytes == bytes[..n] + bytes[n..];
  }

  lemma {:induction false} AllEncodedIsUtf8(ps: seq<nat>)
    requires Scalars(ps)
    ensures IsUtf8(AllEncoded(ps))
  {
    if ps != [] {
      var first, rest := Encoded(ps[0]), AllEncoded(ps[1..]);
      AllEncodedIsUtf8(ps[1..]);
      EncodedInFront(ps[0], rest);
      assert (first + rest)[|first|..] == rest;
    }
  }
}
