/** The record format of the write-ahead log, for any 32-bit checksum, and exactly which logs
    the scan accepts. */
module Framing {
  import opened Wrappers
  import opened Bytes

  const MAGIC: seq<byte> := [0x42, 0x59, 0x50, 0x57]
  const HEADER_LEN: nat := 16
  const TRAILER_LEN: nat := 4

  datatype WalError =
    | Io
    | PayloadTooLarge(len: nat)
    | SequenceOverflow
    | ChecksumMismatch(seqNo: u64)

  datatype WalRecord = WalRecord(seqNo: u64, payload: seq<byte>)

  type Scanned = Result<seq<WalRecord>, WalError>

  /** What one decoding attempt finds at the front of the unread bytes. */
  datatype Decoded = End | Record(record: WalRecord, size: nat) | Broken(error: WalError)

  /** The payload length must fit the 32-bit length field. */
  predicate Encodable(r: WalRecord) {
    |r.payload| < TWO_32
  }

  predicate AllEncodable(rs: seq<WalRecord>) {
    forall i :: 0 <= i < |rs| ==> Encodable(rs[i])
  }

  /** What the checksum covers: magic, sequence number, length and payload. */
  function Frame(r: WalRecord): (bytes: seq<byte>)
    requires Encodable(r)
    ensures |bytes| == HEADER_LEN + |r.payload|
  {
    MAGIC + U64ToLe(r.seqNo) + U32ToLe(|r.payload|) + r.payload
  }

  function HeaderSeqNo(bytes: seq<byte>): u64
    requires |bytes| >= HEADER_LEN
  {
    U64FromLe(bytes[4..12])
  }

  function HeaderLen(bytes: seq<byte>): u32
    requires |bytes| >= HEADER_LEN
  {
    U32FromLe(bytes[12..16])
  }

  /** Where the scan stops cleanly: too few bytes for a header, or no magic. */
  predicate CleanEnd(bytes: seq<byte>) {
    |bytes| < HEADER_LEN || bytes[..4] != MAGIC
  }

  /** Records already read, in front of what the rest of the scan gives. */
  function Prepend(rs: seq<WalRecord>, rest: Scanned): Scanned {
    match rest
    case Ok(more) => Ok(rs + more)
    case Err(error) => Err(error)
  }

  lemma PrependTwice(a: seq<WalRecord>, b: seq<WalRecord>, rest: Scanned)
    ensures Prepend(a, Prepend(b, rest)) == Prepend(a + b, rest)
    ensures Prepend([], rest) == rest
  {
    if rest.Ok? {
      assert a + (b + rest.value) == (a + b) + rest.value;
      assert [] + rest.value == rest.value;
    }
  }

  lemma PrependIff(rs: seq<WalRecord>, rest: Scanned, more: seq<WalRecord>)
    ensures Prepend(rs, rest) == Ok(rs + more) <==> rest == Ok(more)
  {
    if rest.Ok? && rs + rest.value == rs + more {
      assert rest.value == (rs + rest.value)[|rs|..] == more;
    }
  }

  lemma FrameParts(r: WalRecord)
    requires Encodable(r)
    ensures Frame(r)[..4] == MAGIC
    ensures Frame(r)[4..12] == U64ToLe(r.seqNo)
    ensures Frame(r)[12..16] == U32ToLe(|r.payload|)
    ensures Frame(r)[16..] == r.payload
  {
  }

  datatype Format = Format(checksum: seq<byte> -> u32) {

    /** A record's bytes in the log. */
    function Encoded(r: WalRecord): (bytes: seq<byte>)
      requires Encodable(r)
      ensures |bytes| == HEADER_LEN + |r.payload| + TRAILER_LEN
    {
      Frame(r) + U32ToLe(checksum(Frame(r)))
    }

    /** The bytes of a log holding `rs` and nothing else. */
    function LogOf(rs: seq<WalRecord>): seq<byte>
      requires AllEncodable(rs)
    {
      if rs == [] then [] else Encoded(rs[0]) + LogOf(rs[1..])
    }

    function DecodeFront(bytes: seq<byte>): (d: Decoded)
      ensures d.Record? ==> 0 < d.size <= |bytes|
    {
      if CleanEnd(bytes) then
        End
      else
        var body := HEADER_LEN + HeaderLen(bytes);
        if |bytes| < body + TRAILER_LEN then
          Broken(Io)
        else if U32FromLe(bytes[body..body + TRAILER_LEN]) != checksum(bytes[..body]) then
          Broken(ChecksumMismatch(HeaderSeqNo(bytes)))
        else
          Record(WalRecord(HeaderSeqNo(bytes), bytes[HEADER_LEN..body]), body + TRAILER_LEN)
    }

    /** All records of a log, or the first error. */
    function ReadLog(bytes: seq<byte>): Scanned
      decreases |bytes|
    {
      match DecodeFront(bytes)
      case End => Ok([])
      case Broken(error) => Err(error)
      case Record(record, size) => Prepend([record], ReadLog(bytes[size..]))
    }

    // ----- one record -----

    lemma EncodedParts(r: WalRecord, rest: seq<byte>)
      requires Encodable(r)
      ensures var log, n := Encoded(r) + rest, |r.payload|;
              && log[..4] == MAGIC
              && log[4..12] == U64ToLe(r.seqNo)
              && log[12..16] == U32ToLe(n)
              && log[16..16 + n] == r.payload
              && log[..16 + n] == Frame(r)
              && log[16 + n..20 + n] == U32ToLe(checksum(Frame(r)))
              && log[20 + n..] == rest
    {
      FrameParts(r);
      var log, f := Encoded(r) + rest, Frame(r);
      assert log[..|f|] == f;
      assert log[..4] == f[..4] && log[4..12] == f[4..12] && log[12..16] == f[12..16];
      assert log[16..|f|] == f[16..];
    }

    /** A record in front is read back whole. */
    lemma DecodeOfEncoded(r: WalRecord, rest: seq<byte>)
      requires Encodable(r)
      ensures DecodeFront(Encoded(r) + rest) == Record(r, |Encoded(r)|)
      ensures (Encoded(r) + rest)[|Encoded(r)|..] == rest
    {
      EncodedParts(r, rest);
      U64RoundTrip(r.seqNo);
      U32RoundTrip(|r.payload|);
      U32RoundTrip(checksum(Frame(r)));
    }

    /** Whatever is read as a record is that record's own encoding, byte for byte. */
    lemma EncodedOfDecode(bytes: seq<byte>)
      requires DecodeFront(bytes).Record?
      ensures var Record(r, size) := DecodeFront(bytes); Encodable(r) && bytes[..size] == Encoded(r)
    {
      var Record(r, size) := DecodeFront(bytes);
      U64BytesRoundTrip(bytes[4..12]);
      U32BytesRoundTrip(bytes[12..16]);
      var body := HEADER_LEN + |r.payload|;
      assert bytes[..body] == bytes[..4] + bytes[4..12] + bytes[12..16] + bytes[16..body];
      U32BytesRoundTrip(bytes[body..size]);
      assert bytes[..size] == bytes[..body] + bytes[body..size];
    }

    lemma ReadLogOfEncoded(r: WalRecord, rest: seq<byte>)
      requires Encodable(r)
      ensures ReadLog(Encoded(r) + rest) == Prepend([r], ReadLog(rest))
    {
      DecodeOfEncoded(r, rest);
    }

    // ----- which logs are accepted -----

    lemma {:induction false} LogOfAppend(a: seq<WalRecord>, b: seq<WalRecord>)
      requires AllEncodable(a) && AllEncodable(b)
      ensures LogOf(a + b) == LogOf(a) + LogOf(b)
      decreases |a|
    {
      if a == [] {
        assert a + b == b;
      } else {
        assert (a + b)[1..] == a[1..] + b;
        LogOfAppend(a[1..], b);
      }
    }

    /** Complete records in front are always read; what follows decides the rest. */
    lemma {:induction false} ReadLogOfPrefix(rs: seq<WalRecord>, rest: seq<byte>)
      requires AllEncodable(rs)
      ensures ReadLog(LogOf(rs) + rest) == Prepend(rs, ReadLog(rest))
      decreases |rs|
    {
      PrependTwice([], [], ReadLog(rest));
      if rs == [] {
        assert LogOf(rs) + rest == rest;
      } else {
        var tail := LogOf(rs[1..]) + rest;
        assert LogOf(rs) + rest == Encoded(rs[0]) + tail;
        ReadLogOfEncoded(rs[0], tail);
        ReadLogOfPrefix(rs[1..], rest);
        PrependTwice([rs[0]], rs[1..], ReadLog(rest));
        assert [rs[0]] + rs[1..] == rs;
      }
    }

    /** The logs made of the encodings of `rs` and then a clean end. */
    ghost predicate HoldsExactly(log: seq<byte>, rs: seq<WalRecord>) {
      AllEncodable(rs) && LogOf(rs) <= log && CleanEnd(log[|LogOf(rs)|..])
    }

    lemma HoldsOneMore(r: WalRecord, log: seq<byte>, rs: seq<WalRecord>)
      requires Encodable(r) && HoldsExactly(log, rs)
      ensures HoldsExactly(Encoded(r) + log, [r] + rs)
    {
      assert ([r] + rs)[1..] == rs;
      var e, n := Encoded(r), |LogOf(rs)|;
      assert LogOf([r] + rs) == e + LogOf(rs);
      assert log == LogOf(rs) + log[n..];
      assert (e + log)[|e| + n..] == log[n..];
    }

    lemma {:induction false} ReadLogHolds(log: seq<byte>, rs: seq<WalRecord>)
      requires ReadLog(log) == Ok(rs)
      ensures HoldsExactly(log, rs)
      decreases |log|
    {
      if DecodeFront(log).Record? {
        var Record(r, size) := DecodeFront(log);
        EncodedOfDecode(log);
        var rest := rs[1..];
        assert rs == [r] + rest;
        ReadLogHolds(log[size..], rest);
        HoldsOneMore(r, log[size..], rest);
        assert log == Encoded(r) + log[size..];
      } else {
        assert log[|LogOf(rs)|..] == log;
      }
    }

    /** A log reads as `rs` exactly when it is the encodings of `rs` and then a clean end. */
    lemma ReadLogIff(log: seq<byte>, rs: seq<WalRecord>)
      ensures ReadLog(log) == Ok(rs) <==> HoldsExactly(log, rs)
    {
      if HoldsExactly(log, rs) {
        var rest := log[|LogOf(rs)|..];
        assert log == LogOf(rs) + rest;
        ReadLogOfPrefix(rs, rest);
        assert ReadLog(rest) == Ok([]);
        assert rs + [] == rs;
      }
      if ReadLog(log) == Ok(rs) {
        ReadLogHolds(log, rs);
      }
    }

    // ----- cut logs -----

    /** How many of the records lie wholly within the first `cut` bytes. */
    function CompleteRecords(rs: seq<WalRecord>, cut: nat): (k: nat)
      requires AllEncodable(rs)
      ensures k <= |rs|
      decreases |rs|
    {
      if rs == [] || cut < |Encoded(rs[0])| then 0
      else 1 + CompleteRecords(rs[1..], cut - |Encoded(rs[0])|)
    }

    /** A record cut short reads as a clean end while its header is torn, and as an error after that. */
    lemma ReadLogOfTorn(r: WalRecord, torn: nat)
      requires Encodable(r) && torn < |Encoded(r)|
      ensures ReadLog(Encoded(r)[..torn]) == if torn < HEADER_LEN then Ok([]) else Err(Io)
    {
      if torn >= HEADER_LEN {
        EncodedParts(r, []);
        var cut := Encoded(r)[..torn];
        assert Encoded(r) + [] == Encoded(r);
        assert cut[..4] == Encoded(r)[..4] && cut[12..16] == Encoded(r)[12..16];
        U32RoundTrip(|r.payload|);
      }
    }

    lemma CutPastFirst(rs: seq<WalRecord>, cut: nat, k: nat)
      requires AllEncodable(rs) && rs != [] && |Encoded(rs[0])| <= cut <= |LogOf(rs)|
      requires 0 < k <= |rs|
      ensures LogOf(rs)[..cut] == Encoded(rs[0]) + LogOf(rs[1..])[..cut - |Encoded(rs[0])|]
      ensures LogOf(rs[..k]) == Encoded(rs[0]) + LogOf(rs[1..][..k - 1])
      ensures [rs[0]] + rs[1..][..k - 1] == rs[..k]
    {
      assert rs[..k][1..] == rs[1..][..k - 1];
    }

    /** Every byte prefix of a log of whole records: the complete records if fewer than a header's
        bytes of the next remain, otherwise an error; never a partial or an invented record. */
    lemma {:induction false} ReadLogOfCut(rs: seq<WalRecord>, cut: nat)
      requires AllEncodable(rs) && cut <= |LogOf(rs)|
      ensures var k := CompleteRecords(rs, cut);
              && |LogOf(rs[..k])| <= cut
              && (k < |rs| ==> cut < |LogOf(rs[..k])| + |Encoded(rs[k])|)
              && ReadLog(LogOf(rs)[..cut])
                 == if cut - |LogOf(rs[..k])| < HEADER_LEN then Ok(rs[..k]) else Err(Io)
      decreases |rs|
    {
      var k := CompleteRecords(rs, cut);
      if k == 0 {
        assert rs[..k] == [];
        if rs == [] {
          assert LogOf(rs)[..cut] == [];
        } else {
          assert LogOf(rs)[..cut] == Encoded(rs[0])[..cut];
          ReadLogOfTorn(rs[0], cut);
        }
      } else {
        var left := cut - |Encoded(rs[0])|;
        CutPastFirst(rs, cut, k);
        ReadLogOfCut(rs[1..], left);
        ReadLogOfEncoded(rs[0], LogOf(rs[1..])[..left]);
      }
    }

    // ----- damaged records -----

    lemma DecodeOfBad(bad: seq<byte>, after: seq<byte>)
      requires |bad| >= HEADER_LEN && bad[..4] == MAGIC
      requires |bad| == HEADER_LEN + HeaderLen(bad) + TRAILER_LEN
      requires U32FromLe(bad[|bad| - TRAILER_LEN..]) != checksum(bad[..|bad| - TRAILER_LEN])
      ensures DecodeFront(bad + after) == Broken(ChecksumMismatch(HeaderSeqNo(bad)))
    {
      var log, body := bad + after, |bad| - TRAILER_LEN;
      assert log[..4] == bad[..4] && log[12..16] == bad[12..16] && log[4..12] == bad[4..12];
      assert log[..body] == bad[..body] && log[body..body + TRAILER_LEN] == bad[body..];
    }

    /** A record with its magic and length intact but a checksum that fails ends the scan. */
    lemma MismatchEndsScan(before: seq<WalRecord>, bad: seq<byte>, after: seq<byte>)
      requires AllEncodable(before)
      requires |bad| >= HEADER_LEN && bad[..4] == MAGIC
      requires |bad| == HEADER_LEN + HeaderLen(bad) + TRAILER_LEN
      requires U32FromLe(bad[|bad| - TRAILER_LEN..]) != checksum(bad[..|bad| - TRAILER_LEN])
      ensures ReadLog(LogOf(before) + (bad + after)) == Err(ChecksumMismatch(HeaderSeqNo(bad)))
    {
      DecodeOfBad(bad, after);
      ReadLogOfPrefix(before, bad + after);
    }

    // ----- appending after a torn tail -----

    lemma PushedRecordIff(tail: seq<byte>, r: WalRecord)
      requires CleanEnd(tail) && Encodable(r)
      ensures ReadLog(tail + Encoded(r)) == Ok([r]) <==> Encoded(r) <= tail + Encoded(r)
    {
      var e := Encoded(r);
      if e <= tail + e {
        var left := (tail + e)[|e|..];
        assert tail + e == e + left;
        ReadLogOfEncoded(r, left);
        EncodedParts(r, left);
        assert (tail + e)[..4] == MAGIC;
        if |tail| >= HEADER_LEN {
          assert false;
        }
        assert [r] + [] == [r];
      }
      if ReadLog(tail + e) == Ok([r]) {
        ReadLogHolds(tail + e, [r]);
        assert LogOf([r]) == e + LogOf([]) == e;
      }
    }

    /** A record appended to a log that reads as `rs` is seen by the next reader exactly when its
        bytes are still in front after being written behind the unread tail; with no tail they are. */
    lemma AppendVisibleIff(log: seq<byte>, rs: seq<WalRecord>, r: WalRecord)
      requires ReadLog(log) == Ok(rs) && Encodable(r)
      ensures HoldsExactly(log, rs)
      ensures var tail := log[|LogOf(rs)|..];
              ReadLog(log + Encoded(r)) == Ok(rs + [r]) <==> Encoded(r) <= tail + Encoded(r)
    {
      ReadLogHolds(log, rs);
      var tail, e := log[|LogOf(rs)|..], Encoded(r);
      assert log + e == LogOf(rs) + (tail + e);
      ReadLogOfPrefix(rs, tail + e);
      PushedRecordIff(tail, r);
      PrependIff(rs, ReadLog(tail + e), [r]);
    }

    /** The magic stands nowhere else in a header whose sequence number and length are below 2^30. */
    lemma MagicOnlyInFront(r: WalRecord, p: nat)
      requires Encodable(r) && r.seqNo < 0x4000_0000 && |r.payload| < 0x4000_0000
      requires 0 < p < HEADER_LEN
      ensures Encoded(r)[p..p + 4] != MAGIC
    {
      var e := Encoded(r);
      EncodedParts(r, []);
      assert e + [] == e;
      HighBytesOfSmall(r.seqNo, 8);
      HighBytesOfSmall(|r.payload|, 4);
      var i := if p < 4 then p else if p < 8 then 7 else if p < 12 then p else 15;
      assert e[p..p + 4][i - p] == e[i];
      if p < 4 {
        assert e[i] == e[..4][i] == MAGIC[p];
      } else if p < 12 {
        assert e[i] == e[4..12][i - 4] < 0x40;
      } else {
        assert e[i] == e[12..16][3] < 0x40;
      }
    }

    /** Behind a torn header such a record is never in front, so the next reader does not see it. */
    lemma TornHeaderHidesAppend(tail: seq<byte>, r: WalRecord)
      requires Encodable(r) && r.seqNo < 0x4000_0000 && |r.payload| < 0x4000_0000
      requires |tail| < HEADER_LEN
      ensures Encoded(r) <= tail + Encoded(r) <==> tail == []
    {
      var e, p := Encoded(r), |tail|;
      if p > 0 && e <= tail + e {
        EncodedParts(r, []);
        assert e + [] == e;
        assert e[p..p + 4] == (tail + e)[p..p + 4] == e[..4];
        MagicOnlyInFront(r, p);
      }
    }

    /** A few torn bytes left by a crash hide every record written after them. */
    lemma TornTailHidesAppend(rs: seq<WalRecord>, tail: seq<byte>, r: WalRecord)
      requires AllEncodable(rs) && Encodable(r)
      requires 0 < |tail| < 4
      ensures ReadLog(LogOf(rs) + tail) == Ok(rs)
      ensures ReadLog(LogOf(rs) + tail + Encoded(r)) == Ok(rs)
    {
      var after := tail + Encoded(r);
      EncodedParts(r, []);
      assert Encoded(r) + [] == Encoded(r);
      assert Encoded(r)[0] == Encoded(r)[..4][0] == MAGIC[0];
      assert after[..4][|tail|] == Encoded(r)[0];
      assert CleanEnd(after);
      assert LogOf(rs) + tail + Encoded(r) == LogOf(rs) + after;
      ReadLogOfPrefix(rs, tail);
      ReadLogOfPrefix(rs, after);
      assert rs + [] == rs;
    }
  }
}
