/** The write-ahead log with its CRC-32: the record encoder, the file reader and the record scan. */
module Wal {
  import opened Wrappers
  import opened Bytes
  import opened Framing
  import Crc32
  import Layout

  /** The log's record format. */
  function Log(): Format {
    Format(Crc32.Checksum)
  }

  /** `WalRecord::encode` */
  method Encode(r: WalRecord) returns (res: Result<seq<byte>, WalError>)
    ensures res == if Encodable(r) then Ok(Log().Encoded(r)) else Err(PayloadTooLarge(|r.payload|))
    ensures res.Ok? ==> Layout.RecordIs(Log(), res.value, r)
  {
    if |r.payload| >= TWO_32 {
      return Err(PayloadTooLarge(|r.payload|));
    }
    var out := MAGIC;
    out := out + U64ToLe(r.seqNo);
    out := out + U32ToLe(|r.payload|);
    out := out + r.payload;
    assert out == Frame(r);
    var checksum := Crc32.Checksum32(out);
    out := out + U32ToLe(checksum);
    Layout.RecordIff(Log(), out, r);
    return Ok(out);
  }

  /** An open log file, read front to back. */
  class LogReader {
    const data: seq<byte>
    var offset: nat

    ghost predicate Valid()
      reads this
    {
      offset <= |data|
    }

    ghost function Unread(): seq<byte>
      requires Valid()
      reads this
    {
      data[offset..]
    }

    constructor (data: seq<byte>)
      ensures Valid() && this.data == data && offset == 0
    {
      this.data := data;
      this.offset := 0;
    }

    /** `read_exact`: all n bytes, or end of file with the file read to its end. */
    method ReadExact(n: nat) returns (bytes: Option<seq<byte>>)
      requires Valid()
      modifies this
      ensures Valid()
      ensures bytes.Some? <==> n <= |old(Unread())|
      ensures bytes.Some? ==> bytes.value == old(Unread())[..n] && offset == old(offset) + n
      ensures bytes.None? ==> offset == |data|
    {
      if |data| - offset < n {
        offset := |data|;
        return None;
      }
      bytes := Some(data[offset..offset + n]);
      offset := offset + n;
    }

    /** `WalRecord::decode_from` */
    method DecodeFrom() returns (res: Result<Option<WalRecord>, WalError>)
      requires Valid()
      modifies this
      ensures Valid()
      ensures match Log().DecodeFront(old(Unread()))
              case End => res == Ok(None)
              case Broken(error) => res == Err(error)
              case Record(record, size) => res == Ok(Some(record)) && offset == old(offset) + size
    {
      ghost var all := Unread();
      var header := ReadExact(HEADER_LEN);
      if header.None? || header.value[..4] != MAGIC {
        assert header.Some? ==> header.value[..4] == all[..4];
        return Ok(None);
      }
      var h := header.value;
      assert h[..4] == all[..4] && h[4..12] == all[4..12] && h[12..16] == all[12..16];
      var seqNo := U64FromLe(h[4..12]);
      var len := U32FromLe(h[12..16]);
      var payload := ReadExact(len);
      if payload.None? {
        return Err(Io);
      }
      var trailer := ReadExact(TRAILER_LEN);
      if trailer.None? {
        return Err(Io);
      }
      var stored := U32FromLe(trailer.value);
      var actual := Crc32.Checksum32(h + payload.value);
      assert h + payload.value == all[..HEADER_LEN + len];
      assert trailer.value == all[HEADER_LEN + len..HEADER_LEN + len + TRAILER_LEN];
      assert payload.value == all[HEADER_LEN..HEADER_LEN + len];
      if stored != actual {
        return Err(ChecksumMismatch(seqNo));
      }
      return Ok(Some(WalRecord(seqNo, payload.value)));
    }
  }

  /** `WalReader::records` */
  method Records(log: seq<byte>) returns (res: Scanned)
    ensures res == Log().ReadLog(log)
  {
    var reader := new LogReader(log);
    var records: seq<WalRecord> := [];
    ghost var format := Log();
    PrependTwice([], [], format.ReadLog(log));
    while true
      invariant fresh(reader) && reader.Valid() && reader.data == log
      invariant format.ReadLog(log) == Prepend(records, format.ReadLog(reader.Unread()))
      decreases |log| - reader.offset
    {
      ghost var unread := reader.Unread();
      var next := reader.DecodeFrom();
      match next {
        case Err(error) =>
          return Err(error);
        case Ok(None) =>
          assert records + [] == records;
          return Ok(records);
        case Ok(Some(record)) =>
          assert reader.Unread() == unread[format.DecodeFront(unread).size..];
          PrependTwice(records, [record], format.ReadLog(reader.Unread()));
          records := records + [record];
      }
    }
  }

  /** Damage within one window of 32 consecutive bits of a record, in the sequence number, the
      payload, the checksum or across them, always ends the scan with a checksum mismatch. */
  lemma DamagedRecordIsMismatch(before: seq<WalRecord>, r: WalRecord, bad: seq<byte>, after: seq<byte>, from: nat)
    requires AllEncodable(before) && Encodable(r)
    requires bad != Log().Encoded(r) && |bad| == |Log().Encoded(r)|
    requires bad[..4] == Log().Encoded(r)[..4] && bad[12..16] == Log().Encoded(r)[12..16]
    requires Crc32.DifferInWindow(Crc32.MessageBits(Log().Encoded(r)), Crc32.MessageBits(bad), from)
    ensures Log().ReadLog(Log().LogOf(before) + (bad + after)) == Err(ChecksumMismatch(HeaderSeqNo(bad)))
  {
    var good, body := Log().Encoded(r), |bad| - TRAILER_LEN;
    Log().EncodedParts(r, []);
    assert good + [] == good;
    U32RoundTrip(|r.payload|);
    U32RoundTrip(Crc32.Checksum(Frame(r)));
    assert good == good[..body] + good[body..] && bad == bad[..body] + bad[body..];
    Crc32.BurstBreaksMatch(good[..body], good[body..], bad[..body], bad[body..], from);
    Log().MismatchEndsScan(before, bad, after);
  }
}
