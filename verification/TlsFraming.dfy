/** The TLS case of the L7 decoder: consecutive records in one buffer. */
module TlsFraming {
  import opened Common
  import opened Wire
  import opened Tls

  datatype RecordHeader = RecordHeader(contentType: byte, version: u16)

  /** The first record, the headers of the further ones, and how far the buffer was consumed. */
  datatype TlsStream = TlsStream(first: TlsRecord, additional: seq<RecordHeader>, offset: nat)

  function HeaderOf(r: TlsRecord): RecordHeader {
    RecordHeader(r.contentType, r.version)
  }

  /** The records from `offset` on, up to the first that is not complete. */
  function MoreRecords(data: seq<byte>, beyond: byte, offset: nat): (r: (seq<RecordHeader>, nat))
    ensures offset <= |data| ==> offset <= r.1 <= |data|
    decreases |data| - offset
  {
    match RecordAt(data, beyond, offset)
    case Err(_) => ([], offset)
    case Ok(Decoded(record, next)) =>
      var (rest, end) := MoreRecords(data, beyond, next);
      ([HeaderOf(record)] + rest, end)
  }

  /** What decodeL7 makes of a buffer whose protocol is TLS. */
  function TlsCase(data: seq<byte>, beyond: byte, offset: nat): (r: Option<TlsStream>)
    ensures r.Some? ==> offset + RECORD_HEADER <= r.value.offset <= |data|
  {
    match RecordAt(data, beyond, offset)
    case Err(_) => None
    case Ok(Decoded(record, next)) =>
      var (rest, end) := MoreRecords(data, beyond, next);
      Some(TlsStream(record, rest, end))
  }

  /** The loop terminates because every success moves past a record header. */
  method DecodeTlsCase(data: seq<byte>, beyond: byte, start: nat) returns (r: Option<TlsStream>)
    ensures r == TlsCase(data, beyond, start)
  {
    var result := DecodeTls(data, beyond, start);
    if result.Err? {
      return None;
    }
    var offset, additional := result.value.offset, [];
    ghost var all := MoreRecords(data, beyond, offset);
    assert [] + all.0 == all.0;
    while offset < |data|
      invariant all.0 == additional + MoreRecords(data, beyond, offset).0
      invariant all.1 == MoreRecords(data, beyond, offset).1
      decreases |data| - offset
    {
      var next := DecodeTls(data, beyond, offset);
      if next.Err? {
        break;
      }
      ghost var rest := MoreRecords(data, beyond, next.value.offset).0;
      var header := RecordHeader(next.value.record.contentType, next.value.record.version);
      ConcatAssociates(additional, [header], rest);
      additional := additional + [header];
      offset := next.value.offset;
    }
    assert additional + [] == additional;
    return Some(TlsStream(result.value.record, additional, offset));
  }

  // ----- Framing -----

  datatype SentRecord = SentRecord(contentType: byte, version: u16, fragment: seq<byte>)

  type GoodRecord = r: SentRecord | 20 <= r.contentType <= 23 && |r.fragment| < 0x1_0000
    witness SentRecord(20, 0, [])

  function EncodeRecord(r: GoodRecord): seq<byte> {
    [r.contentType] + U16Bytes(r.version) + U16Bytes(|r.fragment|) + r.fragment
  }

  function EncodeRecords(rs: seq<GoodRecord>): seq<byte> {
    if rs == [] then [] else EncodeRecord(rs[0]) + EncodeRecords(rs[1..])
  }

  function Headers(rs: seq<GoodRecord>): (r: seq<RecordHeader>)
    ensures |r| == |rs|
  {
    seq(|rs|, i requires 0 <= i < |rs| => RecordHeader(rs[i].contentType, rs[i].version))
  }

  /** A complete record with one of the four content types stands at the front. */
  ghost predicate StartsWithRecord(bytes: seq<byte>) {
    exists r: GoodRecord :: EncodeRecord(r) <= bytes
  }

  lemma RecordHere(data: seq<byte>, offset: nat, r: GoodRecord)
    requires At(data, offset, EncodeRecord(r))
    ensures RecordEndAt(data, offset) == Ok(offset + |EncodeRecord(r)|)
    ensures data[offset] == r.contentType && U16At(data, offset + 1) == r.version
  {
    var a, b := [r.contentType] + U16Bytes(r.version), U16Bytes(|r.fragment|);
    AtSplit(data, offset, a + b, r.fragment);
    AtSplit(data, offset, a, b);
    AtSplit(data, offset, [r.contentType], U16Bytes(r.version));
    ByteReadsBack(data, offset, r.contentType);
    U16ReadsBack(data, offset + 1, r.version);
    U16ReadsBack(data, offset + 3, |r.fragment|);
  }

  /** A record is found at the front of a buffer if and only if one stands there. */
  lemma RecordIsFoundIff(bytes: seq<byte>)
    ensures RecordEndAt(bytes, 0).Ok? <==> StartsWithRecord(bytes)
  {
    if RecordEndAt(bytes, 0).Ok? {
      var r := FrontRecord(bytes);
      assert EncodeRecord(r) <= bytes;
    } else if StartsWithRecord(bytes) {
      var r: GoodRecord :| EncodeRecord(r) <= bytes;
      RecordHere(bytes, 0, r);
    }
  }

  lemma FrontRecord(bytes: seq<byte>) returns (r: GoodRecord)
    requires RecordEndAt(bytes, 0).Ok?
    ensures EncodeRecord(r) <= bytes && |EncodeRecord(r)| == RecordEndAt(bytes, 0).value
  {
    var end := RecordEndAt(bytes, 0).value;
    r := SentRecord(bytes[0], U16At(bytes, 1), bytes[5..end]);
    BytesOfU16(bytes, 1);
    BytesOfU16(bytes, 3);
    assert bytes[..end] == [bytes[0]] + bytes[1..3] + bytes[3..5] + bytes[5..end];
  }

  lemma BytesOfU16(data: seq<byte>, pos: nat)
    requires pos + 2 <= |data|
    ensures U16Bytes(U16At(data, pos)) == data[pos..pos + 2]
  {
    var a, b := data[pos], data[pos + 1];
    assert (a as int * 256 + b) / 256 == a && (a as int * 256 + b) % 256 == b;
    assert data[pos..pos + 2] == [a, b];
  }

  /** Whether a record starts at an offset depends on the bytes behind it only. */
  lemma RecordStartIsLocal(data: seq<byte>, offset: nat)
    requires offset <= |data|
    ensures RecordEndAt(data, offset).Ok? <==> StartsWithRecord(data[offset..])
  {
    var tail := data[offset..];
    assert forall i :: 0 <= i < |tail| ==> tail[i] == data[offset + i];
    RecordIsFoundIff(tail);
  }

  lemma {:induction false} RecordsFramed(
    data: seq<byte>, beyond: byte, offset: nat, rs: seq<GoodRecord>, tail: seq<byte>)
    requires offset <= |data| && data[offset..] == EncodeRecords(rs) + tail && !StartsWithRecord(tail)
    ensures MoreRecords(data, beyond, offset) == (Headers(rs), offset + |EncodeRecords(rs)|)
    decreases |rs|
  {
    hide RecordEndAt, U16At, HelloAt, EncodeRecord, StartsWithRecord;
    if rs == [] {
      assert [] + tail == tail;
      RecordStartIsLocal(data, offset);
    } else {
      var first, rest := EncodeRecord(rs[0]), EncodeRecords(rs[1..]);
      FirstRecord(data, offset, rs, tail);
      RecordHere(data, offset, rs[0]);
      RecordsFramed(data, beyond, offset + |first|, rs[1..], tail);
      assert Headers(rs) == [RecordHeader(rs[0].contentType, rs[0].version)] + Headers(rs[1..]);
    }
  }

  lemma FirstRecord(data: seq<byte>, offset: nat, rs: seq<GoodRecord>, tail: seq<byte>)
    requires offset <= |data| && data[offset..] == EncodeRecords(rs) + tail && rs != []
    ensures
      var first := EncodeRecord(rs[0]);
      && At(data, offset, first)
      && data[offset + |first|..] == EncodeRecords(rs[1..]) + tail
  {
    var first, rest := EncodeRecord(rs[0]), EncodeRecords(rs[1..]);
    ConcatAssociates(first, rest, tail);
    hide EncodeRecord, EncodeRecords;
    FrontAndRest(data, offset, first, rest + tail);
  }

  lemma FrontAndRest(data: seq<byte>, offset: nat, first: seq<byte>, behind: seq<byte>)
    requires offset <= |data| && data[offset..] == first + behind
    ensures At(data, offset, first) && data[offset + |first|..] == behind
  {
    assert data[offset..][..|first|] == first && data[offset..][|first|..] == behind;
    assert data[offset..][..|first|] == data[offset..offset + |first|];
    assert data[offset..][|first|..] == data[offset + |first|..];
  }

  /** On one or more complete records followed by anything that does not start with one, the TLS case consumes exactly
      the records and reports the content type and version of each, in order. */
  lemma Framing(rs: seq<GoodRecord>, tail: seq<byte>, beyond: byte)
    requires rs != [] && !StartsWithRecord(tail)
    ensures
      var r := TlsCase(EncodeRecords(rs) + tail, beyond, 0);
      && r.Some?
      && [HeaderOf(r.value.first)] + r.value.additional == Headers(rs)
      && r.value.offset == |EncodeRecords(rs)|
  {
    var data := EncodeRecords(rs) + tail;
    assert data[0..] == data;
    RecordsFramed(data, beyond, 0, rs, tail);
    FirstRecord(data, 0, rs, tail);
    RecordHere(data, 0, rs[0]);
  }

  /** A record that is not complete is left in the buffer for the next call. */
  lemma IncompleteIsKept(bytes: seq<byte>, beyond: byte)
    ensures TlsCase(bytes, beyond, 0).None? <==> !StartsWithRecord(bytes)
  {
    RecordIsFoundIff(bytes);
  }

  // ----- The stream may be cut anywhere -----

  /** A complete record stays what it is when bytes are appended. */
  lemma RecordIsStable(a: seq<byte>, b: seq<byte>, offset: nat)
    requires RecordEndAt(a, offset).Ok?
    ensures RecordEndAt(a + b, offset) == RecordEndAt(a, offset)
    ensures a[offset] == (a + b)[offset] && U16At(a + b, offset + 1) == U16At(a, offset + 1)
  {
    var c := a + b;
    assert forall k :: 0 <= k < |a| ==> c[k] == a[k];
  }

  lemma RecordIsShifted(a: seq<byte>, b: seq<byte>, offset: nat)
    ensures RecordEndAt(b, offset).Ok? <==> RecordEndAt(a + b, |a| + offset).Ok?
    ensures RecordEndAt(b, offset).Ok? ==>
              && RecordEndAt(a + b, |a| + offset).value == |a| + RecordEndAt(b, offset).value
              && (a + b)[|a| + offset] == b[offset] && U16At(a + b, |a| + offset + 1) == U16At(b, offset + 1)
  {
    var c := a + b;
    assert forall k :: 0 <= k < |b| ==> c[|a| + k] == b[k];
  }

  /** Headers and positions depend on the bytes from the offset on only. */
  lemma {:induction false} RecordsShifted(a: seq<byte>, b: seq<byte>, beyond: byte, offset: nat)
    ensures MoreRecords(a + b, beyond, |a| + offset)
            == (MoreRecords(b, beyond, offset).0, |a| + MoreRecords(b, beyond, offset).1)
    decreases |b| - offset
  {
    hide RecordEndAt, U16At, HelloAt;
    RecordIsShifted(a, b, offset);
    if RecordEndAt(b, offset).Ok? {
      RecordsShifted(a, b, beyond, RecordEndAt(b, offset).value);
    }
  }

  /** The records of `a + b` are those complete in `a`, then those found behind them. */
  lemma {:induction false} RecordsContinue(a: seq<byte>, b: seq<byte>, beyond: byte, offset: nat)
    ensures
      var (first, end) := MoreRecords(a, beyond, offset);
      var (second, last) := MoreRecords(a + b, beyond, end);
      MoreRecords(a + b, beyond, offset) == (first + second, last)
    decreases |a| - offset
  {
    hide RecordEndAt, U16At, HelloAt;
    if RecordEndAt(a, offset).Ok? {
      var next := RecordEndAt(a, offset).value;
      RecordIsStable(a, b, offset);
      RecordsContinue(a, b, beyond, next);
      var (first, end) := MoreRecords(a, beyond, next);
      ConcatAssociates([HeaderOf(RecordAt(a, beyond, offset).value.record)], first, MoreRecords(a + b, beyond, end).0);
    } else {
      assert [] + MoreRecords(a + b, beyond, offset).0 == MoreRecords(a + b, beyond, offset).0;
    }
  }

  /** Wherever the stream is cut: framing the first part, keeping what was not consumed, appending the rest and framing
      again finds the records of the whole. */
  lemma CutAnywhere(a: seq<byte>, b: seq<byte>, beyond: byte, end: nat)
    requires end == MoreRecords(a, beyond, 0).1
    ensures end <= |a|
    ensures MoreRecords(a + b, beyond, 0).0 == MoreRecords(a, beyond, 0).0 + MoreRecords(a[end..] + b, beyond, 0).0
    ensures MoreRecords(a + b, beyond, 0).1 == end + MoreRecords(a[end..] + b, beyond, 0).1
  {
    hide MoreRecords;
    RecordsContinue(a, b, beyond, 0);
    CutAndJoin(a, b, end);
    RecordsShifted(a[..end], a[end..] + b, beyond, 0);
  }
}
