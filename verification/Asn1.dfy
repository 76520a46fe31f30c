/** BER lengths, integers and strings (sections 8.1.3 and 8.3 of ITU-T X.690). */
module Asn1 {
  import opened Common
  import opened Wire

  const TWO63: int := 0x8000_0000_0000_0000
  const INTEGER: byte := 0x02
  const OCTET_STRING: byte := 0x04

  /** The result of a reader and where it left the cursor. */
  datatype Reading<+T> = Reading(result: Result<T>, pos: nat)

  /** Unsigned big-endian value. */
  function BigEndian(bytes: seq<byte>): nat {
    if bytes == [] then 0 else BigEndian(Init(bytes)) * 256 + Last(bytes)
  }

  function Pow256(n: nat): nat {
    if n == 0 then 1 else 256 * Pow256(n - 1)
  }

  /** The integer that content octets denote. */
  function TwosComplement(bytes: seq<byte>): int
    requires bytes != []
  {
    if bytes[0] >= 0x80 then BigEndian(bytes) - Pow256(|bytes|) else BigEndian(bytes)
  }

  /** Reduction to int64_t. */
  function Wrap64(x: int): int {
    (x + TWO63) % TWO64 - TWO63
  }

  /** The accumulation of readAsn1Integer: shift left by eight and insert the next octet, in int64_t. */
  function Accumulate(start: int, bytes: seq<byte>): int {
    if bytes == [] then start else Wrap64(Accumulate(start, Init(bytes)) * 256 + Last(bytes))
  }

  function TagAt(data: seq<byte>, pos: nat): Reading<byte> {
    if pos >= |data| then Reading(Err(TruncatedHeader), pos) else Reading(Ok(data[pos]), pos + 1)
  }

  function LengthAt(data: seq<byte>, pos: nat): Reading<nat> {
    if pos >= |data| then Reading(Err(TruncatedHeader), pos)
    else if data[pos] < 0x80 then Reading(Ok(data[pos]), pos + 1)
    else
      var n := data[pos] - 0x80;
      if n == 0 || n > 4 then Reading(Err(MalformedPacket), pos + 1)
      else if pos + 1 + n > |data| then Reading(Err(TruncatedHeader), pos + 1)
      else Reading(Ok(BigEndian(data[pos + 1..pos + 1 + n])), pos + 1 + n)
  }

  /** Tag and length; the cursor is at the content. */
  function ValueAt(data: seq<byte>, pos: nat, tag: Option<byte>): Reading<nat> {
    var t := TagAt(data, pos);
    if t.result.Err? then Reading(Err(t.result.error), t.pos)
    else if tag.Some? && t.result.value != tag.value then Reading(Err(MalformedPacket), t.pos)
    else LengthAt(data, t.pos)
  }

  function SkipAt(data: seq<byte>, pos: nat): Reading<nat> {
    var v := ValueAt(data, pos, None);
    if v.result.Err? then v
    else if v.pos + v.result.value > |data| then Reading(Err(TruncatedHeader), v.pos)
    else Reading(Ok(v.result.value), v.pos + v.result.value)
  }

  function IntegerAt(data: seq<byte>, pos: nat): Reading<int> {
    var v := ValueAt(data, pos, Some(INTEGER));
    if v.result.Err? then Reading(Err(v.result.error), v.pos)
    else if v.pos + v.result.value > |data| || v.result.value == 0 then Reading(Err(TruncatedHeader), v.pos)
    else
      var content := data[v.pos..v.pos + v.result.value];
      Reading(Ok(Accumulate(if content[0] >= 0x80 then -1 else 0, content)), v.pos + v.result.value)
  }

  function OctetStringAt(data: seq<byte>, pos: nat): Reading<seq<byte>> {
    var v := ValueAt(data, pos, Some(OCTET_STRING));
    if v.result.Err? then Reading(Err(v.result.error), v.pos)
    else if v.pos + v.result.value > |data| then Reading(Err(TruncatedHeader), v.pos)
    else Reading(Ok(data[v.pos..v.pos + v.result.value]), v.pos + v.result.value)
  }

  // ----- The readers -----

  method ReadTag(data: seq<byte>, start: nat) returns (r: Result<byte>, pos: nat)
    ensures Reading(r, pos) == TagAt(data, start)
  {
    pos := start;
    if pos >= |data| {
      return Err(TruncatedHeader), pos;
    }
    return Ok(data[pos]), pos + 1;
  }

  method ReadLength(data: seq<byte>, start: nat) returns (r: Result<nat>, pos: nat)
    ensures Reading(r, pos) == LengthAt(data, start)
  {
    pos := start;
    if pos >= |data| {
      return Err(TruncatedHeader), pos;
    }
    var first := data[pos];
    pos := pos + 1;
    if first < 0x80 {
      return Ok(first), pos;
    }
    var numBytes := first - 0x80;
    if numBytes == 0 || numBytes > 4 {
      return Err(MalformedPacket), pos;
    }
    if pos + numBytes > |data| {
      return Err(TruncatedHeader), pos;
    }
    var length: nat := 0;
    for i := 0 to numBytes
      invariant pos == start + 1 + i
      invariant length == BigEndian(data[start + 1..pos])
    {
      assert Init(data[start + 1..pos + 1]) == data[start + 1..pos];
      length := length * 256 + data[pos];
      pos := pos + 1;
    }
    return Ok(length), pos;
  }

  method ReadInteger(data: seq<byte>, start: nat) returns (r: Result<int>, pos: nat)
    ensures Reading(r, pos) == IntegerAt(data, start)
  {
    var tag, len;
    tag, pos := ReadTag(data, start);
    if tag.Err? {
      return Err(tag.error), pos;
    }
    if tag.value != INTEGER {
      return Err(MalformedPacket), pos;
    }
    len, pos := ReadLength(data, pos);
    if len.Err? {
      return Err(len.error), pos;
    }
    if pos + len.value > |data| || len.value == 0 {
      return Err(TruncatedHeader), pos;
    }
    ghost var begin := pos;
    var value := 0;
    if data[pos] >= 0x80 {
      value := -1;
    }
    ghost var sign := value;
    for i := 0 to len.value
      invariant pos == begin + i
      invariant value == Accumulate(sign, data[begin..pos])
    {
      assert Init(data[begin..pos + 1]) == data[begin..pos];
      value := Wrap64(value * 256 + data[pos]);
      pos := pos + 1;
    }
    return Ok(value), pos;
  }

  method ReadOctetString(data: seq<byte>, start: nat) returns (r: Result<seq<byte>>, pos: nat)
    ensures Reading(r, pos) == OctetStringAt(data, start)
  {
    var tag, len;
    tag, pos := ReadTag(data, start);
    if tag.Err? {
      return Err(tag.error), pos;
    }
    if tag.value != OCTET_STRING {
      return Err(MalformedPacket), pos;
    }
    len, pos := ReadLength(data, pos);
    if len.Err? {
      return Err(len.error), pos;
    }
    if pos + len.value > |data| {
      return Err(TruncatedHeader), pos;
    }
    return Ok(data[pos..pos + len.value]), pos + len.value;
  }

  method SkipValue(data: seq<byte>, start: nat) returns (r: Result<nat>, pos: nat)
    ensures Reading(r, pos) == SkipAt(data, start)
  {
    var tag;
    tag, pos := ReadTag(data, start);
    if tag.Err? {
      return Err(tag.error), pos;
    }
    r, pos := ReadLength(data, pos);
    if r.Err? {
      return;
    }
    if pos + r.value > |data| {
      return Err(TruncatedHeader), pos;
    }
    pos := pos + r.value;
  }

  // ----- Lengths -----

  /** The definite forms with at most four length octets; the long form may have leading zeros. */
  datatype LengthForm = Short(n: nat) | Long(octets: seq<byte>)

  predicate GoodForm(f: LengthForm) {
    match f
    case Short(n) => n < 0x80
    case Long(octets) => 1 <= |octets| <= 4
  }

  function EncodeLength(f: LengthForm): seq<byte>
    requires GoodForm(f)
  {
    match f
    case Short(n) => [n]
    case Long(octets) => [0x80 + |octets|] + octets
  }

  function LengthOf(f: LengthForm): nat {
    match f
    case Short(n) => n
    case Long(octets) => BigEndian(octets)
  }

  lemma FormReadsBack(data: seq<byte>, pos: nat, f: LengthForm)
    requires GoodForm(f) && At(data, pos, EncodeLength(f))
    ensures LengthAt(data, pos) == Reading(Ok(LengthOf(f)), pos + |EncodeLength(f)|)
  {
    match f
    case Short(n) => ByteReadsBack(data, pos, n);
    case Long(octets) =>
      AtSplit(data, pos, [0x80 + |octets|], octets);
      ByteReadsBack(data, pos, 0x80 + |octets|);
  }

  /** The reader succeeds exactly on the definite forms with at most four length octets, with the length they denote. */
  lemma LengthsAreExact(data: seq<byte>, pos: nat, n: nat, end: nat)
    ensures LengthAt(data, pos) == Reading(Ok(n), end)
            <==> exists f :: GoodForm(f) && At(data, pos, EncodeLength(f)) && n == LengthOf(f)
                             && end == pos + |EncodeLength(f)|
  {
    if LengthAt(data, pos) == Reading(Ok(n), end) {
      var f := if data[pos] < 0x80 then Short(data[pos]) else Long(data[pos + 1..pos + 1 + (data[pos] - 0x80)]);
      AtSplit(data, pos, EncodeLength(f)[..1], EncodeLength(f)[1..]);
      assert EncodeLength(f)[..1] + EncodeLength(f)[1..] == EncodeLength(f);
      assert GoodForm(f) && At(data, pos, EncodeLength(f));
    }
    forall f | GoodForm(f) && At(data, pos, EncodeLength(f))
      ensures LengthAt(data, pos) == Reading(Ok(LengthOf(f)), pos + |EncodeLength(f)|)
    {
      FormReadsBack(data, pos, f);
    }
  }

  // ----- Integers -----

  lemma WrapIsPeriodic(x: int, k: int)
    ensures Wrap64(x + k * TWO64) == Wrap64(x)
  {
    assert (x + TWO63 + k * TWO64) % TWO64 == (x + TWO63) % TWO64;
  }

  /** Wrapping before or after one step of the accumulation makes no difference. */
  lemma WrapStep(x: int, b: byte)
    ensures Wrap64(Wrap64(x) * 256 + b) == Wrap64(x * 256 + b)
  {
    var q := (x + TWO63) / TWO64;
    assert Wrap64(x) == x - q * TWO64;
    WrapIsPeriodic(x * 256 + b, -256 * q);
    assert Wrap64(x) * 256 + b == x * 256 + b + (-256 * q) * TWO64;
  }

  lemma {:induction false} AccumulationWraps(start: int, bytes: seq<byte>)
    requires start == 0 || start == -1
    ensures Accumulate(start, bytes) == Wrap64(start * Pow256(|bytes|) + BigEndian(bytes))
  {
    if bytes != [] {
      var p, v := Pow256(|bytes| - 1), BigEndian(Init(bytes));
      AccumulationWraps(start, Init(bytes));
      WrapStep(start * p + v, Last(bytes));
      hide Wrap64;
      assert start * (256 * p) == 256 * (start * p);
    }
  }

  lemma {:induction false} BigEndianBounds(bytes: seq<byte>)
    requires bytes != []
    ensures bytes[0] * Pow256(|bytes| - 1) <= BigEndian(bytes) < (bytes[0] as int + 1) * Pow256(|bytes| - 1)
  {
    if |bytes| > 1 {
      BigEndianBounds(Init(bytes));
      StepBounds(bytes[0], Pow256(|bytes| - 2), BigEndian(Init(bytes)), Last(bytes));
    }
  }

  lemma StepBounds(b: nat, p: nat, v: nat, next: byte)
    requires b * p <= v < (b + 1) * p
    ensures b * (256 * p) <= v * 256 + next < (b + 1) * (256 * p)
  {
    assert b * (256 * p) == 256 * (b * p);
    assert (b + 1) * (256 * p) == 256 * ((b + 1) * p);
  }

  lemma {:induction false} Pow256UpToEight(n: nat)
    requires 1 <= n <= 8
    ensures 256 * Pow256(n - 1) == Pow256(n) <= TWO64
    decreases 8 - n
  {
    if n == 8 {
      assert Pow256(1) == 256;
      assert Pow256(2) == 0x1_0000;
      assert Pow256(4) == 0x1_0000_0000;
      assert Pow256(6) == 0x1_0000_0000_0000;
      assert Pow256(8) == TWO64;
    } else {
      Pow256UpToEight(n + 1);
    }
  }

  lemma FitsInt64(bytes: seq<byte>)
    requires 1 <= |bytes| <= 8
    ensures -TWO63 <= TwosComplement(bytes) < TWO63
    ensures Wrap64(TwosComplement(bytes)) == TwosComplement(bytes)
  {
    var p := Pow256(|bytes| - 1);
    BigEndianBounds(bytes);
    Pow256UpToEight(|bytes|);
    HalfBounds(bytes[0], p, BigEndian(bytes));
  }

  lemma MulMonotone(a: nat, b: nat, p: nat)
    requires a <= b
    ensures a * p <= b * p
  {
  }

  lemma HalfBounds(b: byte, p: nat, v: nat)
    requires b * p <= v < (b as int + 1) * p && 256 * p <= TWO64
    ensures if b >= 0x80 then -TWO63 <= v - 256 * p < 0 else v < TWO63
  {
    if b >= 0x80 {
      MulMonotone(0x80, b, p);
      MulMonotone(b as int + 1, 256, p);
    } else {
      MulMonotone(b as int + 1, 0x80, p);
    }
  }

  /** The integer read is the two's-complement value of the content octets for 1 to 8 of them, and congruent to it
      modulo 2^64 for more. */
  lemma IntegersAreTwosComplement(data: seq<byte>, pos: nat)
    requires IntegerAt(data, pos).result.Ok?
    ensures
      var v := ValueAt(data, pos, Some(INTEGER));
      var content := data[v.pos..v.pos + v.result.value];
      && content != []
      && IntegerAt(data, pos).result.value == Wrap64(TwosComplement(content))
      && (|content| <= 8 ==> IntegerAt(data, pos).result.value == TwosComplement(content))
  {
    var v := ValueAt(data, pos, Some(INTEGER));
    var content := data[v.pos..v.pos + v.result.value];
    hide ValueAt, Wrap64, Accumulate, BigEndian;
    AccumulationWraps(if content[0] >= 0x80 then -1 else 0, content);
    if |content| <= 8 {
      FitsInt64(content);
    }
  }

  // ----- Cursors -----

  /** A typed reader succeeds exactly when skipping succeeds, the tag is its own and, for integers, there is content;
      it then leaves the cursor where skipping does. */
  lemma ReadersAgreeWithSkip(data: seq<byte>, pos: nat)
    ensures
      var skipped := SkipAt(data, pos);
      && (IntegerAt(data, pos).result.Ok? <==>
            skipped.result.Ok? && data[pos] == 0x02 && skipped.result.value > 0)
      && (IntegerAt(data, pos).result.Ok? ==> IntegerAt(data, pos).pos == skipped.pos)
      && (OctetStringAt(data, pos).result.Ok? <==> skipped.result.Ok? && data[pos] == 0x04)
      && (OctetStringAt(data, pos).result.Ok? ==> OctetStringAt(data, pos).pos == skipped.pos)
  {
    hide Accumulate, BigEndian;
  }

  /** Every encoded value is skipped to its end, and an encoded string reads back. */
  lemma EncodedValueIsSkipped(data: seq<byte>, pos: nat, tag: byte, f: LengthForm, content: seq<byte>)
    requires GoodForm(f) && LengthOf(f) == |content|
    requires At(data, pos, [tag] + EncodeLength(f) + content)
    ensures SkipAt(data, pos) == Reading(Ok(|content|), pos + 1 + |EncodeLength(f)| + |content|)
    ensures tag == 0x04 ==> OctetStringAt(data, pos).result == Ok(content)
    ensures tag == 0x02 && 1 <= |content| <= 8 ==> IntegerAt(data, pos).result == Ok(TwosComplement(content))
  {
    hide EncodeLength, LengthAt, LengthOf;
    AtSplit(data, pos, [tag] + EncodeLength(f), content);
    AtSplit(data, pos, [tag], EncodeLength(f));
    ByteReadsBack(data, pos, tag);
    FormReadsBack(data, pos + 1, f);
    if tag == 0x02 && 1 <= |content| <= 8 {
      IntegersAreTwosComplement(data, pos);
    }
  }

  // ----- Errors -----

  /** No length: nothing is there; or the indefinite form, or more than four length octets; or some of them are missing.
      The cursor is then behind the first octet, if there is one. */
  lemma LengthErrors(data: seq<byte>, pos: nat)
    ensures pos >= |data| ==> LengthAt(data, pos) == Reading(Err(TruncatedHeader), pos)
    ensures pos < |data| && (data[pos] == 0x80 || data[pos] > 0x84) ==>
              LengthAt(data, pos) == Reading(Err(MalformedPacket), pos + 1)
    ensures pos < |data| && 0x81 <= data[pos] <= 0x84 && pos + 1 + (data[pos] - 0x80) > |data| ==>
              LengthAt(data, pos) == Reading(Err(TruncatedHeader), pos + 1)
  {
  }

  /** A typed reader fails on a missing tag at its place, on a foreign tag behind it, and then as the length reader
      does; a value that is cut off, or an integer without content, is an error behind its length. */
  lemma ReaderErrors(data: seq<byte>, pos: nat)
    ensures pos >= |data| ==>
              && IntegerAt(data, pos) == Reading(Err(TruncatedHeader), pos)
              && OctetStringAt(data, pos) == Reading(Err(TruncatedHeader), pos)
              && SkipAt(data, pos) == Reading(Err(TruncatedHeader), pos)
    ensures pos < |data| && data[pos] != 0x02 ==> IntegerAt(data, pos) == Reading(Err(MalformedPacket), pos + 1)
    ensures pos < |data| && data[pos] != 0x04 ==> OctetStringAt(data, pos) == Reading(Err(MalformedPacket), pos + 1)
    ensures
      pos < |data| ==>
        var l := LengthAt(data, pos + 1);
        && (l.result.Err? ==>
              && SkipAt(data, pos) == Reading(Err(l.result.error), l.pos)
              && (data[pos] == 0x02 ==> IntegerAt(data, pos) == Reading(Err(l.result.error), l.pos))
              && (data[pos] == 0x04 ==> OctetStringAt(data, pos) == Reading(Err(l.result.error), l.pos)))
        && (l.result.Ok? && l.pos + l.result.value > |data| ==>
              && SkipAt(data, pos) == Reading(Err(TruncatedHeader), l.pos)
              && (data[pos] == 0x02 ==> IntegerAt(data, pos) == Reading(Err(TruncatedHeader), l.pos))
              && (data[pos] == 0x04 ==> OctetStringAt(data, pos) == Reading(Err(TruncatedHeader), l.pos)))
        && (l.result == Ok(0) && data[pos] == 0x02 ==> IntegerAt(data, pos) == Reading(Err(TruncatedHeader), l.pos))
  {
    hide LengthAt, Accumulate;
  }
}
