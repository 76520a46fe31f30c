/** Decoding inverts the encoding of section 4.1 of RFC 1035. */
module DnsRoundTrip {
  import opened Common
  import opened DnsName
  import opened Dns
  import opened Wire

  /** Items as a sender has them: names are lists of labels of 1 to 63 bytes. */
  datatype SentQuestion = SentQuestion(labels: seq<seq<byte>>, qtype: u16, qclass: u16)
  datatype SentRecord = SentRecord(labels: seq<seq<byte>>, rtype: u16, rclass: u16, ttl: u32, rdata: seq<byte>)

  type GoodQuestion = q: SentQuestion | GoodLabels(q.labels) witness SentQuestion([], 0, 0)
  type GoodRecord = r: SentRecord | GoodLabels(r.labels) && |r.rdata| < 0x1_0000 witness SentRecord([], 0, 0, 0, [])

  function EncodeQuestion(q: GoodQuestion): seq<byte> {
    EncodeLabels(q.labels) + [0] + (U16Bytes(q.qtype) + U16Bytes(q.qclass))
  }

  function EncodeRecord(r: GoodRecord): seq<byte> {
    EncodeLabels(r.labels) + [0]
    + (U16Bytes(r.rtype) + U16Bytes(r.rclass) + U32Bytes(r.ttl) + U16Bytes(|r.rdata|) + r.rdata)
  }

  function ReceivedQuestion(q: GoodQuestion): DnsQuestion {
    DnsQuestion(DotJoin(q.labels), q.qtype, q.qclass)
  }

  function ReceivedRecord(r: GoodRecord): DnsRecord {
    DnsRecord(DotJoin(r.labels), r.rtype, r.rclass, r.ttl, r.rdata)
  }

  function EncodeItems<W>(encode: W -> seq<byte>, items: seq<W>): seq<byte> {
    if items == [] then [] else EncodeItems(encode, Init(items)) + encode(Last(items))
  }

  function Map<W, T>(f: W -> T, items: seq<W>): (r: seq<T>)
    ensures |r| == |items| && forall i :: 0 <= i < |items| ==> r[i] == f(items[i])
  {
    if items == [] then [] else Map(f, Init(items)) + [f(Last(items))]
  }

  predicate GoodFlags(f: DnsFlags) {
    f.opcode < 16 && f.rcode < 16
  }

  function Bit(b: bool, weight: nat): nat {
    if b then weight else 0
  }

  /** The flag word, with its reserved bits zero. */
  function FlagWord(f: DnsFlags): (n: u16)
    requires GoodFlags(f)
  {
    Bit(f.isResponse, 0x8000) + f.opcode * 0x800 + Bit(f.authoritative, 0x400) + Bit(f.truncated, 0x200)
    + Bit(f.recursionDesired, 0x100) + Bit(f.recursionAvailable, 0x80) + f.rcode
  }

  datatype SentMessage = SentMessage(
    id: u16, flags: DnsFlags, questions: seq<GoodQuestion>, answers: seq<GoodRecord>,
    authorities: seq<GoodRecord>, additionals: seq<GoodRecord>)

  predicate Sendable(m: SentMessage) {
    && GoodFlags(m.flags)
    && |m.questions| < 0x1_0000 && |m.answers| < 0x1_0000 && |m.authorities| < 0x1_0000 && |m.additionals| < 0x1_0000
  }

  function EncodeHeader(m: SentMessage): seq<byte>
    requires Sendable(m)
  {
    U16Bytes(m.id) + U16Bytes(FlagWord(m.flags)) + U16Bytes(|m.questions|) + U16Bytes(|m.answers|)
    + U16Bytes(|m.authorities|) + U16Bytes(|m.additionals|)
  }

  function EncodeMessage(m: SentMessage): seq<byte>
    requires Sendable(m)
  {
    EncodeHeader(m) + EncodeItems(EncodeQuestion, m.questions) + EncodeItems(EncodeRecord, m.answers)
    + EncodeItems(EncodeRecord, m.authorities) + EncodeItems(EncodeRecord, m.additionals)
  }

  function ReceivedMessage(m: SentMessage): DnsMessage {
    DnsMessage(m.id, m.flags, Map(ReceivedQuestion, m.questions), Map(ReceivedRecord, m.answers),
               Map(ReceivedRecord, m.authorities), Map(ReceivedRecord, m.additionals))
  }

  lemma FlagsReadBack(f: DnsFlags)
    requires GoodFlags(f)
    ensures FlagsOf(FlagWord(f)) == f
  {
    var h1 := Bit(f.isResponse, 16) + f.opcode;
    var h2 := 2 * h1 + Bit(f.authoritative, 1);
    var h3 := 2 * h2 + Bit(f.truncated, 1);
    var h4 := 2 * h3 + Bit(f.recursionDesired, 1);
    var h5 := 2 * h4 + Bit(f.recursionAvailable, 1);
    var w := 128 * h5 + f.rcode;
    assert w == FlagWord(f);
    assert w / 0x80 == h5;
    assert w / 0x100 == h4;
    assert w / 0x200 == h3;
    assert w / 0x400 == h2;
    assert w / 0x800 == h1;
    LowBits(f, w, h1, h2, h3, h4, h5);
  }

  lemma LowBits(f: DnsFlags, w: u16, h1: nat, h2: nat, h3: nat, h4: nat, h5: nat)
    requires GoodFlags(f)
    requires h1 == Bit(f.isResponse, 16) + f.opcode && h2 == 2 * h1 + Bit(f.authoritative, 1)
    requires h3 == 2 * h2 + Bit(f.truncated, 1) && h4 == 2 * h3 + Bit(f.recursionDesired, 1)
    requires h5 == 2 * h4 + Bit(f.recursionAvailable, 1) && w == 128 * h5 + f.rcode
    requires w / 0x80 == h5 && w / 0x100 == h4 && w / 0x200 == h3 && w / 0x400 == h2 && w / 0x800 == h1
    ensures FlagsOf(w) == f
  {
    assert h1 % 16 == f.opcode;
    assert w % 16 == f.rcode;
  }

  lemma QuestionReadsBack(data: seq<byte>, dnsStart: nat, pos: nat, q: GoodQuestion)
    requires At(data, pos, EncodeQuestion(q))
    ensures QuestionAt(data, dnsStart, pos) == Finished(Ok(Parsed(ReceivedQuestion(q), pos + |EncodeQuestion(q)|)))
  {
    var name := EncodeLabels(q.labels) + [0];
    AtSplit(data, pos, name, U16Bytes(q.qtype) + U16Bytes(q.qclass));
    PlainName(data, dnsStart, pos, q.labels);
    var p := pos + |name|;
    AtSplit(data, p, U16Bytes(q.qtype), U16Bytes(q.qclass));
    U16ReadsBack(data, p, q.qtype);
    U16ReadsBack(data, p + 2, q.qclass);
  }

  lemma RecordFieldsReadBack(data: seq<byte>, p: nat, r: GoodRecord)
    requires
      At(data, p, U16Bytes(r.rtype) + U16Bytes(r.rclass) + U32Bytes(r.ttl) + U16Bytes(|r.rdata|) + r.rdata)
    ensures p + 10 + |r.rdata| <= |data|
    ensures U16At(data, p) == r.rtype && U16At(data, p + 2) == r.rclass && U32At(data, p + 4) == r.ttl
    ensures U16At(data, p + 8) == |r.rdata| && data[p + 10..p + 10 + |r.rdata|] == r.rdata
  {
    var a, b, c, d := U16Bytes(r.rtype), U16Bytes(r.rclass), U32Bytes(r.ttl), U16Bytes(|r.rdata|);
    AtSplit(data, p, a + b + c + d, r.rdata);
    AtSplit(data, p, a + b + c, d);
    AtSplit(data, p, a + b, c);
    AtSplit(data, p, a, b);
    U16ReadsBack(data, p, r.rtype);
    U16ReadsBack(data, p + 2, r.rclass);
    U32ReadsBack(data, p + 4, r.ttl);
    U16ReadsBack(data, p + 8, |r.rdata|);
  }

  lemma RecordReadsBack(data: seq<byte>, dnsStart: nat, pos: nat, r: GoodRecord)
    requires At(data, pos, EncodeRecord(r))
    ensures RecordAt(data, dnsStart, pos) == Finished(Ok(Parsed(ReceivedRecord(r), pos + |EncodeRecord(r)|)))
  {
    hide NameAt, DotJoin, U16At, U32At, EncodeLabels, At;
    var name := EncodeLabels(r.labels) + [0];
    assert |EncodeRecord(r)| == |name| + 10 + |r.rdata|;
    hide U16Bytes, U32Bytes;
    AtSplit(data, pos, name, U16Bytes(r.rtype) + U16Bytes(r.rclass) + U32Bytes(r.ttl) + U16Bytes(|r.rdata|) + r.rdata);
    PlainName(data, dnsStart, pos, r.labels);
    RecordFieldsReadBack(data, pos + |name|, r);
  }

  /** Wherever an item's encoding stands, it decodes to the item and ends where the encoding ends. */
  ghost predicate ItemsReadBack<W(!new), T(!new)>(
    data: seq<byte>, itemAt: nat -> Outcome<Parsed<T>>, encode: W -> seq<byte>, received: W -> T)
  {
    forall w: W, p: nat :: At(data, p, encode(w)) ==> itemAt(p) == Finished(Ok(Parsed(received(w), p + |encode(w)|)))
  }

  lemma LastItemReadsBack<W(!new), T(!new)>(
    data: seq<byte>, itemAt: nat -> Outcome<Parsed<T>>, encode: W -> seq<byte>, received: W -> T, w: W, p: nat)
    requires ItemsReadBack(data, itemAt, encode, received) && At(data, p, encode(w))
    ensures itemAt(p) == Finished(Ok(Parsed(received(w), p + |encode(w)|)))
  {
  }

  /** A section decodes to its items, in order, and ends where its encoding ends. */
  lemma {:induction false} SectionReadsBack<W(!new), T(!new)>(
    data: seq<byte>, itemAt: nat -> Outcome<Parsed<T>>, encode: W -> seq<byte>, received: W -> T,
    pos: nat, items: seq<W>)
    requires ItemsReadBack(data, itemAt, encode, received)
    requires At(data, pos, EncodeItems(encode, items))
    ensures ItemsAt(itemAt, pos, |items|)
            == Finished(Ok(Parsed(Map(received, items), pos + |EncodeItems(encode, items)|)))
    decreases |items|
  {
    hide At, ItemsReadBack;
    if items != [] {
      var first := EncodeItems(encode, Init(items));
      AtSplit(data, pos, first, encode(Last(items)));
      SectionReadsBack(data, itemAt, encode, received, pos, Init(items));
      LastItemReadsBack(data, itemAt, encode, received, Last(items), pos + |first|);
    }
  }

  lemma QuestionsInverse(data: seq<byte>, dnsStart: nat)
    ensures ItemsReadBack(data, p => QuestionAt(data, dnsStart, p), EncodeQuestion, ReceivedQuestion)
  {
    hide QuestionAt, EncodeQuestion, ReceivedQuestion;
    forall w: GoodQuestion, p: nat | At(data, p, EncodeQuestion(w))
      ensures QuestionAt(data, dnsStart, p) == Finished(Ok(Parsed(ReceivedQuestion(w), p + |EncodeQuestion(w)|)))
    {
      QuestionReadsBack(data, dnsStart, p, w);
    }
  }

  lemma QuestionsReadBack(data: seq<byte>, dnsStart: nat, pos: nat, items: seq<GoodQuestion>)
    requires At(data, pos, EncodeItems(EncodeQuestion, items))
    ensures Questions(data, dnsStart, pos, |items|)
            == Finished(Ok(Parsed(Map(ReceivedQuestion, items), pos + |EncodeItems(EncodeQuestion, items)|)))
  {
    hide QuestionAt, EncodeQuestion, ReceivedQuestion, At, EncodeItems, Map, ItemsAt;
    QuestionsInverse(data, dnsStart);
    var itemAt := p => QuestionAt(data, dnsStart, p);
    SectionReadsBack(data, itemAt, EncodeQuestion, ReceivedQuestion, pos, items);
  }

  lemma RecordsInverse(data: seq<byte>, dnsStart: nat)
    ensures ItemsReadBack(data, p => RecordAt(data, dnsStart, p), EncodeRecord, ReceivedRecord)
  {
    hide RecordAt, EncodeRecord, ReceivedRecord;
    forall w: GoodRecord, p: nat | At(data, p, EncodeRecord(w))
      ensures RecordAt(data, dnsStart, p) == Finished(Ok(Parsed(ReceivedRecord(w), p + |EncodeRecord(w)|)))
    {
      RecordReadsBack(data, dnsStart, p, w);
    }
  }

  lemma RecordsReadBack(data: seq<byte>, dnsStart: nat, pos: nat, items: seq<GoodRecord>)
    requires At(data, pos, EncodeItems(EncodeRecord, items))
    ensures Records(data, dnsStart, pos, |items|)
            == Finished(Ok(Parsed(Map(ReceivedRecord, items), pos + |EncodeItems(EncodeRecord, items)|)))
  {
    hide RecordAt, EncodeRecord, ReceivedRecord, At, EncodeItems, Map, ItemsAt;
    RecordsInverse(data, dnsStart);
    var itemAt := p => RecordAt(data, dnsStart, p);
    SectionReadsBack(data, itemAt, EncodeRecord, ReceivedRecord, pos, items);
  }

  lemma HeaderReadsBack(data: seq<byte>, offset: nat, m: SentMessage)
    requires Sendable(m) && At(data, offset, EncodeHeader(m))
    ensures |EncodeHeader(m)| == HEADER_SIZE
    ensures U16At(data, offset) == m.id && FlagsOf(U16At(data, offset + 2)) == m.flags
    ensures U16At(data, offset + 4) == |m.questions| && U16At(data, offset + 6) == |m.answers|
    ensures U16At(data, offset + 8) == |m.authorities| && U16At(data, offset + 10) == |m.additionals|
  {
    var a, b, c := U16Bytes(m.id), U16Bytes(FlagWord(m.flags)), U16Bytes(|m.questions|);
    var d, e, f := U16Bytes(|m.answers|), U16Bytes(|m.authorities|), U16Bytes(|m.additionals|);
    AtSplit(data, offset, a + b + c + d + e, f);
    AtSplit(data, offset, a + b + c + d, e);
    AtSplit(data, offset, a + b + c, d);
    AtSplit(data, offset, a + b, c);
    AtSplit(data, offset, a, b);
    U16ReadsBack(data, offset, m.id);
    U16ReadsBack(data, offset + 2, FlagWord(m.flags));
    U16ReadsBack(data, offset + 4, |m.questions|);
    U16ReadsBack(data, offset + 6, |m.answers|);
    U16ReadsBack(data, offset + 8, |m.authorities|);
    U16ReadsBack(data, offset + 10, |m.additionals|);
    FlagsReadBack(m.flags);
  }

  /** Round trip: for every message, wherever it starts and whatever surrounds it, decoding its encoding returns the
      same fields and sections and advances the offset exactly to its end. */
  lemma MessageReadsBack(before: seq<byte>, m: SentMessage, behind: seq<byte>)
    requires Sendable(m)
    ensures MessageAt(before + EncodeMessage(m) + behind, |before|)
            == Finished(Ok(Parsed(ReceivedMessage(m), |before| + |EncodeMessage(m)|)))
  {
    hide EncodeItems, Map, EncodeHeader, U16At, FlagsOf, Questions, Records;
    var data, offset := before + EncodeMessage(m) + behind, |before|;
    assert At(data, offset, EncodeMessage(m));
    var h, q, an, ns, ar := EncodeHeader(m), EncodeItems(EncodeQuestion, m.questions),
      EncodeItems(EncodeRecord, m.answers), EncodeItems(EncodeRecord, m.authorities),
      EncodeItems(EncodeRecord, m.additionals);
    AtSplit(data, offset, h + q + an + ns, ar);
    AtSplit(data, offset, h + q + an, ns);
    AtSplit(data, offset, h + q, an);
    AtSplit(data, offset, h, q);
    HeaderReadsBack(data, offset, m);
    QuestionsReadBack(data, offset, offset + |h|, m.questions);
    RecordsReadBack(data, offset, offset + |h| + |q|, m.answers);
    RecordsReadBack(data, offset, offset + |h| + |q| + |an|, m.authorities);
    RecordsReadBack(data, offset, offset + |h| + |q| + |an| + |ns|, m.additionals);
  }
}
