/** Messages whose names use compression (section 4.1.4 of RFC 1035) read back. */
module DnsCompression {
  import opened Common
  import opened DnsName
  import opened Dns
  import opened Wire
  import DnsRoundTrip

  // ----- Names -----

  /** One way to write a name: labels and a zero byte, or labels and a pointer to where the rest is written. */
  datatype Spelling = Whole(labels: seq<seq<byte>>) | Pointing(labels: seq<seq<byte>>, pointer: nat, rest: Spelling)

  function AllLabels(s: Spelling): seq<seq<byte>> {
    match s
    case Whole(labels) => labels
    case Pointing(labels, _, rest) => labels + AllLabels(rest)
  }

  function PointerBytes(pointer: nat): seq<byte>
    requires pointer < 0x4000
  {
    [0xC0 + pointer / 256, pointer % 256]
  }

  /** The name is written like this at `pos`, and so is what its pointer points to, anywhere in the message. */
  predicate Spells(data: seq<byte>, dnsStart: nat, pos: nat, s: Spelling)
    decreases s
  {
    && GoodLabels(s.labels)
    && match s
       case Whole(labels) => At(data, pos, EncodeLabels(labels) + [0])
       case Pointing(labels, pointer, rest) =>
         && pointer < 0x4000 && dnsStart + pointer < |data|
         && At(data, pos, EncodeLabels(labels) + PointerBytes(pointer))
         && Spells(data, dnsStart, dnsStart + pointer, rest)
  }

  /** How many bytes the name takes at its own place. */
  function SizeOf(s: Spelling): nat
    requires GoodLabels(s.labels)
  {
    |EncodeLabels(s.labels)| + (if s.Whole? then 1 else 2)
  }

  /** Following the pointers comes to an end, and collects all labels. */
  lemma {:induction false} SpelledLabels(data: seq<byte>, dnsStart: nat, pos: nat, s: Spelling) returns (n: nat)
    requires Spells(data, dnsStart, pos, s)
    ensures HaltsWithin(data, dnsStart, pos, n) && Labels(data, dnsStart, pos, n) == Ok(AllLabels(s))
    ensures NameEnd(data, dnsStart, pos) == pos + SizeOf(s)
    decreases s
  {
    hide MoveAt, HaltsWithin, Labels, NameEnd, EncodeLabels, GoodLabels;
    var end := pos + |EncodeLabels(s.labels)|;
    match s
    case Whole(labels) =>
      AtSplit(data, pos, EncodeLabels(labels), [0]);
      ZeroEnds(data, dnsStart, end);
      LabelsInFront(data, dnsStart, pos, labels, 0);
      assert labels + [] == labels;
      n := |labels|;
    case Pointing(labels, pointer, rest) =>
      var k := SpelledLabels(data, dnsStart, dnsStart + pointer, rest);
      AtSplit(data, pos, EncodeLabels(labels), PointerBytes(pointer));
      PointerInFront(data, dnsStart, end, pointer, AllLabels(rest), k);
      LabelsInFront(data, dnsStart, pos, labels, k + 1);
      n := k + 1 + |labels|;
  }

  /** Every name that is spelled somehow, with any number of pointers in any direction, decodes to its labels and ends
      behind its own bytes. */
  lemma SpelledName(data: seq<byte>, dnsStart: nat, pos: nat, s: Spelling)
    requires Spells(data, dnsStart, pos, s)
    ensures NameAt(data, dnsStart, pos) == Finished(Ok(NamePos(DotJoin(AllLabels(s)), pos + SizeOf(s))))
  {
    hide NameAt, Spells, DotJoin;
    var n := SpelledLabels(data, dnsStart, pos, s);
    NameIsKnown(data, dnsStart, pos, AllLabels(s), n);
  }

  // ----- Items -----

  datatype SpelledQuestion = SpelledQuestion(name: Spelling, qtype: u16, qclass: u16)
  datatype SpelledRecord = SpelledRecord(name: Spelling, rtype: u16, rclass: u16, ttl: u32, rdata: seq<byte>)

  function QuestionOf(q: SpelledQuestion): DnsQuestion {
    DnsQuestion(DotJoin(AllLabels(q.name)), q.qtype, q.qclass)
  }

  function RecordOf(r: SpelledRecord): DnsRecord {
    DnsRecord(DotJoin(AllLabels(r.name)), r.rtype, r.rclass, r.ttl, r.rdata)
  }

  predicate QuestionLaid(data: seq<byte>, dnsStart: nat, pos: nat, q: SpelledQuestion) {
    && Spells(data, dnsStart, pos, q.name)
    && At(data, pos + SizeOf(q.name), U16Bytes(q.qtype) + U16Bytes(q.qclass))
  }

  /** What stands behind a record's name. */
  function FieldBytes(r: SpelledRecord): seq<byte>
    requires |r.rdata| < 0x1_0000
  {
    U16Bytes(r.rtype) + U16Bytes(r.rclass) + U32Bytes(r.ttl) + U16Bytes(|r.rdata|) + r.rdata
  }

  predicate FieldsLaid(data: seq<byte>, pos: nat, r: SpelledRecord)
    requires |r.rdata| < 0x1_0000
  {
    At(data, pos, FieldBytes(r))
  }

  predicate RecordLaid(data: seq<byte>, dnsStart: nat, pos: nat, r: SpelledRecord) {
    && Spells(data, dnsStart, pos, r.name) && |r.rdata| < 0x1_0000
    && FieldsLaid(data, pos + SizeOf(r.name), r)
  }

  lemma LaidQuestion(data: seq<byte>, dnsStart: nat, pos: nat, q: SpelledQuestion)
    requires QuestionLaid(data, dnsStart, pos, q)
    ensures QuestionAt(data, dnsStart, pos) == Finished(Ok(Parsed(QuestionOf(q), pos + SizeOf(q.name) + 4)))
  {
    SpelledName(data, dnsStart, pos, q.name);
    var p := pos + SizeOf(q.name);
    hide NameAt, Spells, DotJoin, AllLabels, SizeOf;
    AtSplit(data, p, U16Bytes(q.qtype), U16Bytes(q.qclass));
    U16ReadsBack(data, p, q.qtype);
    U16ReadsBack(data, p + 2, q.qclass);
  }

  lemma FieldsReadBack(data: seq<byte>, p: nat, r: SpelledRecord)
    requires |r.rdata| < 0x1_0000 && FieldsLaid(data, p, r)
    ensures p + 10 + |r.rdata| <= |data|
    ensures U16At(data, p) == r.rtype && U16At(data, p + 2) == r.rclass && U32At(data, p + 4) == r.ttl
    ensures U16At(data, p + 8) == |r.rdata| && data[p + 10..p + 10 + |r.rdata|] == r.rdata
  {
    hide At, U16At, U32At;
    DnsRoundTrip.RecordFieldsReadBack(data, p, DnsRoundTrip.SentRecord([], r.rtype, r.rclass, r.ttl, r.rdata));
  }

  lemma RecordBehindName(data: seq<byte>, dnsStart: nat, pos: nat, name: seq<byte>, p: nat, r: SpelledRecord)
    requires NameAt(data, dnsStart, pos) == Finished(Ok(NamePos(name, p)))
    requires |r.rdata| < 0x1_0000 && FieldsLaid(data, p, r)
    ensures RecordAt(data, dnsStart, pos)
            == Finished(Ok(Parsed(DnsRecord(name, r.rtype, r.rclass, r.ttl, r.rdata), p + 10 + |r.rdata|)))
  {
    hide NameAt, U16At, U32At, FieldsLaid;
    FieldsReadBack(data, p, r);
  }

  lemma LaidRecord(data: seq<byte>, dnsStart: nat, pos: nat, r: SpelledRecord)
    requires RecordLaid(data, dnsStart, pos, r)
    ensures RecordAt(data, dnsStart, pos)
            == Finished(Ok(Parsed(RecordOf(r), pos + SizeOf(r.name) + 10 + |r.rdata|)))
  {
    var name, p := DotJoin(AllLabels(r.name)), pos + SizeOf(r.name);
    hide NameAt, Spells, DotJoin, AllLabels, SizeOf, FieldsLaid, RecordAt;
    SpelledName(data, dnsStart, pos, r.name);
    RecordBehindName(data, dnsStart, pos, name, p, r);
  }

  // ----- Sections -----

  /** The items stand one behind the other, from `pos` to `end`. */
  ghost predicate SectionLaid<W>(laid: (nat, W, nat) -> bool, items: seq<W>, pos: nat, end: nat)
    decreases |items|
  {
    if items == [] then pos == end
    else exists p: nat :: SectionLaid(laid, Init(items), pos, p) && laid(p, Last(items), end)
  }

  /** Wherever an item is laid out, it decodes to what it says and ends where it ends. */
  ghost predicate Decodes<W(!new), T(!new)>(
    itemAt: nat -> Outcome<Parsed<T>>, laid: (nat, W, nat) -> bool, received: W -> T)
  {
    forall w: W, p: nat, q: nat :: laid(p, w, q) ==> itemAt(p) == Finished(Ok(Parsed(received(w), q)))
  }

  lemma {:induction false} SectionDecodes<W(!new), T(!new)>(
    itemAt: nat -> Outcome<Parsed<T>>, laid: (nat, W, nat) -> bool, received: W -> T,
    items: seq<W>, pos: nat, end: nat)
    requires Decodes(itemAt, laid, received) && SectionLaid(laid, items, pos, end)
    ensures ItemsAt(itemAt, pos, |items|) == Finished(Ok(Parsed(DnsRoundTrip.Map(received, items), end)))
    decreases |items|
  {
    if items != [] {
      var p: nat :| SectionLaid(laid, Init(items), pos, p) && laid(p, Last(items), end);
      SectionDecodes(itemAt, laid, received, Init(items), pos, p);
    }
  }

  function LaysQuestion(data: seq<byte>, dnsStart: nat): (nat, SpelledQuestion, nat) -> bool {
    (p: nat, q: SpelledQuestion, end: nat) =>
      QuestionLaid(data, dnsStart, p, q) && end == p + SizeOf(q.name) + 4
  }

  function LaysRecord(data: seq<byte>, dnsStart: nat): (nat, SpelledRecord, nat) -> bool {
    (p: nat, r: SpelledRecord, end: nat) =>
      RecordLaid(data, dnsStart, p, r) && end == p + SizeOf(r.name) + 10 + |r.rdata|
  }

  lemma QuestionsDecode(data: seq<byte>, dnsStart: nat, items: seq<SpelledQuestion>, pos: nat, end: nat)
    requires SectionLaid(LaysQuestion(data, dnsStart), items, pos, end)
    ensures Questions(data, dnsStart, pos, |items|)
            == Finished(Ok(Parsed(DnsRoundTrip.Map(QuestionOf, items), end)))
  {
    hide QuestionAt, QuestionLaid, QuestionOf, SectionLaid, ItemsAt, DnsRoundTrip.Map, SizeOf;
    var itemAt, laid := p => QuestionAt(data, dnsStart, p), LaysQuestion(data, dnsStart);
    forall q: SpelledQuestion, p: nat, e: nat | laid(p, q, e)
      ensures itemAt(p) == Finished(Ok(Parsed(QuestionOf(q), e)))
    {
      LaidQuestion(data, dnsStart, p, q);
    }
    SectionDecodes(itemAt, laid, QuestionOf, items, pos, end);
  }

  lemma RecordsDecode(data: seq<byte>, dnsStart: nat, items: seq<SpelledRecord>, pos: nat, end: nat)
    requires SectionLaid(LaysRecord(data, dnsStart), items, pos, end)
    ensures Records(data, dnsStart, pos, |items|)
            == Finished(Ok(Parsed(DnsRoundTrip.Map(RecordOf, items), end)))
  {
    hide RecordAt, RecordLaid, RecordOf, SectionLaid, ItemsAt, DnsRoundTrip.Map, SizeOf;
    var itemAt, laid := p => RecordAt(data, dnsStart, p), LaysRecord(data, dnsStart);
    forall r: SpelledRecord, p: nat, e: nat | laid(p, r, e)
      ensures itemAt(p) == Finished(Ok(Parsed(RecordOf(r), e)))
    {
      LaidRecord(data, dnsStart, p, r);
    }
    SectionDecodes(itemAt, laid, RecordOf, items, pos, end);
  }

  // ----- Messages -----

  datatype SpelledMessage = SpelledMessage(
    id: u16, flags: DnsFlags, questions: seq<SpelledQuestion>, answers: seq<SpelledRecord>,
    authorities: seq<SpelledRecord>, additionals: seq<SpelledRecord>)

  function MessageOf(m: SpelledMessage): DnsMessage {
    DnsMessage(m.id, m.flags, DnsRoundTrip.Map(QuestionOf, m.questions), DnsRoundTrip.Map(RecordOf, m.answers),
               DnsRoundTrip.Map(RecordOf, m.authorities), DnsRoundTrip.Map(RecordOf, m.additionals))
  }

  predicate HeaderLaid(data: seq<byte>, offset: nat, m: SpelledMessage) {
    && offset + HEADER_SIZE <= |data| && DnsRoundTrip.GoodFlags(m.flags)
    && U16At(data, offset) == m.id && U16At(data, offset + 2) == DnsRoundTrip.FlagWord(m.flags)
    && U16At(data, offset + 4) == |m.questions| && U16At(data, offset + 6) == |m.answers|
    && U16At(data, offset + 8) == |m.authorities| && U16At(data, offset + 10) == |m.additionals|
  }

  /** The message is laid out in the buffer from `offset` to `end`: header, four sections, and every name spelled. */
  ghost predicate MessageLaid(data: seq<byte>, offset: nat, m: SpelledMessage, end: nat) {
    && HeaderLaid(data, offset, m)
    && exists p1: nat, p2: nat, p3: nat ::
         && SectionLaid(LaysQuestion(data, offset), m.questions, offset + HEADER_SIZE, p1)
         && SectionLaid(LaysRecord(data, offset), m.answers, p1, p2)
         && SectionLaid(LaysRecord(data, offset), m.authorities, p2, p3)
         && SectionLaid(LaysRecord(data, offset), m.additionals, p3, end)
  }

  /** Round trip with compression: however a message's names are compressed, decoding returns the message and advances
      the offset exactly to its end. */
  lemma CompressedMessageReadsBack(data: seq<byte>, offset: nat, m: SpelledMessage, end: nat)
    requires MessageLaid(data, offset, m, end)
    ensures MessageAt(data, offset) == Finished(Ok(Parsed(MessageOf(m), end)))
  {
    hide SectionLaid, Questions, Records, DnsRoundTrip.Map, U16At, FlagsOf, DnsRoundTrip.FlagWord;
    var p1: nat, p2: nat, p3: nat :|
      && SectionLaid(LaysQuestion(data, offset), m.questions, offset + HEADER_SIZE, p1)
      && SectionLaid(LaysRecord(data, offset), m.answers, p1, p2)
      && SectionLaid(LaysRecord(data, offset), m.authorities, p2, p3)
      && SectionLaid(LaysRecord(data, offset), m.additionals, p3, end);
    DnsRoundTrip.FlagsReadBack(m.flags);
    QuestionsDecode(data, offset, m.questions, offset + HEADER_SIZE, p1);
    RecordsDecode(data, offset, m.answers, p1, p2);
    RecordsDecode(data, offset, m.authorities, p2, p3);
    RecordsDecode(data, offset, m.additionals, p3, end);
  }

  // ----- The usual answer -----

  /** The header of a message with one question and one answer. */
  function AnswerHead(id: u16, flags: DnsFlags): (head: seq<byte>)
    requires DnsRoundTrip.GoodFlags(flags)
    ensures |head| == HEADER_SIZE
  {
    U16Bytes(id) + U16Bytes(DnsRoundTrip.FlagWord(flags)) + U16Bytes(1) + U16Bytes(1) + U16Bytes(0) + U16Bytes(0)
  }

  function QuestionBytes(q: SpelledQuestion): seq<byte>
    requires GoodLabels(q.name.labels)
  {
    EncodeLabels(q.name.labels) + [0] + (U16Bytes(q.qtype) + U16Bytes(q.qclass))
  }

  predicate Answers(question: SpelledQuestion, answer: SpelledRecord) {
    && GoodLabels(question.name.labels) && |answer.rdata| < 0x1_0000
    && question.name.Whole? && answer.name == Pointing([], HEADER_SIZE, question.name)
  }

  /** A query's answer: one question, and one record whose name is a pointer to the question's. */
  function AnswerTo(id: u16, flags: DnsFlags, question: SpelledQuestion, answer: SpelledRecord): seq<byte>
    requires DnsRoundTrip.GoodFlags(flags) && Answers(question, answer)
  {
    AnswerHead(id, flags) + QuestionBytes(question) + (PointerBytes(HEADER_SIZE) + FieldBytes(answer))
  }

  lemma AnswerHeader(data: seq<byte>, offset: nat, id: u16, flags: DnsFlags)
    requires DnsRoundTrip.GoodFlags(flags) && At(data, offset, AnswerHead(id, flags))
    ensures offset + HEADER_SIZE <= |data|
    ensures U16At(data, offset) == id && U16At(data, offset + 2) == DnsRoundTrip.FlagWord(flags)
    ensures U16At(data, offset + 4) == 1 && U16At(data, offset + 6) == 1
    ensures U16At(data, offset + 8) == 0 && U16At(data, offset + 10) == 0
  {
    hide DnsRoundTrip.FlagWord;
    var a, b, c := U16Bytes(id), U16Bytes(DnsRoundTrip.FlagWord(flags)), U16Bytes(1);
    var d, e := U16Bytes(1), U16Bytes(0);
    AtSplit(data, offset, a + b + c + d + e, e);
    AtSplit(data, offset, a + b + c + d, e);
    AtSplit(data, offset, a + b + c, d);
    AtSplit(data, offset, a + b, c);
    AtSplit(data, offset, a, b);
    U16ReadsBack(data, offset, id);
    U16ReadsBack(data, offset + 2, DnsRoundTrip.FlagWord(flags));
    U16ReadsBack(data, offset + 4, 1);
    U16ReadsBack(data, offset + 6, 1);
    U16ReadsBack(data, offset + 8, 0);
    U16ReadsBack(data, offset + 10, 0);
  }

  lemma OneItemLaid<W>(laid: (nat, W, nat) -> bool, item: W, pos: nat, end: nat)
    requires laid(pos, item, end)
    ensures SectionLaid(laid, [item], pos, end) && SectionLaid(laid, [], end, end)
  {
    assert Init([item]) == [];
    assert SectionLaid(laid, Init([item]), pos, pos);
  }

  lemma QuestionIsLaid(data: seq<byte>, dnsStart: nat, pos: nat, q: SpelledQuestion)
    requires GoodLabels(q.name.labels) && q.name.Whole? && At(data, pos, QuestionBytes(q))
    ensures QuestionLaid(data, dnsStart, pos, q) && |QuestionBytes(q)| == SizeOf(q.name) + 4
  {
    AtSplit(data, pos, EncodeLabels(q.name.labels) + [0], U16Bytes(q.qtype) + U16Bytes(q.qclass));
  }

  lemma PointingRecordIsLaid(data: seq<byte>, dnsStart: nat, pos: nat, question: SpelledQuestion, r: SpelledRecord)
    requires Answers(question, r) && At(data, pos, PointerBytes(HEADER_SIZE) + FieldBytes(r))
    requires Spells(data, dnsStart, dnsStart + HEADER_SIZE, question.name) && dnsStart + HEADER_SIZE < |data|
    ensures RecordLaid(data, dnsStart, pos, r)
    ensures |PointerBytes(HEADER_SIZE) + FieldBytes(r)| == SizeOf(r.name) + 10 + |r.rdata|
  {
    AtSplit(data, pos, PointerBytes(HEADER_SIZE), FieldBytes(r));
    assert EncodeLabels([]) + PointerBytes(HEADER_SIZE) == PointerBytes(HEADER_SIZE);
    assert |FieldBytes(r)| == 10 + |r.rdata|;
    hide At, FieldBytes, EncodeLabels;
  }

  function AnswerMessage(id: u16, flags: DnsFlags, question: SpelledQuestion, answer: SpelledRecord): SpelledMessage {
    SpelledMessage(id, flags, [question], [answer], [], [])
  }

  lemma NotAtEnd(data: seq<byte>, pos: nat, q: SpelledQuestion)
    requires GoodLabels(q.name.labels) && At(data, pos, QuestionBytes(q))
    ensures pos < |data|
  {
  }

  lemma AnswerItemsLaid(data: seq<byte>, offset: nat, question: SpelledQuestion, answer: SpelledRecord)
    requires Answers(question, answer)
    requires At(data, offset + HEADER_SIZE, QuestionBytes(question))
    requires At(data, offset + HEADER_SIZE + |QuestionBytes(question)|, PointerBytes(HEADER_SIZE) + FieldBytes(answer))
    ensures
      var p := offset + HEADER_SIZE + |QuestionBytes(question)|;
      var end := p + |PointerBytes(HEADER_SIZE) + FieldBytes(answer)|;
      && SectionLaid(LaysQuestion(data, offset), [question], offset + HEADER_SIZE, p)
      && SectionLaid(LaysRecord(data, offset), [answer], p, end)
      && SectionLaid(LaysRecord(data, offset), [], end, end)
  {
    var p := offset + HEADER_SIZE + |QuestionBytes(question)|;
    var end := p + |PointerBytes(HEADER_SIZE) + FieldBytes(answer)|;
    hide QuestionBytes, PointerBytes, FieldBytes, At, SectionLaid;
    QuestionIsLaid(data, offset, offset + HEADER_SIZE, question);
    NotAtEnd(data, offset + HEADER_SIZE, question);
    PointingRecordIsLaid(data, offset, p, question, answer);
    hide QuestionLaid, RecordLaid, Spells, SizeOf;
    OneItemLaid(LaysQuestion(data, offset), question, offset + HEADER_SIZE, p);
    OneItemLaid(LaysRecord(data, offset), answer, p, end);
  }

  lemma AnswerIsLaid(
    data: seq<byte>, offset: nat, id: u16, flags: DnsFlags, question: SpelledQuestion, answer: SpelledRecord)
    requires DnsRoundTrip.GoodFlags(flags) && Answers(question, answer)
    requires At(data, offset, AnswerTo(id, flags, question, answer))
    ensures
      MessageLaid(data, offset, AnswerMessage(id, flags, question, answer),
                  offset + |AnswerTo(id, flags, question, answer)|)
  {
    var first, second := QuestionBytes(question), PointerBytes(HEADER_SIZE) + FieldBytes(answer);
    hide AnswerHead, QuestionBytes, PointerBytes, FieldBytes, U16At, At, SectionLaid, DnsRoundTrip.FlagWord;
    AtSplit(data, offset, AnswerHead(id, flags) + first, second);
    AtSplit(data, offset, AnswerHead(id, flags), first);
    AnswerHeader(data, offset, id, flags);
    AnswerItemsLaid(data, offset, question, answer);
  }

  /** One question and one record, both with the name of the question. */
  function AnswerSays(id: u16, flags: DnsFlags, question: SpelledQuestion, answer: SpelledRecord): DnsMessage {
    var name := DotJoin(question.name.labels);
    DnsMessage(id, flags, [DnsQuestion(name, question.qtype, question.qclass)],
               [DnsRecord(name, answer.rtype, answer.rclass, answer.ttl, answer.rdata)], [], [])
  }

  lemma AnswerRead(question: SpelledQuestion, answer: SpelledRecord, id: u16, flags: DnsFlags)
    requires Answers(question, answer)
    ensures MessageOf(AnswerMessage(id, flags, question, answer)) == AnswerSays(id, flags, question, answer)
  {
    hide DotJoin;
    assert AllLabels(answer.name) == [] + question.name.labels == question.name.labels;
    assert Init([question]) == [] && Init([answer]) == [];
  }

  /** For every name, wherever the message stands: the answer's pointer to the question gives both the same name. */
  lemma AnswerNamesTheQuestion(
    data: seq<byte>, offset: nat, id: u16, flags: DnsFlags, question: SpelledQuestion, answer: SpelledRecord)
    requires DnsRoundTrip.GoodFlags(flags) && Answers(question, answer)
    requires At(data, offset, AnswerTo(id, flags, question, answer))
    ensures MessageAt(data, offset)
            == Finished(Ok(Parsed(AnswerSays(id, flags, question, answer),
                                  offset + |AnswerTo(id, flags, question, answer)|)))
  {
    hide *;
    AnswerRead(question, answer, id, flags);
    AnswerIsLaid(data, offset, id, flags, question, answer);
    CompressedMessageReadsBack(data, offset, AnswerMessage(id, flags, question, answer),
                               offset + |AnswerTo(id, flags, question, answer)|);
  }
}
