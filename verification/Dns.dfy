/** DNS messages (section 4.1 of RFC 1035). */
module Dns {
  import opened Common
  import opened DnsName
  import opened Wire

  datatype DnsQuestion = DnsQuestion(name: seq<byte>, qtype: u16, qclass: u16)
  datatype DnsRecord = DnsRecord(name: seq<byte>, rtype: u16, rclass: u16, ttl: u32, rdata: seq<byte>)

  datatype DnsFlags = DnsFlags(
    isResponse: bool, opcode: nat, authoritative: bool, truncated: bool, recursionDesired: bool,
    recursionAvailable: bool, rcode: nat)

  datatype DnsMessage = DnsMessage(
    id: u16, flags: DnsFlags, questions: seq<DnsQuestion>, answers: seq<DnsRecord>,
    authorities: seq<DnsRecord>, additionals: seq<DnsRecord>)

  /** A decoded item and the position behind it. */
  datatype Parsed<+T> = Parsed(item: T, pos: nat)

  const HEADER_SIZE := 12

  function FlagsOf(flags: u16): DnsFlags {
    DnsFlags(flags >= 0x8000, flags / 0x800 % 16, flags / 0x400 % 2 == 1, flags / 0x200 % 2 == 1,
             flags / 0x100 % 2 == 1, flags / 0x80 % 2 == 1, flags % 16)
  }

  function QuestionAt(data: seq<byte>, dnsStart: nat, pos: nat): Outcome<Parsed<DnsQuestion>> {
    match NameAt(data, dnsStart, pos)
    case Hangs => Hangs
    case Finished(Err(e)) => Finished(Err(e))
    case Finished(Ok(NamePos(name, p))) =>
      if p + 4 > |data| then Finished(Err(TruncatedHeader))
      else Finished(Ok(Parsed(DnsQuestion(name, U16At(data, p), U16At(data, p + 2)), p + 4)))
  }

  function RecordAt(data: seq<byte>, dnsStart: nat, pos: nat): Outcome<Parsed<DnsRecord>> {
    match NameAt(data, dnsStart, pos)
    case Hangs => Hangs
    case Finished(Err(e)) => Finished(Err(e))
    case Finished(Ok(NamePos(name, p))) =>
      if p + 10 > |data| then Finished(Err(TruncatedHeader))
      else
        var end := p + 10 + U16At(data, p + 8);
        if end > |data| then Finished(Err(TruncatedHeader))
        else
          Finished(Ok(Parsed(
            DnsRecord(name, U16At(data, p), U16At(data, p + 2), U32At(data, p + 4), data[p + 10..end]), end)))
  }

  /** The first `n` items of a section. */
  function ItemsAt<T>(itemAt: nat -> Outcome<Parsed<T>>, pos: nat, n: nat): Outcome<Parsed<seq<T>>> {
    if n == 0 then Finished(Ok(Parsed([], pos)))
    else
      match ItemsAt(itemAt, pos, n - 1)
      case Hangs => Hangs
      case Finished(Err(e)) => Finished(Err(e))
      case Finished(Ok(Parsed(items, p))) =>
        match itemAt(p)
        case Hangs => Hangs
        case Finished(Err(e)) => Finished(Err(e))
        case Finished(Ok(Parsed(item, q))) => Finished(Ok(Parsed(items + [item], q)))
  }

  function Questions(data: seq<byte>, dnsStart: nat, pos: nat, n: nat): Outcome<Parsed<seq<DnsQuestion>>> {
    ItemsAt(p => QuestionAt(data, dnsStart, p), pos, n)
  }

  function Records(data: seq<byte>, dnsStart: nat, pos: nat, n: nat): Outcome<Parsed<seq<DnsRecord>>> {
    ItemsAt(p => RecordAt(data, dnsStart, p), pos, n)
  }

  /** The message at `offset` and the offset behind it. */
  function MessageAt(data: seq<byte>, offset: nat): Outcome<Parsed<DnsMessage>> {
    if |data| < offset + HEADER_SIZE then Finished(Err(TruncatedHeader))
    else
      match Questions(data, offset, offset + HEADER_SIZE, U16At(data, offset + 4))
      case Hangs => Hangs
      case Finished(Err(e)) => Finished(Err(e))
      case Finished(Ok(Parsed(questions, p1))) =>
        match Records(data, offset, p1, U16At(data, offset + 6))
        case Hangs => Hangs
        case Finished(Err(e)) => Finished(Err(e))
        case Finished(Ok(Parsed(answers, p2))) =>
          match Records(data, offset, p2, U16At(data, offset + 8))
          case Hangs => Hangs
          case Finished(Err(e)) => Finished(Err(e))
          case Finished(Ok(Parsed(authorities, p3))) =>
            match Records(data, offset, p3, U16At(data, offset + 10))
            case Hangs => Hangs
            case Finished(Err(e)) => Finished(Err(e))
            case Finished(Ok(Parsed(additionals, p4))) =>
              Finished(Ok(Parsed(
                DnsMessage(U16At(data, offset), FlagsOf(U16At(data, offset + 2)),
                           questions, answers, authorities, additionals), p4)))
  }

  // ----- The decoder -----

  method DecodeQuestion(data: seq<byte>, dnsStart: nat, pos: nat) returns (r: Result<Parsed<DnsQuestion>>)
    requires QuestionAt(data, dnsStart, pos) != Hangs
    ensures Finished(r) == QuestionAt(data, dnsStart, pos)
  {
    var nameResult := DecodeName(data, dnsStart, pos);
    if nameResult.Err? {
      return Err(nameResult.error);
    }
    var p := nameResult.value.pos;
    if p + 4 > |data| {
      return Err(TruncatedHeader);
    }
    var qtype := U16At(data, p);
    p := p + 2;
    var qclass := U16At(data, p);
    p := p + 2;
    return Ok(Parsed(DnsQuestion(nameResult.value.name, qtype, qclass), p));
  }

  method DecodeRecord(data: seq<byte>, dnsStart: nat, pos: nat) returns (r: Result<Parsed<DnsRecord>>)
    requires RecordAt(data, dnsStart, pos) != Hangs
    ensures Finished(r) == RecordAt(data, dnsStart, pos)
  {
    var nameResult := DecodeName(data, dnsStart, pos);
    if nameResult.Err? {
      return Err(nameResult.error);
    }
    var p := nameResult.value.pos;
    if p + 10 > |data| {
      return Err(TruncatedHeader);
    }
    var rtype := U16At(data, p);
    p := p + 2;
    var rclass := U16At(data, p);
    p := p + 2;
    var ttl := U32At(data, p);
    p := p + 4;
    var rdlen := U16At(data, p);
    p := p + 2;
    if p + rdlen > |data| {
      return Err(TruncatedHeader);
    }
    return Ok(Parsed(DnsRecord(nameResult.value.name, rtype, rclass, ttl, data[p..p + rdlen]), p + rdlen));
  }

  /** A section that hangs for fewer items hangs for more; a call that returns came to every item it returns. */
  lemma {:induction false} SectionPrefix<T>(itemAt: nat -> Outcome<Parsed<T>>, pos: nat, i: nat, n: nat)
    requires i <= n && ItemsAt(itemAt, pos, n) != Hangs
    ensures ItemsAt(itemAt, pos, i) != Hangs
    ensures ItemsAt(itemAt, pos, i).result.Err? ==> ItemsAt(itemAt, pos, n) == ItemsAt(itemAt, pos, i)
    decreases n - i
  {
    if i < n {
      SectionPrefix(itemAt, pos, i + 1, n);
    }
  }

  method DecodeQuestions(data: seq<byte>, dnsStart: nat, start: nat, n: nat)
    returns (r: Result<Parsed<seq<DnsQuestion>>>)
    requires Questions(data, dnsStart, start, n) != Hangs
    ensures Finished(r) == Questions(data, dnsStart, start, n)
  {
    ghost var itemAt := p => QuestionAt(data, dnsStart, p);
    var questions, pos := [], start;
    for i := 0 to n
      invariant ItemsAt(itemAt, start, i) == Finished(Ok(Parsed(questions, pos)))
    {
      SectionPrefix(itemAt, start, i + 1, n);
      var q := DecodeQuestion(data, dnsStart, pos);
      if q.Err? {
        return Err(q.error);
      }
      questions, pos := questions + [q.value.item], q.value.pos;
    }
    return Ok(Parsed(questions, pos));
  }

  method DecodeRecords(data: seq<byte>, dnsStart: nat, start: nat, n: nat)
    returns (r: Result<Parsed<seq<DnsRecord>>>)
    requires Records(data, dnsStart, start, n) != Hangs
    ensures Finished(r) == Records(data, dnsStart, start, n)
  {
    ghost var itemAt := p => RecordAt(data, dnsStart, p);
    var records, pos := [], start;
    for i := 0 to n
      invariant ItemsAt(itemAt, start, i) == Finished(Ok(Parsed(records, pos)))
    {
      SectionPrefix(itemAt, start, i + 1, n);
      var record := DecodeRecord(data, dnsStart, pos);
      if record.Err? {
        return Err(record.error);
      }
      records, pos := records + [record.value.item], record.value.pos;
    }
    return Ok(Parsed(records, pos));
  }

  /** decodeDns, on every input on which it terminates; an error leaves the caller's offset as it was. */
  method DecodeDns(data: seq<byte>, offset: nat) returns (r: Result<Parsed<DnsMessage>>)
    requires MessageAt(data, offset) != Hangs
    ensures Finished(r) == MessageAt(data, offset)
  {
    if |data| < offset + HEADER_SIZE {
      return Err(TruncatedHeader);
    }
    var id := U16At(data, offset);
    var flags := U16At(data, offset + 2);
    var qdcount := U16At(data, offset + 4);
    var ancount := U16At(data, offset + 6);
    var nscount := U16At(data, offset + 8);
    var arcount := U16At(data, offset + 10);
    var questions := DecodeQuestions(data, offset, offset + HEADER_SIZE, qdcount);
    if questions.Err? {
      return Err(questions.error);
    }
    var answers := DecodeRecords(data, offset, questions.value.pos, ancount);
    if answers.Err? {
      return Err(answers.error);
    }
    var authorities := DecodeRecords(data, offset, answers.value.pos, nscount);
    if authorities.Err? {
      return Err(authorities.error);
    }
    var additionals := DecodeRecords(data, offset, authorities.value.pos, arcount);
    if additionals.Err? {
      return Err(additionals.error);
    }
    return Ok(Parsed(
      DnsMessage(id, FlagsOf(flags), questions.value.item, answers.value.item,
                 authorities.value.item, additionals.value.item), additionals.value.pos));
  }
}
