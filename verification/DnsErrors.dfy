/** When decoding a DNS message fails, and how. */
module DnsErrors {
  import opened Common
  import opened Wire
  import opened DnsName
  import opened Dns

  /** Labels in front of an error make no difference to it. */
  lemma ErrorIsKnown(data: seq<byte>, dnsStart: nat, pos: nat, labels: seq<seq<byte>>, e: Error)
    requires GoodLabels(labels) && At(data, pos, EncodeLabels(labels))
    requires MoveAt(data, dnsStart, pos + |EncodeLabels(labels)|) == Fail(e)
    ensures NameAt(data, dnsStart, pos) == Finished(Err(e))
  {
    var p := pos + |EncodeLabels(labels)|;
    assert HaltsWithin(data, dnsStart, p, 0) && Labels(data, dnsStart, p, 0) == Err(e);
    hide MoveAt, HaltsWithin, Labels, NameEnd, EncodeLabels, GoodLabels;
    LabelsInFront(data, dnsStart, pos, labels, 0);
    TerminationIsDecidable(data, dnsStart, pos);
    LabelsAgree(data, dnsStart, pos, |labels|, |data|);
  }

  /** What follows any number of labels: a reserved length octet or a pointer beyond the data is malformed, a pointer or
      a label that is cut off is truncated. */
  lemma NameErrors(data: seq<byte>, dnsStart: nat, pos: nat, labels: seq<seq<byte>>)
    requires GoodLabels(labels) && At(data, pos, EncodeLabels(labels)) && pos + |EncodeLabels(labels)| < |data|
    ensures
      var p := pos + |EncodeLabels(labels)|;
      && (0x40 <= data[p] < 0xC0 ==> NameAt(data, dnsStart, pos) == Finished(Err(MalformedPacket)))
      && (data[p] >= 0xC0 && p + 1 == |data| ==> NameAt(data, dnsStart, pos) == Finished(Err(TruncatedHeader)))
      && (data[p] >= 0xC0 && p + 1 < |data|
          && dnsStart + ((data[p] - 0xC0) as int * 256 + data[p + 1]) >= |data| ==>
            NameAt(data, dnsStart, pos) == Finished(Err(MalformedPacket)))
      && (1 <= data[p] < 0x40 && p + 1 + data[p] > |data| ==>
            NameAt(data, dnsStart, pos) == Finished(Err(TruncatedHeader)))
  {
    var m := MoveAt(data, dnsStart, pos + |EncodeLabels(labels)|);
    if m.Fail? {
      ErrorIsKnown(data, dnsStart, pos, labels, m.error);
    }
    hide NameAt, EncodeLabels, GoodLabels;
  }

  /** A name that the data ends without a zero byte is taken as complete. */
  lemma NameMayEndWithData(data: seq<byte>, dnsStart: nat, pos: nat, labels: seq<seq<byte>>)
    requires GoodLabels(labels) && At(data, pos, EncodeLabels(labels)) && pos + |EncodeLabels(labels)| == |data|
    ensures NameAt(data, dnsStart, pos) == Finished(Ok(NamePos(DotJoin(labels), |data|)))
  {
    hide EncodeLabels, GoodLabels, NameAt, DotJoin;
    LabelsInFront(data, dnsStart, pos, labels, 0);
    assert labels + [] == labels;
    NameIsKnown(data, dnsStart, pos, labels, |labels|);
  }

  /** A question or record behind its name: what is cut off is truncated, an error in the name is the item's. */
  lemma ItemErrors(data: seq<byte>, dnsStart: nat, pos: nat)
    ensures
      match NameAt(data, dnsStart, pos)
      case Hangs => QuestionAt(data, dnsStart, pos) == Hangs && RecordAt(data, dnsStart, pos) == Hangs
      case Finished(Err(e)) =>
        QuestionAt(data, dnsStart, pos) == Finished(Err(e)) && RecordAt(data, dnsStart, pos) == Finished(Err(e))
      case Finished(Ok(NamePos(_, p))) =>
        var cut := p + 10 > |data| || p + 10 + (data[p + 8] as int * 256 + data[p + 9]) > |data|;
        && (p + 4 > |data| ==> QuestionAt(data, dnsStart, pos) == Finished(Err(TruncatedHeader)))
        && (p + 4 <= |data| ==> QuestionAt(data, dnsStart, pos) != Hangs && QuestionAt(data, dnsStart, pos).result.Ok?)
        && (cut ==> RecordAt(data, dnsStart, pos) == Finished(Err(TruncatedHeader)))
        && (!cut ==> RecordAt(data, dnsStart, pos) != Hangs && RecordAt(data, dnsStart, pos).result.Ok?)
  {
    hide NameAt, U32At;
  }

  /** A section fails with the error of its first item that fails. */
  lemma {:induction false} FirstErrorIsTheSections<T>(
    itemAt: nat -> Outcome<Parsed<T>>, pos: nat, k: nat, n: nat, items: seq<T>, p: nat, e: Error)
    requires k < n && ItemsAt(itemAt, pos, k) == Finished(Ok(Parsed(items, p))) && itemAt(p) == Finished(Err(e))
    ensures ItemsAt(itemAt, pos, n) == Finished(Err(e))
    decreases n
  {
    if k < n - 1 {
      FirstErrorIsTheSections(itemAt, pos, k, n - 1, items, p, e);
    }
  }

  /** A message fails with the error of its first section that fails, in the order of the sections; without all twelve
      bytes of a header it is truncated. */
  lemma MessageErrors(data: seq<byte>, offset: nat)
    ensures |data| < offset + 12 ==> MessageAt(data, offset) == Finished(Err(TruncatedHeader))
    ensures
      |data| >= offset + 12 ==>
        match Questions(data, offset, offset + 12, data[offset + 4] as int * 256 + data[offset + 5])
        case Hangs => MessageAt(data, offset) == Hangs
        case Finished(Err(e)) => MessageAt(data, offset) == Finished(Err(e))
        case Finished(Ok(Parsed(_, p))) =>
          match Records(data, offset, p, data[offset + 6] as int * 256 + data[offset + 7])
          case Hangs => MessageAt(data, offset) == Hangs
          case Finished(Err(e)) => MessageAt(data, offset) == Finished(Err(e))
          case Finished(Ok(Parsed(_, q))) =>
            match Records(data, offset, q, data[offset + 8] as int * 256 + data[offset + 9])
            case Hangs => MessageAt(data, offset) == Hangs
            case Finished(Err(e)) => MessageAt(data, offset) == Finished(Err(e))
            case Finished(Ok(Parsed(_, r))) =>
              match Records(data, offset, r, data[offset + 10] as int * 256 + data[offset + 11])
              case Hangs => MessageAt(data, offset) == Hangs
              case Finished(Err(e)) => MessageAt(data, offset) == Finished(Err(e))
              case Finished(Ok(_)) => MessageAt(data, offset) != Hangs && MessageAt(data, offset).result.Ok?
  {
    hide Questions, Records, FlagsOf;
  }
}
