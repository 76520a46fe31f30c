/** What the TLS and Telnet cases take from a flow's buffer, over whole runs. */
module StreamFraming {
  import opened Common
  import opened Flow
  import opened StreamDecoder
  import opened StreamConservation
  import Reassembly
  import opened Telnet
  import opened TelnetProperties
  import Tls
  import opened TlsFraming
  import opened Wire

  // ----- A flow's protocol over a run -----

  function DetectedFor(cfg: Config, history: seq<Packet>, f: FlowId): AppProtocol {
    L7StateOf(After(cfg, history).l7, f).detected
  }

  /** Detection is done exactly when the protocol is known. */
  predicate Settles(stream: L7StreamState) {
    stream.detectionDone <==> stream.detected != Unknown
  }

  lemma FeedSettles(cfg: Config, st: State, p: Packet, bytes: seq<byte>)
    requires Settles(L7StateOf(st.l7, p.flowId))
    ensures Settles(L7StateOf(Feed(cfg, st, p, bytes).l7, p.flowId))
  {
    hide DecodeL7;
  }

  lemma StepSettles(cfg: Config, st: State, p: Packet, f: FlowId)
    requires Settles(L7StateOf(st.l7, f))
    ensures Settles(L7StateOf(Step(cfg, st, p).l7, f))
  {
    StepOnBuffer(cfg, st, p, f);
    hide DecodeL7, Reassembled;
    if p.flowId == f && TakesStreamPath(cfg, p) {
      var received := st.(tcp := st.tcp[p.flowId := Reassembled(cfg, st, p).0]);
      FeedSettles(cfg, received, p, Reassembly.DataOf(Reassembled(cfg, st, p).1));
      hide Feed, Settles;
      assert Settles(NEW_L7_STREAM) by { SettlesAtFirst(); }
    }
  }

  lemma SettlesAtFirst()
    ensures Settles(NEW_L7_STREAM)
  {
  }

  lemma {:induction false} FlowSettles(cfg: Config, history: seq<Packet>, f: FlowId)
    ensures Settles(L7StateOf(After(cfg, history).l7, f))
  {
    hide Step;
    if history != [] {
      FlowSettles(cfg, Init(history), f);
      hide Settles;
      StepSettles(cfg, After(cfg, Init(history)), Last(history), f);
    }
  }

  // ----- One packet -----

  /** What the last packet of a history does to a flow whose buffer it does not throw away. */
  lemma LastPacket(cfg: Config, history: seq<Packet>, f: FlowId)
    requires history != [] && !ErasesFlow(cfg, history, f)
    ensures
      var before, st, p := Init(history), After(cfg, Init(history)), Last(history);
      if p.flowId == f && Out(cfg, st, p) != [] then
        var grown, taken := GrownBuffer(cfg, st, p), ConsumedBy(cfg, st, p);
        && Delivered(cfg, history, f) == Delivered(cfg, before, f) + Out(cfg, st, p)
        && Consumed(cfg, history, f) == Consumed(cfg, before, f) + taken
        && grown.buffer == Buffer(cfg, before, f) + Out(cfg, st, p) == taken + Buffer(cfg, history, f)
        && DetectedFor(cfg, history, f) == grown.detected
        && (DetectedFor(cfg, before, f) != Unknown ==> grown.detected == DetectedFor(cfg, before, f))
      else
        && Delivered(cfg, history, f) == Delivered(cfg, before, f)
        && Consumed(cfg, history, f) == Consumed(cfg, before, f)
        && Buffer(cfg, history, f) == Buffer(cfg, before, f)
        && DetectedFor(cfg, history, f) == DetectedFor(cfg, before, f)
  {
    var st, p := After(cfg, Init(history)), Last(history);
    FlowSettles(cfg, Init(history), f);
    StepOnBuffer(cfg, st, p, f);
    if p.flowId == f && Out(cfg, st, p) != [] {
      DetectionStays(cfg, st, p);
    } else if p.flowId == f {
      NothingFed(cfg, st, p);
    }
    hide Step, Out, ConsumedBy;
  }

  lemma DetectionStays(cfg: Config, st: State, p: Packet)
    requires Out(cfg, st, p) != [] && !Erases(cfg, st, p)
    ensures L7StateOf(Step(cfg, st, p).l7, p.flowId).detected == GrownBuffer(cfg, st, p).detected
  {
    hide DecodeL7, Reassembled;
  }

  lemma NothingFed(cfg: Config, st: State, p: Packet)
    requires Out(cfg, st, p) == [] && !Erases(cfg, st, p)
    ensures L7StateOf(Step(cfg, st, p).l7, p.flowId) == L7StateOf(st.l7, p.flowId)
  {
    hide DecodeL7, Reassembled, Feed;
  }

  lemma NeverErasedBefore(cfg: Config, history: seq<Packet>, f: FlowId)
    requires history != [] && NeverErased(cfg, history, f)
    ensures NeverErased(cfg, Init(history), f) && !ErasesFlow(cfg, history, f)
  {
    hide ErasesFlow;
    assert history[..|history|] == history;
    forall i | 0 < i <= |Init(history)|
      ensures !ErasesFlow(cfg, Init(history)[..i], f)
    {
      assert Init(history)[..i] == history[..i];
    }
  }

  /** If the detection engine always answers the same for a flow, that is its protocol from the first bytes on. */
  lemma {:induction false} AnswerIsProtocol(cfg: Config, history: seq<Packet>, f: FlowId, protocol: AppProtocol)
    requires NeverErased(cfg, history, f) && protocol != Unknown
    requires forall i :: 0 <= i < |history| && history[i].flowId == f ==> history[i].detected == protocol
    ensures DetectedFor(cfg, history, f) == if Delivered(cfg, history, f) == [] then Unknown else protocol
  {
    hide Step, Out, NeverErased, ConsumedBy, Consumed;
    if history != [] {
      var p := history[|history| - 1];
      assert Last(history) == p;
      NeverErasedBefore(cfg, history, f);
      AnswerIsProtocol(cfg, Init(history), f, protocol);
      LastPacket(cfg, history, f);
      FlowSettles(cfg, Init(history), f);
    }
  }

  /** For the decoders outside this model: what they consume is taken from the front, and on failure nothing. */
  lemma OtherPacket(cfg: Config, st: State, p: Packet)
    requires Out(cfg, st, p) != [] && !Erases(cfg, st, p) && GrownBuffer(cfg, st, p).detected == Other
    ensures
      var grown := L7StateOf(st.l7, p.flowId).buffer + Out(cfg, st, p);
      var rest := L7StateOf(Step(cfg, st, p).l7, p.flowId).buffer;
      match p.other(grown)
      case None => rest == grown
      case Some(n) => n <= |grown| && rest == grown[n..]
  {
    hide Reassembled;
  }

  // ----- TLS -----

  lemma {:induction false} RecordsConcat(a: seq<GoodRecord>, b: seq<GoodRecord>)
    ensures EncodeRecords(a + b) == EncodeRecords(a) + EncodeRecords(b)
    decreases |a|
  {
    hide EncodeRecord;
    if a == [] {
      assert a + b == b;
    } else {
      assert (a + b)[1..] == a[1..] + b;
      RecordsConcat(a[1..], b);
      ConcatAssociates(EncodeRecord(a[0]), EncodeRecords(a[1..]), EncodeRecords(b));
    }
  }

  /** Every buffer is some records and a rest that starts with none. */
  lemma {:induction false} AllRecords(data: seq<byte>) returns (rs: seq<GoodRecord>, tail: seq<byte>)
    ensures data == EncodeRecords(rs) + tail && !StartsWithRecord(tail)
    decreases |data|
  {
    RecordIsFoundIff(data);
    hide StartsWithRecord;
    if StartsWithRecord(data) {
      var r := FrontRecord(data);
      var n := |EncodeRecord(r)|;
      hide EncodeRecord;
      var more;
      more, tail := AllRecords(data[n..]);
      rs := [r] + more;
      assert rs[1..] == more && data == EncodeRecord(r) + data[n..];
      ConcatAssociates(EncodeRecord(r), EncodeRecords(more), tail);
    } else {
      rs, tail := [], data;
      assert [] + tail == tail;
    }
  }

  /** A buffer is records and such a rest in one way only. */
  lemma OneWay(rs: seq<GoodRecord>, tail: seq<byte>, ps: seq<GoodRecord>, rest: seq<byte>)
    requires EncodeRecords(rs) + tail == EncodeRecords(ps) + rest
    requires !StartsWithRecord(tail) && !StartsWithRecord(rest)
    ensures EncodeRecords(rs) == EncodeRecords(ps) && tail == rest
  {
    var data := EncodeRecords(rs) + tail;
    assert data[0..] == data;
    RecordsFramed(data, 0, 0, rs, tail);
    RecordsFramed(data, 0, 0, ps, rest);
    assert data[..|EncodeRecords(rs)|] == EncodeRecords(rs) && data[..|EncodeRecords(ps)|] == EncodeRecords(ps);
    assert data[|EncodeRecords(rs)|..] == tail && data[|EncodeRecords(ps)|..] == rest;
  }

  lemma TlsTakesRecords(data: seq<byte>, beyond: byte, rs: seq<GoodRecord>, tail: seq<byte>)
    requires data == EncodeRecords(rs) + tail && !StartsWithRecord(tail)
    ensures TlsConsumes(data, beyond) == if rs == [] then None else Some(|EncodeRecords(rs)|)
  {
    hide TlsCase, EncodeRecord, StartsWithRecord;
    if rs == [] {
      assert [] + tail == tail;
      IncompleteIsKept(data, beyond);
    } else {
      Framing(rs, tail, beyond);
    }
  }

  /** What a packet takes from the buffer of a TLS flow. */
  lemma TlsPacket(cfg: Config, st: State, p: Packet, rs: seq<GoodRecord>, tail: seq<byte>)
    requires Out(cfg, st, p) != [] && GrownBuffer(cfg, st, p).detected == TLS
    requires GrownBuffer(cfg, st, p).buffer == EncodeRecords(rs) + tail && !StartsWithRecord(tail)
    ensures ConsumedBy(cfg, st, p) == EncodeRecords(rs)
  {
    TlsTakesRecords(GrownBuffer(cfg, st, p).buffer, p.beyond, rs, tail);
    var grown := GrownBuffer(cfg, st, p);
    assert grown.buffer[..|EncodeRecords(rs)|] == EncodeRecords(rs);
    hide GrownBuffer, Out, TlsConsumes, EncodeRecord;
  }

  lemma {:induction false} RecordsSoFar(cfg: Config, history: seq<Packet>, f: FlowId) returns (rs: seq<GoodRecord>)
    requires NeverErased(cfg, history, f)
    ensures DetectedFor(cfg, history, f) == TLS ==>
              Consumed(cfg, history, f) == EncodeRecords(rs) && !StartsWithRecord(Buffer(cfg, history, f))
    ensures DetectedFor(cfg, history, f) == Unknown ==> rs == [] && Consumed(cfg, history, f) == []
  {
    hide Step, Out, NeverErased, ConsumedBy, Delivered, EncodeRecord, StartsWithRecord, GrownBuffer, ErasesFlow;
    if history == [] {
      rs := [];
    } else {
      NeverErasedBefore(cfg, history, f);
      rs := RecordsSoFar(cfg, Init(history), f);
      LastPacket(cfg, history, f);
      var st, p := After(cfg, Init(history)), Last(history);
      hide After, Buffer, Consumed, DetectedFor;
      if p.flowId == f && Out(cfg, st, p) != [] && DetectedFor(cfg, history, f) == TLS {
        var taken, tail := AllRecords(GrownBuffer(cfg, st, p).buffer);
        TlsPacket(cfg, st, p, taken, tail);
        RecordsConcat(rs, taken);
        SameFront(EncodeRecords(taken), Buffer(cfg, history, f), tail);
        rs := rs + taken;
      } else if p.flowId == f && Out(cfg, st, p) != [] {
        UnknownTakesNothing(cfg, st, p);
      }
    }
  }

  lemma SameFront(front: seq<byte>, a: seq<byte>, b: seq<byte>)
    requires front + a == front + b
    ensures a == b
  {
    assert (front + a)[|front|..] == a && (front + b)[|front|..] == b;
  }

  lemma UnknownTakesNothing(cfg: Config, st: State, p: Packet)
    ensures Out(cfg, st, p) != [] && GrownBuffer(cfg, st, p).detected == Unknown ==> ConsumedBy(cfg, st, p) == []
  {
    hide Out, GrownBuffer;
  }

  /** On an open flow whose data fits the buffer and whose protocol is TLS: however the data is cut into packets, what
      is consumed is exactly the complete records, and what does not complete one is kept. */
  lemma TlsFlowIsFramed(cfg: Config, history: seq<Packet>, f: FlowId, rs: seq<GoodRecord>, tail: seq<byte>)
    requires StaysOpen(history, f) && |Delivered(cfg, history, f)| <= cfg.maxL7StreamBytes
    requires L7StateOf(After(cfg, history).l7, f).detected == TLS
    requires Delivered(cfg, history, f) == EncodeRecords(rs) + tail && !StartsWithRecord(tail)
    ensures Consumed(cfg, history, f) == EncodeRecords(rs)
    ensures L7StateOf(After(cfg, history).l7, f).buffer == tail
  {
    hide Delivered, Consumed, EncodeRecords, StartsWithRecord, After, NeverErased, Forgotten;
    OpenFlowIsNeverErased(cfg, history, f);
    var ps := RecordsSoFar(cfg, history, f);
    Conservation(cfg, history, f);
    NothingForgotten(cfg, history, f);
    var all := Delivered(cfg, history, f);
    assert all[0..] == all;
    OneWay(rs, tail, ps, Buffer(cfg, history, f));
  }

  // ----- Telnet -----

  /** Nothing, or the front of a command that needs more bytes. */
  predicate PartialCommand(tail: seq<byte>) {
    tail == [] || tail == [0xFF] || (|tail| == 2 && tail[0] == 0xFF && 0xFB <= tail[1] <= 0xFE)
  }

  /** How far a scan comes does not depend on the segment begun. */
  lemma {:induction false} ItemsPassed(data: seq<byte>, pos: nat, items: seq<Item>, current: seq<byte>)
    requires AllGood(items) && At(data, pos, EncodeAll(items))
    ensures Scan(data, pos, current).offset == Scan(data, pos + |EncodeAll(items)|, []).offset
    decreases |items|
  {
    hide Good, Encode, TokenAt, Segment, At;
    if items == [] {
      BegunSegment(data, pos, current);
    } else {
      AtSplit(data, pos, Encode(items[0]), EncodeAll(items[1..]));
      if items[0].Data? {
        DataItemScanned(data, pos, items[0], current);
        ItemsPassed(data, pos + |Encode(items[0])|, items[1..], current + items[0].bytes);
      } else {
        CommandToken(data, pos, items[0]);
        CommandFits(data, pos, items[0]);
        ItemsPassed(data, pos + |Encode(items[0])|, items[1..], []);
      }
    }
  }

  lemma CommandFits(data: seq<byte>, pos: nat, item: Item)
    requires !item.Data? && At(data, pos, Encode(item))
    ensures pos < |data|
  {
    CommandIsNotEmpty(item);
  }

  /** A scan of complete items comes to their end, and stops before the front of a command. */
  lemma ScanStopsAtTail(items: seq<Item>, tail: seq<byte>)
    requires AllGood(items) && PartialCommand(tail)
    ensures Scan(EncodeAll(items) + tail, 0, []).offset == |EncodeAll(items)|
  {
    var data, n := EncodeAll(items) + tail, |EncodeAll(items)|;
    assert data[0..n] == EncodeAll(items);
    ItemsPassed(data, 0, items, []);
    if tail != [] {
      assert data[n] == tail[0] && (|tail| == 2 ==> data[n + 1] == tail[1]);
      assert TokenAt(data, n).Partial?;
    }
    hide EncodeAll;
  }

  /** None of a flow's deliveries ends inside an open subnegotiation. */
  ghost predicate CutOutsideSub(cfg: Config, history: seq<Packet>, f: FlowId) {
    forall n :: 0 <= n <= |history| ==> !StopsInSub(Delivered(cfg, history[..n], f), 0)
  }

  lemma CutOutsideSubBefore(cfg: Config, history: seq<Packet>, f: FlowId)
    requires history != [] && CutOutsideSub(cfg, history, f)
    ensures CutOutsideSub(cfg, Init(history), f) && !StopsInSub(Delivered(cfg, Init(history), f), 0)
  {
    hide StopsInSub, Delivered;
    assert history[..|history| - 1] == Init(history);
    forall n | 0 <= n <= |Init(history)|
      ensures !StopsInSub(Delivered(cfg, Init(history)[..n], f), 0)
    {
      assert Init(history)[..n] == history[..n];
    }
  }

  /** What a packet takes from the buffer of a Telnet flow. */
  lemma TelnetPacket(cfg: Config, st: State, p: Packet)
    requires Out(cfg, st, p) != [] && GrownBuffer(cfg, st, p).detected == TELNET
    ensures |ConsumedBy(cfg, st, p)| == Scan(GrownBuffer(cfg, st, p).buffer, 0, []).offset
  {
    assert GrownBuffer(cfg, st, p).buffer != [];
    hide Out, Scan, GrownBuffer;
  }

  lemma OffsetsAdd(all: seq<byte>, kept: seq<byte>, out: seq<byte>, consumed: seq<byte>)
    requires consumed + kept == all && |consumed| == Scan(all, 0, []).offset && !StopsInSub(all, 0)
    ensures Scan(all + out, 0, []).offset == |consumed| + Scan(kept + out, 0, []).offset
  {
    SplitOutsideSub(all, out);
    assert all[|consumed|..] == kept;
    hide Scan, StopsInSub;
  }

  lemma {:induction false} TokensSoFar(cfg: Config, history: seq<Packet>, f: FlowId)
    requires NeverErased(cfg, history, f) && CutOutsideSub(cfg, history, f)
    ensures Consumed(cfg, history, f) + Buffer(cfg, history, f) == Delivered(cfg, history, f)
    ensures DetectedFor(cfg, history, f) == TELNET ==>
              |Consumed(cfg, history, f)| == Scan(Delivered(cfg, history, f), 0, []).offset
    ensures DetectedFor(cfg, history, f) == Unknown ==> Consumed(cfg, history, f) == []
  {
    hide Step, Out, NeverErased, ConsumedBy, GrownBuffer, ErasesFlow, Scan, StopsInSub;
    Conservation(cfg, history, f);
    NothingForgotten(cfg, history, f);
    var all := Delivered(cfg, history, f);
    assert all[0..] == all;
    if history != [] {
      NeverErasedBefore(cfg, history, f);
      CutOutsideSubBefore(cfg, history, f);
      hide CutOutsideSub;
      TokensSoFar(cfg, Init(history), f);
      LastPacket(cfg, history, f);
      var st, p := After(cfg, Init(history)), Last(history);
      hide After, Buffer, Consumed, DetectedFor, Delivered;
      if p.flowId == f && Out(cfg, st, p) != [] && DetectedFor(cfg, history, f) == TELNET {
        TelnetPacket(cfg, st, p);
        TokensGrow(Delivered(cfg, Init(history), f), Buffer(cfg, Init(history), f), Out(cfg, st, p),
                   Consumed(cfg, Init(history), f), DetectedFor(cfg, Init(history), f) == TELNET);
      } else if p.flowId == f && Out(cfg, st, p) != [] {
        UnknownTakesNothing(cfg, st, p);
      }
    }
  }

  lemma TokensGrow(all: seq<byte>, kept: seq<byte>, out: seq<byte>, consumed: seq<byte>, known: bool)
    requires consumed + kept == all && !StopsInSub(all, 0)
    requires if known then |consumed| == Scan(all, 0, []).offset else consumed == []
    ensures Scan(all + out, 0, []).offset == |consumed| + Scan(kept + out, 0, []).offset
  {
    hide Scan, StopsInSub;
    if known {
      OffsetsAdd(all, kept, out, consumed);
    } else {
      assert [] + kept == kept;
    }
  }

  /** On an open flow whose data fits the buffer and whose protocol is Telnet, cut anywhere but inside subnegotiations:
      what is consumed is exactly the complete items, and only the front of a command is kept. */
  lemma TelnetFlowIsScanned(cfg: Config, history: seq<Packet>, f: FlowId, items: seq<Item>, tail: seq<byte>)
    requires StaysOpen(history, f) && |Delivered(cfg, history, f)| <= cfg.maxL7StreamBytes
    requires L7StateOf(After(cfg, history).l7, f).detected == TELNET
    requires AllGood(items) && PartialCommand(tail) && Delivered(cfg, history, f) == EncodeAll(items) + tail
    requires CutOutsideSub(cfg, history, f)
    ensures Consumed(cfg, history, f) == EncodeAll(items)
    ensures L7StateOf(After(cfg, history).l7, f).buffer == tail
  {
    hide Delivered, Consumed, EncodeAll, After, NeverErased, Scan, PartialCommand, CutOutsideSub, AllGood;
    OpenFlowIsNeverErased(cfg, history, f);
    TokensSoFar(cfg, history, f);
    ScanStopsAtTail(items, tail);
    SameSplit(Consumed(cfg, history, f), Buffer(cfg, history, f), EncodeAll(items), tail);
  }

  lemma SameSplit(a: seq<byte>, b: seq<byte>, c: seq<byte>, d: seq<byte>)
    requires a + b == c + d && |a| == |c|
    ensures a == c && b == d
  {
    assert (a + b)[..|a|] == a && (c + d)[..|c|] == c;
    assert (a + b)[|a|..] == b && (c + d)[|c|..] == d;
  }

  // ----- Telnet without subnegotiations -----

  /** The scan comes to a subnegotiation, complete or not. */
  predicate MeetsSub(data: seq<byte>, i: nat)
    decreases |data| - i
  {
    i < |data| &&
    match TokenAt(data, i)
    case Byte(_, next) => MeetsSub(data, next)
    case Commands(_, next) => (i + 1 < |data| && data[i + 1] == SB) || MeetsSub(data, next)
    case OpenSub(_) => true
    case Partial(_) => false
  }

  lemma {:induction false} StoppedThereMeetsSub(a: seq<byte>, b: seq<byte>, i: nat)
    requires StopsInSub(a, i)
    ensures MeetsSub(a + b, i)
    decreases |a| - i
  {
    hide FindEnd;
    match TokenAt(a, i)
    case Byte(_, next) =>
      TokenIsStable(a, b, i);
      StoppedThereMeetsSub(a, b, next);
    case Commands(_, next) =>
      TokenIsStable(a, b, i);
      StoppedThereMeetsSub(a, b, next);
    case OpenSub(_) =>
      assert (a + b)[i] == a[i] && (a + b)[i + 1] == a[i + 1];
  }

  predicate NoSubs(items: seq<Item>) {
    forall i :: 0 <= i < |items| ==> !items[i].Sub?
  }

  lemma {:induction false} BytesMeetNoSub(data: seq<byte>, pos: nat, bytes: seq<byte>)
    requires At(data, pos, Escape(bytes))
    ensures MeetsSub(data, pos) == MeetsSub(data, pos + |Escape(bytes)|)
    decreases |bytes|
  {
    hide TokenAt, EscapeByte, At;
    if bytes != [] {
      AtSplit(data, pos, EscapeByte(bytes[0]), Escape(bytes[1..]));
      EscapedByteToken(data, pos, bytes[0]);
      BytesMeetNoSub(data, pos + |EscapeByte(bytes[0])|, bytes[1..]);
    }
  }

  lemma CommandMeetsNoSub(data: seq<byte>, pos: nat, item: Item)
    requires Good(item) && !item.Data? && !item.Sub? && At(data, pos, Encode(item))
    ensures MeetsSub(data, pos) == MeetsSub(data, pos + |Encode(item)|)
  {
    CommandToken(data, pos, item);
    assert data[pos..pos + |Encode(item)|][1] == item.command;
    hide TokenAt;
  }

  lemma {:induction false} ItemsMeetNoSub(data: seq<byte>, pos: nat, items: seq<Item>)
    requires AllGood(items) && NoSubs(items) && At(data, pos, EncodeAll(items))
    ensures MeetsSub(data, pos) == MeetsSub(data, pos + |EncodeAll(items)|)
    decreases |items|
  {
    hide Good, MeetsSub, At;
    if items != [] {
      var first := items[0];
      AtSplit(data, pos, Encode(first), EncodeAll(items[1..]));
      if first.Data? {
        BytesMeetNoSub(data, pos, first.bytes);
      } else {
        CommandMeetsNoSub(data, pos, first);
      }
      ItemsMeetNoSub(data, pos + |Encode(first)|, items[1..]);
    }
  }

  lemma NoPrefixStopsInSub(items: seq<Item>, tail: seq<byte>, front: seq<byte>)
    requires AllGood(items) && NoSubs(items) && PartialCommand(tail) && front <= EncodeAll(items) + tail
    ensures !StopsInSub(front, 0)
  {
    var data, n := EncodeAll(items) + tail, |EncodeAll(items)|;
    assert data[0..n] == EncodeAll(items);
    ItemsMeetNoSub(data, 0, items);
    if tail != [] {
      assert data[n] == tail[0] && (|tail| == 2 ==> data[n + 1] == tail[1]);
      assert TokenAt(data, n).Partial?;
    }
    assert !MeetsSub(data, 0);
    hide StopsInSub, MeetsSub, EncodeAll;
    assert front + data[|front|..] == data;
    if StopsInSub(front, 0) {
      StoppedThereMeetsSub(front, data[|front|..], 0);
      assert false;
    }
  }

  lemma {:induction false} DeliveredBefore(cfg: Config, history: seq<Packet>, f: FlowId, n: nat)
    requires n <= |history|
    ensures Delivered(cfg, history[..n], f) <= Delivered(cfg, history, f)
    decreases |history|
  {
    hide Out;
    if n == |history| {
      assert history[..n] == history;
    } else {
      DeliveredBefore(cfg, Init(history), f, n);
      assert Init(history)[..n] == history[..n];
    }
  }

  /** Without subnegotiations the cut does not matter: data with doubled IACs and commands, followed by the front of a
      command, are consumed and kept exactly, however they are cut into packets. */
  lemma PlainTelnetFlowIsScanned(cfg: Config, history: seq<Packet>, f: FlowId, items: seq<Item>, tail: seq<byte>)
    requires StaysOpen(history, f) && |Delivered(cfg, history, f)| <= cfg.maxL7StreamBytes
    requires L7StateOf(After(cfg, history).l7, f).detected == TELNET
    requires AllGood(items) && NoSubs(items) && PartialCommand(tail)
    requires Delivered(cfg, history, f) == EncodeAll(items) + tail
    ensures Consumed(cfg, history, f) == EncodeAll(items)
    ensures L7StateOf(After(cfg, history).l7, f).buffer == tail
  {
    hide Delivered, EncodeAll, After, StopsInSub, AllGood, NoSubs, PartialCommand;
    forall n | 0 <= n <= |history|
      ensures !StopsInSub(Delivered(cfg, history[..n], f), 0)
    {
      DeliveredBefore(cfg, history, f, n);
      NoPrefixStopsInSub(items, tail, Delivered(cfg, history[..n], f));
    }
    TelnetFlowIsScanned(cfg, history, f, items, tail);
  }
}
