/** A POP3 session, packet by packet from the start, whose mail is taken for a command of the protocol. */
module StreamMailSession {
  import opened Common
  import opened Flow
  import opened Mail
  import MailData
  import Reassembly
  import opened StreamDecoder
  import opened StreamConservation
  import opened StreamDataMode

  /** A packet of plain POP3 data. */
  predicate Carries(p: Packet, f: FlowId, seqNum: u32, payload: seq<byte>) {
    && p.flowId == f && p.tcp == Some(Reassembly.TcpHeader(seqNum, false, false, false))
    && p.payload == payload && p.detected == POP3
  }

  /** Nothing of the flow is buffered, and the next byte has the given number. */
  predicate InOrder(st: State, f: FlowId, seqNum: u32) {
    var s := Reassembly.StreamOf(st.tcp, f);
    s.segments == map[] && s.totalBytes == 0 && (s.synSeen ==> s.nextExpectedSeq == seqNum)
  }

  predicate Decodes(cfg: Config, payload: seq<byte>) {
    && cfg.enableTcpReassembly && cfg.enableProtocolDetection
    && 0 < |payload| < TWO31 && |payload| <= cfg.maxStreamBytes
  }

  /** In-order data is handed out at once. */
  lemma InOrderIsDelivered(s: Reassembly.StreamBuffer, max: nat, seqNum: u32, payload: seq<byte>)
    requires 0 < |payload| < TWO31 && |payload| <= max
    requires s.segments == map[] && s.totalBytes == 0 && (s.synSeen ==> s.nextExpectedSeq == seqNum)
    ensures Reassembly.Receive(s, max, Reassembly.TcpHeader(seqNum, false, false, false), payload)
            == (Reassembly.StreamBuffer(map[], Reassembly.Advance(seqNum, |payload|), true, 0),
                Reassembly.ReassemblyResult(Some(payload), false))
  {
    var stored := Reassembly.Store(Reassembly.Open(s, seqNum), seqNum, payload);
    assert stored.segments == map[seqNum := payload];
    var taken := Reassembly.TakeNext(stored);
    assert taken.segments == map[];
    assert Reassembly.Drain(taken) == (taken, []);
    assert payload + [] == payload;
  }

  lemma CarriedDataIsFed(cfg: Config, st: State, p: Packet, f: FlowId, seqNum: u32, payload: seq<byte>)
    requires Carries(p, f, seqNum, payload) && InOrder(st, f, seqNum) && Decodes(cfg, payload)
    ensures Continuing(cfg, p) && Out(cfg, st, p) == payload
    ensures
      var received := Reassembly.StreamBuffer(map[], Reassembly.Advance(seqNum, |payload|), true, 0);
      Step(cfg, st, p) == Feed(cfg, st.(tcp := st.tcp[f := received]), p, payload)
  {
    InOrderIsDelivered(Reassembly.StreamOf(st.tcp, f), cfg.maxStreamBytes, seqNum, payload);
    hide Feed, Reassembly.Receive;
  }

  lemma NextIsInOrder(cfg: Config, st: State, p: Packet, f: FlowId, seqNum: u32, payload: seq<byte>)
    requires Carries(p, f, seqNum, payload) && InOrder(st, f, seqNum) && Decodes(cfg, payload)
    ensures InOrder(Step(cfg, st, p), f, Reassembly.Advance(seqNum, |payload|))
    ensures forall g :: g != f && g !in st.tcp ==> g !in Step(cfg, st, p).tcp
  {
    CarriedDataIsFed(cfg, st, p, f, seqNum, payload);
    hide Step, DecodeL7;
  }

  /** "RETR" or "LIST". */
  predicate Asks(command: seq<byte>) {
    command == [0x52, 0x45, 0x54, 0x52] || command == [0x4C, 0x49, 0x53, 0x54]
  }

  /** A command that asks for data, in any bytes. */
  lemma AskedPacket(cfg: Config, p: Packet, f: FlowId, seqNum: u32, data: seq<byte>)
    requires Carries(p, Reverse(f), seqNum, data) && Reverse(f) != f
    requires Decodes(cfg, data) && |data| <= cfg.maxL7StreamBytes
    requires Pop3StateOf(Pop3Call(map[], Reverse(f), data).0, f) == Pop3FlowState(true, false)
    ensures
      var st := Step(cfg, NEW_STATE, p);
      && Pop3StateOf(st.mail.pop3, f) == Pop3FlowState(true, false)
      && f !in st.l7 && InOrder(st, f, 0) && f !in st.tcp
  {
    CarriedDataIsFed(cfg, NEW_STATE, p, Reverse(f), seqNum, data);
    NextIsInOrder(cfg, NEW_STATE, p, Reverse(f), seqNum, data);
    assert [] + data == data;
    hide Step, Pop3Call, Reverse;
  }

  /** The client asks for a mail or a listing: the server's direction waits for a multi-line response. */
  lemma ClientAsks(cfg: Config, p: Packet, f: FlowId, seqNum: u32, command: seq<byte>)
    requires Asks(command) && Carries(p, Reverse(f), seqNum, command + [0x0D, 0x0A]) && Reverse(f) != f
    requires Decodes(cfg, command + [0x0D, 0x0A]) && 6 <= cfg.maxL7StreamBytes
    ensures
      var st := Step(cfg, NEW_STATE, p);
      && Pop3StateOf(st.mail.pop3, f) == Pop3FlowState(true, false)
      && f !in st.l7 && InOrder(st, f, 0) && f !in st.tcp
  {
    assert |command| == 4;
    assert Reverse(Reverse(f)) == f;
    hide Step, Pop3Call, Pop3StateOf, Asks, Carries, Decodes, InOrder, Reverse;
    CommandIsNoted(Reverse(f), command);
    AskedPacket(cfg, p, f, seqNum, command + [0x0D, 0x0A]);
  }

  lemma CommandIsNoted(f: FlowId, command: seq<byte>)
    requires Asks(command) && Reverse(f) != f
    ensures Pop3StateOf(Pop3Call(map[], f, command + [0x0D, 0x0A]).0, Reverse(f)) == Pop3FlowState(true, false)
  {
    assert command[0] != 0x2B && command[0] != 0x2D;
    assert !([0x2B, 0x4F, 0x4B] <= command) && !([0x2D, 0x45, 0x52, 0x52] <= command);
    MailData.CommandAwaitsDataIff(map[], f, command, None);
    Pop3CallOnState(map[], Call(f, command + [0x0D, 0x0A]), Reverse(f));
  }

  /** A line that starts the data is consumed whole. */
  lemma AcceptedLine(cfg: Config, st: State, p: Packet, data: seq<byte>)
    requires p.detected == POP3 && p.flowId !in st.l7 && |data| <= cfg.maxL7StreamBytes
    requires
      var (after, decoded) := Pop3Call(st.mail.pop3, p.flowId, data);
      Pop3StateOf(after, p.flowId).inDataMode && decoded.Some? && decoded.value.offset == |data|
    ensures InDataMode(Feed(cfg, st, p, data), p.flowId, POP3, [])
  {
    hide Pop3Call;
    assert [] + data == data;
  }

  lemma AcceptedPacket(cfg: Config, st: State, p: Packet, f: FlowId, seqNum: u32, data: seq<byte>)
    requires Carries(p, f, seqNum, data) && InOrder(st, f, seqNum) && Decodes(cfg, data) && f !in st.l7
    requires |data| <= cfg.maxL7StreamBytes
    requires
      var (after, decoded) := Pop3Call(st.mail.pop3, f, data);
      Pop3StateOf(after, f).inDataMode && decoded.Some? && decoded.value.offset == |data|
    ensures InDataMode(Step(cfg, st, p), f, POP3, [])
  {
    hide Pop3Call, InDataMode, Feed, Step, InOrder, Decodes, Out, Continuing;
    CarriedDataIsFed(cfg, st, p, f, seqNum, data);
    var received := Reassembly.StreamBuffer(map[], Reassembly.Advance(seqNum, |data|), true, 0);
    AcceptedLine(cfg, st.(tcp := st.tcp[f := received]), p, data);
  }

  /** "+OK" and a line end. */
  const OK_LINE: seq<byte> := [0x2B, 0x4F, 0x4B, 0x0D, 0x0A]

  lemma OkStartsData(states: Pop3States, f: FlowId)
    requires Pop3StateOf(states, f) == Pop3FlowState(true, false)
    ensures
      var (after, decoded) := Pop3Call(states, f, OK_LINE);
      Pop3StateOf(after, f).inDataMode && decoded.Some? && decoded.value.offset == 5
  {
    assert [0x2B, 0x4F, 0x4B] + [] == [0x2B, 0x4F, 0x4B];
    assert [0x2B, 0x4F, 0x4B] + [0x0D, 0x0A] == OK_LINE;
    MailData.StatusStartsDataIff(states, f, [], true);
    hide Pop3Call;
  }

  /** The server accepts: its direction is in data mode. */
  lemma ServerAccepts(cfg: Config, st: State, p: Packet, f: FlowId, seqNum: u32)
    requires Carries(p, f, seqNum, OK_LINE) && f !in st.tcp && f !in st.l7
    requires Pop3StateOf(st.mail.pop3, f) == Pop3FlowState(true, false)
    requires Decodes(cfg, OK_LINE) && 5 <= cfg.maxL7StreamBytes
    ensures InDataMode(Step(cfg, st, p), f, POP3, [])
    ensures InOrder(Step(cfg, st, p), f, Reassembly.Advance(seqNum, 5))
  {
    assert InOrder(st, f, seqNum) && |OK_LINE| == 5;
    OkStartsData(st.mail.pop3, f);
    hide Step, Pop3Call, Carries, Decodes, InOrder, InDataMode, Pop3StateOf, Reassembly.Advance;
    AcceptedPacket(cfg, st, p, f, seqNum, OK_LINE);
    NextIsInOrder(cfg, st, p, f, seqNum, OK_LINE);
  }

  /** An input: the client asks for a mail, the server accepts and sends the mail RETR, and then any bytes. The server's
      direction is taken to have sent a command: the client's direction waits for a multi-line response. */
  lemma MailedCommandIsObeyed(
    cfg: Config, f: FlowId, clientSeq: u32, serverSeq: u32, more: seq<byte>, packets: seq<Packet>)
    requires Reverse(f) != f && more != [] && |packets| == 4
    requires Carries(packets[0], Reverse(f), clientSeq, [0x52, 0x45, 0x54, 0x52, 0x0D, 0x0A])
    requires Carries(packets[1], f, serverSeq, OK_LINE)
    requires Carries(packets[2], f, Reassembly.Advance(serverSeq, 5), RETR + CRLF + DOT_LINE)
    requires Carries(packets[3], f, Reassembly.Advance(serverSeq, 14), more)
    requires cfg.enableTcpReassembly && cfg.enableProtocolDetection && |more| < TWO31
    requires 9 <= cfg.maxStreamBytes && |more| <= cfg.maxStreamBytes && 9 + |more| <= cfg.maxL7StreamBytes
    ensures Pop3StateOf(After(cfg, packets).mail.pop3, Reverse(f)).pendingMultiline
  {
    hide Step, Reassembly.Advance, InDataMode, InOrder;
    assert [0x52, 0x45, 0x54, 0x52] + [0x0D, 0x0A] == [0x52, 0x45, 0x54, 0x52, 0x0D, 0x0A];
    ClientAsks(cfg, packets[0], f, clientSeq, [0x52, 0x45, 0x54, 0x52]);
    var asked := Step(cfg, NEW_STATE, packets[0]);
    ServerAccepts(cfg, asked, packets[1], f, serverSeq);
    MailIsObeyed(cfg, Step(cfg, asked, packets[1]), packets[2], packets[3], f, serverSeq, more);
    FourPackets(cfg, packets);
  }

  /** An input: the listing of an empty mailbox. The client sends LIST, the server accepts and sends a dot line alone;
      the mode is entered with the second packet and left with the third. */
  lemma EmptyListingEnds(cfg: Config, f: FlowId, clientSeq: u32, serverSeq: u32, packets: seq<Packet>)
    requires Reverse(f) != f && |packets| == 3
    requires Carries(packets[0], Reverse(f), clientSeq, [0x4C, 0x49, 0x53, 0x54, 0x0D, 0x0A])
    requires Carries(packets[1], f, serverSeq, OK_LINE)
    requires Carries(packets[2], f, Reassembly.Advance(serverSeq, 5), [0x2E, 0x0D, 0x0A])
    requires cfg.enableTcpReassembly && cfg.enableProtocolDetection
    requires 6 <= cfg.maxStreamBytes && 6 <= cfg.maxL7StreamBytes
    ensures Pop3StateOf(After(cfg, packets[..2]).mail.pop3, f).inDataMode
    ensures !Pop3StateOf(After(cfg, packets).mail.pop3, f).inDataMode
  {
    hide Step, Reassembly.Advance, InOrder;
    assert [0x4C, 0x49, 0x53, 0x54] + [0x0D, 0x0A] == [0x4C, 0x49, 0x53, 0x54, 0x0D, 0x0A];
    ClientAsks(cfg, packets[0], f, clientSeq, [0x4C, 0x49, 0x53, 0x54]);
    var asked := Step(cfg, NEW_STATE, packets[0]);
    ServerAccepts(cfg, asked, packets[1], f, serverSeq);
    var accepted := Step(cfg, asked, packets[1]);
    EmptyMailEnds(cfg, accepted, packets[2], f, Reassembly.Advance(serverSeq, 5));
    ThreePackets(cfg, packets);
  }

  lemma EmptyMailEnds(cfg: Config, st: State, p: Packet, f: FlowId, seqNum: u32)
    requires InDataMode(st, f, POP3, []) && InOrder(st, f, seqNum) && Carries(p, f, seqNum, [0x2E, 0x0D, 0x0A])
    requires Decodes(cfg, [0x2E, 0x0D, 0x0A]) && 3 <= cfg.maxL7StreamBytes
    ensures !Pop3StateOf(Step(cfg, st, p).mail.pop3, f).inDataMode
  {
    var lines: seq<seq<byte>> := [];
    assert MailData.Sent(lines) == [0x2E, 0x0D, 0x0A] && MailData.Sent(lines) + [] == MailData.Sent(lines);
    hide Step, InOrder, Decodes, Out, Continuing;
    CarriedDataIsFed(cfg, st, p, f, seqNum, [0x2E, 0x0D, 0x0A]);
    assert Init([p]) == [] && Last([p]) == p;
    assert RunFrom(cfg, st, []) == st && HandedOut(cfg, st, [], f) == [];
    assert RunFrom(cfg, st, [p]) == Step(cfg, st, p);
    assert HandedOut(cfg, st, [p], f) == [] + [0x2E, 0x0D, 0x0A] == [0x2E, 0x0D, 0x0A];
    DataModeEndsWithMail(cfg, st, f, POP3, lines, [], [p]);
  }

  lemma MailIsObeyed(cfg: Config, st: State, p: Packet, q: Packet, f: FlowId, serverSeq: u32, more: seq<byte>)
    requires InDataMode(st, f, POP3, []) && InOrder(st, f, Reassembly.Advance(serverSeq, 5)) && more != []
    requires Carries(p, f, Reassembly.Advance(serverSeq, 5), RETR + CRLF + DOT_LINE)
    requires Carries(q, f, Reassembly.Advance(serverSeq, 14), more)
    requires Decodes(cfg, RETR + CRLF + DOT_LINE) && Decodes(cfg, more) && 9 + |more| <= cfg.maxL7StreamBytes
    ensures Pop3StateOf(Step(cfg, Step(cfg, st, p), q).mail.pop3, Reverse(f)).pendingMultiline
  {
    assert |RETR + CRLF + DOT_LINE| == 9;
    TwoDeliveries(cfg, st, p, q, f, Reassembly.Advance(serverSeq, 5), RETR + CRLF + DOT_LINE, more);
    hide Step, Reassembly.Advance, InDataMode, InOrder, Out, Decodes, Carries, Pop3StateOf, Continuing;
    MailInDataModeIsObeyed(cfg, st, p, q);
  }

  lemma TwoDeliveries(
    cfg: Config, st: State, p: Packet, q: Packet, f: FlowId, seqNum: u32, data: seq<byte>, more: seq<byte>)
    requires InOrder(st, f, seqNum) && Decodes(cfg, data) && Decodes(cfg, more)
    requires Carries(p, f, seqNum, data) && Carries(q, f, Reassembly.Advance(seqNum, |data|), more)
    ensures Continuing(cfg, p) && Continuing(cfg, q) && p.flowId == q.flowId == f
    ensures Out(cfg, st, p) == data && Out(cfg, Step(cfg, st, p), q) == more
  {
    hide Step, Reassembly.Advance, InOrder, Out, Decodes, Continuing;
    CarriedDataIsFed(cfg, st, p, f, seqNum, data);
    NextIsInOrder(cfg, st, p, f, seqNum, data);
    CarriedDataIsFed(cfg, Step(cfg, st, p), q, f, Reassembly.Advance(seqNum, |data|), more);
  }

  lemma ThreePackets(cfg: Config, packets: seq<Packet>)
    requires |packets| == 3
    ensures After(cfg, packets[..2]) == Step(cfg, Step(cfg, NEW_STATE, packets[0]), packets[1])
    ensures After(cfg, packets) == Step(cfg, After(cfg, packets[..2]), packets[2])
  {
    hide Step;
    assert Init(packets) == packets[..2] && Init(packets[..2]) == packets[..1] && Init(packets[..1]) == [];
    assert After(cfg, packets[..1]) == Step(cfg, NEW_STATE, packets[0]);
  }

  lemma FourPackets(cfg: Config, packets: seq<Packet>)
    requires |packets| == 4
    ensures After(cfg, packets)
            == Step(cfg, Step(cfg, Step(cfg, Step(cfg, NEW_STATE, packets[0]), packets[1]), packets[2]), packets[3])
  {
    hide Step;
    assert Init(packets) == packets[..3] && Init(packets[..3]) == packets[..2];
    assert Init(packets[..2]) == packets[..1] && Init(packets[..1]) == [];
    assert After(cfg, packets[..1]) == Step(cfg, NEW_STATE, packets[0]);
    assert After(cfg, packets[..2]) == Step(cfg, After(cfg, packets[..1]), packets[1]);
    assert After(cfg, packets[..3]) == Step(cfg, After(cfg, packets[..2]), packets[2]);
  }
}
