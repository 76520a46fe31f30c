/** The mail data modes over whole runs of the packet decoder, and what leaving them does. */
module StreamDataMode {
  import opened Common
  import opened Flow
  import opened Mail
  import MailData
  import MailRoundTrip
  import Reassembly
  import opened StreamDecoder
  import opened StreamConservation

  // ----- Mail states over whole runs -----

  /** The buffer on which a packet makes decodeL7 run for the given protocol, if it does. */
  function L7Input(cfg: Config, st: State, p: Packet, protocol: AppProtocol): Option<seq<byte>> {
    if TakesStreamPath(cfg, p) then
      var grown := GrownBuffer(cfg, st, p);
      if Out(cfg, st, p) != [] && !Overflows(cfg, L7StateOf(st.l7, p.flowId), Out(cfg, st, p))
         && grown.detected == protocol
      then Some(grown.buffer) else None
    else if cfg.enableProtocolDetection && p.payload != [] && p.detected == protocol then Some(p.payload)
    else None
  }

  /** The calls of one protocol's decoder over a history, on all flows. */
  function Calls(cfg: Config, history: seq<Packet>, protocol: AppProtocol): seq<Call> {
    if history == [] then []
    else
      match L7Input(cfg, After(cfg, Init(history)), Last(history), protocol)
      case None => Calls(cfg, Init(history), protocol)
      case Some(data) => Calls(cfg, Init(history), protocol) + [Call(Last(history).flowId, data)]
  }

  lemma StepOnMail(cfg: Config, st: State, p: Packet)
    ensures Step(cfg, st, p).mail.pop3 ==
            match L7Input(cfg, st, p, POP3)
            case None => st.mail.pop3
            case Some(data) => Pop3Call(st.mail.pop3, p.flowId, data).0
    ensures Step(cfg, st, p).mail.smtp ==
            match L7Input(cfg, st, p, SMTP)
            case None => st.mail.smtp
            case Some(data) => SmtpCall(st.mail.smtp, p.flowId, data).0
  {
    hide Pop3Call, SmtpCall, Reassembled, TlsConsumes, TelnetConsumes, OffsetOf;
  }

  lemma {:induction false} Pop3StatesFollowCalls(cfg: Config, history: seq<Packet>)
    ensures After(cfg, history).mail.pop3 == Pop3After(Calls(cfg, history, POP3))
  {
    hide Step, L7Input, Pop3Call;
    if history != [] {
      Pop3StatesFollowCalls(cfg, Init(history));
      var st, p := After(cfg, Init(history)), Last(history);
      StepOnMail(cfg, st, p);
      if L7Input(cfg, st, p, POP3).Some? {
        var before, c := Calls(cfg, Init(history), POP3), Call(p.flowId, L7Input(cfg, st, p, POP3).value);
        assert Init(before + [c]) == before;
      }
    }
  }

  lemma {:induction false} SmtpStatesFollowCalls(cfg: Config, history: seq<Packet>)
    ensures After(cfg, history).mail.smtp == SmtpAfter(Calls(cfg, history, SMTP))
  {
    hide Step, L7Input, SmtpCall;
    if history != [] {
      SmtpStatesFollowCalls(cfg, Init(history));
      var st, p := After(cfg, Init(history)), Last(history);
      StepOnMail(cfg, st, p);
      if L7Input(cfg, st, p, SMTP).Some? {
        var before, c := Calls(cfg, Init(history), SMTP), Call(p.flowId, L7Input(cfg, st, p, SMTP).value);
        assert Init(before + [c]) == before;
      }
    }
  }

  /** The data modes after any run of the packet decoder are the ones its two-direction call history prescribes. */
  lemma DataModesAreHistory(cfg: Config, history: seq<Packet>, f: FlowId)
    ensures Pop3StateOf(After(cfg, history).mail.pop3, f).pendingMultiline <==> Awaits(Calls(cfg, history, POP3), f)
    ensures Pop3StateOf(After(cfg, history).mail.pop3, f).inDataMode <==> Pop3InData(Calls(cfg, history, POP3), f)
    ensures SmtpStateOf(After(cfg, history).mail.smtp, f).inDataMode <==> SmtpInData(Calls(cfg, history, SMTP), f)
  {
    Pop3StatesFollowCalls(cfg, history);
    SmtpStatesFollowCalls(cfg, history);
    Pop3StateIsHistory(Calls(cfg, history, POP3), f);
    SmtpStateIsHistory(Calls(cfg, history, SMTP), f);
  }

  // ----- Leaving data mode does not depend on segmentation -----

  predicate ModeOf(st: State, f: FlowId, protocol: AppProtocol) {
    (protocol == POP3 && Pop3StateOf(st.mail.pop3, f).inDataMode)
    || (protocol == SMTP && SmtpStateOf(st.mail.smtp, f).inDataMode)
  }

  /** A mail flow whose protocol is known, with the given bytes buffered. */
  predicate Buffers(st: State, f: FlowId, protocol: AppProtocol, buffered: seq<byte>) {
    var stream := L7StateOf(st.l7, f);
    && (protocol == POP3 || protocol == SMTP)
    && stream.detectionDone && stream.detected == protocol && stream.buffer == buffered
  }

  predicate InDataMode(st: State, f: FlowId, protocol: AppProtocol, buffered: seq<byte>) {
    Buffers(st, f, protocol, buffered) && ModeOf(st, f, protocol)
  }

  /** Data mode was left; the buffer still holds the whole message. */
  predicate LeftDataMode(st: State, f: FlowId, protocol: AppProtocol, buffered: seq<byte>) {
    Buffers(st, f, protocol, buffered) && !ModeOf(st, f, protocol) && HasEndOfData(buffered)
  }

  /** In data mode a call only looks for the end of data. */
  lemma CallInDataMode(mail: MailStates, p: Packet, protocol: AppProtocol, data: seq<byte>)
    requires
      || (protocol == POP3 && Pop3StateOf(mail.pop3, p.flowId).inDataMode)
      || (protocol == SMTP && SmtpStateOf(mail.smtp, p.flowId).inDataMode)
    ensures
      var (after, consumed) := DecodeL7(mail, p, protocol, data);
      && consumed == None
      && (protocol == POP3 ==> Pop3StateOf(after.pop3, p.flowId).inDataMode == !HasEndOfData(data))
      && (protocol == SMTP ==> SmtpStateOf(after.smtp, p.flowId).inDataMode == !HasEndOfData(data))
  {
    hide HasEndOfData, DecodePop3, DecodeSmtp;
  }

  /** In data mode a chunk is only buffered, and the mode is left exactly when the accumulated bytes hold the end. */
  lemma ChunkInDataMode(cfg: Config, st: State, p: Packet, protocol: AppProtocol, buffered: seq<byte>, chunk: seq<byte>)
    requires InDataMode(st, p.flowId, protocol, buffered)
    requires |buffered| + |chunk| <= cfg.maxL7StreamBytes
    ensures
      var after := Feed(cfg, st, p, chunk);
      if HasEndOfData(buffered + chunk) then LeftDataMode(after, p.flowId, protocol, buffered + chunk)
      else InDataMode(after, p.flowId, protocol, buffered + chunk)
  {
    CallInDataMode(st.mail, p, protocol, buffered + chunk);
    hide HasEndOfData, DecodeL7;
  }

  /** Packets of other flows, the reverse direction included, leave the data mode of f alone. */
  lemma OthersKeepDataMode(cfg: Config, st: State, p: Packet, f: FlowId, protocol: AppProtocol, buffered: seq<byte>)
    requires InDataMode(st, f, protocol, buffered) && p.flowId != f
    ensures InDataMode(Step(cfg, st, p), f, protocol, buffered)
  {
    hide Step, L7Input, Out, ConsumedBy, Erases, HasEndOfData;
    StepOnBuffer(cfg, st, p, f);
    StepOnMail(cfg, st, p);
    if L7Input(cfg, st, p, POP3).Some? {
      Pop3CallOnState(st.mail.pop3, Call(p.flowId, L7Input(cfg, st, p, POP3).value), f);
    }
    if L7Input(cfg, st, p, SMTP).Some? {
      SmtpCallOnState(st.mail.smtp, Call(p.flowId, L7Input(cfg, st, p, SMTP).value), f);
    }
    hide Pop3Call, SmtpCall;
  }

  /** A TCP packet that does not throw its flow's buffer away, with reassembly on. */
  predicate Continuing(cfg: Config, p: Packet) {
    p.tcp.Some? && !ClosesWithPayload(p) && cfg.enableTcpReassembly
  }

  lemma OwnPacketFeeds(cfg: Config, st: State, p: Packet)
    requires Continuing(cfg, p)
    ensures
      var received := if TakesStreamPath(cfg, p) then st.(tcp := st.tcp[p.flowId := Reassembled(cfg, st, p).0]) else st;
      Step(cfg, st, p) == if Out(cfg, st, p) == [] then received else Feed(cfg, received, p, Out(cfg, st, p))
  {
    hide Feed, Reassembly.Receive;
  }

  lemma OwnPacketInDataMode(cfg: Config, st: State, p: Packet, protocol: AppProtocol, buffered: seq<byte>)
    requires Continuing(cfg, p) && InDataMode(st, p.flowId, protocol, buffered)
    requires |buffered| + |Out(cfg, st, p)| <= cfg.maxL7StreamBytes
    ensures
      var after, all := Step(cfg, st, p), buffered + Out(cfg, st, p);
      if Out(cfg, st, p) == [] then InDataMode(after, p.flowId, protocol, buffered)
      else if HasEndOfData(all) then LeftDataMode(after, p.flowId, protocol, all)
      else InDataMode(after, p.flowId, protocol, all)
  {
    hide Feed, HasEndOfData, Step, Out, Reassembled;
    OwnPacketFeeds(cfg, st, p);
    if Out(cfg, st, p) != [] {
      var received := if TakesStreamPath(cfg, p) then st.(tcp := st.tcp[p.flowId := Reassembled(cfg, st, p).0]) else st;
      ChunkInDataMode(cfg, received, p, protocol, buffered, Out(cfg, st, p));
    }
  }

  function RunFrom(cfg: Config, st: State, packets: seq<Packet>): State {
    if packets == [] then st else Step(cfg, RunFrom(cfg, st, Init(packets)), Last(packets))
  }

  /** What the reassembler hands out for f over a run. */
  function HandedOut(cfg: Config, st: State, packets: seq<Packet>, f: FlowId): seq<byte> {
    if packets == [] then []
    else if Last(packets).flowId == f
    then HandedOut(cfg, st, Init(packets), f) + Out(cfg, RunFrom(cfg, st, Init(packets)), Last(packets))
    else HandedOut(cfg, st, Init(packets), f)
  }

  /** The packets of f continue its stream; those of other flows are arbitrary. */
  predicate AllContinuing(cfg: Config, packets: seq<Packet>, f: FlowId) {
    forall i :: 0 <= i < |packets| && packets[i].flowId == f ==> Continuing(cfg, packets[i])
  }

  /** However the message is cut, and whatever packets of other flows and of the reverse direction come between, the
      mode is left with the first bytes that complete an end of data, and until then everything stays buffered. */
  lemma {:induction false} DataModeEndsWithData(
    cfg: Config, st: State, f: FlowId, protocol: AppProtocol, buffered: seq<byte>, packets: seq<Packet>)
    requires InDataMode(st, f, protocol, buffered) && !HasEndOfData(buffered)
    requires AllContinuing(cfg, packets, f)
    requires |buffered| + |HandedOut(cfg, st, packets, f)| <= cfg.maxL7StreamBytes
    requires packets != [] ==> !HasEndOfData(buffered + HandedOut(cfg, st, Init(packets), f))
    ensures
      var after, all := RunFrom(cfg, st, packets), buffered + HandedOut(cfg, st, packets, f);
      if HasEndOfData(all) then LeftDataMode(after, f, protocol, all) else InDataMode(after, f, protocol, all)
  {
    hide Step, Out, HasEndOfData, InDataMode, LeftDataMode, Continuing;
    if packets == [] {
      assert buffered + [] == buffered;
    } else {
      var before, p := Init(packets), packets[|packets| - 1];
      assert Last(packets) == p;
      var soFar := HandedOut(cfg, st, before, f);
      if before != [] {
        NoEarlierEnd(cfg, st, f, buffered, before);
      }
      DataModeEndsWithData(cfg, st, f, protocol, buffered, before);
      if p.flowId == f {
        ConcatAssociates(buffered, soFar, Out(cfg, RunFrom(cfg, st, before), p));
        OwnPacketInDataMode(cfg, RunFrom(cfg, st, before), p, protocol, buffered + soFar);
        assert Out(cfg, RunFrom(cfg, st, before), p) == [] ==> HandedOut(cfg, st, packets, f) == soFar;
      } else {
        OthersKeepDataMode(cfg, RunFrom(cfg, st, before), p, f, protocol, buffered + soFar);
      }
    }
  }

  /** The same in bytes: a mail of any lines, the empty list included, dot-stuffed and followed by its dot line and by
      anything else. However it is cut, the mode is left with the packet that brings the last byte of the dot line. */
  lemma DataModeEndsWithMail(
    cfg: Config, st: State, f: FlowId, protocol: AppProtocol, lines: seq<seq<byte>>, more: seq<byte>,
    packets: seq<Packet>)
    requires InDataMode(st, f, protocol, []) && MailData.GoodLines(lines) && AllContinuing(cfg, packets, f)
    requires HandedOut(cfg, st, packets, f) <= MailData.Sent(lines) + more
    requires |HandedOut(cfg, st, packets, f)| <= cfg.maxL7StreamBytes
    requires packets != [] ==> |HandedOut(cfg, st, Init(packets), f)| < |MailData.Sent(lines)|
    ensures ModeOf(RunFrom(cfg, st, packets), f, protocol)
            <==> |HandedOut(cfg, st, packets, f)| < |MailData.Sent(lines)|
    ensures Buffers(RunFrom(cfg, st, packets), f, protocol, HandedOut(cfg, st, packets, f))
  {
    hide HasEndOfData, Step, Out, HandedOut, RunFrom, Continuing, MailData.GoodLines, MailData.Sent;
    var all, out := MailData.Sent(lines) + more, HandedOut(cfg, st, packets, f);
    assert [] + out == out && all[..|out|] == out;
    MailData.MailEndsInFrontOf(lines, more, |out|);
    MailData.MailEndsInFrontOf(lines, more, 0);
    SentIsNotEmpty(lines);
    assert all[..0] == [];
    if packets != [] {
      var before := HandedOut(cfg, st, Init(packets), f);
      HandedOutBefore(cfg, st, packets, f);
      MailData.MailEndsInFrontOf(lines, more, |before|);
      assert [] + before == before && all[..|before|] == before;
    }
    DataModeEndsWithData(cfg, st, f, protocol, [], packets);
  }

  lemma SentIsNotEmpty(lines: seq<seq<byte>>)
    ensures |MailData.Sent(lines)| > 0
  {
  }

  lemma HandedOutBefore(cfg: Config, st: State, packets: seq<Packet>, f: FlowId)
    requires packets != []
    ensures HandedOut(cfg, st, Init(packets), f) <= HandedOut(cfg, st, packets, f)
  {
    hide Out;
  }

  lemma NoEarlierEnd(cfg: Config, st: State, f: FlowId, buffered: seq<byte>, packets: seq<Packet>)
    requires packets != [] && !HasEndOfData(buffered + HandedOut(cfg, st, packets, f))
    ensures !HasEndOfData(buffered + HandedOut(cfg, st, Init(packets), f))
  {
    hide HasEndOfData, Out;
    var shorter := buffered + HandedOut(cfg, st, Init(packets), f);
    if Last(packets).flowId == f && HasEndOfData(shorter) {
      var out := Out(cfg, RunFrom(cfg, st, Init(packets)), Last(packets));
      ConcatAssociates(buffered, HandedOut(cfg, st, Init(packets), f), out);
      EndOfDataIsMonotone(shorter, out);
    }
  }

  // ----- Leaving data mode consumes nothing -----

  /** The next bytes make the message's own first line be decoded, or block the flow if that line is empty. */
  lemma FirstLineIsDecoded(mail: MailStates, p: Packet, protocol: AppProtocol, message: seq<byte>, more: seq<byte>)
    requires
      || (protocol == POP3 && !Pop3StateOf(mail.pop3, p.flowId).inDataMode)
      || (protocol == SMTP && !SmtpStateOf(mail.smtp, p.flowId).inDataMode)
    requires HasEndOfData(message)
    ensures
      DecodeL7(mail, p, protocol, message + more).1 ==
      match LineAt(message, 0)
      case Ok(line) => Some(|line| + 2)
      case Err(_) => None
  {
    LineOfMessage(message, more);
    hide HasEndOfData, LineAt;
    if protocol == POP3 {
      Pop3Consumes(mail.pop3, p.flowId, message + more);
    } else {
      SmtpConsumes(mail.smtp, p.flowId, message + more);
    }
    hide Pop3Call, SmtpCall;
  }

  /** Outside data mode a call consumes the first line, if there is one. */
  lemma Pop3Consumes(states: Pop3States, f: FlowId, data: seq<byte>)
    requires !Pop3StateOf(states, f).inDataMode
    ensures OffsetOf(Pop3Call(states, f, data).1)
            == match LineAt(data, 0) case Ok(line) => Some(|line| + 2) case Err(_) => None
  {
    hide IsMultilineCommand, ParsePop3, LineAt;
  }

  lemma SmtpConsumes(states: SmtpStates, f: FlowId, data: seq<byte>)
    requires !SmtpStateOf(states, f).inDataMode
    ensures OffsetOf(SmtpCall(states, f, data).1)
            == match LineAt(data, 0) case Ok(line) => Some(|line| + 2) case Err(_) => None
  {
    hide ParseSmtp, LineAt;
  }

  lemma LineOfMessage(message: seq<byte>, more: seq<byte>)
    requires HasEndOfData(message)
    ensures if LineAt(message, 0).Ok? then LineAt(message + more, 0) == LineAt(message, 0)
            else LineAt(message + more, 0).Err?
  {
    EndHasCrlf(message);
    if LineAt(message, 0).Ok? {
      MailRoundTrip.LineIsStable(message, more, 0);
    } else {
      assert OccursAt(message, CRLF, 0);
      assert (message + more)[0..2] == message[0..2];
    }
  }

  lemma EndHasCrlf(message: seq<byte>)
    requires HasEndOfData(message)
    ensures exists i: nat :: OccursAt(message, CRLF, i)
  {
    if DOT_LINE <= message {
      assert message[1..3] == DOT_LINE[1..3];
      assert OccursAt(message, CRLF, 1);
    } else {
      var i := Find(message, CRLF + DOT_LINE, 0).value;
      SliceOfSlice(message, i, i + 5, 0, 2);
      assert (CRLF + DOT_LINE)[0..2] == CRLF;
      assert OccursAt(message, CRLF, i);
    }
  }

  /** Leaving data mode takes nothing from the buffer, so with the next bytes the first line of the message itself is
      decoded as a protocol line and consumed; a message that begins with an empty line stays whole. */
  lemma MessageIsReadAsProtocol(cfg: Config, st: State, p: Packet, protocol: AppProtocol, message: seq<byte>)
    requires Continuing(cfg, p) && LeftDataMode(st, p.flowId, protocol, message)
    requires Out(cfg, st, p) != [] && |message| + |Out(cfg, st, p)| <= cfg.maxL7StreamBytes
    ensures
      var all := message + Out(cfg, st, p);
      L7StateOf(Step(cfg, st, p).l7, p.flowId).buffer ==
      match LineAt(message, 0)
      case Ok(line) => all[|line| + 2..]
      case Err(_) => all
  {
    OwnPacketFeeds(cfg, st, p);
    FirstLineIsDecoded(st.mail, p, protocol, message, Out(cfg, st, p));
    hide Out, Step, HasEndOfData, DecodeL7, Reassembled;
  }

  // ----- An empty first line blocks the flow -----

  /** With an empty line at its front, no call takes anything from the buffer, in data mode or outside it. */
  lemma EmptyLineIsKept(mail: MailStates, p: Packet, protocol: AppProtocol, data: seq<byte>)
    requires (protocol == POP3 || protocol == SMTP) && OccursAt(data, CRLF, 0)
    ensures DecodeL7(mail, p, protocol, data).1 == None
  {
    assert LineAt(data, 0).Err?;
    hide LineAt, HasEndOfData;
  }

  lemma OwnPacketBehindEmptyLine(cfg: Config, st: State, p: Packet, protocol: AppProtocol, buffered: seq<byte>)
    requires Continuing(cfg, p) && Buffers(st, p.flowId, protocol, buffered) && OccursAt(buffered, CRLF, 0)
    requires |buffered| + |Out(cfg, st, p)| <= cfg.maxL7StreamBytes
    ensures Buffers(Step(cfg, st, p), p.flowId, protocol, buffered + Out(cfg, st, p))
  {
    hide Step, Out, Reassembled, DecodeL7;
    var all := buffered + Out(cfg, st, p);
    assert all[0..2] == buffered[0..2];
    OwnPacketFeeds(cfg, st, p);
    EmptyLineIsKept(st.mail, p, protocol, all);
    assert Out(cfg, st, p) == [] ==> all == buffered;
  }

  lemma OthersKeepBuffer(cfg: Config, st: State, p: Packet, f: FlowId, protocol: AppProtocol, buffered: seq<byte>)
    requires p.flowId != f && Buffers(st, f, protocol, buffered)
    ensures Buffers(Step(cfg, st, p), f, protocol, buffered)
  {
    hide Step;
    StepOnBuffer(cfg, st, p, f);
  }

  /** Once a mail flow's buffer begins with an empty line, nothing of the flow is ever consumed again: over every run,
      with arbitrary packets of other flows, the buffer is what it was followed by all that was handed out since. */
  lemma {:induction false} EmptyFirstLineBlocks(
    cfg: Config, st: State, f: FlowId, protocol: AppProtocol, buffered: seq<byte>, packets: seq<Packet>)
    requires Buffers(st, f, protocol, buffered) && OccursAt(buffered, CRLF, 0)
    requires AllContinuing(cfg, packets, f)
    requires |buffered| + |HandedOut(cfg, st, packets, f)| <= cfg.maxL7StreamBytes
    ensures Buffers(RunFrom(cfg, st, packets), f, protocol, buffered + HandedOut(cfg, st, packets, f))
  {
    hide Step, Out, Buffers, Continuing;
    if packets == [] {
      assert buffered + [] == buffered;
    } else {
      var before, p := Init(packets), packets[|packets| - 1];
      assert Last(packets) == p;
      var soFar := buffered + HandedOut(cfg, st, before, f);
      EmptyFirstLineBlocks(cfg, st, f, protocol, buffered, before);
      assert soFar[0..2] == buffered[0..2];
      if p.flowId == f {
        ConcatAssociates(buffered, HandedOut(cfg, st, before, f), Out(cfg, RunFrom(cfg, st, before), p));
        OwnPacketBehindEmptyLine(cfg, RunFrom(cfg, st, before), p, protocol, soFar);
      } else {
        OthersKeepBuffer(cfg, RunFrom(cfg, st, before), p, f, protocol, soFar);
      }
    }
  }

  // ----- A mail that is obeyed -----

  /** A mail whose first line is RETR arrives in data mode with an empty buffer. With the next bytes the server's
      direction is taken to have sent a command, and the client's direction waits for a multi-line response. */
  lemma MailInDataModeIsObeyed(cfg: Config, st: State, p: Packet, q: Packet)
    requires InDataMode(st, p.flowId, POP3, []) && q.flowId == p.flowId
    requires Continuing(cfg, p) && Continuing(cfg, q)
    requires Out(cfg, st, p) == RETR + CRLF + DOT_LINE && Out(cfg, Step(cfg, st, p), q) != []
    requires 9 + |Out(cfg, Step(cfg, st, p), q)| <= cfg.maxL7StreamBytes
    ensures Pop3StateOf(Step(cfg, Step(cfg, st, p), q).mail.pop3, Reverse(p.flowId)).pendingMultiline
  {
    hide Out, Step, HasEndOfData, Continuing;
    var message := RETR + CRLF + DOT_LINE;
    assert [] + message == message;
    CommandMail(message);
    OwnPacketInDataMode(cfg, st, p, POP3, []);
    NextBytesObey(cfg, Step(cfg, st, p), q, message);
    hide InDataMode, LeftDataMode;
  }

  lemma NextBytesObey(cfg: Config, st: State, p: Packet, message: seq<byte>)
    requires Continuing(cfg, p) && LeftDataMode(st, p.flowId, POP3, message)
    requires LineAt(message, 0) == Ok(RETR) && IsMultilineCommand(ParsePop3(RETR))
    requires Out(cfg, st, p) != [] && |message| + |Out(cfg, st, p)| <= cfg.maxL7StreamBytes
    ensures Pop3StateOf(Step(cfg, st, p).mail.pop3, Reverse(p.flowId)).pendingMultiline
  {
    hide Out, Step, HasEndOfData, DecodeL7, Reassembled, LineAt, ParsePop3, IsMultilineCommand;
    OwnPacketFeeds(cfg, st, p);
    CommandIsNoted(st.mail, p, message, Out(cfg, st, p));
  }

  lemma CommandMail(message: seq<byte>)
    requires message == RETR + CRLF + DOT_LINE
    ensures HasEndOfData(message) && |message| == 9
    ensures LineAt(message, 0) == Ok(RETR) && IsMultilineCommand(ParsePop3(RETR))
  {
    assert message[4..9] == CRLF + DOT_LINE;
    assert OccursAt(message, CRLF + DOT_LINE, 4);
    forall i | 0 <= i < |RETR|
      ensures !OccursAt(RETR + CRLF, CRLF, i) && !OccursAt(RETR, [SPACE], i)
    {
      assert (RETR + CRLF)[i..i + 2][0] == RETR[i] == RETR[i..i + 1][0];
    }
    assert message[0..6] == RETR + CRLF;
    MailRoundTrip.LineReadsBack(message, 0, RETR);
    CommandWord();
  }

  lemma CommandWord()
    requires forall i :: 0 <= i < |RETR| ==> !OccursAt(RETR, [SPACE], i)
    ensures IsMultilineCommand(ParsePop3(RETR))
  {
    assert Find(RETR, [SPACE], 0).None?;
    assert RETR[0] != OK_STATUS[0] && RETR[0] != ERR_STATUS[0];
  }

  lemma CommandIsNoted(mail: MailStates, p: Packet, message: seq<byte>, more: seq<byte>)
    requires !Pop3StateOf(mail.pop3, p.flowId).inDataMode
    requires HasEndOfData(message) && LineAt(message, 0) == Ok(RETR) && IsMultilineCommand(ParsePop3(RETR))
    ensures Pop3StateOf(DecodeL7(mail, p, POP3, message + more).0.pop3, Reverse(p.flowId)).pendingMultiline
  {
    LineOfMessage(message, more);
    hide HasEndOfData, IsMultilineCommand, ParsePop3;
  }
}
