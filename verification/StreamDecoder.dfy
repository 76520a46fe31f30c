/** The stream-first path of the packet decoder: reassembled bytes wait in a buffer per flow for their decoder. */
module StreamDecoder {
  import opened Common
  import opened Flow
  import opened Reassembly
  import opened Mail
  import Telnet
  import TlsFraming

  /** `Other`: protocols that are decoded by code outside this model. */
  datatype AppProtocol = Unknown | SMTP | POP3 | TLS | TELNET | Other

  /** A decoder outside this model: the number of bytes it consumes from a buffer, if it succeeds. */
  type L7Decoder = f: seq<byte> -> Option<nat> | forall b :: f(b).Some? ==> f(b).value <= |b|
    witness (b: seq<byte>) => None

  datatype Config = Config(
    maxStreamBytes: nat, maxL7StreamBytes: nat, enableTcpReassembly: bool, enableProtocolDetection: bool)

  datatype L7StreamState = L7StreamState(buffer: seq<byte>, detected: AppProtocol, detectionDone: bool)

  const NEW_L7_STREAM := L7StreamState([], Unknown, false)

  /** A packet behind its headers, with what the detection engine and the unmodelled decoders answer for it, and the
      byte in memory behind the buffer that its decoder sees. */
  datatype Packet = Packet(
    flowId: FlowId, tcp: Option<TcpHeader>, payload: seq<byte>, detected: AppProtocol, other: L7Decoder, beyond: byte)

  datatype MailStates = MailStates(pop3: Pop3States, smtp: SmtpStates)

  datatype State = State(tcp: map<FlowId, StreamBuffer>, l7: map<FlowId, L7StreamState>, mail: MailStates)

  const NEW_STATE := State(map[], map[], MailStates(map[], map[]))

  function L7StateOf(l7: map<FlowId, L7StreamState>, flowId: FlowId): L7StreamState {
    if flowId in l7 then l7[flowId] else NEW_L7_STREAM
  }

  function OffsetOf<T>(d: Option<Decoded<T>>): Option<nat> {
    match d
    case None => None
    case Some(decoded) => Some(decoded.offset)
  }

  /** The TLS and Telnet cases of decodeL7: how much of a buffer they consume, if they succeed. */
  function TlsConsumes(data: seq<byte>, beyond: byte): (r: Option<nat>)
    ensures r.Some? ==> r.value <= |data|
  {
    match TlsFraming.TlsCase(data, beyond, 0)
    case None => None
    case Some(records) => Some(records.offset)
  }

  function TelnetConsumes(data: seq<byte>): (r: Option<nat>)
    ensures r.Some? ==> r.value <= |data|
  {
    if data == [] then None else Some(Telnet.Scan(data, 0, []).offset)
  }

  /** decodeL7 on a packet's behalf: the mail states it leaves and how many bytes a successful decode consumed. */
  function DecodeL7(mail: MailStates, p: Packet, protocol: AppProtocol, data: seq<byte>)
    : (r: (MailStates, Option<nat>))
    ensures r.1.Some? ==> r.1.value <= |data|
    ensures r.1.None? || r.1.value > 0 || protocol == TELNET || protocol == Other
  {
    match protocol
    case Unknown => (mail, None)
    case SMTP =>
      var (states, decoded) := SmtpCall(mail.smtp, p.flowId, data);
      (mail.(smtp := states), OffsetOf(decoded))
    case POP3 =>
      var (states, decoded) := Pop3Call(mail.pop3, p.flowId, data);
      (mail.(pop3 := states), OffsetOf(decoded))
    case TLS => (mail, TlsConsumes(data, p.beyond))
    case TELNET => (mail, TelnetConsumes(data))
    case Other => (mail, p.other(data))
  }

  lemma UnknownDecodesNothing(mail: MailStates, p: Packet, data: seq<byte>)
    ensures DecodeL7(mail, p, Unknown, data) == (mail, None)
  {
  }

  /** Append to the flow's buffer and settle its protocol if the detection engine knows it. */
  function Append(stream: L7StreamState, bytes: seq<byte>, detected: AppProtocol): L7StreamState {
    if stream.detectionDone || detected == Unknown then stream.(buffer := stream.buffer + bytes)
    else L7StreamState(stream.buffer + bytes, detected, true)
  }

  predicate Overflows(cfg: Config, stream: L7StreamState, bytes: seq<byte>) {
    |stream.buffer| + |bytes| > cfg.maxL7StreamBytes
  }

  /** What happens to newly reassembled bytes of a flow. */
  function Feed(cfg: Config, st: State, p: Packet, bytes: seq<byte>): State {
    var stream := L7StateOf(st.l7, p.flowId);
    if Overflows(cfg, stream, bytes) then st.(l7 := st.l7 - {p.flowId})
    else
      var grown := Append(stream, bytes, p.detected);
      var (mail, consumed) := DecodeL7(st.mail, p, grown.detected, grown.buffer);
      var rest := if consumed.Some? then grown.buffer[consumed.value..] else grown.buffer;
      st.(mail := mail, l7 := st.l7[p.flowId := grown.(buffer := rest)])
  }

  predicate TakesStreamPath(cfg: Config, p: Packet) {
    cfg.enableProtocolDetection && p.payload != [] && p.tcp.Some? && cfg.enableTcpReassembly
  }

  /** The reassembler's answer to a packet on the stream path. */
  function Reassembled(cfg: Config, st: State, p: Packet): (StreamBuffer, ReassemblyResult)
    requires p.tcp.Some?
  {
    Receive(StreamOf(st.tcp, p.flowId), cfg.maxStreamBytes, p.tcp.value, p.payload)
  }

  predicate ClosesFlow(p: Packet) {
    p.tcp.Some? && (p.tcp.value.fin || p.tcp.value.rst)
  }

  /** A FIN or RST throws the flow's buffer away only if it carries payload: decode reaches the erasure behind the test
      for a payload. */
  predicate ClosesWithPayload(p: Packet) {
    p.tcp.Some? && (p.tcp.value.fin || p.tcp.value.rst) && p.payload != []
  }

  /** The part of `decode` behind flow tracking. */
  function Step(cfg: Config, st: State, p: Packet): State {
    if TakesStreamPath(cfg, p) then
      var (stream, r) := Reassembled(cfg, st, p);
      var received := st.(tcp := st.tcp[p.flowId := stream]);
      var fed := if DataOf(r) != [] then Feed(cfg, received, p, DataOf(r)) else received;
      if ClosesFlow(p) then fed.(l7 := fed.l7 - {p.flowId}) else fed
    else if cfg.enableProtocolDetection && p.payload != [] then
      st.(mail := DecodeL7(st.mail, p, p.detected, p.payload).0)
    else
      st
  }

  class PacketDecoder {
    const cfg: Config
    const reassembler: TcpReassembler
    var pop3States: Pop3States
    var smtpStates: SmtpStates
    var l7Streams: map<FlowId, L7StreamState>

    ghost predicate Valid()
      reads this
    {
      reassembler.maxStreamBytes == cfg.maxStreamBytes
    }

    ghost function Current(): State
      reads this, reassembler
    {
      State(reassembler.streams, l7Streams, MailStates(pop3States, smtpStates))
    }

    constructor (cfg: Config)
      ensures Valid() && fresh(reassembler) && this.cfg == cfg && Current() == NEW_STATE
    {
      this.cfg := cfg;
      reassembler := new TcpReassembler(cfg.maxStreamBytes);
      pop3States, smtpStates, l7Streams := map[], map[], map[];
    }

    method DecodeSmtpCase(flowId: FlowId, data: seq<byte>) returns (ok: bool, l7Offset: nat)
      modifies this`smtpStates
      ensures
        var call := SmtpCall(old(smtpStates), flowId, data);
        && smtpStates == call.0
        && ok == call.1.Some?
        && (ok ==> l7Offset == call.1.value.offset)
    {
      hide DecodeSmtp, HasEndOfData, Reverse;
      l7Offset := 0;
      if flowId !in smtpStates {
        smtpStates := smtpStates[flowId := SmtpFlowState(false)];
      }
      if smtpStates[flowId].inDataMode {
        if HasEndOfData(data) {
          smtpStates := smtpStates[flowId := SmtpFlowState(false)];
        }
        return false, 0;
      }
      var result := DecodeSmtp(data, l7Offset);
      if result.Err? {
        return false, 0;
      }
      if result.value.message.isResponse && result.value.message.replyCode == 354 {
        smtpStates := smtpStates[Reverse(flowId) := SmtpFlowState(true)];
      }
      return true, result.value.offset;
    }

    method DecodePop3Case(flowId: FlowId, data: seq<byte>) returns (ok: bool, l7Offset: nat)
      modifies this`pop3States
      ensures
        var call := Pop3Call(old(pop3States), flowId, data);
        && pop3States == call.0
        && ok == call.1.Some?
        && (ok ==> l7Offset == call.1.value.offset)
    {
      hide DecodePop3, HasEndOfData, Reverse;
      l7Offset := 0;
      if flowId !in pop3States {
        pop3States := pop3States[flowId := Pop3FlowState(false, false)];
      }
      if pop3States[flowId].inDataMode {
        if HasEndOfData(data) {
          pop3States := pop3States[flowId := pop3States[flowId].(inDataMode := false)];
        }
        return false, 0;
      }
      var result := DecodePop3(data, l7Offset);
      if result.Err? {
        return false, 0;
      }
      var pop3 := result.value.message;
      if !pop3.isResponse {
        var multiline := (pop3.command == RETR || pop3.command == TOP)
                         || ((pop3.command == LIST || pop3.command == UIDL) && pop3.argument == []);
        if multiline {
          var rev := Reverse(flowId);
          if rev !in pop3States {
            pop3States := pop3States[rev := Pop3FlowState(false, false)];
          }
          pop3States := pop3States[rev := pop3States[rev].(pendingMultiline := true)];
        }
      } else if pop3States[flowId].pendingMultiline {
        pop3States := pop3States[flowId := pop3States[flowId].(pendingMultiline := false)];
        if pop3.success {
          pop3States := pop3States[flowId := pop3States[flowId].(inDataMode := true)];
        }
      }
      return true, result.value.offset;
    }

    method DecodeL7Of(p: Packet, detected: AppProtocol, data: seq<byte>) returns (ok: bool, l7Offset: nat)
      modifies this`pop3States, this`smtpStates
      ensures
        var decoded := DecodeL7(MailStates(old(pop3States), old(smtpStates)), p, detected, data);
        && MailStates(pop3States, smtpStates) == decoded.0
        && ok == decoded.1.Some?
        && (ok ==> l7Offset == decoded.1.value)
    {
      match detected {
        case SMTP => ok, l7Offset := DecodeSmtpCase(p.flowId, data);
        case POP3 => ok, l7Offset := DecodePop3Case(p.flowId, data);
        case TLS =>
          var records := TlsFraming.DecodeTlsCase(data, p.beyond, 0);
          ok, l7Offset := records.Some?, if records.Some? then records.value.offset else 0;
        case TELNET =>
          var result := Telnet.DecodeTelnet(data, 0);
          ok, l7Offset := result.Ok?, if result.Ok? then result.value.offset else 0;
        case Other =>
          var consumed := p.other(data);
          ok, l7Offset := consumed.Some?, if consumed.Some? then consumed.value else 0;
        case Unknown => ok, l7Offset := false, 0;
      }
    }

    method FeedStream(p: Packet, bytes: seq<byte>)
      requires Valid()
      modifies this
      ensures Valid() && Current() == Feed(cfg, old(Current()), p, bytes)
    {
      hide DecodeL7;
      if p.flowId !in l7Streams {
        l7Streams := l7Streams[p.flowId := NEW_L7_STREAM];
      }
      var stream := l7Streams[p.flowId];
      if |stream.buffer| + |bytes| > cfg.maxL7StreamBytes {
        l7Streams := l7Streams - {p.flowId};
        assert l7Streams == old(l7Streams) - {p.flowId};
        return;
      }
      stream := stream.(buffer := stream.buffer + bytes);
      if !stream.detectionDone && p.detected != Unknown {
        stream := stream.(detected := p.detected, detectionDone := true);
      }
      if stream.detected != Unknown {
        var ok, l7Offset := DecodeL7Of(p, stream.detected, stream.buffer);
        if ok {
          stream := stream.(buffer := stream.buffer[l7Offset..]);
        }
      } else {
        UnknownDecodesNothing(MailStates(pop3States, smtpStates), p, stream.buffer);
      }
      l7Streams := l7Streams[p.flowId := stream];
    }

    method DecodePayload(p: Packet)
      requires Valid()
      modifies this, reassembler
      ensures Valid() && Current() == Step(cfg, old(Current()), p)
    {
      hide Receive, Feed, DecodeL7;
      if cfg.enableProtocolDetection && p.payload != [] {
        if p.tcp.Some? && cfg.enableTcpReassembly {
          var result := reassembler.Process(p.flowId, p.tcp.value, p.payload);
          if result.data.Some? && result.data.value != [] {
            FeedStream(p, result.data.value);
          }
          if p.tcp.value.fin || p.tcp.value.rst {
            l7Streams := l7Streams - {p.flowId};
          }
        } else if p.detected != Unknown {
          var _, _ := DecodeL7Of(p, p.detected, p.payload);
        } else {
          UnknownDecodesNothing(MailStates(pop3States, smtpStates), p, p.payload);
        }
      }
    }
  }
}
