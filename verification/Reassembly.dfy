/** TCP stream reassembly: out-of-order segments keyed by 32-bit sequence numbers. */
module Reassembly {
  import opened Common
  import opened Flow

  datatype TcpHeader = TcpHeader(seqNum: u32, syn: bool, fin: bool, rst: bool)

  datatype ReassemblyResult = ReassemblyResult(data: Option<seq<byte>>, retransmission: bool)

  datatype StreamBuffer = StreamBuffer(
    segments: map<u32, seq<byte>>,
    nextExpectedSeq: u32,
    synSeen: bool,
    totalBytes: int)

  const NEW_STREAM := StreamBuffer(map[], 0, false, 0)
  const NOTHING := ReassemblyResult(None, false)
  const RETRANSMITTED := ReassemblyResult(None, true)

  /** uint32_t addition. */
  function Advance(a: u32, n: int): u32 {
    (a + n) % TWO32
  }

  /** The uint32_t difference read as a signed 32-bit number. */
  function SignedDistance(a: u32, b: u32): int {
    var d := (a - b) % TWO32;
    if d < TWO31 then d else d - TWO32
  }

  predicate SeqBeforeOrEqual(a: u32, b: u32) {
    SignedDistance(a, b) <= 0
  }

  /** The segment lies entirely before the expected byte, or repeats a buffered segment. */
  predicate IsRetransmission(s: StreamBuffer, seqNum: u32, payload: seq<byte>) {
    || SeqBeforeOrEqual(Advance(seqNum, |payload|), s.nextExpectedSeq)
    || (seqNum in s.segments && |s.segments[seqNum]| == |payload|)
  }

  function Open(s: StreamBuffer, seqNum: u32): StreamBuffer {
    if s.synSeen then s else s.(synSeen := true, nextExpectedSeq := seqNum)
  }

  function Store(s: StreamBuffer, seqNum: u32, payload: seq<byte>): StreamBuffer {
    s.(segments := s.segments[seqNum := payload], totalBytes := s.totalBytes + |payload|)
  }

  function TakeNext(s: StreamBuffer): StreamBuffer
    requires s.nextExpectedSeq in s.segments
  {
    var seg := s.segments[s.nextExpectedSeq];
    s.(segments := s.segments - {s.nextExpectedSeq},
       nextExpectedSeq := Advance(s.nextExpectedSeq, |seg|),
       totalBytes := s.totalBytes - |seg|)
  }

  /** The state and the bytes once every contiguous segment has been taken. */
  function Drain(s: StreamBuffer): (StreamBuffer, seq<byte>)
    decreases |s.segments|
  {
    if s.nextExpectedSeq in s.segments then
      var seg := s.segments[s.nextExpectedSeq];
      var rest := Drain(TakeNext(s));
      (rest.0, seg + rest.1)
    else
      (s, [])
  }

  /** What one packet does to the stream of its flow. */
  function Receive(s: StreamBuffer, maxStreamBytes: nat, header: TcpHeader, payload: seq<byte>)
    : (StreamBuffer, ReassemblyResult)
  {
    if header.syn then
      (s.(synSeen := true, nextExpectedSeq := Advance(header.seqNum, 1)), ReassemblyResult(None, s.synSeen))
    else if payload == [] then
      (s, NOTHING)
    else
      var ready := Open(s, header.seqNum);
      if ready.totalBytes + |payload| > maxStreamBytes then
        (ready, NOTHING)
      else if IsRetransmission(ready, header.seqNum, payload) then
        (ready, RETRANSMITTED)
      else
        var drained := Drain(Store(ready, header.seqNum, payload));
        (drained.0, ReassemblyResult(if drained.1 == [] then None else Some(drained.1), false))
  }

  function StreamOf(streams: map<FlowId, StreamBuffer>, flowId: FlowId): StreamBuffer {
    if flowId in streams then streams[flowId] else NEW_STREAM
  }

  class TcpReassembler {
    const maxStreamBytes: nat
    var streams: map<FlowId, StreamBuffer>

    constructor (maxStreamBytes: nat)
      ensures this.maxStreamBytes == maxStreamBytes && streams == map[]
    {
      this.maxStreamBytes := maxStreamBytes;
      streams := map[];
    }

    method Process(flowId: FlowId, header: TcpHeader, payload: seq<byte>) returns (r: ReassemblyResult)
      modifies this
      ensures
        var step := Receive(StreamOf(old(streams), flowId), maxStreamBytes, header, payload);
        streams == old(streams)[flowId := step.0] && r == step.1
    {
      if flowId !in streams {
        streams := streams[flowId := NEW_STREAM];
      }
      if header.syn {
        var retransmission := streams[flowId].synSeen;
        streams := streams[flowId := streams[flowId].(synSeen := true, nextExpectedSeq := Advance(header.seqNum, 1))];
        return ReassemblyResult(None, retransmission);
      }
      if payload == [] {
        return NOTHING;
      }
      var stream := streams[flowId];
      if !stream.synSeen {
        stream := stream.(synSeen := true, nextExpectedSeq := header.seqNum);
        streams := streams[flowId := stream];
      }
      if stream.totalBytes + |payload| > maxStreamBytes {
        return NOTHING;
      }
      var retransmission := false;
      var seqEnd := Advance(header.seqNum, |payload|);
      if SeqBeforeOrEqual(seqEnd, stream.nextExpectedSeq) {
        retransmission := true;
      } else if header.seqNum in stream.segments && |stream.segments[header.seqNum]| == |payload| {
        retransmission := true;
      }
      if retransmission {
        return RETRANSMITTED;
      }
      stream := stream.(segments := stream.segments[header.seqNum := payload],
                        totalBytes := stream.totalBytes + |payload|);
      var result: seq<byte>;
      stream, result := Assemble(stream);
      streams := streams[flowId := stream];
      return ReassemblyResult(if result == [] then None else Some(result), false);
    }
  }

  /** The assembly loop at the end of `Process`. */
  method Assemble(stored: StreamBuffer) returns (stream: StreamBuffer, result: seq<byte>)
    ensures (stream, result) == Drain(stored)
  {
    stream, result := stored, [];
    while stream.nextExpectedSeq in stream.segments
      invariant Drain(stored).0 == Drain(stream).0
      invariant Drain(stored).1 == result + Drain(stream).1
      decreases |stream.segments|
    {
      var seg := stream.segments[stream.nextExpectedSeq];
      assert result + (seg + Drain(TakeNext(stream)).1) == (result + seg) + Drain(TakeNext(stream)).1;
      result := result + seg;
      stream := stream.(segments := stream.segments - {stream.nextExpectedSeq},
                        nextExpectedSeq := Advance(stream.nextExpectedSeq, |seg|),
                        totalBytes := stream.totalBytes - |seg|);
    }
    assert result + [] == result;
  }

  // ----- Runs of one stream -----

  datatype Arrival = Arrival(header: TcpHeader, payload: seq<byte>)

  /** The stream after a history of arrivals on one flow. */
  function After(maxStreamBytes: nat, history: seq<Arrival>): StreamBuffer {
    if history == [] then NEW_STREAM else
      Receive(After(maxStreamBytes, Init(history)), maxStreamBytes, Last(history).header, Last(history).payload).0
  }

  /** What the last arrival of a history returned. */
  function Returned(maxStreamBytes: nat, history: seq<Arrival>): ReassemblyResult
    requires history != []
  {
    Receive(After(maxStreamBytes, Init(history)), maxStreamBytes, Last(history).header, Last(history).payload).1
  }

  function DataOf(r: ReassemblyResult): seq<byte> {
    match r.data
    case None => []
    case Some(bytes) => bytes
  }

  /** Everything handed out over a history, in order. */
  function Delivered(maxStreamBytes: nat, history: seq<Arrival>): seq<byte> {
    if history == [] then [] else
      Delivered(maxStreamBytes, Init(history)) + DataOf(Returned(maxStreamBytes, history))
  }

  /** Everything handed out since the last SYN of a history. */
  function DeliveredSinceSyn(maxStreamBytes: nat, history: seq<Arrival>): seq<byte> {
    if history == [] || Last(history).header.syn then [] else
      DeliveredSinceSyn(maxStreamBytes, Init(history)) + DataOf(Returned(maxStreamBytes, history))
  }

  // ----- Serial number arithmetic -----

  /** Within half the sequence space the signed 32-bit comparison orders stream offsets. */
  lemma SeqOrderIsOffsetOrder(base: u32, x: nat, y: nat)
    requires -TWO31 <= x - y < TWO31
    ensures SeqBeforeOrEqual(Advance(base, x), Advance(base, y)) <==> x <= y
  {
  }

  /** One byte beyond that window the comparison is wrong: an unseen 2^31-byte segment passes for an old one. */
  lemma SeqOrderFailsAtHalf(base: u32, y: nat)
    ensures SeqBeforeOrEqual(Advance(base, y + TWO31), Advance(base, y))
  {
  }

  lemma OffsetsAreUnique(base: u32, x: nat, y: nat)
    requires x < TWO32 && y < TWO32
    requires Advance(base, x) == Advance(base, y)
    ensures x == y
  {
  }

  lemma AdvanceTwice(base: u32, x: nat, y: nat)
    ensures Advance(Advance(base, x), y) == Advance(base, x + y)
  {
  }

  // ----- Accounting, for arbitrary input -----

  /** The buffered segment that an arrival overwrites, if any. */
  function OverwrittenBy(maxStreamBytes: nat, s: StreamBuffer, a: Arrival): nat {
    if Stored(maxStreamBytes, s, a) > 0 && a.header.seqNum in s.segments then |s.segments[a.header.seqNum]| else 0
  }

  /** How many payload bytes of an arrival are stored: all or none. */
  function Stored(maxStreamBytes: nat, s: StreamBuffer, a: Arrival): nat {
    var ready := Open(s, a.header.seqNum);
    if a.header.syn || ready.totalBytes + |a.payload| > maxStreamBytes
       || IsRetransmission(ready, a.header.seqNum, a.payload) then 0
    else |a.payload|
  }

  function OverwrittenBytes(maxStreamBytes: nat, history: seq<Arrival>): nat {
    if history == [] then 0 else
      OverwrittenBytes(maxStreamBytes, Init(history))
      + OverwrittenBy(maxStreamBytes, After(maxStreamBytes, Init(history)), Last(history))
  }

  function StoredBytes(maxStreamBytes: nat, history: seq<Arrival>): nat {
    if history == [] then 0 else
      StoredBytes(maxStreamBytes, Init(history))
      + Stored(maxStreamBytes, After(maxStreamBytes, Init(history)), Last(history))
  }

  ghost predicate NoEmptySegment(s: StreamBuffer) {
    forall k :: k in s.segments ==> s.segments[k] != []
  }

  lemma {:induction false} DrainAccounts(s: StreamBuffer)
    requires NoEmptySegment(s)
    ensures
      var (drained, out) := Drain(s);
      && NoEmptySegment(drained)
      && drained.nextExpectedSeq !in drained.segments
      && drained.segments.Keys <= s.segments.Keys
      && SumSizes(s.segments) == SumSizes(drained.segments) + |out|
      && s.totalBytes == drained.totalBytes + |out|
      && (s.nextExpectedSeq in s.segments ==> out != [])
    decreases |s.segments|
  {
    if s.nextExpectedSeq in s.segments {
      SumSizesTakeOut(s.segments, s.nextExpectedSeq);
      DrainAccounts(TakeNext(s));
    }
  }

  lemma ReceiveAccounts(s: StreamBuffer, maxStreamBytes: nat, a: Arrival)
    requires NoEmptySegment(s)
    requires SumSizes(s.segments) <= s.totalBytes <= maxStreamBytes
    ensures
      var (s', r) := Receive(s, maxStreamBytes, a.header, a.payload);
      && NoEmptySegment(s')
      && SumSizes(s'.segments) <= s'.totalBytes <= maxStreamBytes
      && s'.totalBytes - SumSizes(s'.segments)
         == s.totalBytes - SumSizes(s.segments) + OverwrittenBy(maxStreamBytes, s, a)
      && s.totalBytes + Stored(maxStreamBytes, s, a) == s'.totalBytes + |DataOf(r)|
      && (Stored(maxStreamBytes, s, a) > 0 ==> s'.nextExpectedSeq !in s'.segments)
  {
    if Stored(maxStreamBytes, s, a) > 0 {
      var stored := Store(Open(s, a.header.seqNum), a.header.seqNum, a.payload);
      SumSizesPut(s.segments, a.header.seqNum, a.payload);
      DrainAccounts(stored);
    }
  }

  /** For every history: the counter never falls below the bytes really buffered nor exceeds the limit, its
      excess is exactly the bytes lost by overwriting a buffered segment with one of another length, and every
      stored byte is delivered, buffered or overwritten. */
  lemma {:induction false} Accounting(maxStreamBytes: nat, history: seq<Arrival>)
    ensures
      var s := After(maxStreamBytes, history);
      && NoEmptySegment(s)
      && 0 <= SumSizes(s.segments) <= s.totalBytes <= maxStreamBytes
      && s.totalBytes == SumSizes(s.segments) + OverwrittenBytes(maxStreamBytes, history)
      && StoredBytes(maxStreamBytes, history)
         == |Delivered(maxStreamBytes, history)| + SumSizes(s.segments) + OverwrittenBytes(maxStreamBytes, history)
  {
    if history == [] {
      assert Sizes(NEW_STREAM.segments) == map[];
    } else {
      Accounting(maxStreamBytes, Init(history));
      ReceiveAccounts(After(maxStreamBytes, Init(history)), maxStreamBytes, Last(history));
    }
  }
}
