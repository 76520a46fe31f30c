/** Nothing is lost or invented between the sender's stream and the decoders' input. */
module StreamConservation {
  import opened Common
  import opened Flow
  import opened Mail
  import Reassembly
  import ReassemblySafety
  import opened StreamDecoder

  function After(cfg: Config, history: seq<Packet>): State {
    if history == [] then NEW_STATE else Step(cfg, After(cfg, Init(history)), Last(history))
  }

  /** The bytes the reassembler hands out for a packet. */
  function Out(cfg: Config, st: State, p: Packet): seq<byte> {
    if TakesStreamPath(cfg, p) then Reassembly.DataOf(Reassembled(cfg, st, p).1) else []
  }

  /** The buffer of the packet's flow as its decoder sees it. */
  function GrownBuffer(cfg: Config, st: State, p: Packet): L7StreamState {
    Append(L7StateOf(st.l7, p.flowId), Out(cfg, st, p), p.detected)
  }

  /** The stream buffer of the packet's flow is thrown away. */
  predicate Erases(cfg: Config, st: State, p: Packet) {
    && TakesStreamPath(cfg, p)
    && (p.tcp.value.fin || p.tcp.value.rst
        || (Out(cfg, st, p) != [] && Overflows(cfg, L7StateOf(st.l7, p.flowId), Out(cfg, st, p))))
  }

  /** The bytes a successful decode of the grown buffer takes from its front. */
  function ConsumedBy(cfg: Config, st: State, p: Packet): seq<byte> {
    if Out(cfg, st, p) == [] then [] else
      var grown := GrownBuffer(cfg, st, p);
      match DecodeL7(st.mail, p, grown.detected, grown.buffer).1
      case None => []
      case Some(n) => grown.buffer[..n]
  }

  function Buffer(cfg: Config, history: seq<Packet>, f: FlowId): seq<byte> {
    L7StateOf(After(cfg, history).l7, f).buffer
  }

  predicate ErasesFlow(cfg: Config, history: seq<Packet>, f: FlowId)
    requires history != []
  {
    Last(history).flowId == f && Erases(cfg, After(cfg, Init(history)), Last(history))
  }

  /** What decoders of f consumed since its buffer was last thrown away. */
  function Consumed(cfg: Config, history: seq<Packet>, f: FlowId): seq<byte> {
    if history == [] || ErasesFlow(cfg, history, f) then []
    else if Last(history).flowId != f then Consumed(cfg, Init(history), f)
    else Consumed(cfg, Init(history), f) + ConsumedBy(cfg, After(cfg, Init(history)), Last(history))
  }

  /** Everything the reassembler handed out for f. */
  function Delivered(cfg: Config, history: seq<Packet>, f: FlowId): seq<byte> {
    if history == [] then []
    else if Last(history).flowId != f then Delivered(cfg, Init(history), f)
    else Delivered(cfg, Init(history), f) + Out(cfg, After(cfg, Init(history)), Last(history))
  }

  /** How much of it was handed out by the time the buffer of f was last thrown away. */
  function Forgotten(cfg: Config, history: seq<Packet>, f: FlowId): nat {
    if history == [] then 0
    else if ErasesFlow(cfg, history, f) then |Delivered(cfg, history, f)|
    else Forgotten(cfg, Init(history), f)
  }

  /** Which packets have an effect at all: with detection off or without payload none; and only TCP packets with
      reassembly on reach the reassembler and the stream buffers. */
  lemma PathsTaken(cfg: Config, st: State, p: Packet)
    ensures !cfg.enableProtocolDetection || p.payload == [] ==> Step(cfg, st, p) == st
    ensures p.tcp.None? || !cfg.enableTcpReassembly ==>
              Step(cfg, st, p).tcp == st.tcp && Step(cfg, st, p).l7 == st.l7
    ensures cfg.enableProtocolDetection && p.payload != [] && p.tcp.Some? && cfg.enableTcpReassembly ==>
              var received := Reassembly.Receive(
                                Reassembly.StreamOf(st.tcp, p.flowId), cfg.maxStreamBytes, p.tcp.value, p.payload).0;
              Step(cfg, st, p).tcp == st.tcp[p.flowId := received]
  {
    hide DecodeL7, Reassembly.Receive;
  }

  lemma StepOnBuffer(cfg: Config, st: State, p: Packet, f: FlowId)
    ensures
      var before, after := L7StateOf(st.l7, f), L7StateOf(Step(cfg, st, p).l7, f);
      && (p.flowId != f ==> after == before)
      && (p.flowId == f && Erases(cfg, st, p) ==> after == NEW_L7_STREAM)
      && (p.flowId == f && !Erases(cfg, st, p) ==>
            && before.buffer + Out(cfg, st, p) == ConsumedBy(cfg, st, p) + after.buffer
            && (|before.buffer| <= cfg.maxL7StreamBytes ==> |after.buffer| <= cfg.maxL7StreamBytes))
  {
    hide DecodeL7, Reassembly.Receive;
    if p.flowId == f && TakesStreamPath(cfg, p) && Out(cfg, st, p) != [] {
      FeedOnBuffer(cfg, st, p);
    } else if p.flowId != f && TakesStreamPath(cfg, p) {
      FeedOnOthers(cfg, st.(tcp := st.tcp[p.flowId := Reassembled(cfg, st, p).0]), p, Out(cfg, st, p), f);
    }
    hide Feed;
  }

  /** Feeding a flow's stream drops it on overflow and otherwise splits the grown buffer into consumed and kept
      bytes. */
  lemma FeedOnBuffer(cfg: Config, st: State, p: Packet)
    requires TakesStreamPath(cfg, p) && Out(cfg, st, p) != []
    ensures
      var received := st.(tcp := st.tcp[p.flowId := Reassembled(cfg, st, p).0]);
      var before, after := L7StateOf(st.l7, p.flowId), L7StateOf(Feed(cfg, received, p, Out(cfg, st, p)).l7, p.flowId);
      if Overflows(cfg, before, Out(cfg, st, p)) then after == NEW_L7_STREAM
      else
        && before.buffer + Out(cfg, st, p) == ConsumedBy(cfg, st, p) + after.buffer
        && |after.buffer| <= cfg.maxL7StreamBytes
  {
    hide DecodeL7, Reassembly.Receive;
  }

  lemma FeedOnOthers(cfg: Config, st: State, p: Packet, bytes: seq<byte>, f: FlowId)
    requires f != p.flowId
    ensures L7StateOf(Feed(cfg, st, p, bytes).l7, f) == L7StateOf(st.l7, f)
  {
    hide DecodeL7;
  }

  /** For every history: since the last time f's buffer was thrown away, the consumed bytes followed by the buffered
      bytes are exactly what the reassembler handed out, and the buffer respects its limit. */
  lemma {:induction false} Conservation(cfg: Config, history: seq<Packet>, f: FlowId)
    ensures Forgotten(cfg, history, f) <= |Delivered(cfg, history, f)|
    ensures Consumed(cfg, history, f) + Buffer(cfg, history, f)
            == Delivered(cfg, history, f)[Forgotten(cfg, history, f)..]
    ensures |Buffer(cfg, history, f)| <= cfg.maxL7StreamBytes
  {
    hide Step, Out, ConsumedBy, Erases;
    if history != [] {
      Conservation(cfg, Init(history), f);
      StepOnBuffer(cfg, After(cfg, Init(history)), Last(history), f);
      if Last(history).flowId == f && !ErasesFlow(cfg, history, f) {
        var st, p := After(cfg, Init(history)), Last(history);
        Regroup(Consumed(cfg, Init(history), f), Buffer(cfg, Init(history), f), Delivered(cfg, Init(history), f),
                Forgotten(cfg, Init(history), f), Out(cfg, st, p), ConsumedBy(cfg, st, p), Buffer(cfg, history, f));
      }
    }
  }

  lemma Regroup(consumed: seq<byte>, buffered: seq<byte>, all: seq<byte>, from: nat,
                out: seq<byte>, taken: seq<byte>, rest: seq<byte>)
    requires from <= |all| && consumed + buffered == all[from..]
    requires buffered + out == taken + rest
    ensures (consumed + taken) + rest == (all + out)[from..]
  {
    assert (consumed + taken) + rest == consumed + (buffered + out);
  }

  /** A decode that fails takes nothing: the buffer only grows. */
  lemma FailedDecodeKeepsBytes(cfg: Config, st: State, p: Packet)
    requires TakesStreamPath(cfg, p) && !Erases(cfg, st, p) && Out(cfg, st, p) != []
    requires
      var grown := GrownBuffer(cfg, st, p);
      DecodeL7(st.mail, p, grown.detected, grown.buffer).1.None?
    ensures L7StateOf(Step(cfg, st, p).l7, p.flowId).buffer == L7StateOf(st.l7, p.flowId).buffer + Out(cfg, st, p)
  {
    StepOnBuffer(cfg, st, p, p.flowId);
  }

  // ----- Composition with TCP safety -----

  /** The arrivals on f that reach the reassembler. */
  function Arrivals(cfg: Config, history: seq<Packet>, f: FlowId): seq<Reassembly.Arrival> {
    if history == [] then []
    else
      var p := Last(history);
      var before := Arrivals(cfg, Init(history), f);
      if p.flowId == f && TakesStreamPath(cfg, p) then before + [Reassembly.Arrival(p.tcp.value, p.payload)] else before
  }

  lemma StepOnTcp(cfg: Config, st: State, p: Packet, f: FlowId)
    ensures
      var before, after := Reassembly.StreamOf(st.tcp, f), Reassembly.StreamOf(Step(cfg, st, p).tcp, f);
      if p.flowId == f && TakesStreamPath(cfg, p) then
        var (s', r) := Reassembly.Receive(before, cfg.maxStreamBytes, p.tcp.value, p.payload);
        after == s' && Out(cfg, st, p) == Reassembly.DataOf(r)
      else
        after == before && (p.flowId == f ==> Out(cfg, st, p) == [])
  {
    hide Reassembly.Receive, DecodeL7;
  }

  lemma {:induction false} FlowSeesItsArrivals(cfg: Config, history: seq<Packet>, f: FlowId)
    ensures
      var arrivals := Arrivals(cfg, history, f);
      && Reassembly.StreamOf(After(cfg, history).tcp, f) == Reassembly.After(cfg.maxStreamBytes, arrivals)
      && Delivered(cfg, history, f) == Reassembly.Delivered(cfg.maxStreamBytes, arrivals)
  {
    hide Step, Out, Reassembly.Receive;
    if history != [] {
      FlowSeesItsArrivals(cfg, Init(history), f);
      var p, before := Last(history), Arrivals(cfg, Init(history), f);
      StepOnTcp(cfg, After(cfg, Init(history)), p, f);
      if p.flowId == f && TakesStreamPath(cfg, p) {
        assert Init(before + [Reassembly.Arrival(p.tcp.value, p.payload)]) == before;
      }
    }
  }

  /** End to end: whatever the segmentation, overlap and order, decoders consume and buffer a contiguous slice of
      what the sender wrote, starting where the buffer was last thrown away. */
  lemma EndToEnd(cfg: Config, history: seq<Packet>, f: FlowId, stream: seq<byte>, base: u32)
    requires |stream| < TWO32
    requires
      var arrivals := Arrivals(cfg, history, f);
      && ReassemblySafety.FromSender(stream, base, arrivals)
      && ReassemblySafety.OpensAtBase(base, arrivals)
      && ReassemblySafety.NoLaterSyn(arrivals)
    ensures
      var from, to := Forgotten(cfg, history, f), |Delivered(cfg, history, f)|;
      && from <= to <= |stream|
      && Consumed(cfg, history, f) + Buffer(cfg, history, f) == stream[from..to]
  {
    FlowSeesItsArrivals(cfg, history, f);
    Conservation(cfg, history, f);
    ReassemblySafety.TcpSafety(cfg.maxStreamBytes, stream, base, Arrivals(cfg, history, f));
    var out := Delivered(cfg, history, f);
    assert out == stream[..|out|];
  }

  ghost predicate NeverErased(cfg: Config, history: seq<Packet>, f: FlowId) {
    forall i :: 0 < i <= |history| ==> !ErasesFlow(cfg, history[..i], f)
  }

  lemma {:induction false} NothingForgotten(cfg: Config, history: seq<Packet>, f: FlowId)
    requires NeverErased(cfg, history, f)
    ensures Forgotten(cfg, history, f) == 0
  {
    if history != [] {
      assert history[..|history|] == history;
      forall i | 0 < i <= |Init(history)|
        ensures !ErasesFlow(cfg, Init(history)[..i], f)
      {
        assert Init(history)[..i] == history[..i];
      }
      NothingForgotten(cfg, Init(history), f);
    }
  }

  /** No packet of the flow carries both payload and FIN or RST; a FIN or RST without payload may come at any time. */
  predicate StaysOpen(history: seq<Packet>, f: FlowId) {
    forall i :: 0 <= i < |history| && history[i].flowId == f ==> !ClosesWithPayload(history[i])
  }

  lemma DeliveredGrows(cfg: Config, history: seq<Packet>, f: FlowId)
    requires history != []
    ensures |Delivered(cfg, Init(history), f)| <= |Delivered(cfg, history, f)|
    ensures Last(history).flowId == f ==>
              |Delivered(cfg, history, f)|
              == |Delivered(cfg, Init(history), f)| + |Out(cfg, After(cfg, Init(history)), Last(history))|
  {
  }

  /** Nothing is thrown away on an open flow whose data fits the buffer. */
  lemma {:induction false} OpenFlowIsNeverErased(cfg: Config, history: seq<Packet>, f: FlowId)
    requires StaysOpen(history, f) && |Delivered(cfg, history, f)| <= cfg.maxL7StreamBytes
    ensures NeverErased(cfg, history, f)
  {
    hide Step, Out, Delivered, Consumed, Forgotten, Reassembled;
    if history != [] {
      var before := Init(history);
      DeliveredGrows(cfg, history, f);
      assert Last(history) == history[|history| - 1];
      OpenFlowIsNeverErased(cfg, before, f);
      Conservation(cfg, before, f);
      assert |Buffer(cfg, before, f)| <= |Delivered(cfg, before, f)|;
      assert !ErasesFlow(cfg, history, f);
      ErasuresSnoc(cfg, history, f);
    }
  }

  lemma ErasuresSnoc(cfg: Config, history: seq<Packet>, f: FlowId)
    requires history != [] && NeverErased(cfg, Init(history), f) && !ErasesFlow(cfg, history, f)
    ensures NeverErased(cfg, history, f)
  {
    hide ErasesFlow;
    forall i | 0 < i <= |history|
      ensures !ErasesFlow(cfg, history[..i], f)
    {
      if i == |history| {
        assert history[..i] == history;
      } else {
        assert history[..i] == Init(history)[..i];
      }
    }
  }

  /** On a flow that stays open and whose stream fits the buffer, decoders see a prefix of the sender's stream. */
  lemma DecodersSeePrefix(cfg: Config, history: seq<Packet>, f: FlowId, stream: seq<byte>, base: u32)
    requires |stream| < TWO32 && StaysOpen(history, f) && |stream| <= cfg.maxL7StreamBytes
    requires
      var arrivals := Arrivals(cfg, history, f);
      && ReassemblySafety.FromSender(stream, base, arrivals)
      && ReassemblySafety.OpensAtBase(base, arrivals)
      && ReassemblySafety.NoLaterSyn(arrivals)
    ensures Consumed(cfg, history, f) + Buffer(cfg, history, f) <= stream
  {
    EndToEnd(cfg, history, f, stream, base);
    OpenFlowIsNeverErased(cfg, history, f);
    NothingForgotten(cfg, history, f);
  }
}
