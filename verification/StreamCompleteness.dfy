/** When everything the sender wrote gets through the packet decoder, which never shows the reassembler a bare SYN. */
module StreamCompleteness {
  import opened Common
  import opened Flow
  import opened Tiling
  import opened Reassembly
  import opened ReassemblyOffsets
  import opened ReassemblyCompleteness
  import ReassemblySafety
  import StreamDecoder
  import StreamConservation

  lemma ArrivalsSnoc(stream: seq<byte>, base: u32, parts: seq<Part>)
    requires PartsOf(|stream|, parts) && parts != []
    ensures PartsOf(|stream|, Init(parts)) && PartOf(|stream|, Last(parts))
    ensures
      var history := PartArrivals(stream, base, parts);
      && Init(history) == PartArrivals(stream, base, Init(parts))
      && Last(history) == PartArrival(stream, base, Last(parts))
  {
    assert Last(parts) == parts[|parts| - 1];
  }

  /** A first payload at the start of the stream opens it as the SYN would. */
  lemma FirstPartOpens(max: nat, stream: seq<byte>, syn: TcpHeader, first: Part)
    requires PartOf(|stream|, first) && first.offset == 0 && syn.syn
    ensures
      var a := PartArrival(stream, Advance(syn.seqNum, 1), first);
      Receive(After(max, [Arrival(syn, [])]), max, a.header, a.payload) == Receive(NEW_STREAM, max, a.header, a.payload)
  {
    hide Drain, IsRetransmission;
    assert Init([Arrival(syn, [])]) == [];
    assert Advance(Advance(syn.seqNum, 1), 0) == Advance(syn.seqNum, 1);
  }

  lemma {:induction false} SynMakesNoDifference(max: nat, stream: seq<byte>, syn: TcpHeader, parts: seq<Part>)
    requires PartsOf(|stream|, parts) && syn.syn
    requires parts != [] && parts[0].offset == 0
    ensures
      var bare := PartArrivals(stream, Advance(syn.seqNum, 1), parts);
      var withSyn := Conversation(stream, syn, parts);
      && After(max, bare) == After(max, withSyn)
      && Delivered(max, bare) == Delivered(max, withSyn)
    decreases |parts|
  {
    hide Receive;
    ArrivalsSnoc(stream, Advance(syn.seqNum, 1), parts);
    ConversationSnoc(stream, syn, parts);
    if |parts| == 1 {
      assert Init(parts) == [];
      assert PartArrivals(stream, Advance(syn.seqNum, 1), []) == [];
      assert Conversation(stream, syn, []) == [Arrival(syn, [])];
      FirstPartOpens(max, stream, syn, parts[0]);
      SynDeliversNothing(max, syn);
    } else {
      SynMakesNoDifference(max, stream, syn, Init(parts));
    }
  }

  lemma SynDeliversNothing(max: nat, syn: TcpHeader)
    requires syn.syn
    ensures Delivered(max, [Arrival(syn, [])]) == []
  {
    assert Init([Arrival(syn, [])]) == [];
  }

  lemma PartsAreFromSender(stream: seq<byte>, base: u32, parts: seq<Part>)
    requires PartsOf(|stream|, parts) && parts != []
    ensures
      var history := PartArrivals(stream, base, parts);
      && ReassemblySafety.FromSender(stream, base, history)
      && ReassemblySafety.OpensAtBase(Advance(base, parts[0].offset), history)
      && !ReassemblySafety.HasSyn(history)
  {
    var history := PartArrivals(stream, base, parts);
    forall i | 0 <= i < |history|
      ensures ReassemblySafety.Piece(stream, base, history[i].header.seqNum, history[i].payload)
    {
      assert ReassemblySafety.PieceAt(stream, base, parts[i].offset, history[i].header.seqNum, history[i].payload);
    }
    assert history[0].payload != [];
  }

  lemma PartsDeliverInside(max: nat, stream: seq<byte>, base: u32, parts: seq<Part>)
    requires PartsOf(|stream|, parts) && |stream| < TWO32
    ensures |Delivered(max, PartArrivals(stream, base, parts))| <= |stream|
  {
    hide Delivered;
    if parts == [] {
      assert PartArrivals(stream, base, parts) == [];
      NothingDelivered(max);
    } else {
      PartsAreFromSender(stream, base, parts);
      ReassemblySafety.MidStreamSafety(max, stream, base, parts[0].offset, PartArrivals(stream, base, parts));
    }
  }

  lemma NothingDelivered(max: nat)
    ensures Delivered(max, []) == []
  {
  }

  /** Without a SYN, a cut into disjoint segments is delivered completely exactly when every segment arrives and the
      first to arrive is the first of the stream; all other orders lose what lies before the first arrival. */
  lemma CompletenessWithoutSyn(max: nat, stream: seq<byte>, base: u32, pieces: Pieces, parts: seq<Part>)
    requires IsTiling(pieces, |stream|) && FromCut(pieces, parts) && PartsOf(|stream|, parts)
    requires 0 < |stream| < TWO31 && |stream| <= max
    ensures Delivered(max, PartArrivals(stream, base, parts)) == stream
            <==> parts != [] && parts[0].offset == 0 && pieces.Keys <= Offsets(parts)
  {
    hide Delivered, Offsets, IsTiling;
    if parts == [] {
      assert PartArrivals(stream, base, parts) == [];
      NothingDelivered(max);
    } else if parts[0].offset == 0 {
      var syn := TcpHeader((base - 1) % TWO32, true, false, false);
      assert Advance(syn.seqNum, 1) == base;
      SynMakesNoDifference(max, stream, syn, parts);
      TcpCompleteness(max, stream, syn, pieces, parts);
    } else {
      PartsAreFromSender(stream, base, parts);
      ReassemblySafety.MidStreamSafety(max, stream, base, parts[0].offset, PartArrivals(stream, base, parts));
    }
  }

  /** End to end: on a flow that stays open and whose stream fits the buffer, the decoders have consumed or buffered
      exactly what the sender wrote if and only if all segments arrived, the first of the stream first. */
  lemma DecodersSeeEverything(
    cfg: StreamDecoder.Config, history: seq<StreamDecoder.Packet>, f: FlowId, stream: seq<byte>, base: u32,
    pieces: Pieces, parts: seq<Part>)
    requires IsTiling(pieces, |stream|) && FromCut(pieces, parts) && PartsOf(|stream|, parts)
    requires 0 < |stream| < TWO31 && |stream| <= cfg.maxStreamBytes && |stream| <= cfg.maxL7StreamBytes
    requires StreamConservation.Arrivals(cfg, history, f) == PartArrivals(stream, base, parts)
    requires StreamConservation.StaysOpen(history, f)
    ensures StreamConservation.Consumed(cfg, history, f) + StreamConservation.Buffer(cfg, history, f) == stream
            <==> parts != [] && parts[0].offset == 0 && pieces.Keys <= Offsets(parts)
  {
    hide StreamConservation.Delivered, StreamConservation.Consumed, StreamConservation.Forgotten, Delivered;
    StreamConservation.FlowSeesItsArrivals(cfg, history, f);
    PartsDeliverInside(cfg.maxStreamBytes, stream, base, parts);
    StreamConservation.OpenFlowIsNeverErased(cfg, history, f);
    StreamConservation.Conservation(cfg, history, f);
    StreamConservation.NothingForgotten(cfg, history, f);
    CompletenessWithoutSyn(cfg.maxStreamBytes, stream, base, pieces, parts);
    var all := StreamConservation.Delivered(cfg, history, f);
    assert all[0..] == all;
  }
}
