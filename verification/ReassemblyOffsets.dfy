/** The reassembler seen in stream offsets: for parts of one stream, whatever their overlap, lengths and order, sequence
    numbers modulo 2^32 and the signed comparison do exactly what plain offsets would do. */
module ReassemblyOffsets {
  import opened Common
  import opened Reassembly

  /** `size` bytes of the sender's stream from `offset` on. */
  datatype Part = Part(offset: nat, size: nat)

  predicate PartOf(n: nat, p: Part) {
    p.size > 0 && p.offset + p.size <= n
  }

  /** Any parts of a stream of `n` bytes: they may overlap, and parts at one offset may differ in length. */
  predicate PartsOf(n: nat, parts: seq<Part>) {
    forall i :: 0 <= i < |parts| ==> PartOf(n, parts[i])
  }

  /** The part's bytes travel under the sequence number of their offset. */
  function PartArrival(stream: seq<byte>, base: u32, p: Part): Arrival
    requires PartOf(|stream|, p)
  {
    Arrival(TcpHeader(Advance(base, p.offset), false, false, false), stream[p.offset..p.offset + p.size])
  }

  function PartArrivals(stream: seq<byte>, base: u32, parts: seq<Part>): (history: seq<Arrival>)
    requires PartsOf(|stream|, parts)
    ensures |history| == |parts|
  {
    seq(|parts|, i requires 0 <= i < |parts| => PartArrival(stream, base, parts[i]))
  }

  /** A SYN followed by parts in the given order. */
  function Conversation(stream: seq<byte>, syn: TcpHeader, parts: seq<Part>): seq<Arrival>
    requires PartsOf(|stream|, parts)
  {
    [Arrival(syn, [])] + PartArrivals(stream, Advance(syn.seqNum, 1), parts)
  }

  // ----- The reassembler on offsets -----

  /** How many bytes are delivered, the lengths of the buffered segments by offset, and the byte counter. */
  datatype Picture = Picture(delivered: nat, kept: map<nat, nat>, total: int)

  const START := Picture(0, map[], 0)

  /** The part lies in the delivered prefix, or is buffered with the same length. */
  predicate Repeats(v: Picture, p: Part) {
    p.offset + p.size <= v.delivered || (p.offset in v.kept && v.kept[p.offset] == p.size)
  }

  predicate Fits(max: nat, v: Picture, p: Part) {
    v.total + p.size <= max
  }

  /** Everything that continues the delivered prefix is delivered. */
  function Advanced(v: Picture): Picture
    decreases |v.kept|
  {
    if v.delivered in v.kept then Advanced(Taken(v)) else v
  }

  function Taken(v: Picture): Picture
    requires v.delivered in v.kept
  {
    var size := v.kept[v.delivered];
    Picture(v.delivered + size, v.kept - {v.delivered}, v.total - size)
  }

  function Kept(v: Picture, p: Part): Picture {
    v.(kept := v.kept[p.offset := p.size], total := v.total + p.size)
  }

  function Arrive(max: nat, v: Picture, p: Part): Picture {
    if !Fits(max, v, p) || Repeats(v, p) then v else Advanced(Kept(v, p))
  }

  function Run(max: nat, parts: seq<Part>): Picture {
    if parts == [] then START else Arrive(max, Run(max, Init(parts)), Last(parts))
  }

  // ----- Refinement -----

  /** The offset that a sequence number stands for. */
  function OffsetOf(base: u32, seqNum: u32): nat {
    (seqNum - base) % TWO32
  }

  lemma OffsetsAndNumbers(base: u32, o: nat, seqNum: u32)
    ensures o < TWO32 ==> OffsetOf(base, Advance(base, o)) == o
    ensures Advance(base, OffsetOf(base, seqNum)) == seqNum
  {
  }

  /** Numbering is one to one below 2^32. */
  lemma Numbering(base: u32)
    ensures forall o: nat :: o < TWO32 ==> OffsetOf(base, Advance(base, o)) == o
    ensures forall seqNum: u32 :: Advance(base, OffsetOf(base, seqNum)) == seqNum
  {
    forall o: nat | o < TWO32
      ensures OffsetOf(base, Advance(base, o)) == o
    {
      OffsetsAndNumbers(base, o, 0);
    }
    forall seqNum: u32
      ensures Advance(base, OffsetOf(base, seqNum)) == seqNum
    {
      OffsetsAndNumbers(base, 0, seqNum);
    }
  }

  /** The buffered segments are the kept parts' bytes under their numbers, and nothing else. */
  ghost predicate HoldsParts(stream: seq<byte>, base: u32, segments: map<u32, seq<byte>>, kept: map<nat, nat>) {
    && (forall o :: o in kept ==>
          && PartOf(|stream|, Part(o, kept[o])) && Advance(base, o) in segments
          && segments[Advance(base, o)] == stream[o..o + kept[o]])
    && (forall k :: k in segments ==> OffsetOf(base, k) in kept)
  }

  ghost predicate Pictured(stream: seq<byte>, base: u32, s: StreamBuffer, v: Picture) {
    && |stream| < TWO31 && v.delivered <= |stream|
    && s.synSeen && s.nextExpectedSeq == Advance(base, v.delivered) && s.totalBytes == v.total
    && HoldsParts(stream, base, s.segments, v.kept)
  }

  lemma KeyIsKept(stream: seq<byte>, base: u32, segments: map<u32, seq<byte>>, kept: map<nat, nat>, x: nat)
    requires HoldsParts(stream, base, segments, kept) && x < TWO32
    ensures Advance(base, x) in segments <==> x in kept
    ensures x in kept ==> PartOf(|stream|, Part(x, kept[x])) && segments[Advance(base, x)] == stream[x..x + kept[x]]
  {
    OffsetsAndNumbers(base, x, 0);
  }

  lemma TakenHolds(stream: seq<byte>, base: u32, segments: map<u32, seq<byte>>, kept: map<nat, nat>, x: nat)
    requires |stream| < TWO31 && HoldsParts(stream, base, segments, kept) && x in kept
    ensures HoldsParts(stream, base, segments - {Advance(base, x)}, kept - {x})
  {
    hide Advance, OffsetOf;
    Numbering(base);
  }

  lemma StoredHolds(stream: seq<byte>, base: u32, segments: map<u32, seq<byte>>, kept: map<nat, nat>, p: Part)
    requires |stream| < TWO31 && HoldsParts(stream, base, segments, kept) && PartOf(|stream|, p)
    ensures HoldsParts(stream, base, segments[Advance(base, p.offset) := stream[p.offset..p.offset + p.size]],
                       kept[p.offset := p.size])
  {
    hide Advance, OffsetOf;
    Numbering(base);
  }

  lemma {:induction false} DrainPictured(stream: seq<byte>, base: u32, s: StreamBuffer, v: Picture)
    requires Pictured(stream, base, s, v)
    ensures
      var (s', out) := Drain(s);
      && Pictured(stream, base, s', Advanced(v))
      && v.delivered <= Advanced(v).delivered
      && out == stream[v.delivered..Advanced(v).delivered]
    decreases |v.kept|
  {
    hide HoldsParts;
    var d := v.delivered;
    KeyIsKept(stream, base, s.segments, v.kept, d);
    if d in v.kept {
      AdvanceTwice(base, d, v.kept[d]);
      TakenHolds(stream, base, s.segments, v.kept, d);
      DrainPictured(stream, base, TakeNext(s), Taken(v));
      SliceJoin(stream, d, d + v.kept[d], Advanced(v).delivered);
    }
  }

  lemma RetransmissionCriterion(stream: seq<byte>, base: u32, s: StreamBuffer, v: Picture, p: Part)
    requires Pictured(stream, base, s, v) && PartOf(|stream|, p)
    ensures IsRetransmission(s, Advance(base, p.offset), stream[p.offset..p.offset + p.size]) <==> Repeats(v, p)
  {
    hide HoldsParts;
    AdvanceTwice(base, p.offset, p.size);
    SeqOrderIsOffsetOrder(base, p.offset + p.size, v.delivered);
    KeyIsKept(stream, base, s.segments, v.kept, p.offset);
    hide SeqBeforeOrEqual, Advance;
  }

  /** One part: the reassembler does what the picture does, delivers exactly the bytes by which the prefix grows, and
      reports a retransmission exactly for a repeated part that passes the size check. */
  lemma ReceivePictured(stream: seq<byte>, base: u32, s: StreamBuffer, v: Picture, max: nat, p: Part)
    requires Pictured(stream, base, s, v) && PartOf(|stream|, p)
    ensures
      var a := PartArrival(stream, base, p);
      var (s', r) := Receive(s, max, a.header, a.payload);
      var v' := Arrive(max, v, p);
      && Pictured(stream, base, s', v')
      && v.delivered <= v'.delivered && DataOf(r) == stream[v.delivered..v'.delivered]
      && (r.retransmission <==> Fits(max, v, p) && Repeats(v, p))
  {
    hide HoldsParts, Drain, Advanced, IsRetransmission;
    RetransmissionCriterion(stream, base, s, v, p);
    if Fits(max, v, p) && !Repeats(v, p) {
      var a := PartArrival(stream, base, p);
      StoredHolds(stream, base, s.segments, v.kept, p);
      DrainPictured(stream, base, Store(s, a.header.seqNum, a.payload), Kept(v, p));
    }
  }

  lemma ConversationSnoc(stream: seq<byte>, syn: TcpHeader, parts: seq<Part>)
    requires PartsOf(|stream|, parts) && parts != []
    ensures PartsOf(|stream|, Init(parts)) && PartOf(|stream|, Last(parts))
    ensures Init(Conversation(stream, syn, parts)) == Conversation(stream, syn, Init(parts))
    ensures Last(Conversation(stream, syn, parts)) == PartArrival(stream, Advance(syn.seqNum, 1), Last(parts))
  {
    assert Last(parts) == parts[|parts| - 1];
  }

  lemma SynPictured(stream: seq<byte>, syn: TcpHeader, max: nat)
    requires |stream| < TWO31 && syn.syn
    ensures
      var history := Conversation(stream, syn, []);
      && Pictured(stream, Advance(syn.seqNum, 1), After(max, history), START)
      && Delivered(max, history) == []
  {
    var history := Conversation(stream, syn, []);
    assert Init(history) == [] && Last(history) == Arrival(syn, []);
    assert After(max, Init(history)) == NEW_STREAM;
  }

  /** Refinement over every run: for any parts of a stream shorter than 2^31, in any order, with any overlap,
      duplication, lengths and size limit, the reassembler's state is the picture's and the data delivered is exactly
      the picture's prefix of the stream. */
  lemma {:induction false} RunPictured(max: nat, stream: seq<byte>, syn: TcpHeader, parts: seq<Part>)
    requires |stream| < TWO31 && PartsOf(|stream|, parts) && syn.syn
    ensures
      var history := Conversation(stream, syn, parts);
      && Pictured(stream, Advance(syn.seqNum, 1), After(max, history), Run(max, parts))
      && Delivered(max, history) == stream[..Run(max, parts).delivered]
  {
    hide Pictured, Receive, Arrive;
    if parts == [] {
      SynPictured(stream, syn, max);
    } else {
      ConversationSnoc(stream, syn, parts);
      RunPictured(max, stream, syn, Init(parts));
      var before := Run(max, Init(parts));
      InsideStream(stream, Advance(syn.seqNum, 1), After(max, Conversation(stream, syn, Init(parts))), before);
      ReceivePictured(stream, Advance(syn.seqNum, 1), After(max, Conversation(stream, syn, Init(parts))), before, max,
                      Last(parts));
      InsideStream(stream, Advance(syn.seqNum, 1), After(max, Conversation(stream, syn, parts)), Run(max, parts));
      SliceJoin(stream, 0, before.delivered, Run(max, parts).delivered);
    }
  }

  lemma InsideStream(stream: seq<byte>, base: u32, s: StreamBuffer, v: Picture)
    requires Pictured(stream, base, s, v)
    ensures v.delivered <= |stream|
  {
  }
}
