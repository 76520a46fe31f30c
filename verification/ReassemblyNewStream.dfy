/** A SYN of a new connection on a flow: it sets the expected number and leaves the old connection's segments. */
module ReassemblyNewStream {
  import opened Common
  import opened Reassembly
  import opened ReassemblyOffsets

  // ----- Runs from a state -----

  function AfterFrom(max: nat, s: StreamBuffer, arrivals: seq<Arrival>): StreamBuffer {
    if arrivals == [] then s
    else Receive(AfterFrom(max, s, Init(arrivals)), max, Last(arrivals).header, Last(arrivals).payload).0
  }

  function OutFrom(max: nat, s: StreamBuffer, arrivals: seq<Arrival>): seq<byte> {
    if arrivals == [] then []
    else
      var before := AfterFrom(max, s, Init(arrivals));
      OutFrom(max, s, Init(arrivals)) + DataOf(Receive(before, max, Last(arrivals).header, Last(arrivals).payload).1)
  }

  function Rewound(s: StreamBuffer, base: u32): StreamBuffer {
    s.(synSeen := true, nextExpectedSeq := base)
  }

  /** What is delivered since a SYN is what comes out from the state it leaves. */
  lemma {:induction false} SinceSynIsFromSyn(max: nat, history: seq<Arrival>, syn: Arrival, arrivals: seq<Arrival>)
    requires syn.header.syn && forall i :: 0 <= i < |arrivals| ==> !arrivals[i].header.syn
    ensures
      var s, all := Rewound(After(max, history), Advance(syn.header.seqNum, 1)), history + [syn] + arrivals;
      && After(max, all) == AfterFrom(max, s, arrivals)
      && DeliveredSinceSyn(max, all) == OutFrom(max, s, arrivals)
    decreases |arrivals|
  {
    var all := history + [syn] + arrivals;
    if arrivals == [] {
      assert all == history + [syn] && Init(all) == history && Last(all) == syn;
    } else {
      assert Init(all) == history + [syn] + Init(arrivals) && Last(all) == Last(arrivals);
      assert Last(arrivals) == arrivals[|arrivals| - 1];
      SinceSynIsFromSyn(max, history, syn, Init(arrivals));
      hide Receive;
    }
  }

  // ----- What the old connection left -----

  predicate PieceOf(stream: seq<byte>, o: nat, bytes: seq<byte>) {
    o + |bytes| <= |stream| && bytes == stream[o..o + |bytes|]
  }

  /** A segment lies at offset `o` of the new stream, or just behind it, and is no piece of it. */
  predicate Foreign(stream: seq<byte>, base: u32, segments: map<u32, seq<byte>>, o: nat) {
    o <= |stream| && Advance(base, o) in segments && !PieceOf(stream, o, segments[Advance(base, o)])
  }

  predicate LengthAt(base: u32, segments: map<u32, seq<byte>>, o: nat, size: nat) {
    Advance(base, o) in segments && |segments[Advance(base, o)]| == size
  }

  /** The part is not taken for a buffered one. */
  predicate Fresh(n: nat, base: u32, segments: map<u32, seq<byte>>, p: Part) {
    PartOf(n, p) && !LengthAt(base, segments, p.offset, p.size)
  }

  /** A foreign segment that some part of the new stream brings out: a part that leads to it, or, for a segment that the
      left ones lead to by themselves, any part behind it that starts the loop. */
  ghost predicate Harmful(stream: seq<byte>, base: u32, segments: map<u32, seq<byte>>, o: nat) {
    && Foreign(stream, base, segments, o)
    && ((o >= 1 && !(o == 1 && LengthAt(base, segments, 0, 1)))
        || exists p :: Fresh(|stream|, base, segments, p) && p.offset > o)
  }

  ghost predicate Harmless(stream: seq<byte>, base: u32, segments: map<u32, seq<byte>>) {
    forall o: nat :: o <= |stream| ==> !Harmful(stream, base, segments, o)
  }

  // ----- Harmless segments -----

  /** From offset `d` on, only pieces of the stream are buffered. */
  ghost predicate GoodFrom(stream: seq<byte>, base: u32, s: StreamBuffer, d: nat) {
    && |stream| < TWO31 && d <= |stream|
    && s.synSeen && s.nextExpectedSeq == Advance(base, d) && NoEmptySegment(s)
    && forall o: nat :: d <= o <= |stream| ==> !Foreign(stream, base, s.segments, o)
  }

  lemma TakenIsGood(stream: seq<byte>, base: u32, s: StreamBuffer, d: nat)
    requires GoodFrom(stream, base, s, d) && s.nextExpectedSeq in s.segments
    ensures
      var seg := s.segments[s.nextExpectedSeq];
      PieceOf(stream, d, seg) && GoodFrom(stream, base, TakeNext(s), d + |seg|)
  {
    var seg := s.segments[s.nextExpectedSeq];
    assert !Foreign(stream, base, s.segments, d);
    AdvanceTwice(base, d, |seg|);
    hide Advance, PieceOf;
    forall o: nat | d + |seg| <= o <= |stream|
      ensures !Foreign(stream, base, TakeNext(s).segments, o)
    {
      assert !Foreign(stream, base, s.segments, o);
    }
  }

  lemma {:induction false} DrainIsGood(stream: seq<byte>, base: u32, s: StreamBuffer, d: nat)
    requires GoodFrom(stream, base, s, d)
    ensures
      var (drained, out) := Drain(s);
      && d + |out| <= |stream| && out == stream[d..d + |out|]
      && GoodFrom(stream, base, drained, d + |out|)
    decreases |s.segments|
  {
    assert d <= |stream|;
    if s.nextExpectedSeq in s.segments {
      TakenIsGood(stream, base, s, d);
      hide GoodFrom;
      var seg := s.segments[s.nextExpectedSeq];
      DrainIsGood(stream, base, TakeNext(s), d + |seg|);
      SliceJoin(stream, d, d + |seg|, d + |seg| + |Drain(TakeNext(s)).1|);
    }
  }

  lemma StoredIsGood(stream: seq<byte>, base: u32, s: StreamBuffer, d: nat, p: Part)
    requires GoodFrom(stream, base, s, d) && PartOf(|stream|, p)
    ensures GoodFrom(stream, base, Store(s, Advance(base, p.offset), stream[p.offset..p.offset + p.size]), d)
  {
    hide Advance, OffsetOf;
    Numbering(base);
    var t := Store(s, Advance(base, p.offset), stream[p.offset..p.offset + p.size]);
    forall o: nat | d <= o <= |stream|
      ensures !Foreign(stream, base, t.segments, o)
    {
      assert !Foreign(stream, base, s.segments, o);
      assert Advance(base, o) == Advance(base, p.offset) ==> o == p.offset;
    }
  }

  lemma ReceiveIsGood(stream: seq<byte>, base: u32, s: StreamBuffer, d: nat, max: nat, p: Part)
    requires GoodFrom(stream, base, s, d) && PartOf(|stream|, p)
    ensures
      var a := PartArrival(stream, base, p);
      var (s', r) := Receive(s, max, a.header, a.payload);
      && d + |DataOf(r)| <= |stream| && DataOf(r) == stream[d..d + |DataOf(r)|]
      && GoodFrom(stream, base, s', d + |DataOf(r)|)
  {
    var a := PartArrival(stream, base, p);
    StoredIsGood(stream, base, s, d, p);
    DrainIsGood(stream, base, Store(s, a.header.seqNum, a.payload), d);
    assert s.synSeen && d <= |stream|;
    hide GoodFrom, Drain, IsRetransmission;
  }

  // ----- The first part that is stored -----

  /** An arrival at the rewound stream that is stored was not taken for a buffered segment. */
  lemma StoredIsFresh(stream: seq<byte>, base: u32, s: StreamBuffer, max: nat, p: Part)
    requires |stream| < TWO31 && s.synSeen && s.nextExpectedSeq == base && PartOf(|stream|, p)
    ensures
      var a := PartArrival(stream, base, p);
      && (Stored(max, s, a) > 0 <==> s.totalBytes + p.size <= max && Fresh(|stream|, base, s.segments, p))
      && (Stored(max, s, a) == 0 ==> Receive(s, max, a.header, a.payload).0 == s
                                     && DataOf(Receive(s, max, a.header, a.payload).1) == [])
      && (Stored(max, s, a) > 0 ==>
            var t := Store(s, a.header.seqNum, a.payload);
            Receive(s, max, a.header, a.payload).0 == Drain(t).0
            && DataOf(Receive(s, max, a.header, a.payload).1) == Drain(t).1)
  {
    AdvanceTwice(base, p.offset, p.size);
    assert Advance(base, 0) == base;
    SeqOrderIsOffsetOrder(base, p.offset + p.size, 0);
    hide SeqBeforeOrEqual, Advance, Drain;
  }

  lemma FirstStoreIsGood(stream: seq<byte>, base: u32, s: StreamBuffer, p: Part)
    requires |stream| < TWO31 && s.synSeen && s.nextExpectedSeq == base && NoEmptySegment(s)
    requires Harmless(stream, base, s.segments) && Fresh(|stream|, base, s.segments, p)
    ensures
      var (drained, out) := Drain(Store(s, Advance(base, p.offset), stream[p.offset..p.offset + p.size]));
      && |out| <= |stream| && out == stream[..|out|] && GoodFrom(stream, base, drained, |out|)
  {
    var t := Store(s, Advance(base, p.offset), stream[p.offset..p.offset + p.size]);
    assert Advance(base, 0) == base;
    ForeignOnlyAtFront(stream, base, s.segments);
    if !Foreign(stream, base, t.segments, 0) && !Foreign(stream, base, t.segments, 1) {
      AllGoodOnceFrontIs(stream, base, s, p);
      hide GoodFrom, Drain;
      DrainIsGood(stream, base, t, 0);
    } else {
      SecondIsSkipped(stream, base, s, p);
      var size := p.size;
      assert t.nextExpectedSeq in t.segments && t.segments[t.nextExpectedSeq] == stream[..size];
      hide GoodFrom;
      DrainIsGood(stream, base, TakeNext(t), size);
      SliceJoin(stream, 0, size, size + |Drain(TakeNext(t)).1|);
    }
  }

  /** Foreign segments lie only where the left ones lead to by themselves, and no part behind them is stored. */
  ghost predicate ForeignAtFront(stream: seq<byte>, base: u32, segments: map<u32, seq<byte>>) {
    forall o: nat :: o <= |stream| && Foreign(stream, base, segments, o) ==>
      && (o == 0 || (o == 1 && LengthAt(base, segments, 0, 1)))
      && forall p :: Fresh(|stream|, base, segments, p) ==> p.offset <= o
  }

  /** Only a segment that the left ones lead to at once can be foreign and harmless. */
  lemma ForeignOnlyAtFront(stream: seq<byte>, base: u32, segments: map<u32, seq<byte>>)
    requires Harmless(stream, base, segments)
    ensures ForeignAtFront(stream, base, segments)
  {
    hide Foreign, LengthAt, Fresh;
    forall o: nat | o <= |stream| && Foreign(stream, base, segments, o)
      ensures o == 0 || (o == 1 && LengthAt(base, segments, 0, 1))
      ensures forall p :: Fresh(|stream|, base, segments, p) ==> p.offset <= o
    {
      assert !Harmful(stream, base, segments, o);
    }
  }

  /** A stored part changes what lies at its own offset only. */
  lemma StoreChangesOne(stream: seq<byte>, base: u32, s: StreamBuffer, p: Part, o: nat)
    requires |stream| < TWO31 && PartOf(|stream|, p) && o <= |stream|
    ensures
      var t := Store(s, Advance(base, p.offset), stream[p.offset..p.offset + p.size]);
      Foreign(stream, base, t.segments, o) <==> o != p.offset && Foreign(stream, base, s.segments, o)
  {
    hide Advance, OffsetOf;
    Numbering(base);
    assert Advance(base, o) == Advance(base, p.offset) ==> o == p.offset;
  }

  lemma AllGoodOnceFrontIs(stream: seq<byte>, base: u32, s: StreamBuffer, p: Part)
    requires |stream| < TWO31 && s.synSeen && s.nextExpectedSeq == base && NoEmptySegment(s) && PartOf(|stream|, p)
    requires ForeignAtFront(stream, base, s.segments)
    requires
      var t := Store(s, Advance(base, p.offset), stream[p.offset..p.offset + p.size]);
      !Foreign(stream, base, t.segments, 0) && !Foreign(stream, base, t.segments, 1)
    ensures GoodFrom(stream, base, Store(s, Advance(base, p.offset), stream[p.offset..p.offset + p.size]), 0)
  {
    assert Advance(base, 0) == base;
    var t := Store(s, Advance(base, p.offset), stream[p.offset..p.offset + p.size]);
    hide Foreign, Fresh, LengthAt;
    forall o: nat | 0 <= o <= |stream|
      ensures !Foreign(stream, base, t.segments, o)
    {
      StoreChangesOne(stream, base, s, p, o);
    }
  }

  /** If a foreign segment stays at the front, the part begins the stream and leads past it. */
  lemma SecondIsSkipped(stream: seq<byte>, base: u32, s: StreamBuffer, p: Part)
    requires |stream| < TWO31 && s.synSeen && s.nextExpectedSeq == base && NoEmptySegment(s)
    requires ForeignAtFront(stream, base, s.segments) && Fresh(|stream|, base, s.segments, p)
    requires
      var t := Store(s, Advance(base, p.offset), stream[p.offset..p.offset + p.size]);
      Foreign(stream, base, t.segments, 0) || Foreign(stream, base, t.segments, 1)
    ensures p.offset == 0 && p.size >= 2
    ensures GoodFrom(stream, base, TakeNext(Store(s, base, stream[..p.size])), p.size)
  {
    assert Advance(base, 0) == base;
    var t := Store(s, Advance(base, p.offset), stream[p.offset..p.offset + p.size]);
    StoreChangesOne(stream, base, s, p, 0);
    if |stream| >= 1 {
      StoreChangesOne(stream, base, s, p, 1);
    }
    assert p.offset == 0 && p.size >= 2;
    assert t == Store(s, base, stream[..p.size]);
    hide Foreign, Fresh, LengthAt;
    forall o: nat | p.size <= o <= |stream|
      ensures !Foreign(stream, base, TakeNext(t).segments, o)
    {
      StoreChangesOne(stream, base, s, p, o);
      FewerForeign(stream, base, t.segments, t.nextExpectedSeq, o);
    }
  }

  lemma FewerForeign(stream: seq<byte>, base: u32, segments: map<u32, seq<byte>>, key: u32, o: nat)
    ensures Foreign(stream, base, segments - {key}, o) ==> Foreign(stream, base, segments, o)
  {
  }

  /** Nothing stored yet, or only the new stream's bytes behind the ones that came out. */
  ghost predicate OnNewStream(stream: seq<byte>, base: u32, s: StreamBuffer, t: StreamBuffer, out: seq<byte>) {
    || (t == s && out == [])
    || (|out| <= |stream| && out == stream[..|out|] && GoodFrom(stream, base, t, |out|))
  }

  lemma StaysOnNewStream(
      stream: seq<byte>, base: u32, s: StreamBuffer, t: StreamBuffer, out: seq<byte>, max: nat, p: Part)
    requires |stream| < TWO31 && s.synSeen && s.nextExpectedSeq == base && NoEmptySegment(s)
    requires Harmless(stream, base, s.segments) && PartOf(|stream|, p) && OnNewStream(stream, base, s, t, out)
    ensures
      var a := PartArrival(stream, base, p);
      var (t', r) := Receive(t, max, a.header, a.payload);
      OnNewStream(stream, base, s, t', out + DataOf(r))
  {
    hide Receive, GoodFrom, Harmless, NoEmptySegment, Advance, Drain;
    var a := PartArrival(stream, base, p);
    if t == s && out == [] {
      StoredIsFresh(stream, base, s, max, p);
      if Stored(max, s, a) > 0 {
        FirstStoreIsGood(stream, base, s, p);
      }
    } else {
      ReceiveIsGood(stream, base, t, |out|, max, p);
      SliceJoin(stream, 0, |out|, |out| + |DataOf(Receive(t, max, a.header, a.payload).1)|);
    }
  }

  /** Until a part is stored nothing changes; from then on only the new stream comes out. */
  lemma {:induction false} HarmlessRun(stream: seq<byte>, base: u32, s: StreamBuffer, max: nat, parts: seq<Part>)
    requires |stream| < TWO31 && s.synSeen && s.nextExpectedSeq == base && NoEmptySegment(s)
    requires Harmless(stream, base, s.segments) && PartsOf(|stream|, parts)
    ensures
      var arrivals := PartArrivals(stream, base, parts);
      OnNewStream(stream, base, s, AfterFrom(max, s, arrivals), OutFrom(max, s, arrivals))
    decreases |parts|
  {
    if parts == [] {
      assert PartArrivals(stream, base, parts) == [];
    } else {
      hide OnNewStream, Receive, Harmless, NoEmptySegment, PartArrival, GoodFrom;
      ArrivalsSnoc(stream, base, parts);
      HarmlessRun(stream, base, s, max, Init(parts));
      var arrivals := PartArrivals(stream, base, Init(parts));
      StaysOnNewStream(stream, base, s, AfterFrom(max, s, arrivals), OutFrom(max, s, arrivals), max, Last(parts));
    }
  }

  lemma ArrivalsSnoc(stream: seq<byte>, base: u32, parts: seq<Part>)
    requires PartsOf(|stream|, parts) && parts != []
    ensures PartsOf(|stream|, Init(parts)) && PartOf(|stream|, Last(parts))
    ensures
      var arrivals := PartArrivals(stream, base, parts);
      && Init(arrivals) == PartArrivals(stream, base, Init(parts))
      && Last(arrivals) == PartArrival(stream, base, Last(parts))
  {
    assert Last(parts) == parts[|parts| - 1];
  }

  // ----- Harmful segments -----

  /** What comes out of the stream's prefix at offset `o` is a piece of the stream: a foreign segment shows. */
  lemma ForeignShows(stream: seq<byte>, o: nat, front: seq<byte>, seg: seq<byte>, rest: seq<byte>)
    requires |front| == o
    ensures front + (seg + rest) <= stream ==> PieceOf(stream, o, seg)
  {
    var out := front + (seg + rest);
    if out <= stream {
      assert out[o..o + |seg|] == seg;
      assert stream[o..o + |seg|] == out[o..o + |seg|];
    }
  }

  lemma DrainTwo(s: StreamBuffer) returns (rest: seq<byte>)
    requires s.nextExpectedSeq in s.segments
    requires
      var second := Advance(s.nextExpectedSeq, |s.segments[s.nextExpectedSeq]|);
      second != s.nextExpectedSeq && second in s.segments
    ensures
      var first := s.segments[s.nextExpectedSeq];
      Drain(s).1 == first + (s.segments[Advance(s.nextExpectedSeq, |first|)] + rest)
  {
    rest := Drain(TakeNext(TakeNext(s))).1;
  }

  lemma DrainThree(s: StreamBuffer, second: u32, third: u32) returns (rest: seq<byte>)
    requires s.nextExpectedSeq in s.segments && second in s.segments && third in s.segments
    requires s.nextExpectedSeq != second && s.nextExpectedSeq != third && second != third
    requires second == Advance(s.nextExpectedSeq, |s.segments[s.nextExpectedSeq]|)
    requires third == Advance(second, |s.segments[second]|)
    ensures Drain(s).1 == (s.segments[s.nextExpectedSeq] + s.segments[second]) + (s.segments[third] + rest)
  {
    rest := DrainTwo(TakeNext(s));
    ConcatAssociates(s.segments[s.nextExpectedSeq], s.segments[second], s.segments[third] + rest);
  }

  lemma OnePart(stream: seq<byte>, base: u32, s: StreamBuffer, max: nat, p: Part)
    requires |stream| < TWO31 && s.synSeen && s.nextExpectedSeq == base && s.totalBytes + |stream| <= max
    requires Fresh(|stream|, base, s.segments, p)
    ensures PartsOf(|stream|, [p])
    ensures OutFrom(max, s, PartArrivals(stream, base, [p]))
            == Drain(Store(s, Advance(base, p.offset), stream[p.offset..p.offset + p.size])).1
  {
    hide Receive, Drain;
    StoredIsFresh(stream, base, s, max, p);
    var arrivals := PartArrivals(stream, base, [p]);
    assert Init(arrivals) == [] && Last(arrivals) == PartArrival(stream, base, p);
  }

  /** Any part behind starts the loop, and the left segments lead to the foreign one. */
  lemma LeftSegmentsLead(stream: seq<byte>, base: u32, s: StreamBuffer, o: nat, p: Part)
    requires |stream| < TWO31 && s.nextExpectedSeq == base
    requires Foreign(stream, base, s.segments, o) && PartOf(|stream|, p) && p.offset > o
    requires o == 0 || (o == 1 && LengthAt(base, s.segments, 0, 1))
    ensures !(Drain(Store(s, Advance(base, p.offset), stream[p.offset..p.offset + p.size])).1 <= stream)
  {
    Numbering(base);
    hide OffsetOf;
    assert Advance(base, 0) == base;
    var t := Store(s, Advance(base, p.offset), stream[p.offset..p.offset + p.size]);
    assert Advance(base, p.offset) != Advance(base, o) && Advance(base, p.offset) != base;
    if o == 0 {
      var rest := Drain(TakeNext(t)).1;
      assert [] + (t.segments[base] + rest) == Drain(t).1;
      ForeignShows(stream, 0, [], t.segments[base], rest);
    } else {
      assert Advance(base, 1) != base;
      var rest := DrainTwo(t);
      ForeignShows(stream, 1, t.segments[base], t.segments[Advance(base, 1)], rest);
    }
  }

  /** A part from the stream's first byte leads to the foreign segment. */
  lemma PartLeads(stream: seq<byte>, base: u32, s: StreamBuffer, o: nat)
    requires |stream| < TWO31 && s.nextExpectedSeq == base && o >= 1 && Foreign(stream, base, s.segments, o)
    ensures !(Drain(Store(s, base, stream[..o])).1 <= stream)
  {
    Numbering(base);
    hide OffsetOf;
    assert Advance(base, 0) == base && Advance(base, o) != base;
    var rest := DrainTwo(Store(s, base, stream[..o]));
    ForeignShows(stream, o, stream[..o], s.segments[Advance(base, o)], rest);
  }

  /** A left segment already spans the way to the foreign one: a part behind its first byte starts the loop. */
  lemma LeftSegmentSpans(stream: seq<byte>, base: u32, s: StreamBuffer, o: nat)
    requires |stream| < TWO31 && s.nextExpectedSeq == base && o >= 2 && Foreign(stream, base, s.segments, o)
    requires LengthAt(base, s.segments, 0, o)
    ensures !(Drain(Store(s, Advance(base, 1), stream[1..o])).1 <= stream)
  {
    Numbering(base);
    hide OffsetOf;
    assert Advance(base, 0) == base && Advance(base, o) != base && Advance(base, 1) != base;
    assert Advance(base, 1) != Advance(base, o);
    var t := Store(s, Advance(base, 1), stream[1..o]);
    var rest := DrainTwo(t);
    ForeignShows(stream, o, t.segments[base], t.segments[Advance(base, o)], rest);
  }

  /** Left segments at the second byte lead on: the stream's first byte starts the loop. */
  lemma SecondSegmentSpans(stream: seq<byte>, base: u32, s: StreamBuffer, o: nat)
    requires |stream| < TWO31 && s.nextExpectedSeq == base && o >= 2 && Foreign(stream, base, s.segments, o)
    requires LengthAt(base, s.segments, 1, o - 1)
    ensures !(Drain(Store(s, base, stream[..1])).1 <= stream)
  {
    Numbering(base);
    AdvanceTwice(base, 1, o - 1);
    hide OffsetOf;
    assert Advance(base, 0) == base && Advance(base, o) != base && Advance(base, 1) != base;
    assert Advance(base, 1) != Advance(base, o);
    var t := Store(s, base, stream[..1]);
    var rest := DrainThree(t, Advance(base, 1), Advance(base, o));
    ForeignShows(stream, o, t.segments[base] + t.segments[Advance(base, 1)], t.segments[Advance(base, o)], rest);
  }

  /** The part, arriving alone, makes bytes come out that are no prefix of the stream. */
  predicate BringsOut(stream: seq<byte>, base: u32, s: StreamBuffer, p: Part) {
    && Fresh(|stream|, base, s.segments, p)
    && !(Drain(Store(s, Advance(base, p.offset), stream[p.offset..p.offset + p.size])).1 <= stream)
  }

  /** Four ways to the foreign segment, by what the old connection left before it. */
  lemma HarmfulIsBroughtOut(stream: seq<byte>, base: u32, s: StreamBuffer, o: nat) returns (p: Part)
    requires |stream| < TWO31 && s.nextExpectedSeq == base
    requires Harmful(stream, base, s.segments, o)
    ensures BringsOut(stream, base, s, p)
  {
    assert Advance(base, 0) == base;
    hide Drain, Advance;
    if o == 0 || (o == 1 && LengthAt(base, s.segments, 0, 1)) {
      p :| Fresh(|stream|, base, s.segments, p) && p.offset > o;
      LeftSegmentsLead(stream, base, s, o, p);
    } else if !LengthAt(base, s.segments, 0, o) {
      p := Part(0, o);
      PartLeads(stream, base, s, o);
    } else if !LengthAt(base, s.segments, 1, o - 1) {
      p := Part(1, o - 1);
      LeftSegmentSpans(stream, base, s, o);
    } else {
      p := Part(0, 1);
      SecondSegmentSpans(stream, base, s, o);
    }
  }

  /** One part of the new stream is enough to bring a harmful segment out. */
  lemma HarmfulComesOut(stream: seq<byte>, base: u32, s: StreamBuffer, max: nat, o: nat) returns (p: Part)
    requires |stream| < TWO31 && s.synSeen && s.nextExpectedSeq == base && s.totalBytes + |stream| <= max
    requires Harmful(stream, base, s.segments, o)
    ensures PartsOf(|stream|, [p]) && !(OutFrom(max, s, PartArrivals(stream, base, [p])) <= stream)
  {
    p := HarmfulIsBroughtOut(stream, base, s, o);
    OnePart(stream, base, s, max, p);
    hide Drain, Advance, OutFrom, PartArrivals;
  }

  // ----- The theorem -----

  /** After any history, a SYN that announces a new stream: whatever parts of that stream arrive, in whatever order,
      what is delivered since the SYN is a prefix of it if and only if nothing that the old connection left is
      harmful. */
  lemma NewStreamIsSafeIff(max: nat, history: seq<Arrival>, syn: Arrival, stream: seq<byte>)
    requires syn.header.syn && |stream| < TWO31 && After(max, history).totalBytes + |stream| <= max
    ensures
      var base := Advance(syn.header.seqNum, 1);
      (forall parts: seq<Part> :: PartsOf(|stream|, parts) ==>
         DeliveredSinceSyn(max, history + [syn] + PartArrivals(stream, base, parts)) <= stream)
      <==> Harmless(stream, base, After(max, history).segments)
  {
    var base := Advance(syn.header.seqNum, 1);
    var s := Rewound(After(max, history), base);
    Accounting(max, history);
    hide Harmful, OutFrom, DeliveredSinceSyn, GoodFrom, After;
    if Harmless(stream, base, s.segments) {
      forall parts: seq<Part> | PartsOf(|stream|, parts)
        ensures DeliveredSinceSyn(max, history + [syn] + PartArrivals(stream, base, parts)) <= stream
      {
        SinceSynIsFromSyn(max, history, syn, PartArrivals(stream, base, parts));
        HarmlessRun(stream, base, s, max, parts);
      }
    } else {
      var o: nat :| o <= |stream| && Harmful(stream, base, s.segments, o);
      var p := HarmfulComesOut(stream, base, s, max, o);
      SinceSynIsFromSyn(max, history, syn, PartArrivals(stream, base, [p]));
    }
  }

  /** For streams of at least four bytes the condition is simple: every segment left at an offset up to the stream's
      length is a piece of it. Shorter streams may have no part that starts the loop. */
  lemma HarmlessIff(stream: seq<byte>, base: u32, segments: map<u32, seq<byte>>)
    requires |stream| >= 4
    ensures Harmless(stream, base, segments) <==> forall o: nat :: o <= |stream| ==> !Foreign(stream, base, segments, o)
  {
    hide Foreign;
    var p := if LengthAt(base, segments, 2, 1) then Part(2, 2) else Part(2, 1);
    assert Fresh(|stream|, base, segments, p) && p.offset == 2;
    forall o: nat | o <= |stream| && Foreign(stream, base, segments, o)
      ensures Harmful(stream, base, segments, o)
    {
    }
  }

  /** For every new stream of at least four bytes: whatever parts of it arrive after the SYN, what is delivered since is
      a prefix of it if and only if every segment that the old connection left at one of its offsets, or just behind it,
      is a piece of it. */
  lemma NewStreamIsSafeIffPieces(max: nat, history: seq<Arrival>, syn: Arrival, stream: seq<byte>)
    requires syn.header.syn && 4 <= |stream| < TWO31 && After(max, history).totalBytes + |stream| <= max
    ensures
      var base := Advance(syn.header.seqNum, 1);
      (forall parts: seq<Part> :: PartsOf(|stream|, parts) ==>
         DeliveredSinceSyn(max, history + [syn] + PartArrivals(stream, base, parts)) <= stream)
      <==> forall o: nat :: o <= |stream| ==> !Foreign(stream, base, After(max, history).segments, o)
  {
    hide Harmless, Foreign, After, DeliveredSinceSyn;
    NewStreamIsSafeIff(max, history, syn, stream);
    HarmlessIff(stream, Advance(syn.header.seqNum, 1), After(max, history).segments);
  }

  /** A stream of one byte that is never stored, because a segment of that length was left in its place: the foreign
      segment behind it does no harm. */
  lemma ShortStreamMayBeSafe(base: u32, a: byte, b: byte)
    ensures
      var segments: map<u32, seq<byte>> := map[Advance(base, 0) := [a], Advance(base, 1) := [b]];
      Foreign([a], base, segments, 1) && Harmless([a], base, segments)
  {
    var segments: map<u32, seq<byte>> := map[Advance(base, 0) := [a], Advance(base, 1) := [b]];
    assert Advance(base, 0) != Advance(base, 1);
    forall o: nat | o <= 1
      ensures !Harmful([a], base, segments, o)
    {
      assert forall p :: PartOf(1, p) ==> p.offset == 0;
    }
  }

  /** An input: the second connection writes one byte, and two come out. */
  lemma OldBytesAreDelivered()
    ensures
      var first := Arrival(TcpHeader(99, true, false, false), []);
      var stale := Arrival(TcpHeader(102, false, false, false), [9]);
      var second := Arrival(TcpHeader(100, true, false, false), []);
      var own := Arrival(TcpHeader(101, false, false, false), [5]);
      DeliveredSinceSyn(1000, [first, stale, second, own]) == [5, 9]
  {
    var first := Arrival(TcpHeader(99, true, false, false), []);
    var stale := Arrival(TcpHeader(102, false, false, false), [9]);
    var second := Arrival(TcpHeader(100, true, false, false), []);
    var own := Arrival(TcpHeader(101, false, false, false), [5]);
    var left := StreamBuffer(map[102 := [9]], 100, true, 1);
    assert After(1000, [first, stale]) == left by { OldSegmentStays(first, stale); }
    assert [first, stale] + [second] + [own] == [first, stale, second, own];
    SinceSynIsFromSyn(1000, [first, stale], second, [own]);
    NewByteReleasesOld(own);
    hide DeliveredSinceSyn, OutFrom, After;
  }

  lemma OldSegmentStays(first: Arrival, stale: Arrival)
    requires first == Arrival(TcpHeader(99, true, false, false), [])
    requires stale == Arrival(TcpHeader(102, false, false, false), [9])
    ensures After(1000, [first, stale]) == StreamBuffer(map[102 := [9]], 100, true, 1)
  {
    assert Init([first, stale]) == [first] && Last([first, stale]) == stale && Init([first]) == [];
    assert After(1000, [first]) == StreamBuffer(map[], 100, true, 0);
    assert !SeqBeforeOrEqual(103, 100);
    assert Store(StreamBuffer(map[], 100, true, 0), 102, [9]) == StreamBuffer(map[102 := [9]], 100, true, 1);
  }

  lemma NewByteReleasesOld(own: Arrival)
    requires own == Arrival(TcpHeader(101, false, false, false), [5])
    ensures OutFrom(1000, StreamBuffer(map[102 := [9]], 101, true, 1), [own]) == [5, 9]
  {
    var s := StreamBuffer(map[102 := [9]], 101, true, 1);
    var t := Store(s, 101, [5]);
    assert Init([own]) == [] && Last([own]) == own;
    assert !SeqBeforeOrEqual(102, 101);
    var u := TakeNext(t);
    assert u.nextExpectedSeq == 102 && 102 in u.segments && u.segments[102] == [9];
    var v := TakeNext(u);
    assert v.nextExpectedSeq == 103 && 103 !in v.segments;
    assert Drain(v) == (v, []) && Drain(u).1 == [9] + [] && Drain(t).1 == [5] + Drain(u).1;
    assert [9] + [] == [9] && [5] + [9] == [5, 9];
  }
}
