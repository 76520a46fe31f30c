/** What a receiver may conclude from reassembled data: safety for arbitrary overlap, completeness for aligned cuts. */
module ReassemblySafety {
  import opened Common
  import opened Reassembly

  // ----- Safety -----

  /** `payload` is the piece of the sender's stream at offset `o`, numbered from `base`. */
  predicate PieceAt(stream: seq<byte>, base: u32, o: nat, seqNum: u32, payload: seq<byte>) {
    && o + |payload| <= |stream|
    && payload == stream[o..o + |payload|]
    && seqNum == Advance(base, o)
  }

  ghost predicate Piece(stream: seq<byte>, base: u32, seqNum: u32, payload: seq<byte>) {
    exists o: nat :: PieceAt(stream, base, o, seqNum, payload)
  }

  /** Every SYN announces `base`, every payload is a piece of the stream: any order, overlap or duplication. */
  ghost predicate FromSender(stream: seq<byte>, base: u32, history: seq<Arrival>) {
    forall i :: 0 <= i < |history| ==>
      if history[i].header.syn then Advance(history[i].header.seqNum, 1) == base
      else Piece(stream, base, history[i].header.seqNum, history[i].payload)
  }

  /** The arrival that opens the stream is a SYN or carries the first byte. */
  ghost predicate OpensAtBase(base: u32, history: seq<Arrival>) {
    forall i :: 0 <= i < |history| && history[i].payload != [] && !history[i].header.syn
      && (forall j :: 0 <= j < i ==> !history[j].header.syn && history[j].payload == [])
      ==> history[i].header.seqNum == base
  }

  ghost predicate Consistent(stream: seq<byte>, base: u32, s: StreamBuffer, delivered: nat) {
    && delivered <= |stream|
    && s.nextExpectedSeq == Advance(base, delivered)
    && forall k :: k in s.segments ==> s.segments[k] != [] && Piece(stream, base, k, s.segments[k])
  }

  /** The piece under the expected number is the next one. */
  lemma NextPiece(stream: seq<byte>, base: u32, delivered: nat, payload: seq<byte>)
    requires |stream| < TWO32 && delivered <= |stream| && Piece(stream, base, Advance(base, delivered), payload)
    ensures delivered + |payload| <= |stream| && payload == stream[delivered..delivered + |payload|]
  {
    var o: nat :| PieceAt(stream, base, o, Advance(base, delivered), payload);
    OffsetsAreUnique(base, o, delivered);
  }

  lemma NextIsPiece(stream: seq<byte>, base: u32, s: StreamBuffer, delivered: nat)
    requires Consistent(stream, base, s, delivered)
    ensures delivered <= |stream| && s.nextExpectedSeq == Advance(base, delivered)
    ensures s.nextExpectedSeq in s.segments ==> Piece(stream, base, s.nextExpectedSeq, s.segments[s.nextExpectedSeq])
  {
  }

  lemma TakenIsConsistent(stream: seq<byte>, base: u32, s: StreamBuffer, delivered: nat)
    requires |stream| < TWO32 && Consistent(stream, base, s, delivered) && s.nextExpectedSeq in s.segments
    requires delivered + |s.segments[s.nextExpectedSeq]| <= |stream|
    ensures Consistent(stream, base, TakeNext(s), delivered + |s.segments[s.nextExpectedSeq]|)
    ensures TakeNext(s).synSeen == s.synSeen && |TakeNext(s).segments| < |s.segments|
  {
    hide Piece;
    AdvanceTwice(base, delivered, |s.segments[s.nextExpectedSeq]|);
  }

  lemma {:induction false} DrainStaysOnStream(stream: seq<byte>, base: u32, s: StreamBuffer, delivered: nat)
    requires |stream| < TWO32
    requires Consistent(stream, base, s, delivered)
    ensures
      var (drained, out) := Drain(s);
      && delivered + |out| <= |stream|
      && out == stream[delivered..delivered + |out|]
      && Consistent(stream, base, drained, delivered + |out|)
      && drained.synSeen == s.synSeen
    decreases |s.segments|
  {
    hide Piece, Advance, Consistent, TakeNext;
    assert delivered <= |stream| by { NextIsPiece(stream, base, s, delivered); }
    if s.nextExpectedSeq in s.segments {
      var seg := s.segments[s.nextExpectedSeq];
      NextIsPiece(stream, base, s, delivered);
      NextPiece(stream, base, delivered, seg);
      TakenIsConsistent(stream, base, s, delivered);
      DrainStaysOnStream(stream, base, TakeNext(s), delivered + |seg|);
      var out := Drain(TakeNext(s)).1;
      SliceJoin(stream, delivered, delivered + |seg|, delivered + |seg| + |out|);
    }
  }

  lemma ReceiveStaysOnStream(
    stream: seq<byte>, base: u32, s: StreamBuffer, maxStreamBytes: nat, a: Arrival, delivered: nat)
    requires |stream| < TWO32
    requires a.payload != [] && !a.header.syn && Piece(stream, base, a.header.seqNum, a.payload)
    requires Consistent(stream, base, Open(s, a.header.seqNum), delivered)
    ensures
      var (s', r) := Receive(s, maxStreamBytes, a.header, a.payload);
      var out := DataOf(r);
      && delivered + |out| <= |stream|
      && out == stream[delivered..delivered + |out|]
      && s'.synSeen
      && Consistent(stream, base, s', delivered + |out|)
  {
    hide IsRetransmission, Drain, Piece;
    var ready := Open(s, a.header.seqNum);
    if Stored(maxStreamBytes, s, a) > 0 {
      DrainStaysOnStream(stream, base, Store(ready, a.header.seqNum, a.payload), delivered);
    }
  }

  lemma {:induction false} UnopenedStreamIsNew(maxStreamBytes: nat, history: seq<Arrival>)
    ensures
      var begun := exists i :: 0 <= i < |history| && (history[i].header.syn || history[i].payload != []);
      && After(maxStreamBytes, history).synSeen == begun
      && (!begun ==> After(maxStreamBytes, history) == NEW_STREAM && DeliveredSinceSyn(maxStreamBytes, history) == [])
  {
    if history != [] {
      UnopenedStreamIsNew(maxStreamBytes, Init(history));
      var i := |history| - 1;
      assert Last(history) == history[i];
      ReceiveOpens(After(maxStreamBytes, Init(history)), maxStreamBytes, Last(history));
      if j :| 0 <= j < |history| && (history[j].header.syn || history[j].payload != []) && j < i {
        assert Init(history)[j] == history[j];
      }
    }
  }

  lemma ReceiveOpens(s: StreamBuffer, maxStreamBytes: nat, a: Arrival)
    ensures Receive(s, maxStreamBytes, a.header, a.payload).0.synSeen == (s.synSeen || a.header.syn || a.payload != [])
  {
    if Stored(maxStreamBytes, s, a) > 0 {
      DrainKeepsOpen(Store(Open(s, a.header.seqNum), a.header.seqNum, a.payload));
    }
  }

  lemma {:induction false} DrainKeepsOpen(s: StreamBuffer)
    ensures Drain(s).0.synSeen == s.synSeen
    decreases |s.segments|
  {
    if s.nextExpectedSeq in s.segments {
      DrainKeepsOpen(TakeNext(s));
    }
  }

  lemma HypothesesHoldBefore(stream: seq<byte>, base: u32, first: u32, history: seq<Arrival>)
    requires history != []
    requires FromSender(stream, base, history) && OpensAtBase(first, history)
    ensures FromSender(stream, base, Init(history)) && OpensAtBase(first, Init(history))
    ensures HasSyn(Init(history)) ==> HasSyn(history)
  {
    var before := Init(history);
    if HasSyn(before) {
      var k :| 0 <= k < |before| && before[k].header.syn;
      assert history[k].header.syn;
    }
    forall i | 0 <= i < |before| && before[i].payload != [] && !before[i].header.syn
      && (forall j :: 0 <= j < i ==> !before[j].header.syn && before[j].payload == [])
      ensures before[i].header.seqNum == first
    {
      assert history[i] == before[i];
      assert forall j :: 0 <= j < i ==> history[j] == before[j];
    }
  }

  lemma OpeningArrivalIsBase(maxStreamBytes: nat, base: u32, history: seq<Arrival>)
    requires history != [] && OpensAtBase(base, history)
    requires !After(maxStreamBytes, Init(history)).synSeen
    requires !Last(history).header.syn && Last(history).payload != []
    ensures Last(history).header.seqNum == base
  {
    UnopenedStreamIsNew(maxStreamBytes, Init(history));
    var before, i := Init(history), |history| - 1;
    assert forall j :: 0 <= j < i ==> history[j] == before[j];
    assert history[i] == Last(history);
  }

  lemma SliceGrows(stream: seq<byte>, origin: nat, out: seq<byte>, more: seq<byte>)
    requires origin + |out| + |more| <= |stream|
    requires out == stream[origin..origin + |out|]
    requires more == stream[origin + |out|..origin + |out| + |more|]
    ensures out + more == stream[origin..origin + |out + more|]
  {
    SliceJoin(stream, origin, origin + |out|, origin + |out| + |more|);
  }

  ghost predicate HasSyn(history: seq<Arrival>) {
    exists i :: 0 <= i < |history| && history[i].header.syn
  }

  /** What was handed out is the stream from `origin` on, and the next expected number is that of the byte behind. */
  ghost predicate Delivering(stream: seq<byte>, base: u32, origin: nat, s: StreamBuffer, out: seq<byte>) {
    && origin + |out| <= |stream|
    && out == stream[origin..origin + |out|]
    && (s.synSeen ==> Consistent(stream, base, s, origin + |out|))
  }

  /** Safety over every run: what was handed out since the last SYN is a contiguous piece of the sender's stream. It
      starts at the stream's first byte, or, if the run has no SYN, where the first payload to arrive starts. */
  lemma {:induction false} DeliversFromOrigin(
    maxStreamBytes: nat, stream: seq<byte>, base: u32, origin: nat, history: seq<Arrival>)
    requires |stream| < TWO32 && origin <= |stream|
    requires FromSender(stream, base, history) && OpensAtBase(Advance(base, origin), history)
    requires HasSyn(history) ==> origin == 0
    ensures Delivering(stream, base, origin, After(maxStreamBytes, history), DeliveredSinceSyn(maxStreamBytes, history))
  {
    if history != [] {
      var before, a := Init(history), Last(history);
      HypothesesHoldBefore(stream, base, Advance(base, origin), history);
      DeliversFromOrigin(maxStreamBytes, stream, base, origin, before);
      assert history[|history| - 1] == a;
      UnopenedStreamIsNew(maxStreamBytes, before);
      if !a.header.syn && a.payload != [] && !After(maxStreamBytes, before).synSeen {
        OpeningArrivalIsBase(maxStreamBytes, Advance(base, origin), history);
      }
      StepKeepsDelivering(stream, base, origin, After(maxStreamBytes, before), maxStreamBytes, a,
                          DeliveredSinceSyn(maxStreamBytes, before));
    }
  }

  lemma StepKeepsDelivering(
    stream: seq<byte>, base: u32, origin: nat, s: StreamBuffer, maxStreamBytes: nat, a: Arrival, out: seq<byte>)
    requires |stream| < TWO32 && Delivering(stream, base, origin, s, out)
    requires a.header.syn ==> Advance(a.header.seqNum, 1) == base && origin == 0
    requires !a.header.syn ==> Piece(stream, base, a.header.seqNum, a.payload)
    requires !s.synSeen ==>
               s == NEW_STREAM && out == []
               && (a.header.syn || a.payload == [] || a.header.seqNum == Advance(base, origin))
    ensures
      var (s', r) := Receive(s, maxStreamBytes, a.header, a.payload);
      Delivering(stream, base, origin, s', if a.header.syn then [] else out + DataOf(r))
  {
    if a.header.syn {
      assert Advance(base, 0) == base;
    } else if a.payload != [] {
      ReceiveStaysOnStream(stream, base, s, maxStreamBytes, a, origin + |out|);
      SliceGrows(stream, origin, out, DataOf(Receive(s, maxStreamBytes, a.header, a.payload).1));
    } else {
      assert out + [] == out;
    }
  }

  // ----- Answers without data -----

  /** An arrival before the last one opened the stream. */
  ghost predicate OpenedBefore(history: seq<Arrival>) {
    exists i :: 0 <= i < |history| - 1 && (history[i].header.syn || history[i].payload != [])
  }

  /** A SYN is reported as a retransmission if and only if an earlier arrival was a SYN or carried payload, and never
      returns data; an arrival with neither SYN nor payload is answered with nothing and changes nothing. */
  lemma AnswerWithoutData(maxStreamBytes: nat, history: seq<Arrival>)
    requires history != [] && (Last(history).header.syn || Last(history).payload == [])
    ensures Returned(maxStreamBytes, history)
            == ReassemblyResult(None, Last(history).header.syn && OpenedBefore(history))
    ensures !Last(history).header.syn ==> After(maxStreamBytes, history) == After(maxStreamBytes, Init(history))
  {
    UnopenedStreamIsNew(maxStreamBytes, Init(history));
    assert forall i :: 0 <= i < |history| - 1 ==> Init(history)[i] == history[i];
  }

  /** Data that is returned is never empty, so its absence says that nothing came out. */
  lemma ReturnedDataIsNotEmpty(maxStreamBytes: nat, history: seq<Arrival>)
    requires history != []
    ensures Returned(maxStreamBytes, history).data != Some([])
  {
    hide IsRetransmission, Drain;
  }

  // ----- Runs with one SYN at most -----

  ghost predicate NoLaterSyn(history: seq<Arrival>) {
    forall i :: 0 < i < |history| ==> !history[i].header.syn
  }

  lemma {:induction false} OneSynOneEpoch(maxStreamBytes: nat, history: seq<Arrival>)
    requires NoLaterSyn(history)
    ensures DeliveredSinceSyn(maxStreamBytes, history) == Delivered(maxStreamBytes, history)
  {
    if |history| == 1 {
      var a := Last(history);
      assert Init(history) == [];
    } else if history != [] {
      assert Last(history) == history[|history| - 1];
      OneSynOneEpoch(maxStreamBytes, Init(history));
    }
  }

  /** With at most an opening SYN, all data ever handed out is a prefix of the sender's stream. */
  lemma TcpSafety(maxStreamBytes: nat, stream: seq<byte>, base: u32, history: seq<Arrival>)
    requires |stream| < TWO32
    requires FromSender(stream, base, history) && OpensAtBase(base, history) && NoLaterSyn(history)
    ensures
      var out := Delivered(maxStreamBytes, history);
      && out <= stream
      && (After(maxStreamBytes, history).synSeen ==>
            After(maxStreamBytes, history).nextExpectedSeq == Advance(base, |out|))
  {
    assert Advance(base, 0) == base;
    DeliversFromOrigin(maxStreamBytes, stream, base, 0, history);
    OneSynOneEpoch(maxStreamBytes, history);
  }

  /** Without a SYN the bytes before the first payload to arrive are never handed out. */
  lemma MidStreamSafety(maxStreamBytes: nat, stream: seq<byte>, base: u32, origin: nat, history: seq<Arrival>)
    requires |stream| < TWO32 && origin <= |stream|
    requires FromSender(stream, base, history) && OpensAtBase(Advance(base, origin), history) && !HasSyn(history)
    ensures
      var out := Delivered(maxStreamBytes, history);
      origin + |out| <= |stream| && out == stream[origin..origin + |out|]
  {
    DeliversFromOrigin(maxStreamBytes, stream, base, origin, history);
    OneSynOneEpoch(maxStreamBytes, history);
  }

  /** A repeated SYN rewinds the stream, so a retransmitted segment behind it is handed out a second time. */
  lemma RepeatedSynRedelivers()
    ensures
      var syn := Arrival(TcpHeader(99, true, false, false), []);
      var segment := Arrival(TcpHeader(100, false, false, false), [7]);
      var history := [syn, segment, syn, segment];
      && FromSender([7], 100, history) && OpensAtBase(100, history)
      && Delivered(1000, history) == [7, 7]
  {
    var syn := Arrival(TcpHeader(99, true, false, false), []);
    var segment := Arrival(TcpHeader(100, false, false, false), [7]);
    var ready := NEW_STREAM.(synSeen := true, nextExpectedSeq := 100);
    var done := ready.(nextExpectedSeq := 101);
    OneByteHypotheses(syn, segment);
    SingleSegmentDelivered(ready, done, segment);
    SynRewinds(NEW_STREAM, syn, ready);
    SynRewinds(done, syn, ready);
    hide Receive, FromSender, OpensAtBase;
    DeliveredTwice(syn, segment, ready, done, [7]);
  }

  lemma DeliveredTwice(syn: Arrival, segment: Arrival, ready: StreamBuffer, done: StreamBuffer, out: seq<byte>)
    requires Receive(NEW_STREAM, 1000, syn.header, syn.payload).0 == ready
    requires Receive(done, 1000, syn.header, syn.payload).0 == ready
    requires DataOf(Receive(NEW_STREAM, 1000, syn.header, syn.payload).1) == []
    requires DataOf(Receive(done, 1000, syn.header, syn.payload).1) == []
    requires Receive(ready, 1000, segment.header, segment.payload).0 == done
    requires DataOf(Receive(ready, 1000, segment.header, segment.payload).1) == out
    ensures Delivered(1000, [syn, segment, syn, segment]) == out + out
  {
    hide Receive, DataOf, After, Delivered;
    EmptyHistory(1000);
    var h1, h2, h3 := [syn], [syn, segment], [syn, segment, syn];
    var h4 := h3 + [segment];
    assert [] + [syn] == h1 && h1 + [segment] == h2 && h2 + [syn] == h3;
    assert h4 == [syn, segment, syn, segment];
    ArrivalSnoc(1000, [], syn);
    ArrivalSnoc(1000, h1, segment);
    ArrivalSnoc(1000, h2, syn);
    ArrivalSnoc(1000, h3, segment);
    assert out + [] == out && [] + out == out;
  }

  lemma EmptyHistory(maxStreamBytes: nat)
    ensures After(maxStreamBytes, []) == NEW_STREAM && Delivered(maxStreamBytes, []) == []
  {
  }

  lemma OneByteHypotheses(syn: Arrival, segment: Arrival)
    requires syn == Arrival(TcpHeader(99, true, false, false), [])
    requires segment == Arrival(TcpHeader(100, false, false, false), [7])
    ensures FromSender([7], 100, [syn, segment, syn, segment]) && OpensAtBase(100, [syn, segment, syn, segment])
  {
    assert PieceAt([7], 100, 0, 100, [7]);
  }

  lemma ArrivalSnoc(maxStreamBytes: nat, history: seq<Arrival>, a: Arrival)
    ensures
      var (s, r) := Receive(After(maxStreamBytes, history), maxStreamBytes, a.header, a.payload);
      && After(maxStreamBytes, history + [a]) == s
      && Delivered(maxStreamBytes, history + [a]) == Delivered(maxStreamBytes, history) + DataOf(r)
  {
    hide Receive;
    assert Init(history + [a]) == history && Last(history + [a]) == a;
  }

  lemma SynRewinds(s: StreamBuffer, syn: Arrival, ready: StreamBuffer)
    requires s.segments == map[] && s.totalBytes == 0 && syn.header.syn
    requires ready == StreamBuffer(map[], Advance(syn.header.seqNum, 1), true, 0)
    ensures
      var (s', r) := Receive(s, 1000, syn.header, syn.payload);
      s' == ready && DataOf(r) == []
  {
  }

  lemma SingleSegmentDelivered(ready: StreamBuffer, done: StreamBuffer, segment: Arrival)
    requires ready == StreamBuffer(map[], 100, true, 0) && done == ready.(nextExpectedSeq := 101)
    requires segment == Arrival(TcpHeader(100, false, false, false), [7])
    ensures Receive(ready, 1000, segment.header, segment.payload) == (done, ReassemblyResult(Some([7]), false))
  {
    var payload: seq<byte> := [7];
    var t := Store(ready, 100, payload);
    SeqOrderIsOffsetOrder(100, 1, 0);
    assert TakeNext(t).segments == map[];
    assert TakeNext(t) == done;
    assert payload + [] == payload;
    assert Drain(done) == (done, []);
    assert Drain(t) == (done, payload);
  }
}
