/** Which prefix of the sender's stream is delivered, for all parts in all orders, and when the order matters. */
module ReassemblyCompleteness {
  import opened Common
  import opened Reassembly
  import opened ReassemblyOffsets
  import opened Tiling

  // ----- Following lengths -----

  /** Lengths by offset, each inside a stream of `n` bytes. */
  ghost predicate Within(n: nat, lengths: Pieces) {
    forall o :: o in lengths ==> PartOf(n, Part(o, lengths[o]))
  }

  /** How far one gets from `x` when every length leads to the next offset. */
  ghost function Reach(n: nat, lengths: Pieces, x: nat): (r: nat)
    requires Within(n, lengths) && x <= n
    ensures x <= r <= n && r !in lengths
    decreases n - x
  {
    if x in lengths then Reach(n, lengths, x + lengths[x]) else x
  }

  /** Lengths that agree along the way lead to the same place, and from there on. */
  lemma {:induction false} ReachThrough(n: nat, a: Pieces, b: Pieces, x: nat)
    requires Within(n, a) && Within(n, b) && x <= n
    requires forall o :: x <= o < Reach(n, a, x) && o in a ==> o in b && b[o] == a[o]
    ensures Reach(n, b, x) == Reach(n, b, Reach(n, a, x))
    decreases n - x
  {
    if x in a {
      ReachThrough(n, a, b, x + a[x]);
    }
  }

  lemma {:induction false} ReachAgrees(n: nat, a: Pieces, b: Pieces, x: nat)
    requires Within(n, a) && Within(n, b) && x <= n
    requires forall o :: o >= x ==> (o in a <==> o in b) && (o in a ==> a[o] == b[o])
    ensures Reach(n, a, x) == Reach(n, b, x)
    decreases n - x
  {
    if x in a {
      ReachAgrees(n, a, b, x + a[x]);
    }
  }

  // ----- The lengths that count -----

  lemma PartsBefore(n: nat, parts: seq<Part>)
    requires PartsOf(n, parts) && parts != []
    ensures PartsOf(n, Init(parts)) && PartOf(n, Last(parts))
  {
    assert Last(parts) == parts[|parts| - 1];
  }

  /** An arrival at an offset that is not delivered yet replaces the length known there; one at a delivered offset
      counts for nothing. */
  ghost function Effective(n: nat, parts: seq<Part>): (lengths: Pieces)
    requires PartsOf(n, parts)
    ensures Within(n, lengths)
  {
    if parts == [] then map[]
    else
      PartsBefore(n, parts);
      Learn(n, Effective(n, Init(parts)), Last(parts))
  }

  ghost function Learn(n: nat, lengths: Pieces, p: Part): (r: Pieces)
    requires Within(n, lengths) && PartOf(n, p)
    ensures Within(n, r)
  {
    if p.offset < Reach(n, lengths, 0) then lengths else lengths[p.offset := p.size]
  }

  /** The size check turns no new part away. */
  predicate NeverFull(max: nat, parts: seq<Part>) {
    parts == []
    || (NeverFull(max, Init(parts))
        && (Fits(max, Run(max, Init(parts)), Last(parts)) || Repeats(Run(max, Init(parts)), Last(parts))))
  }

  /** From the delivered prefix on, the buffer holds exactly the lengths that count. */
  ghost predicate Matches(n: nat, v: Picture, lengths: Pieces) {
    && Within(n, lengths) && Within(n, v.kept)
    && v.delivered == Reach(n, lengths, 0) && v.delivered !in v.kept
    && (forall o :: o >= v.delivered ==>
          (o in lengths <==> o in v.kept) && (o in lengths ==> lengths[o] == v.kept[o]))
  }

  lemma {:induction false} AdvancedReaches(n: nat, v: Picture)
    requires Within(n, v.kept) && v.delivered <= n
    ensures
      var w := Advanced(v);
      && w.delivered == Reach(n, v.kept, v.delivered) && w.delivered !in w.kept
      && Within(n, w.kept)
      && (forall o :: o in w.kept ==> o in v.kept && w.kept[o] == v.kept[o])
      && (forall o :: o in v.kept && o >= w.delivered ==> o in w.kept)
    decreases |v.kept|
  {
    if v.delivered in v.kept {
      AdvancedReaches(n, Taken(v));
      ReachAgrees(n, v.kept, Taken(v).kept, Taken(v).delivered);
    }
  }

  lemma ArriveMatches(n: nat, max: nat, v: Picture, lengths: Pieces, p: Part)
    requires Matches(n, v, lengths) && PartOf(n, p)
    requires Fits(max, v, p) || Repeats(v, p)
    ensures Matches(n, Arrive(max, v, p), Learn(n, lengths, p))
  {
    if Repeats(v, p) {
      RepeatMatches(n, v, lengths, p);
    } else if p.offset < v.delivered {
      assert Advanced(Kept(v, p)) == Kept(v, p);
    } else {
      NewMatches(n, v, lengths, p);
    }
  }

  lemma RepeatMatches(n: nat, v: Picture, lengths: Pieces, p: Part)
    requires Matches(n, v, lengths) && PartOf(n, p) && Repeats(v, p)
    ensures Learn(n, lengths, p) == lengths
  {
    hide Reach;
  }

  lemma NewMatches(n: nat, v: Picture, lengths: Pieces, p: Part)
    requires Matches(n, v, lengths) && PartOf(n, p) && p.offset >= v.delivered
    ensures Matches(n, Advanced(Kept(v, p)), Learn(n, lengths, p))
  {
    hide Reach, Advanced;
    var more := Learn(n, lengths, p);
    AdvancedReaches(n, Kept(v, p));
    ReachThrough(n, lengths, more, 0);
    ReachAgrees(n, more, Kept(v, p).kept, v.delivered);
  }

  lemma {:induction false} RunMatches(n: nat, max: nat, parts: seq<Part>)
    requires PartsOf(n, parts) && NeverFull(max, parts)
    ensures Matches(n, Run(max, parts), Effective(n, parts))
  {
    hide Matches, Arrive, Learn;
    if parts == [] {
      StartMatches(n);
    } else {
      PartsBefore(n, parts);
      RunMatches(n, max, Init(parts));
      ArriveMatches(n, max, Run(max, Init(parts)), Effective(n, Init(parts)), Last(parts));
    }
  }

  lemma StartMatches(n: nat)
    ensures Matches(n, START, map[])
  {
  }

  lemma LearnReaches(n: nat, lengths: Pieces, p: Part)
    requires Within(n, lengths) && PartOf(n, p)
    ensures Reach(n, lengths, 0) <= Reach(n, Learn(n, lengths, p), 0)
    ensures p.offset in Learn(n, lengths, p) || p.offset < Reach(n, lengths, 0)
  {
    ReachThrough(n, lengths, Learn(n, lengths, p), 0);
  }

  /** The lengths that count have arrived, and every offset that arrived has one or is delivered. */
  lemma {:induction false} EffectiveIsArrived(n: nat, parts: seq<Part>)
    requires PartsOf(n, parts)
    ensures forall o :: o in Effective(n, parts) ==> Part(o, Effective(n, parts)[o]) in parts
    ensures forall p :: p in parts ==> p.offset in Effective(n, parts) || p.offset < Reach(n, Effective(n, parts), 0)
  {
    if parts != [] {
      PartsBefore(n, parts);
      EffectiveIsArrived(n, Init(parts));
      LearnReaches(n, Effective(n, Init(parts)), Last(parts));
      hide Reach;
      assert parts == Init(parts) + [Last(parts)];
    }
  }

  /** For all parts, whatever their overlap, lengths, order and duplication, unless the size check turned a new part
      away: exactly the prefix that the lengths that count lead to is delivered. */
  lemma DeliversExactlyReachable(max: nat, stream: seq<byte>, syn: TcpHeader, parts: seq<Part>)
    requires |stream| < TWO31 && PartsOf(|stream|, parts) && syn.syn
    requires NeverFull(max, parts)
    ensures
      var reached := Reach(|stream|, Effective(|stream|, parts), 0);
      && Delivered(max, Conversation(stream, syn, parts)) == stream[..reached]
      && After(max, Conversation(stream, syn, parts)).nextExpectedSeq == Advance(Advance(syn.seqNum, 1), reached)
  {
    RunPictured(max, stream, syn, parts);
    RunMatches(|stream|, max, parts);
    hide Effective, Run, Reach, HoldsParts;
  }

  // ----- Room -----

  function TotalSize(parts: seq<Part>): nat {
    if parts == [] then 0 else TotalSize(Init(parts)) + Last(parts).size
  }

  lemma {:induction false} AdvancedShrinks(v: Picture)
    ensures Advanced(v).total <= v.total
    decreases |v.kept|
  {
    if v.delivered in v.kept {
      AdvancedShrinks(Taken(v));
    }
  }

  /** The check turns nothing away if all arrivals together, duplicates counted, respect the limit. */
  lemma {:induction false} RoomForAll(max: nat, parts: seq<Part>)
    requires TotalSize(parts) <= max
    ensures Run(max, parts).total <= TotalSize(parts) && NeverFull(max, parts)
  {
    hide Repeats, Advanced;
    if parts != [] {
      RoomForAll(max, Init(parts));
      AdvancedShrinks(Kept(Run(max, Init(parts)), Last(parts)));
    }
  }

  /** The parts are taken from a cut with one length for each offset. */
  predicate FromCut(pieces: Pieces, parts: seq<Part>) {
    forall i :: 0 <= i < |parts| ==> parts[i].offset in pieces && pieces[parts[i].offset] == parts[i].size
  }

  ghost predicate Submap(a: Pieces, b: Pieces) {
    forall o :: o in a ==> o in b && a[o] == b[o]
  }

  lemma {:induction false} SubmapSum(a: Pieces, b: Pieces)
    requires Submap(a, b)
    ensures Sum(a) <= Sum(b)
    decreases |a|
  {
    if a != map[] {
      var o :| o in a;
      SumTakeOut(a, o);
      SumTakeOut(b, o);
      SubmapSum(a - {o}, b - {o});
    }
  }

  /** With one length for each offset the counter is exact. */
  ghost predicate CountsCut(pieces: Pieces, v: Picture) {
    Submap(v.kept, pieces) && v.total == Sum(v.kept)
  }

  lemma {:induction false} AdvancedCounts(pieces: Pieces, v: Picture)
    requires CountsCut(pieces, v)
    ensures CountsCut(pieces, Advanced(v))
    decreases |v.kept|
  {
    if v.delivered in v.kept {
      SumTakeOut(v.kept, v.delivered);
      AdvancedCounts(pieces, Taken(v));
    }
  }

  /** A part of the cut that is not repeated fits. */
  lemma NewPartFits(pieces: Pieces, v: Picture, p: Part)
    requires CountsCut(pieces, v) && p.offset in pieces && pieces[p.offset] == p.size && !Repeats(v, p)
    ensures v.total + p.size <= Sum(pieces) && CountsCut(pieces, Kept(v, p))
  {
    SumPut(v.kept, p.offset, p.size);
    SubmapSum(v.kept[p.offset := p.size], pieces);
  }

  /** A cut with one length for each offset never meets the limit if its lengths together respect it, however often its
      segments are repeated. */
  lemma {:induction false} RoomForCut(max: nat, pieces: Pieces, parts: seq<Part>)
    requires FromCut(pieces, parts) && Sum(pieces) <= max
    ensures NeverFull(max, parts) && CountsCut(pieces, Run(max, parts))
  {
    hide CountsCut, Repeats, Advanced;
    if parts == [] {
      NothingCounted(pieces);
    } else {
      var p := parts[|parts| - 1];
      assert Last(parts) == p;
      RoomForCut(max, pieces, Init(parts));
      var v := Run(max, Init(parts));
      if !Repeats(v, p) {
        NewPartFits(pieces, v, p);
        AdvancedCounts(pieces, Kept(v, p));
      }
    }
  }

  lemma NothingCounted(pieces: Pieces)
    ensures CountsCut(pieces, START)
  {
  }

  lemma StoredAhead(max: nat, v: Picture, p: Part)
    requires Fits(max, v, p) && !Repeats(v, p) && v.delivered !in v.kept && p.offset != v.delivered
    ensures Arrive(max, v, p) == Kept(v, p)
  {
  }

  // ----- One length for each offset -----

  ghost function Offsets(parts: seq<Part>): set<nat> {
    set p | p in parts :: p.offset
  }

  ghost function Restrict(pieces: Pieces, offsets: set<nat>): Pieces {
    map o | o in pieces && o in offsets :: pieces[o]
  }

  lemma CutIsRestricted(n: nat, pieces: Pieces, parts: seq<Part>)
    requires PartsOf(n, parts) && FromCut(pieces, parts)
    ensures Within(n, Restrict(pieces, Offsets(parts)))
    ensures Reach(n, Effective(n, parts), 0) == Reach(n, Restrict(pieces, Offsets(parts)), 0)
  {
    var lengths, all := Effective(n, parts), Restrict(pieces, Offsets(parts));
    EffectiveIsArrived(n, parts);
    forall o | o in lengths
      ensures o in all && all[o] == lengths[o]
    {
      var i :| 0 <= i < |parts| && parts[i] == Part(o, lengths[o]);
    }
    forall o | o in all
      ensures PartOf(n, Part(o, all[o]))
      ensures o in lengths || o < Reach(n, lengths, 0)
    {
      var p :| p in parts && p.offset == o;
      var i :| 0 <= i < |parts| && parts[i] == p;
    }
    ReachThrough(n, lengths, all, 0);
  }

  /** Confluence: with one length for each offset, overlapping or not, the delivered bytes and the expected number
      depend only on which segments arrived. */
  lemma Confluence(max: nat, stream: seq<byte>, syn: TcpHeader, pieces: Pieces, a: seq<Part>, b: seq<Part>)
    requires |stream| < TWO31 && PartsOf(|stream|, a) && PartsOf(|stream|, b) && syn.syn
    requires FromCut(pieces, a) && FromCut(pieces, b) && Sum(pieces) <= max
    requires Offsets(a) == Offsets(b)
    ensures
      var ha, hb := Conversation(stream, syn, a), Conversation(stream, syn, b);
      && Delivered(max, ha) == Delivered(max, hb)
      && After(max, ha).nextExpectedSeq == After(max, hb).nextExpectedSeq
  {
    RoomForCut(max, pieces, a);
    RoomForCut(max, pieces, b);
    CutIsRestricted(|stream|, pieces, a);
    CutIsRestricted(|stream|, pieces, b);
    DeliversExactlyReachable(max, stream, syn, a);
    DeliversExactlyReachable(max, stream, syn, b);
    hide Delivered, After, Effective, Reach;
  }

  /** A straddling segment is kept under its old number and never delivered: all three bytes arrive, two come out. */
  lemma StraddlingSegmentStalls(syn: TcpHeader)
    requires syn.syn
    ensures
      var stream: seq<byte> := [10, 20, 30];
      Delivered(1000, Conversation(stream, syn, [Part(0, 2), Part(1, 2)])) == [10, 20]
  {
    var stream: seq<byte> := [10, 20, 30];
    hide Pictured, Delivered, Conversation, Arrive, Run;
    RunPictured(1000, stream, syn, [Part(0, 2), Part(1, 2)]);
    TwoArrivals(Part(0, 2), Part(1, 2));
    FirstThenStraddling();
  }

  lemma TwoArrivals(a: Part, b: Part)
    ensures Run(1000, [a, b]) == Arrive(1000, Arrive(1000, START, a), b)
  {
    hide Arrive;
    assert Init([a, b]) == [a] && Last([a, b]) == b && Init([a]) == [] && Last([a]) == a;
    assert Run(1000, []) == START && Run(1000, [a]) == Arrive(1000, START, a);
  }

  lemma FirstThenStraddling()
    ensures Arrive(1000, Arrive(1000, START, Part(0, 2)), Part(1, 2)).delivered == 2
  {
    var v := Picture(2, map[], 0);
    assert Taken(Kept(START, Part(0, 2))).kept == map[];
    assert Taken(Kept(START, Part(0, 2))) == v;
    assert Advanced(v) == v;
    StoredAhead(1000, v, Part(1, 2));
  }

  // ----- Disjoint cuts -----

  lemma {:induction false} TilesBehindReachArrived(pieces: Pieces, n: nat, offsets: set<nat>, x: nat)
    requires IsTiling(pieces, n) && AtBoundary(pieces, x) && x <= n && Within(n, Restrict(pieces, offsets))
    ensures
      var r := Reach(n, Restrict(pieces, offsets), x);
      && AtBoundary(pieces, r)
      && (forall o :: o in pieces && x <= o < r ==> o in offsets && o + pieces[o] <= r)
      && (pieces.Keys <= offsets ==> r == n)
    decreases n - x
  {
    if x < n {
      BoundaryStartsTile(pieces, n, x);
      if x in offsets {
        TilesBehindReachArrived(pieces, n, offsets, x + pieces[x]);
      }
    }
  }

  lemma {:induction false} TilesSumUp(pieces: Pieces, rest: Pieces, n: nat, x: nat)
    requires IsTiling(pieces, n) && AtBoundary(pieces, x) && x <= n
    requires rest == map o | o in pieces && o >= x :: pieces[o]
    ensures Sum(rest) == n - x
    decreases n - x
  {
    if x == n {
      assert rest == map[];
    } else {
      BoundaryStartsTile(pieces, n, x);
      SumTakeOut(rest, x);
      TilesSumUp(pieces, rest - {x}, n, x + pieces[x]);
    }
  }

  lemma TilingSum(pieces: Pieces, n: nat)
    requires IsTiling(pieces, n)
    ensures Sum(pieces) == n
  {
    assert pieces == map o | o in pieces && o >= 0 :: pieces[o];
    TilesSumUp(pieces, pieces, n, 0);
  }

  lemma TilesArePartsOf(pieces: Pieces, n: nat, parts: seq<Part>)
    requires IsTiling(pieces, n) && FromCut(pieces, parts)
    ensures PartsOf(n, parts) && Within(n, pieces) && Within(n, Restrict(pieces, Offsets(parts)))
  {
  }

  /** Completeness: for a cut into disjoint segments, the whole stream comes out, each byte once, exactly when every
      segment has arrived at least once; order and duplicates do not matter. */
  lemma TcpCompleteness(max: nat, stream: seq<byte>, syn: TcpHeader, pieces: Pieces, parts: seq<Part>)
    requires IsTiling(pieces, |stream|) && FromCut(pieces, parts) && PartsOf(|stream|, parts)
    requires |stream| < TWO31 && |stream| <= max && syn.syn
    ensures Delivered(max, Conversation(stream, syn, parts)) == stream <==> pieces.Keys <= Offsets(parts)
  {
    var n, offsets := |stream|, Offsets(parts);
    TilingSum(pieces, n);
    TilesArePartsOf(pieces, n, parts);
    RoomForCut(max, pieces, parts);
    CutIsRestricted(n, pieces, parts);
    DeliversExactlyReachable(max, stream, syn, parts);
    TilesBehindReachArrived(pieces, n, offsets, 0);
    hide Effective, Reach, Delivered, Covered;
    PrefixIsWhole(stream, Reach(n, Restrict(pieces, offsets), 0));
    AllTilesBefore(pieces, n);
  }

  lemma PrefixIsWhole(s: seq<byte>, n: nat)
    requires n <= |s|
    ensures s[..n] == s <==> n == |s|
  {
  }

  lemma AllTilesBefore(pieces: Pieces, n: nat)
    requires IsTiling(pieces, n)
    ensures forall o :: o in pieces ==> o < n
  {
  }

  /** A part is repeated exactly when it arrived before. */
  lemma RepeatsIffArrived(n: nat, max: nat, pieces: Pieces, parts: seq<Part>, p: Part)
    requires IsTiling(pieces, n) && FromCut(pieces, parts) && PartsOf(n, parts) && n <= max
    requires p.offset in pieces && pieces[p.offset] == p.size
    ensures Repeats(Run(max, parts), p) <==> p.offset in Offsets(parts)
  {
    var v, lengths := Run(max, parts), Effective(n, parts);
    TilingSum(pieces, n);
    TilesArePartsOf(pieces, n, parts);
    RoomForCut(max, pieces, parts);
    RunMatches(n, max, parts);
    CutIsRestricted(n, pieces, parts);
    TilesBehindReachArrived(pieces, n, Offsets(parts), 0);
    EffectiveIsArrived(n, parts);
    hide Effective, Reach, Run, NeverFull, IsTiling;
    forall o | o in lengths
      ensures o in Offsets(parts)
    {
      assert Part(o, lengths[o]) in parts;
    }
    assert p.offset in Offsets(parts) ==> exists q :: q in parts && q.offset == p.offset;
  }

  /** A segment is reported as a retransmission exactly when it arrived before and the size check lets it through. */
  lemma RetransmissionIsExact(max: nat, stream: seq<byte>, syn: TcpHeader, pieces: Pieces, parts: seq<Part>)
    requires IsTiling(pieces, |stream|) && FromCut(pieces, parts) && PartsOf(|stream|, parts) && parts != []
    requires |stream| < TWO31 && |stream| <= max && syn.syn
    ensures
      var history := Conversation(stream, syn, parts);
      Returned(max, history).retransmission
      <==> Last(parts).offset in Offsets(Init(parts))
           && After(max, Init(history)).totalBytes + Last(parts).size <= max
  {
    var before, p := Init(parts), parts[|parts| - 1];
    assert Last(parts) == p;
    ConversationSnoc(stream, syn, parts);
    RepeatsIffArrived(|stream|, max, pieces, before, p);
    RunPictured(max, stream, syn, before);
    hide Repeats, Run, Offsets, Receive, HoldsParts, Delivered;
    ReceivePictured(stream, Advance(syn.seqNum, 1), After(max, Conversation(stream, syn, before)), Run(max, before),
                    max, p);
  }

  // ----- Runs in which the counter or the flag is not what one would expect -----

  /** What a part overwrites is the segment kept at its offset. */
  lemma OverwrittenPictured(stream: seq<byte>, base: u32, s: StreamBuffer, v: Picture, max: nat, p: Part)
    requires Pictured(stream, base, s, v) && PartOf(|stream|, p)
    ensures OverwrittenBy(max, s, PartArrival(stream, base, p))
            == if Fits(max, v, p) && !Repeats(v, p) && p.offset in v.kept then v.kept[p.offset] else 0
  {
    hide IsRetransmission, HoldsParts;
    RetransmissionCriterion(stream, base, s, v, p);
    KeyIsKept(stream, base, s.segments, v.kept, p.offset);
  }

  /** A second segment at offset 1 with another length: the two bytes it overwrites stay counted. */
  lemma OverwrittenBytesAreCounted(stream: seq<byte>, syn: TcpHeader)
    requires |stream| == 3 && syn.syn
    ensures
      var history := Conversation(stream, syn, [Part(1, 2), Part(1, 1)]);
      && OverwrittenBytes(1000, history) >= 2
      && After(1000, history).totalBytes >= SumSizes(After(1000, history).segments) + 2
  {
    hide Pictured, Arrive, Run, Receive, OverwrittenBy, NoEmptySegment;
    var parts, one := [Part(1, 2), Part(1, 1)], [Part(1, 2)];
    var base := Advance(syn.seqNum, 1);
    assert Init(parts) == one && Last(parts) == Part(1, 1);
    ConversationSnoc(stream, syn, parts);
    RunPictured(1000, stream, syn, one);
    OneArrival(1000, Part(1, 2));
    StoredAhead(1000, START, Part(1, 2));
    OverwrittenPictured(stream, base, After(1000, Conversation(stream, syn, one)), Picture(0, map[1 := 2], 2), 1000,
                        Part(1, 1));
    Accounting(1000, Conversation(stream, syn, parts));
  }

  lemma OneArrival(max: nat, a: Part)
    ensures Run(max, [a]) == Arrive(max, START, a)
  {
    hide Arrive;
    assert Init([a]) == [] && Last([a]) == a && Run(max, []) == START;
  }

  /** Two disjoint segments that fill the limit: when the larger one, still buffered, is repeated, the size check comes
      first and the repetition is not reported. */
  lemma RepeatIsNotReported(stream: seq<byte>, syn: TcpHeader)
    requires |stream| == 10 && syn.syn
    ensures
      var pieces: Pieces := map[0 := 2, 2 := 8];
      var parts := [Part(2, 8), Part(2, 8)];
      && IsTiling(pieces, |stream|) && FromCut(pieces, parts) && Last(parts).offset in Offsets(Init(parts))
      && !Returned(10, Conversation(stream, syn, parts)).retransmission
  {
    hide Pictured, Run, Receive, Delivered;
    var pieces: Pieces := map[0 := 2, 2 := 8];
    var parts, one := [Part(2, 8), Part(2, 8)], [Part(2, 8)];
    TwoTiles(pieces);
    assert Init(parts) == one && Last(parts) == Part(2, 8) && Part(2, 8) in one;
    ConversationSnoc(stream, syn, parts);
    RunPictured(10, stream, syn, one);
    StoredAhead(10, START, Part(2, 8));
    OneArrival(10, Part(2, 8));
    ReceivePictured(stream, Advance(syn.seqNum, 1), After(10, Conversation(stream, syn, one)), Run(10, one), 10,
                    Part(2, 8));
  }

  lemma TwoTiles(pieces: Pieces)
    requires pieces == map[0 := 2, 2 := 8]
    ensures IsTiling(pieces, 10)
  {
    forall x: nat | x < 10
      ensures Covered(pieces, x)
    {
      assert if x < 2 then 0 in pieces else 2 in pieces;
    }
  }
}
