/** When a group is complete, and what a late duplicate does to the next datagram with the same identification. */
module DefragmentLeftover {
  import opened Common
  import opened Tiling
  import opened Defragment
  import opened DefragmentCompleteness

  // ----- When any buffer is complete -----

  /** A fragment that is not the last key holds bytes, and ends before the next one begins. */
  ghost predicate Apart(m: map<u16, seq<byte>>) {
    forall o, p :: o in m && p in m && o < p ==> 0 < |m[o]| && o + |m[o]| <= p
  }

  ghost predicate CoveredAt(m: map<u16, seq<byte>>, x: nat) {
    exists o :: o in m && o <= x < o + |m[o]|
  }

  /** The fragments lie end to end from zero to `n`. */
  ghost predicate EndToEnd(m: map<u16, seq<byte>>, n: nat) {
    && Apart(m)
    && (forall o :: o in m ==> o + |m[o]| <= n)
    && (forall x: nat :: x < n ==> CoveredAt(m, x))
  }

  /** The keys before `from` end before `at`, the others begin behind it. */
  ghost predicate SplitAt(m: map<u16, seq<byte>>, from: nat, at: nat) {
    forall k :: k in m ==> if k < from then k + |m[k]| <= at else at <= k
  }

  lemma {:induction false} EndToEndAssembles(m: map<u16, seq<byte>>, n: nat, from: nat, at: nat)
    requires EndToEnd(m, n) && SplitAt(m, from, at) && at <= n
    ensures Assembled(m, from, at).Some? && at + |Assembled(m, from, at).value| == n
    decreases 0x1_0000 - from
  {
    if at < n {
      assert CoveredAt(m, at);
    }
    if NextKey(m, from).Some? {
      var off: u16 := NextKey(m, from).value;
      assert off + |m[off]| <= n;
      assert off == at;
      EndToEndAssembles(m, n, off + 1, at + |m[off]|);
    }
  }

  lemma {:induction false} AssembledIsApart(m: map<u16, seq<byte>>, from: nat, at: nat, o: u16, p: u16)
    requires Assembled(m, from, at).Some? && o in m && p in m && from <= o < p
    ensures 0 < |m[o]| && o + |m[o]| <= p
    decreases 0x1_0000 - from
  {
    var off: u16 := NextKey(m, from).value;
    if o == off {
      assert NextKey(m, off + 1).Some?;
      AssembledPlacesFragments(m, off + 1, at + |m[off]|, p);
    } else {
      AssembledIsApart(m, off + 1, at + |m[off]|, o, p);
    }
  }

  lemma {:induction false} AssembledCovers(m: map<u16, seq<byte>>, from: nat, at: nat, x: nat)
    requires Assembled(m, from, at).Some? && at <= x < at + |Assembled(m, from, at).value|
    ensures CoveredAt(m, x)
    decreases 0x1_0000 - from
  {
    var off: u16 := NextKey(m, from).value;
    if x >= at + |m[off]| {
      AssembledCovers(m, off + 1, at + |m[off]|, x);
    }
  }

  lemma AssembledIsEndToEnd(m: map<u16, seq<byte>>)
    requires Assembled(m, 0, 0).Some?
    ensures EndToEnd(m, |Assembled(m, 0, 0).value|) && PlacedIn(m, Assembled(m, 0, 0).value)
  {
    hide Assembled, CoveredAt;
    var n := |Assembled(m, 0, 0).value|;
    forall o | o in m
      ensures o + |m[o]| <= n && Assembled(m, 0, 0).value[o..o + |m[o]|] == m[o]
    {
      AssembledPlacesFragments(m, 0, 0, o);
    }
    forall o, p | o in m && p in m && o < p
      ensures 0 < |m[o]| && o + |m[o]| <= p
    {
      AssembledIsApart(m, 0, 0, o, p);
    }
    forall x: nat | x < n
      ensures CoveredAt(m, x)
    {
      AssembledCovers(m, 0, 0, x);
    }
  }

  /** Every fragment is a part of `all` at its own offset. */
  ghost predicate PlacedIn(m: map<u16, seq<byte>>, all: seq<byte>) {
    forall o :: o in m ==> o + |m[o]| <= |all| && all[o..o + |m[o]|] == m[o]
  }

  /** Whatever a buffer holds, overlapping fragments included: it amounts to a datagram if and only if a last fragment
      came and the fragments lie end to end up to the expected size; every fragment is then at its own offset. */
  lemma CompleteIffEndToEnd(buf: FragmentBuffer)
    ensures Datagram(buf).Some? <==> buf.lastFragmentReceived && EndToEnd(buf.fragments, buf.totalExpectedSize)
    ensures Datagram(buf).Some? ==>
              |Datagram(buf).value| == buf.totalExpectedSize && PlacedIn(buf.fragments, Datagram(buf).value)
  {
    var m, n := buf.fragments, buf.totalExpectedSize;
    assert SplitAt(m, 0, 0);
    hide Assembled, EndToEnd, PlacedIn, SplitAt;
    if Assembled(m, 0, 0).Some? {
      AssembledIsEndToEnd(m);
    }
    if EndToEnd(m, n) {
      EndToEndAssembles(m, n, 0, 0);
    }
  }

  // ----- A fragment left over -----

  /** A fragment with more fragments to come that arrives when the group is gone, as a late duplicate does, stays. */
  lemma LateDuplicateStays(key: FragmentGroup, groups: map<FragmentGroup, FragmentBuffer>, p: Packet)
    requires p.header.moreFragments && FragmentOf(p.header, key) && key !in groups
    requires HeaderLength(p.header) <= p.header.totalLength <= |p.fragment|
    ensures Receive(groups, p)
            == (groups[key := FragmentBuffer(map[OffsetOf(p.header) := PayloadOf(p)], false, 0)],
                Returns(None))
  {
    ReadablePayload(p.header, p.fragment, p.behind);
    hide Payload;
  }

  /** The buffer that holds the arrived tiles of a datagram, and behind them the leftover fragment. */
  ghost function Overlaid(
    datagram: seq<byte>, pieces: Pieces, o: u16, bytes: seq<byte>, arrived: set<nat>): FragmentBuffer
    requires IsTiling(pieces, |datagram|)
  {
    var tiles := TileBuffer(datagram, pieces, arrived);
    tiles.(fragments := map[o := bytes] + tiles.fragments)
  }

  /** The leftover begins where a tile begins and, if it ends where another begins, is a part of the new datagram; or it
      is empty and lies at the datagram's end. */
  predicate HarmlessLeftover(datagram: seq<byte>, pieces: Pieces, o: u16, bytes: seq<byte>) {
    if o in pieces then
      o + |bytes| in pieces ==> o + |bytes| <= |datagram| && bytes == datagram[o..o + |bytes|]
    else
      o == |datagram| && bytes == []
  }

  /** The new datagram comes out, and nothing else can. */
  ghost predicate ComesOutRight(datagram: seq<byte>, pieces: Pieces, o: u16, bytes: seq<byte>)
    requires IsTiling(pieces, |datagram|)
  {
    && Datagram(Overlaid(datagram, pieces, o, bytes, pieces.Keys)) == Some(datagram)
    && forall arrived: set<nat> ::
         Datagram(Overlaid(datagram, pieces, o, bytes, arrived)).Some? ==>
           Datagram(Overlaid(datagram, pieces, o, bytes, arrived)).value == datagram
  }

  /** The tile that ends the datagram. */
  lemma LastTile(datagram: seq<byte>, pieces: Pieces) returns (e: u16)
    requires Fragmented(datagram, pieces) && datagram != []
    ensures e in pieces && e + pieces[e] == |datagram|
    ensures forall o :: o in pieces ==> o <= e
  {
    assert Covered(pieces, |datagram| - 1);
    var last: nat :| last in pieces && last <= |datagram| - 1 < last + pieces[last];
    e := last;
  }

  /** What lies in the overlaid buffer: the arrived tiles, and the leftover unless a tile has replaced it. */
  ghost predicate Overlays(
    datagram: seq<byte>, pieces: Pieces, o: u16, bytes: seq<byte>, arrived: set<nat>, m: map<u16, seq<byte>>)
  {
    && IsTiling(pieces, |datagram|)
    && (forall k :: k in m ==> if k in pieces && k in arrived then m[k] == datagram[k..k + pieces[k]]
                               else k == o && m[k] == bytes)
    && (forall k :: k in pieces && k in arrived ==> k in m)
    && o in m
  }

  lemma OverlaidBuffer(datagram: seq<byte>, pieces: Pieces, o: u16, bytes: seq<byte>, arrived: set<nat>)
    requires Fragmented(datagram, pieces)
    ensures Overlays(datagram, pieces, o, bytes, arrived, Overlaid(datagram, pieces, o, bytes, arrived).fragments)
    ensures
      var buf, end := Overlaid(datagram, pieces, o, bytes, arrived), EndArrived(pieces, |datagram|, arrived);
      buf.lastFragmentReceived == end && (end ==> buf.totalExpectedSize == |datagram|)
  {
  }

  /** The fragment of the arrived tile that covers a position. */
  lemma TileCovers(
    datagram: seq<byte>, pieces: Pieces, o: u16, bytes: seq<byte>, arrived: set<nat>, m: map<u16, seq<byte>>, x: nat)
    requires Overlays(datagram, pieces, o, bytes, arrived, m) && x < |datagram|
    requires forall k :: k in pieces && k <= x < k + pieces[k] ==> k in arrived
    ensures CoveredAt(m, x)
  {
    assert Covered(pieces, x);
    var t: nat :| t in pieces && t <= x < t + pieces[t];
    assert t in m && |m[t]| == pieces[t];
  }

  /** Fragments that are all parts of the datagram make up the datagram. */
  lemma PartsMakeDatagram(datagram: seq<byte>, m: map<u16, seq<byte>>, all: seq<byte>)
    requires EndToEnd(m, |datagram|) && PlacedIn(m, all) && |all| == |datagram|
    requires forall k :: k in m && m[k] != [] ==> m[k] == datagram[k..k + |m[k]|]
    ensures all == datagram
  {
    hide Apart;
    forall x: nat | x < |datagram|
      ensures all[x] == datagram[x]
    {
      assert CoveredAt(m, x);
      var k :| k in m && k <= x < k + |m[k]|;
      assert all[k..k + |m[k]|][x - k] == datagram[k..k + |m[k]|][x - k];
    }
  }

  lemma TilesAreApart(
    datagram: seq<byte>, pieces: Pieces, o: u16, bytes: seq<byte>, arrived: set<nat>, m: map<u16, seq<byte>>)
    requires Overlays(datagram, pieces, o, bytes, arrived, m)
    requires (o in pieces && o in arrived) || (o == |datagram| && bytes == [])
    ensures Apart(m) && forall k :: k in m ==> k + |m[k]| <= |datagram|
  {
    forall k, p | k in m && p in m && k < p
      ensures 0 < |m[k]| && k + |m[k]| <= p
    {
      assert k in pieces && |m[k]| == pieces[k];
    }
  }

  lemma AllTilesEndToEnd(
    datagram: seq<byte>, pieces: Pieces, o: u16, bytes: seq<byte>, m: map<u16, seq<byte>>)
    requires Overlays(datagram, pieces, o, bytes, pieces.Keys, m)
    requires o in pieces || (o == |datagram| && bytes == [])
    ensures EndToEnd(m, |datagram|)
  {
    TilesAreApart(datagram, pieces, o, bytes, pieces.Keys, m);
    hide Apart, CoveredAt, Overlays;
    forall x: nat | x < |datagram|
      ensures CoveredAt(m, x)
    {
      TileCovers(datagram, pieces, o, bytes, pieces.Keys, m, x);
    }
  }

  lemma EndIsThere(datagram: seq<byte>, pieces: Pieces, arrived: set<nat>, e: nat)
    requires e in pieces && e in arrived && e + pieces[e] == |datagram|
    ensures EndArrived(pieces, |datagram|, arrived)
  {
  }

  lemma AllTilesComeOutRight(datagram: seq<byte>, pieces: Pieces, o: u16, bytes: seq<byte>)
    requires Fragmented(datagram, pieces) && datagram != [] && HarmlessLeftover(datagram, pieces, o, bytes)
    ensures Datagram(Overlaid(datagram, pieces, o, bytes, pieces.Keys)) == Some(datagram)
  {
    var buf := Overlaid(datagram, pieces, o, bytes, pieces.Keys);
    assert o in pieces || (o == |datagram| && bytes == []);
    hide Overlaid, Datagram, HarmlessLeftover, EndArrived, EndToEnd, Overlays, PlacedIn;
    OverlaidBuffer(datagram, pieces, o, bytes, pieces.Keys);
    var e := LastTile(datagram, pieces);
    EndIsThere(datagram, pieces, pieces.Keys, e);
    hide Fragmented, IsTiling;
    AllTilesEndToEnd(datagram, pieces, o, bytes, buf.fragments);
    CompleteIffEndToEnd(buf);
    AnyTilesComeOutRight(datagram, pieces, o, bytes, pieces.Keys);
  }

  /** The fragment that covers the place where another ends begins there. */
  lemma NextBegins(m: map<u16, seq<byte>>, o: u16, k: u16)
    requires Apart(m) && o in m && k in m && m[o] != [] && k <= o + |m[o]| < k + |m[k]|
    ensures k == o + |m[o]|
  {
  }

  /** What a harmless leftover contributes to a complete buffer is part of the datagram. */
  lemma LeftoverContributes(
    datagram: seq<byte>, pieces: Pieces, o: u16, bytes: seq<byte>, arrived: set<nat>, m: map<u16, seq<byte>>)
    requires Fragmented(datagram, pieces) && datagram != [] && HarmlessLeftover(datagram, pieces, o, bytes)
    requires bytes != [] && o !in arrived && EndArrived(pieces, |datagram|, arrived)
    requires Overlays(datagram, pieces, o, bytes, arrived, m) && EndToEnd(m, |datagram|)
    ensures o + |bytes| <= |datagram| && bytes == datagram[o..o + |bytes|]
  {
    var e: nat :| e in pieces && e in arrived && e + pieces[e] == |datagram|;
    assert o in m && m[o] == bytes && e in m;
    var c := o + |bytes|;
    assert c <= e && c < |datagram|;
    assert CoveredAt(m, c);
    var k :| k in m && k <= c < k + |m[k]|;
    NextBegins(m, o, k);
    assert c in pieces;
  }

  lemma AnyTilesComeOutRight(datagram: seq<byte>, pieces: Pieces, o: u16, bytes: seq<byte>, arrived: set<nat>)
    requires Fragmented(datagram, pieces) && datagram != [] && HarmlessLeftover(datagram, pieces, o, bytes)
    requires Datagram(Overlaid(datagram, pieces, o, bytes, arrived)).Some?
    ensures Datagram(Overlaid(datagram, pieces, o, bytes, arrived)).value == datagram
  {
    var buf := Overlaid(datagram, pieces, o, bytes, arrived);
    var m := buf.fragments;
    OverlaidBuffer(datagram, pieces, o, bytes, arrived);
    hide Overlaid, Datagram, EndToEnd, PlacedIn, EndArrived, IsTiling, HarmlessLeftover, Fragmented;
    CompleteIffEndToEnd(buf);
    if bytes != [] && o !in arrived {
      LeftoverContributes(datagram, pieces, o, bytes, arrived, m);
    }
    HeldParts(datagram, pieces, o, bytes, arrived, m);
    PartsMakeDatagram(datagram, m, Datagram(buf).value);
  }

  lemma HeldParts(
    datagram: seq<byte>, pieces: Pieces, o: u16, bytes: seq<byte>, arrived: set<nat>, m: map<u16, seq<byte>>)
    requires Overlays(datagram, pieces, o, bytes, arrived, m) && HarmlessLeftover(datagram, pieces, o, bytes)
    requires bytes != [] && o !in arrived ==> o + |bytes| <= |datagram| && bytes == datagram[o..o + |bytes|]
    ensures forall k :: k in m && m[k] != [] ==> k + |m[k]| <= |datagram| && m[k] == datagram[k..k + |m[k]|]
  {
  }

  predicate Misplaced(datagram: seq<byte>, pieces: Pieces, o: u16, bytes: seq<byte>) {
    o !in pieces && !(o == |datagram| && bytes == [])
  }

  /** A fragment away from the tiles' offsets keeps every set of tiles from being complete. */
  lemma MisplacedLeftoverBlocks(datagram: seq<byte>, pieces: Pieces, o: u16, bytes: seq<byte>, arrived: set<nat>)
    requires Fragmented(datagram, pieces) && Misplaced(datagram, pieces, o, bytes)
    ensures Datagram(Overlaid(datagram, pieces, o, bytes, arrived)).None?
  {
    var buf := Overlaid(datagram, pieces, o, bytes, arrived);
    hide Overlaid, Datagram, EndToEnd, Overlays, PlacedIn, IsTiling;
    OverlaidBuffer(datagram, pieces, o, bytes, arrived);
    CompleteIffEndToEnd(buf);
    MisplacedIsNotEndToEnd(datagram, pieces, o, bytes, arrived, buf.fragments);
  }

  lemma MisplacedIsNotEndToEnd(
    datagram: seq<byte>, pieces: Pieces, o: u16, bytes: seq<byte>, arrived: set<nat>, m: map<u16, seq<byte>>)
    requires Overlays(datagram, pieces, o, bytes, arrived, m) && Misplaced(datagram, pieces, o, bytes)
    ensures !EndToEnd(m, |datagram|)
  {
    assert m[o] == bytes;
    if o < |datagram| {
      assert Covered(pieces, o);
      var t: nat :| t in pieces && t <= o < t + pieces[t];
      if t in arrived {
        assert t in m && |m[t]| == pieces[t] && t < o;
      } else {
        assert !CoveredAt(m, t);
      }
    }
  }

  /** The tiles before and behind a leftover that fits between them complete a datagram that nobody sent. */
  lemma FittingLeftoverMixes(datagram: seq<byte>, pieces: Pieces, o: u16, bytes: seq<byte>) returns (arrived: set<nat>)
    requires Fragmented(datagram, pieces) && datagram != []
    requires o in pieces && !HarmlessLeftover(datagram, pieces, o, bytes)
    ensures
      var complete := Datagram(Overlaid(datagram, pieces, o, bytes, arrived));
      complete.Some? && complete.value != datagram
  {
    var c := o + |bytes|;
    assert o <= |datagram|;
    assert datagram[o..o] == [];
    hide Overlaid, Datagram, EndArrived, EndToEnd, Overlays, PlacedIn, IsTiling;
    assert bytes != [] && c in pieces;
    arrived := set k | k in pieces && !(o <= k < c);
    var buf := Overlaid(datagram, pieces, o, bytes, arrived);
    var e := LastTile(datagram, pieces);
    EndIsThere(datagram, pieces, arrived, e);
    OverlaidBuffer(datagram, pieces, o, bytes, arrived);
    FittingIsEndToEnd(datagram, pieces, o, bytes, arrived, buf.fragments);
    CompleteIffEndToEnd(buf);
    LeftoverIsPlaced(datagram, pieces, o, bytes, arrived, buf.fragments, Datagram(buf).value);
  }

  lemma LeftoverIsPlaced(
    datagram: seq<byte>, pieces: Pieces, o: u16, bytes: seq<byte>, arrived: set<nat>, m: map<u16, seq<byte>>,
    all: seq<byte>)
    requires Overlays(datagram, pieces, o, bytes, arrived, m) && o !in arrived && PlacedIn(m, all)
    ensures o + |bytes| <= |all| && all[o..o + |bytes|] == bytes
  {
  }

  lemma FittingIsEndToEnd(
    datagram: seq<byte>, pieces: Pieces, o: u16, bytes: seq<byte>, arrived: set<nat>, m: map<u16, seq<byte>>)
    requires Overlays(datagram, pieces, o, bytes, arrived, m) && o in pieces && bytes != [] && o + |bytes| in pieces
    requires arrived == set k | k in pieces && !(o <= k < o + |bytes|)
    ensures EndToEnd(m, |datagram|)
  {
    var c := o + |bytes|;
    assert m[o] == bytes;
    forall k, p | k in m && p in m && k < p
      ensures 0 < |m[k]| && k + |m[k]| <= p
    {
      if k == o {
        assert p in arrived;
      } else {
        assert k in pieces && p in pieces;
      }
    }
    forall x: nat | x < |datagram|
      ensures CoveredAt(m, x)
    {
      if !(o <= x < c) {
        forall k | k in pieces && k <= x < k + pieces[k]
          ensures k in arrived
        {
          assert k < c ==> k + pieces[k] <= c;
        }
        TileCovers(datagram, pieces, o, bytes, arrived, m, x);
      }
    }
  }

  /** A leftover fragment of an earlier datagram and the next datagram with the same identification: once all tiles have
      arrived the buffer amounts to the new datagram, and for no set of tiles to anything else, if and only if the
      leftover is harmless. */
  lemma LeftoverIsHarmlessIff(datagram: seq<byte>, pieces: Pieces, o: u16, bytes: seq<byte>)
    requires Fragmented(datagram, pieces) && datagram != []
    ensures ComesOutRight(datagram, pieces, o, bytes) <==> HarmlessLeftover(datagram, pieces, o, bytes)
  {
    hide Datagram, Overlaid, IsTiling;
    if HarmlessLeftover(datagram, pieces, o, bytes) {
      AllTilesComeOutRight(datagram, pieces, o, bytes);
      forall arrived: set<nat> | Datagram(Overlaid(datagram, pieces, o, bytes, arrived)).Some?
        ensures Datagram(Overlaid(datagram, pieces, o, bytes, arrived)).value == datagram
      {
        AnyTilesComeOutRight(datagram, pieces, o, bytes, arrived);
      }
    } else if o !in pieces {
      MisplacedLeftoverBlocks(datagram, pieces, o, bytes, pieces.Keys);
    } else {
      var arrived := FittingLeftoverMixes(datagram, pieces, o, bytes);
    }
  }

  // ----- Whole runs -----

  /** No prefix of the arrivals completes the group. */
  ghost predicate Waits(
    key: FragmentGroup, datagram: seq<byte>, pieces: Pieces, o: u16, bytes: seq<byte>, arrivals: seq<Packet>)
    requires IsTiling(pieces, |datagram|)
  {
    forall n :: 0 <= n <= |arrivals| ==>
      Datagram(Overlaid(datagram, pieces, o, bytes, Arrived(key, arrivals[..n]))).None?
  }

  lemma WaitsBefore(
    key: FragmentGroup, datagram: seq<byte>, pieces: Pieces, o: u16, bytes: seq<byte>, arrivals: seq<Packet>)
    requires IsTiling(pieces, |datagram|) && Waits(key, datagram, pieces, o, bytes, arrivals)
    ensures Datagram(Overlaid(datagram, pieces, o, bytes, Arrived(key, arrivals))).None?
    ensures arrivals != [] ==> Waits(key, datagram, pieces, o, bytes, Init(arrivals))
  {
    hide Datagram, Overlaid, IsTiling;
    assert arrivals[..|arrivals|] == arrivals;
    if arrivals != [] {
      forall n | 0 <= n <= |arrivals| - 1
        ensures Datagram(Overlaid(datagram, pieces, o, bytes, Arrived(key, Init(arrivals)[..n]))).None?
      {
        assert Init(arrivals)[..n] == arrivals[..n];
      }
    }
  }

  lemma LeftoverAlone(datagram: seq<byte>, pieces: Pieces, o: u16, bytes: seq<byte>)
    requires IsTiling(pieces, |datagram|)
    ensures Overlaid(datagram, pieces, o, bytes, {}) == FragmentBuffer(map[o := bytes], false, 0)
  {
    assert TileBuffer(datagram, pieces, {}).fragments == map[];
  }

  /** Storing a fragment commutes with a fragment kept below. */
  lemma InsertOver(held: FragmentBuffer, o: u16, bytes: seq<byte>, header: IPv4Header, payload: seq<byte>)
    ensures
      var stored := Insert(held, header, Some(payload));
      Insert(held.(fragments := map[o := bytes] + held.fragments), header, Some(payload))
      == stored.(fragments := map[o := bytes] + stored.fragments)
  {
    hide OffsetOf;
    var off := OffsetOf(header);
    assert map[o := bytes] + held.fragments[off := payload] == (map[o := bytes] + held.fragments)[off := payload];
  }

  lemma InsertIntoOverlaid(
    datagram: seq<byte>, pieces: Pieces, o: u16, bytes: seq<byte>, arrived: set<nat>, p: Packet)
    requires Fragmented(datagram, pieces) && CarriesTile(datagram, pieces, p)
    ensures IsFragment(p.header)
    ensures Insert(Overlaid(datagram, pieces, o, bytes, arrived), p.header, Some(PayloadOf(p)))
            == Overlaid(datagram, pieces, o, bytes, arrived + {ByteOffset(p)})
  {
    hide TileBuffer, IsTiling, Insert;
    InsertTile(datagram, pieces, arrived, p);
    InsertOver(TileBuffer(datagram, pieces, arrived), o, bytes, p.header, PayloadOf(p));
  }

  /** One tile at a group that holds tiles and the leftover. */
  lemma TileAtOverlaid(
    key: FragmentGroup, datagram: seq<byte>, pieces: Pieces, o: u16, bytes: seq<byte>, arrived: set<nat>,
    groups: map<FragmentGroup, FragmentBuffer>, p: Packet)
    requires Fragmented(datagram, pieces) && InGroup(key, p) && CarriesTile(datagram, pieces, p)
    requires BufferOf(groups, key) == Overlaid(datagram, pieces, o, bytes, arrived)
    ensures
      var buf := Overlaid(datagram, pieces, o, bytes, arrived + {ByteOffset(p)});
      Receive(groups, p) ==
      (if Datagram(buf).None? then groups[key := buf] else groups - {key}, Returns(Datagram(buf)))
  {
    InsertIntoOverlaid(datagram, pieces, o, bytes, arrived, p);
    ReadablePayload(p.header, p.fragment, p.behind);
    hide Overlaid, Datagram, Insert, Payload, IsTiling;
  }

  /** After any history that leaves one fragment in the group, tiles of another datagram in any order, interleaved with
      any other packets: up to the first set of tiles that completes the group, the group holds the tiles and the
      leftover; that set makes the call return what they amount to, and the group is gone. */
  lemma {:induction false} TilesOverLeftover(
    key: FragmentGroup, datagram: seq<byte>, pieces: Pieces, o: u16, bytes: seq<byte>,
    history: seq<Packet>, arrivals: seq<Packet>)
    requires Fragmented(datagram, pieces) && CarryTiles(key, datagram, pieces, arrivals)
    requires BufferOf(After(history), key) == FragmentBuffer(map[o := bytes], false, 0)
    requires arrivals != [] ==> Waits(key, datagram, pieces, o, bytes, Init(arrivals))
    ensures
      var all, buf := history + arrivals, Overlaid(datagram, pieces, o, bytes, Arrived(key, arrivals));
      && (if Datagram(buf).None? then BufferOf(After(all), key) == buf else key !in After(all))
      && (arrivals != [] && InGroup(key, Last(arrivals)) ==> Answer(all) == Returns(Datagram(buf)))
    decreases |arrivals|
  {
    hide Overlaid, IsTiling, Waits, Receive;
    if arrivals == [] {
      assert history + arrivals == history;
      LeftoverAlone(datagram, pieces, o, bytes);
    } else {
      var before, p := Init(arrivals), arrivals[|arrivals| - 1];
      assert Init(history + arrivals) == history + before && Last(history + arrivals) == p == Last(arrivals);
      WaitsBefore(key, datagram, pieces, o, bytes, before);
      TilesOverLeftover(key, datagram, pieces, o, bytes, history, before);
      if InGroup(key, p) {
        TileAtOverlaid(key, datagram, pieces, o, bytes, Arrived(key, before), After(history + before), p);
      } else {
        OtherGroupsStay(key, After(history + before), p);
      }
    }
  }

  lemma OtherGroupsStay(key: FragmentGroup, groups: map<FragmentGroup, FragmentBuffer>, p: Packet)
    requires !InGroup(key, p)
    ensures BufferOf(Receive(groups, p).0, key) == BufferOf(groups, key)
    ensures key in Receive(groups, p).0 <==> key in groups
  {
  }

  /** A misplaced leftover is never cleared: whatever tiles of the datagram arrive, in whatever order and however often,
      nothing is returned for the group. */
  lemma MisplacedLeftoverStays(
    key: FragmentGroup, datagram: seq<byte>, pieces: Pieces, o: u16, bytes: seq<byte>,
    history: seq<Packet>, arrivals: seq<Packet>)
    requires Fragmented(datagram, pieces) && CarryTiles(key, datagram, pieces, arrivals)
    requires Misplaced(datagram, pieces, o, bytes)
    requires BufferOf(After(history), key) == FragmentBuffer(map[o := bytes], false, 0)
    ensures BufferOf(After(history + arrivals), key)
            == Overlaid(datagram, pieces, o, bytes, Arrived(key, arrivals))
    ensures arrivals != [] && InGroup(key, Last(arrivals)) ==> Answer(history + arrivals) == Returns(None)
  {
    hide Overlaid, Datagram, IsTiling, Misplaced, After, Answer;
    forall arrived: set<nat>
      ensures Datagram(Overlaid(datagram, pieces, o, bytes, arrived)).None?
    {
      MisplacedLeftoverBlocks(datagram, pieces, o, bytes, arrived);
    }
    TilesOverLeftover(key, datagram, pieces, o, bytes, history, arrivals);
  }
}
