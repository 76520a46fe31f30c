/** Reassembly of an exact tiling does not depend on the order of arrival. */
module DefragmentCompleteness {
  import opened Common
  import opened Flow
  import opened Tiling
  import opened Defragment

  function ByteOffset(p: Packet): nat {
    p.header.fragmentOffset * 8
  }

  /** The packet carries exactly one tile of the datagram. */
  predicate CarriesTile(datagram: seq<byte>, pieces: Pieces, p: Packet) {
    && IsSlice(datagram, p.header, p.fragment)
    && ByteOffset(p) in pieces
    && p.header.totalLength == p.header.ihl * 4 + pieces[ByteOffset(p)]
    && (p.header.moreFragments <==> ByteOffset(p) + pieces[ByteOffset(p)] != |datagram|)
  }

  function PayloadOf(p: Packet): seq<byte>
    requires HeaderLength(p.header) <= p.header.totalLength <= |p.fragment|
  {
    p.fragment[HeaderLength(p.header)..p.header.totalLength]
  }

  predicate InGroup(key: FragmentGroup, p: Packet) {
    FragmentOf(p.header, key)
  }

  /** Packets of the group carry tiles; all other packets are arbitrary. */
  ghost predicate CarryTiles(key: FragmentGroup, datagram: seq<byte>, pieces: Pieces, history: seq<Packet>) {
    forall i :: 0 <= i < |history| && InGroup(key, history[i]) ==> CarriesTile(datagram, pieces, history[i])
  }

  /** A datagram in two or more tiles, all within reach of the 16-bit offset. */
  ghost predicate Fragmented(datagram: seq<byte>, pieces: Pieces) {
    && IsTiling(pieces, |datagram|) && |datagram| < TWO64
    && |datagram| !in pieces.Values
    && forall o :: o in pieces ==> o < 0x1_0000
  }

  /** The tiles of the group that have arrived. */
  function Arrived(key: FragmentGroup, history: seq<Packet>): set<nat> {
    if history == [] then {}
    else if InGroup(key, Last(history)) then Arrived(key, Init(history)) + {ByteOffset(Last(history))}
    else Arrived(key, Init(history))
  }

  ghost predicate EndArrived(pieces: Pieces, n: nat, arrived: set<nat>) {
    exists o :: o in pieces && o in arrived && o + pieces[o] == n
  }

  /** The buffer that holds exactly the arrived tiles. */
  ghost function TileBuffer(datagram: seq<byte>, pieces: Pieces, arrived: set<nat>): FragmentBuffer
    requires IsTiling(pieces, |datagram|)
  {
    var end := EndArrived(pieces, |datagram|, arrived);
    FragmentBuffer(
      map o: u16 | o in pieces && o in arrived :: datagram[o..o + pieces[o]],
      end,
      if end then |datagram| else 0)
  }

  lemma TilePayload(datagram: seq<byte>, pieces: Pieces, p: Packet)
    requires Fragmented(datagram, pieces) && CarriesTile(datagram, pieces, p)
    ensures PayloadOf(p) == datagram[ByteOffset(p)..ByteOffset(p) + pieces[ByteOffset(p)]]
    ensures OffsetOf(p.header) == ByteOffset(p) && IsFragment(p.header)
  {
    assert pieces[ByteOffset(p)] in pieces.Values;
  }

  lemma FragmentsGrow(datagram: seq<byte>, pieces: Pieces, arrived: set<nat>, o: u16)
    requires Fragmented(datagram, pieces) && o in pieces
    ensures TileBuffer(datagram, pieces, arrived + {o}).fragments
            == TileBuffer(datagram, pieces, arrived).fragments[o := datagram[o..o + pieces[o]]]
  {
  }

  lemma InsertTile(datagram: seq<byte>, pieces: Pieces, arrived: set<nat>, p: Packet)
    requires Fragmented(datagram, pieces) && CarriesTile(datagram, pieces, p)
    ensures IsFragment(p.header)
    ensures Insert(TileBuffer(datagram, pieces, arrived), p.header, Some(PayloadOf(p)))
            == TileBuffer(datagram, pieces, arrived + {ByteOffset(p)})
  {
    var o := ByteOffset(p);
    TilePayload(datagram, pieces, p);
    FragmentsGrow(datagram, pieces, arrived, o);
    EndArrivedGrows(pieces, |datagram|, arrived, o);
    hide IsTiling, EndArrived, OffsetOf;
  }

  lemma EndArrivedGrows(pieces: Pieces, n: nat, arrived: set<nat>, o: nat)
    requires o in pieces
    ensures EndArrived(pieces, n, arrived + {o}) <==> EndArrived(pieces, n, arrived) || o + pieces[o] == n
  {
    if EndArrived(pieces, n, arrived) {
      var e :| e in pieces && e in arrived && e + pieces[e] == n;
      assert e in arrived + {o};
    }
    if o + pieces[o] == n {
      assert o in arrived + {o};
    }
  }

  /** The fragments are exactly the arrived tiles. */
  ghost predicate HoldsTiles(datagram: seq<byte>, pieces: Pieces, arrived: set<nat>, m: map<u16, seq<byte>>) {
    && Fragmented(datagram, pieces)
    && (forall o :: o in pieces ==> (o in arrived <==> o in m))
    && (forall o :: o in m ==> o in pieces && m[o] == datagram[o..o + pieces[o]])
  }

  /** The iteration has come to the boundary `at`: no fragment lies between the last key and it. */
  ghost predicate CameTo(
    datagram: seq<byte>, pieces: Pieces, arrived: set<nat>, m: map<u16, seq<byte>>, from: nat, at: nat)
  {
    && HoldsTiles(datagram, pieces, arrived, m)
    && AtBoundary(pieces, at) && from <= at <= |datagram|
    && forall k :: k in m && k >= from ==> k >= at
  }

  /** At a boundary the next fragment is the tile that starts there, or there is a gap. */
  lemma NextTile(datagram: seq<byte>, pieces: Pieces, arrived: set<nat>, m: map<u16, seq<byte>>, from: nat, at: nat)
    requires CameTo(datagram, pieces, arrived, m, from, at)
    ensures from <= at <= |datagram|
    ensures at == |datagram| ==> NextKey(m, from) == None
    ensures at < |datagram| ==>
              && at in pieces && 0 < pieces[at] <= |datagram| - at
              && CameTo(datagram, pieces, arrived, m, at + 1, at + pieces[at])
              && (at in arrived ==> NextKey(m, from) == Some(at) && m[at] == datagram[at..at + pieces[at]])
              && (at !in arrived && NextKey(m, from).Some? ==> NextKey(m, from).value != at)
  {
    if at < |datagram| {
      BoundaryStartsTile(pieces, |datagram|, at);
    }
  }

  lemma TileBehind(
    datagram: seq<byte>, pieces: Pieces, arrived: set<nat>, m: map<u16, seq<byte>>, from: nat, at: nat, o: nat)
    requires CameTo(datagram, pieces, arrived, m, from, at)
    requires at in pieces && o in pieces && at < o
    ensures at + pieces[at] <= o < |datagram|
  {
  }

  /** Contiguous fragments contain every tile of their extent. */
  lemma {:induction false} ContiguousTiles(
    datagram: seq<byte>, pieces: Pieces, arrived: set<nat>, m: map<u16, seq<byte>>, from: nat, at: nat, o: nat)
    requires CameTo(datagram, pieces, arrived, m, from, at) && at <= |datagram|
    requires Assembled(m, from, at).Some?
    requires o in pieces && at <= o < |datagram| && o + pieces[o] <= at + |Assembled(m, from, at).value|
    ensures o in arrived
    decreases |datagram| - at
  {
    hide CameTo;
    NextTile(datagram, pieces, arrived, m, from, at);
    if at != o {
      TileBehind(datagram, pieces, arrived, m, from, at, o);
      ContiguousTiles(datagram, pieces, arrived, m, at + 1, at + pieces[at], o);
    }
  }

  lemma {:induction false} AllTilesAssemble(
    datagram: seq<byte>, pieces: Pieces, arrived: set<nat>, m: map<u16, seq<byte>>, from: nat, at: nat)
    requires CameTo(datagram, pieces, arrived, m, from, at) && at <= |datagram|
    requires Complete(pieces, arrived)
    ensures Assembled(m, from, at) == Some(datagram[at..])
    decreases |datagram| - at
  {
    hide CameTo;
    NextTile(datagram, pieces, arrived, m, from, at);
    if at < |datagram| {
      assert at in pieces.Keys;
      AllTilesAssemble(datagram, pieces, arrived, m, at + 1, at + pieces[at]);
      SuffixSplit(datagram, at, at + pieces[at]);
    } else {
      assert datagram[at..] == [];
    }
  }

  lemma SuffixSplit(s: seq<byte>, a: nat, b: nat)
    requires a <= b <= |s|
    ensures s[a..b] + s[b..] == s[a..]
  {
  }

  ghost predicate Complete(pieces: Pieces, arrived: set<nat>) {
    pieces.Keys <= arrived
  }

  lemma TileBufferHoldsTiles(datagram: seq<byte>, pieces: Pieces, arrived: set<nat>)
    requires Fragmented(datagram, pieces)
    ensures CameTo(datagram, pieces, arrived, TileBuffer(datagram, pieces, arrived).fragments, 0, 0)
  {
  }

  /** The buffer amounts to a datagram exactly when all tiles are in it, and then it is the datagram. */
  lemma TileBufferComplete(datagram: seq<byte>, pieces: Pieces, arrived: set<nat>)
    requires Fragmented(datagram, pieces) && datagram != []
    ensures Datagram(TileBuffer(datagram, pieces, arrived))
            == if Complete(pieces, arrived) then Some(datagram) else None
  {
    var m := TileBuffer(datagram, pieces, arrived).fragments;
    TileBufferHoldsTiles(datagram, pieces, arrived);
    hide HoldsTiles, CameTo;
    if Complete(pieces, arrived) {
      assert Covered(pieces, |datagram| - 1);
      assert datagram[0..] == datagram;
      AllTilesAssemble(datagram, pieces, arrived, m, 0, 0);
    } else if Assembled(m, 0, 0).Some? && |Assembled(m, 0, 0).value| == |datagram| {
      var o :| o in pieces && o !in arrived;
      assert IsTiling(pieces, |datagram|);
      ContiguousTiles(datagram, pieces, arrived, m, 0, 0, o);
    }
  }

  /** For any order with duplicates, interleaved with any other groups: nothing is returned for the group until its
      last missing tile arrives; then exactly the datagram is returned and the group is erased. */
  lemma {:induction false} TilesInAnyOrder(
    key: FragmentGroup, datagram: seq<byte>, pieces: Pieces, history: seq<Packet>)
    requires Fragmented(datagram, pieces) && datagram != []
    requires CarryTiles(key, datagram, pieces, history)
    requires history != [] ==> !Complete(pieces, Arrived(key, Init(history)))
    ensures
      var arrived := Arrived(key, history);
      if Complete(pieces, arrived) then
        history != [] && Answer(history) == Returns(Some(datagram)) && key !in After(history)
      else
        && BufferOf(After(history), key) == TileBuffer(datagram, pieces, arrived)
        && (history != [] && InGroup(key, Last(history)) ==> Answer(history) == Returns(None))
  {
    if history == [] {
      assert Covered(pieces, 0);
      assert TileBuffer(datagram, pieces, {}).fragments == map[];
    } else {
      var p := history[|history| - 1];
      assert Last(history) == p;
      if Init(history) != [] {
        assert Arrived(key, Init(Init(history))) <= Arrived(key, Init(history));
      }
      TilesInAnyOrder(key, datagram, pieces, Init(history));
      if InGroup(key, p) {
        var arrived := Arrived(key, Init(history));
        ReadablePayload(p.header, p.fragment, p.behind);
        InsertTile(datagram, pieces, arrived, p);
        TileBufferComplete(datagram, pieces, arrived + {ByteOffset(p)});
      }
    }
  }

  /** The group key has no protocol, unlike the buffer identifier of RFC 791: fragments of two datagrams that differ
      only there are joined into a datagram that neither sender wrote. */
  lemma ProtocolsAreMixed(ip: Bytes4, header: seq<byte>, a: seq<byte>, b: seq<byte>, behind: nat -> byte)
    requires |header| == 20 && |a| == |b| == 8
    ensures
      var first := Packet(IPv4Header(5, 28, 7, true, 0, 17, ip, ip), header + a, behind);
      var last := Packet(IPv4Header(5, 28, 7, false, 1, 6, ip, ip), header + b, behind);
      && first.header.protocol != last.header.protocol
      && Answer([first, last]) == Returns(Some(a + b))
  {
    var first := Packet(IPv4Header(5, 28, 7, true, 0, 17, ip, ip), header + a, behind);
    var last := Packet(IPv4Header(5, 28, 7, false, 1, 6, ip, ip), header + b, behind);
    hide Receive;
    assert Init([first, last]) == [first] && Init([first]) == [];
    assert After([]) == map[] && After([first]) == Receive(map[], first).0;
    FirstHalfStored(ip, header, a, behind);
    LastHalfCompletes(After([first]), ip, header, a, b, behind);
  }

  lemma FirstHalfStored(ip: Bytes4, header: seq<byte>, a: seq<byte>, behind: nat -> byte)
    requires |header| == 20 && |a| == 8
    ensures
      var first := Packet(IPv4Header(5, 28, 7, true, 0, 17, ip, ip), header + a, behind);
      BufferOf(Receive(map[], first).0, FragmentGroup(7, ip, ip)) == FragmentBuffer(map[0 := a], false, 0)
  {
    var first := Packet(IPv4Header(5, 28, 7, true, 0, 17, ip, ip), header + a, behind);
    assert (header + a)[20..28] == a;
    ReadablePayload(first.header, first.fragment, behind);
    hide Payload;
    var one: map<u16, seq<byte>> := map[0 := a];
    assert Insert(NEW_BUFFER, first.header, Some(a)) == FragmentBuffer(one, false, 0);
  }

  lemma LastHalfCompletes(groups: map<FragmentGroup, FragmentBuffer>, ip: Bytes4, header: seq<byte>, a: seq<byte>,
                          b: seq<byte>, behind: nat -> byte)
    requires |header| == 20 && |a| == |b| == 8
    requires BufferOf(groups, FragmentGroup(7, ip, ip)) == FragmentBuffer(map[0 := a], false, 0)
    ensures
      var last := Packet(IPv4Header(5, 28, 7, false, 1, 6, ip, ip), header + b, behind);
      Receive(groups, last).1 == Returns(Some(a + b))
  {
    var last := Packet(IPv4Header(5, 28, 7, false, 1, 6, ip, ip), header + b, behind);
    assert (header + b)[20..28] == b;
    ReadablePayload(last.header, last.fragment, behind);
    hide Payload;
    var one: map<u16, seq<byte>> := map[0 := a];
    assert Insert(FragmentBuffer(one, false, 0), last.header, Some(b)) == FragmentBuffer(one[8 := b], true, 16);
    TwoHalves(a, b);
    hide Assembled, Insert;
  }

  lemma TwoHalves(a: seq<byte>, b: seq<byte>)
    requires |a| == |b| == 8
    ensures Assembled(map[0 := a, 8 := b], 0, 0) == Some(a + b)
  {
    hide NextKey;
    var m: map<u16, seq<byte>> := map[0 := a, 8 := b];
    assert 0 in m && 8 in m && forall k :: k in m ==> k == 0 || k == 8;
    assert NextKey(m, 0) == Some(0) && NextKey(m, 1) == Some(8) && NextKey(m, 9) == None;
    assert Assembled(m, 9, 16) == Some([]);
    assert b + [] == b;
    assert Assembled(m, 1, 8) == Some(b);
  }
}
