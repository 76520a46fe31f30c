/** Datagrams that differ in identification, source or destination do not disturb each other. */
module DefragmentInterleaving {
  import opened Common
  import opened Flow
  import opened Tiling
  import opened Defragment
  import opened DefragmentCompleteness

  /** The fragments of the datagram that the key names, in order of arrival. */
  function Own(key: FragmentGroup, history: seq<Packet>): seq<Packet> {
    if history == [] then []
    else if FragmentOf(Last(history).header, key) then Own(key, Init(history)) + [Last(history)]
    else Own(key, Init(history))
  }

  /** An own fragment meets only the own buffer. */
  lemma OwnFragment(key: FragmentGroup, a: map<FragmentGroup, FragmentBuffer>,
                    b: map<FragmentGroup, FragmentBuffer>, p: Packet)
    requires FragmentOf(p.header, key) && BufferOf(a, key) == BufferOf(b, key)
    ensures Receive(a, p).1 == Receive(b, p).1
    ensures BufferOf(Receive(a, p).0, key) == BufferOf(Receive(b, p).0, key)
  {
    hide Filled, Datagram;
  }

  lemma ForeignFragment(key: FragmentGroup, a: map<FragmentGroup, FragmentBuffer>, p: Packet)
    requires !FragmentOf(p.header, key)
    ensures BufferOf(Receive(a, p).0, key) == BufferOf(a, key)
  {
    hide Filled, Datagram;
  }

  /** Whatever else arrives, fragments of other datagrams included: what is buffered and what is returned for a datagram
      are decided by its own fragments alone. */
  lemma {:induction false} OnlyOwnFragmentsMatter(key: FragmentGroup, history: seq<Packet>)
    ensures BufferOf(After(history), key) == BufferOf(After(Own(key, history)), key)
    ensures history != [] && FragmentOf(Last(history).header, key) ==>
              Own(key, history) != [] && Answer(history) == Answer(Own(key, history))
  {
    hide Receive, FragmentOf;
    if history != [] {
      var before, p := Init(history), Last(history);
      OnlyOwnFragmentsMatter(key, before);
      if FragmentOf(p.header, key) {
        var own := Own(key, before);
        assert Init(own + [p]) == own && Last(own + [p]) == p;
        OwnFragment(key, After(before), After(own), p);
      } else {
        ForeignFragment(key, After(before), p);
      }
    }
  }

  /** Position `n` of a history: a fragment of the datagram came and the datagram was returned. */
  ghost predicate ReturnedAt(key: FragmentGroup, datagram: seq<byte>, history: seq<Packet>, n: nat) {
    n < |history| && FragmentOf(history[n].header, key) && Answer(history[..n + 1]) == Returns(Some(datagram))
  }

  /** A datagram all of whose tiles arrive is returned, among whatever else arrives. */
  lemma {:induction false} CompleteDatagramIsReturned(
    key: FragmentGroup, datagram: seq<byte>, pieces: Pieces, history: seq<Packet>) returns (n: nat)
    requires Fragmented(datagram, pieces) && datagram != []
    requires CarryTiles(key, datagram, pieces, history) && Complete(pieces, Arrived(key, history))
    ensures ReturnedAt(key, datagram, history, n)
  {
    hide Fragmented, CarriesTile, FragmentOf, Answer, After;
    if history == [] {
      SomeTile(datagram, pieces);
      assert false;
    }
    var before, p := Init(history), history[|history| - 1];
    assert Last(history) == p && history[..|history|] == history;
    if Complete(pieces, Arrived(key, before)) {
      n := CompleteDatagramIsReturned(key, datagram, pieces, before);
      assert before[..n + 1] == history[..n + 1];
    } else {
      TilesInAnyOrder(key, datagram, pieces, history);
      n := |history| - 1;
    }
  }

  lemma SomeTile(datagram: seq<byte>, pieces: Pieces)
    requires Fragmented(datagram, pieces) && datagram != []
    ensures pieces.Keys != {}
  {
    assert Covered(pieces, 0);
    var o: nat :| o in pieces && o <= 0 < o + pieces[o];
  }

  /** Two datagrams that differ in identification, source or destination, their tiles interleaved anyhow with each other
      and with anything else: each is returned, with a fragment of its own. */
  lemma BothAreReturned(
    a: FragmentGroup, first: seq<byte>, cut: Pieces, b: FragmentGroup, second: seq<byte>, other: Pieces,
    history: seq<Packet>)
    returns (m: nat, n: nat)
    requires a.identification != b.identification || a.srcIp != b.srcIp || a.dstIp != b.dstIp
    requires Fragmented(first, cut) && first != [] && Fragmented(second, other) && second != []
    requires CarryTiles(a, first, cut, history) && Complete(cut, Arrived(a, history))
    requires CarryTiles(b, second, other, history) && Complete(other, Arrived(b, history))
    ensures ReturnedAt(a, first, history, m) && ReturnedAt(b, second, history, n) && m != n
  {
    hide Fragmented, CarryTiles, Arrived, Answer;
    m := CompleteDatagramIsReturned(a, first, cut, history);
    n := CompleteDatagramIsReturned(b, second, other, history);
  }

  /** The first fragment from one sender and the last from another: nothing is returned, for all contents. */
  lemma SendersAreKeptApart(a: Bytes4, b: Bytes4, to: Bytes4, id: u16, header: seq<byte>, x: seq<byte>, y: seq<byte>,
                            behind: nat -> byte)
    requires a != b && |header| == 20 && |x| == |y| == 8
    ensures
      var first := Packet(IPv4Header(5, 28, id, true, 0, 17, a, to), header + x, behind);
      var last := Packet(IPv4Header(5, 28, id, false, 1, 17, b, to), header + y, behind);
      Answer([first, last]) == Returns(None)
  {
    var first := Packet(IPv4Header(5, 28, id, true, 0, 17, a, to), header + x, behind);
    var last := Packet(IPv4Header(5, 28, id, false, 1, 17, b, to), header + y, behind);
    var key := FragmentGroup(id, b, to);
    assert Init([first, last]) == [first] && Init([first]) == [] && Own(key, [first]) == [];
    assert Own(key, [first, last]) == [last];
    hide Receive;
    OnlyOwnFragmentsMatter(key, [first, last]);
    LastHalfAlone(last, header, y);
  }

  lemma LastHalfAlone(last: Packet, header: seq<byte>, y: seq<byte>)
    requires last.header.ihl == 5 && last.header.totalLength == 28 && last.header.fragmentOffset == 1
    requires !last.header.moreFragments && last.fragment == header + y && |header| == 20 && |y| == 8
    ensures Answer([last]) == Returns(None)
  {
    assert Init([last]) == [] && After([]) == map[];
    assert (header + y)[20..28] == y;
    ReadablePayload(last.header, last.fragment, last.behind);
    hide Payload;
    var one: map<u16, seq<byte>> := map[8 := y];
    assert Insert(NEW_BUFFER, last.header, Some(y)) == FragmentBuffer(one, true, 16);
    assert 8 in one && NextKey(one, 0) == Some(8);
    hide NextKey;
    assert Assembled(one, 0, 0) == None;
  }
}
