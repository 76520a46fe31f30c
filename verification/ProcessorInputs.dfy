/** Packets for which decoding does not return, and what they do to the processor. */
module ProcessorInputs {
  import opened Common
  import Flow
  import opened Processor
  import opened ProcessorRuns
  import Defragment
  import Dns
  import DnsName

  // ----- A name that points to itself -----

  /** A query whose only name is a pointer to that pointer: 18 bytes of UDP payload. */
  const SELF_POINTING_QUERY: seq<byte> := [0, 1, 1, 0, 0, 1, 0, 0, 0, 0, 0, 0, 0xC0, 0x0C, 0, 1, 0, 1]

  lemma SelfPointingQueryHangs()
    ensures Dns.MessageAt(SELF_POINTING_QUERY, 0) == DnsName.Hangs
  {
    var data := SELF_POINTING_QUERY;
    assert data[12] == 0xC0 && data[13] == 12 && data[4] == 0 && data[5] == 1;
    assert DnsName.MoveAt(data, 0, 12) == DnsName.Jump(12);
    DnsName.SelfPointerNeverHalts(data, 0, 12, |data|);
    var itemAt := p => Dns.QuestionAt(data, 0, p);
    assert itemAt(12) == DnsName.Hangs;
    assert Dns.ItemsAt(itemAt, 12, 0) == DnsName.Finished(Ok(Dns.Parsed([], 12)));
    assert Dns.ItemsAt(itemAt, 12, 1) == DnsName.Hangs;
  }

  /** Decoding an item hangs where decoding its DNS payload does, whatever the worker handled before. */
  ghost predicate FollowsDns(decode: (seq<WorkItem>, WorkItem) -> Decode, dnsPayload: WorkItem -> Option<seq<byte>>) {
    forall handled, item ::
      dnsPayload(item).Some? && Dns.MessageAt(dnsPayload(item).value, 0) == DnsName.Hangs ==>
        decode(handled, item) == Hangs
  }

  /** With that query in flight, stop begins and never returns. */
  lemma SelfPointingQueryBlocksStop(decode: (seq<WorkItem>, WorkItem) -> Decode,
                                    dnsPayload: WorkItem -> Option<seq<byte>>, item: WorkItem)
    returns (steps: seq<Step>, s: State)
    requires FollowsDns(decode, dnsPayload) && dnsPayload(item) == Some(SELF_POINTING_QUERY)
    ensures Runs(OneWorker(decode), Initial(OneWorker(decode)), steps, s)
    ensures BeingStopped(s) && forall more: seq<Step>, t: State :: Runs(OneWorker(decode), s, more, t) ==> !Stopped(t)
  {
    SelfPointingQueryHangs();
    steps, s := HangingItemBlocksStop(decode, item);
  }

  // ----- A fragment whose total length is less than its header's -----

  /** Decoding an item throws where the defragmenter throws for its fragment, whatever groups the worker has. */
  ghost predicate FollowsDefragmenter(decode: (seq<WorkItem>, WorkItem) -> Decode,
                                      fragmentOf: WorkItem -> Option<Defragment.Packet>)
  {
    forall handled, item ::
      fragmentOf(item).Some? && AlwaysThrows(fragmentOf(item).value) ==> decode(handled, item) == Throws
  }

  ghost predicate AlwaysThrows(p: Defragment.Packet) {
    forall groups: map<Defragment.FragmentGroup, Defragment.FragmentBuffer> :: Defragment.Receive(groups, p).1.Throws?
  }

  lemma AlwaysThrowsIff(p: Defragment.Packet)
    ensures AlwaysThrows(p)
            <==> (p.header.fragmentOffset != 0 || p.header.moreFragments)
                 && p.header.totalLength < p.header.ihl * 4 <= |p.fragment|
  {
    hide Defragment.Receive;
    forall groups: map<Defragment.FragmentGroup, Defragment.FragmentBuffer>
      ensures Defragment.Receive(groups, p).1.Throws? <==>
              (p.header.fragmentOffset != 0 || p.header.moreFragments)
              && p.header.totalLength < p.header.ihl * 4 <= |p.fragment|
    {
      Defragment.ThrowsIff(groups, p);
    }
    var none: map<Defragment.FragmentGroup, Defragment.FragmentBuffer> := map[];
    assert AlwaysThrows(p) ==> Defragment.Receive(none, p).1.Throws?;
  }

  /** A first fragment of 20 bytes that claims a total length of 19 ends the process. */
  lemma ShortFragmentEndsProcess(
    decode: (seq<WorkItem>, WorkItem) -> Decode, fragmentOf: WorkItem -> Option<Defragment.Packet>, item: WorkItem,
    ip: Flow.Bytes4, bytes: seq<byte>, behind: nat -> byte)
    returns (steps: seq<Step>, s: State)
    requires FollowsDefragmenter(decode, fragmentOf) && |bytes| == 20
    requires fragmentOf(item)
             == Some(Defragment.Packet(Defragment.IPv4Header(5, 19, 7, true, 0, 17, ip, ip), bytes, behind))
    ensures Runs(OneWorker(decode), Initial(OneWorker(decode)), steps, s)
    ensures s.terminated && forall step :: !Enabled(OneWorker(decode), s, step)
    ensures |s.workers| == 1 && s.workers[0].accepted == [item] && s.workers[0].handled == []
  {
    AlwaysThrowsIff(fragmentOf(item).value);
    steps, s := ThrowingItemEndsProcess(decode, item);
  }
}
