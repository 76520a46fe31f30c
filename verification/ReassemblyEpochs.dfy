/** What repeated SYNs do: each begins an epoch in which the stream is delivered again from its first byte. */
module ReassemblyEpochs {
  import opened Common
  import opened Reassembly
  import opened ReassemblySafety

  /** What is delivered between one SYN and the next, in order; the first epoch is the one before any SYN. */
  function Epochs(maxStreamBytes: nat, history: seq<Arrival>): (r: seq<seq<byte>>)
    ensures r != []
  {
    if history == [] then [[]]
    else
      var before := Epochs(maxStreamBytes, Init(history));
      if Last(history).header.syn then before + [[]]
      else Init(before) + [Last(before) + DataOf(Returned(maxStreamBytes, history))]
  }

  lemma FlattenGrows(epochs: seq<seq<byte>>, more: seq<byte>)
    requires epochs != []
    ensures Flatten(Init(epochs) + [Last(epochs) + more]) == Flatten(epochs) + more
    ensures Flatten(epochs + [[]]) == Flatten(epochs)
  {
    assert Init(Init(epochs) + [Last(epochs) + more]) == Init(epochs);
    assert Init(epochs + [[]]) == epochs;
    ConcatAssociates(Flatten(Init(epochs)), Last(epochs), more);
  }

  /** The epochs in order are everything delivered; the last is what was delivered since the last SYN. */
  lemma {:induction false} EpochsTogether(maxStreamBytes: nat, history: seq<Arrival>)
    ensures Flatten(Epochs(maxStreamBytes, history)) == Delivered(maxStreamBytes, history)
    ensures Last(Epochs(maxStreamBytes, history)) == DeliveredSinceSyn(maxStreamBytes, history)
  {
    hide Returned;
    if history == [] {
      var none: seq<seq<byte>> := [[]];
      assert Init(none) == [];
    } else {
      EpochsTogether(maxStreamBytes, Init(history));
      FlattenGrows(Epochs(maxStreamBytes, Init(history)), DataOf(Returned(maxStreamBytes, history)));
      if Last(history).header.syn {
        SynReturnsNothing(maxStreamBytes, history);
      }
    }
  }

  lemma SynReturnsNothing(maxStreamBytes: nat, history: seq<Arrival>)
    requires history != [] && Last(history).header.syn
    ensures DataOf(Returned(maxStreamBytes, history)) == []
  {
  }

  ghost predicate ArePrefixes(stream: seq<byte>, epochs: seq<seq<byte>>) {
    forall i :: 0 <= i < |epochs| ==> epochs[i] <= stream
  }

  lemma PrefixesGrow(stream: seq<byte>, epochs: seq<seq<byte>>, last: seq<byte>)
    requires epochs != [] && ArePrefixes(stream, epochs) && last <= stream
    ensures ArePrefixes(stream, Init(epochs) + [last]) && ArePrefixes(stream, epochs + [last])
  {
  }

  /** Safety for any number of SYNs of one sender, all announcing the same number: every epoch is a prefix of the
      sender's stream. A SYN of another connection is the subject of `ReassemblyNewStream`. */
  lemma {:induction false} EpochsArePrefixes(maxStreamBytes: nat, stream: seq<byte>, base: u32, history: seq<Arrival>)
    requires |stream| < TWO32 && FromSender(stream, base, history) && OpensAtBase(base, history)
    ensures ArePrefixes(stream, Epochs(maxStreamBytes, history))
  {
    hide FromSender, OpensAtBase, Returned, ArePrefixes, DeliveredSinceSyn;
    if history == [] {
      EmptyIsPrefix(stream);
    } else {
      HypothesesHoldBefore(stream, base, base, history);
      EpochsArePrefixes(maxStreamBytes, stream, base, Init(history));
      LastEpochIsPrefix(maxStreamBytes, stream, base, history);
      EpochsTogether(maxStreamBytes, history);
      PrefixesGrow(stream, Epochs(maxStreamBytes, Init(history)), DeliveredSinceSyn(maxStreamBytes, history));
    }
  }

  lemma EmptyIsPrefix(stream: seq<byte>)
    ensures ArePrefixes(stream, [[]])
  {
  }

  lemma LastEpochIsPrefix(maxStreamBytes: nat, stream: seq<byte>, base: u32, history: seq<Arrival>)
    requires |stream| < TWO32 && FromSender(stream, base, history) && OpensAtBase(base, history)
    ensures DeliveredSinceSyn(maxStreamBytes, history) <= stream
  {
    assert Advance(base, 0) == base;
    hide FromSender, OpensAtBase, DeliveredSinceSyn, After, Consistent;
    DeliversFromOrigin(maxStreamBytes, stream, base, 0, history);
  }

  // ----- When an epoch delivers -----

  /** Arrival `i` passes the checks and is stored while the stream's first byte is at hand: it carries that byte, or the
      byte is still buffered, even from an earlier epoch. */
  predicate StoredWithFirstByte(maxStreamBytes: nat, base: u32, history: seq<Arrival>, i: nat)
    requires i < |history|
  {
    var s := After(maxStreamBytes, history[..i]);
    Stored(maxStreamBytes, s, history[i]) > 0 && (history[i].header.seqNum == base || base in s.segments)
  }

  predicate NoSynFrom(history: seq<Arrival>, i: nat) {
    forall j :: i <= j < |history| ==> !history[j].header.syn
  }

  ghost predicate EpochOpens(maxStreamBytes: nat, base: u32, history: seq<Arrival>) {
    exists i :: 0 <= i < |history| && NoSynFrom(history, i) && StoredWithFirstByte(maxStreamBytes, base, history, i)
  }

  /** An arrival at a stream that waits for its first byte delivers if and only if that byte is then at hand. */
  lemma FirstByteDelivers(s: StreamBuffer, maxStreamBytes: nat, base: u32, a: Arrival)
    requires NoEmptySegment(s)
    requires !a.header.syn && a.payload != [] ==> Open(s, a.header.seqNum).nextExpectedSeq == base
    ensures DataOf(Receive(s, maxStreamBytes, a.header, a.payload).1) != []
            <==> Stored(maxStreamBytes, s, a) > 0 && (a.header.seqNum == base || base in s.segments)
  {
    hide IsRetransmission;
    if Stored(maxStreamBytes, s, a) > 0 {
      DrainAccounts(Store(Open(s, a.header.seqNum), a.header.seqNum, a.payload));
    }
  }

  lemma EpochOpensSnoc(maxStreamBytes: nat, base: u32, history: seq<Arrival>)
    requires history != [] && !Last(history).header.syn
    ensures
      EpochOpens(maxStreamBytes, base, history) <==>
      EpochOpens(maxStreamBytes, base, Init(history))
      || StoredWithFirstByte(maxStreamBytes, base, history, |history| - 1)
  {
    hide StoredWithFirstByte;
    var n, before := |history| - 1, Init(history);
    assert Last(history) == history[n];
    forall i | 0 <= i < n
      ensures NoSynFrom(history, i) <==> NoSynFrom(before, i)
      ensures StoredWithFirstByte(maxStreamBytes, base, history, i)
              <==> StoredWithFirstByte(maxStreamBytes, base, before, i)
    {
      assert forall j :: 0 <= j < n ==> before[j] == history[j];
      SameStorage(maxStreamBytes, base, history, i);
    }
    assert NoSynFrom(history, n);
  }

  lemma SameStorage(maxStreamBytes: nat, base: u32, history: seq<Arrival>, i: nat)
    requires history != [] && i < |history| - 1
    ensures StoredWithFirstByte(maxStreamBytes, base, history, i)
            <==> StoredWithFirstByte(maxStreamBytes, base, Init(history), i)
  {
    assert history[..i] == Init(history)[..i];
  }

  /** The last epoch delivers anything if and only if, behind its SYN, a segment is accepted while the stream's first
      byte is at hand. */
  lemma {:induction false} EpochDeliversIff(maxStreamBytes: nat, stream: seq<byte>, base: u32, history: seq<Arrival>)
    requires |stream| < TWO32 && FromSender(stream, base, history) && OpensAtBase(base, history)
    ensures DeliveredSinceSyn(maxStreamBytes, history) != [] <==> EpochOpens(maxStreamBytes, base, history)
  {
    hide FromSender, OpensAtBase, Receive, StoredWithFirstByte, NoEmptySegment;
    if history != [] {
      if Last(history).header.syn {
        SynClosesEpoch(maxStreamBytes, base, history);
      } else {
        var before := Init(history);
        HypothesesHoldBefore(stream, base, base, history);
        EpochDeliversIff(maxStreamBytes, stream, base, before);
        EpochOpensSnoc(maxStreamBytes, base, history);
        hide EpochOpens;
        if DeliveredSinceSyn(maxStreamBytes, before) == [] {
          WaitsForFirstByte(maxStreamBytes, stream, base, history);
          Accounting(maxStreamBytes, before);
          FirstByteDelivers(After(maxStreamBytes, before), maxStreamBytes, base, Last(history));
          LastStorage(maxStreamBytes, base, history);
        }
      }
    }
  }

  lemma SynClosesEpoch(maxStreamBytes: nat, base: u32, history: seq<Arrival>)
    requires history != [] && Last(history).header.syn
    ensures !EpochOpens(maxStreamBytes, base, history)
  {
    hide StoredWithFirstByte;
    assert history[|history| - 1].header.syn;
  }

  lemma LastStorage(maxStreamBytes: nat, base: u32, history: seq<Arrival>)
    requires history != []
    ensures
      var s, a := After(maxStreamBytes, Init(history)), Last(history);
      StoredWithFirstByte(maxStreamBytes, base, history, |history| - 1)
      <==> Stored(maxStreamBytes, s, a) > 0 && (a.header.seqNum == base || base in s.segments)
  {
    assert history[..|history| - 1] == Init(history);
  }

  /** As long as an epoch has delivered nothing, the first byte of the stream is expected. */
  lemma WaitsForFirstByte(maxStreamBytes: nat, stream: seq<byte>, base: u32, history: seq<Arrival>)
    requires |stream| < TWO32 && FromSender(stream, base, history) && OpensAtBase(base, history)
    requires history != [] && DeliveredSinceSyn(maxStreamBytes, Init(history)) == []
    ensures
      var a := Last(history);
      !a.header.syn && a.payload != [] ==>
        Open(After(maxStreamBytes, Init(history)), a.header.seqNum).nextExpectedSeq == base
  {
    hide FromSender, OpensAtBase, DeliveredSinceSyn, After;
    assert Advance(base, 0) == base;
    HypothesesHoldBefore(stream, base, base, history);
    DeliversFromOrigin(maxStreamBytes, stream, base, 0, Init(history));
    var a := Last(history);
    if !a.header.syn && a.payload != [] && !After(maxStreamBytes, Init(history)).synSeen {
      OpeningArrivalIsBase(maxStreamBytes, base, history);
    }
  }

  // ----- Each epoch by itself -----

  function Syns(history: seq<Arrival>): nat {
    if history == [] then 0 else Syns(Init(history)) + (if Last(history).header.syn then 1 else 0)
  }

  /** Where epoch `i` ends: at the next SYN, or at the end of the history. */
  function EpochEnd(history: seq<Arrival>, i: nat): (end: nat)
    ensures end <= |history|
  {
    if i >= Syns(history) then |history| else EpochEnd(Init(history), i)
  }

  /** The end is the end of the history for the last epoch, and the SYN that has `i` SYNs before it for epoch `i`. */
  lemma {:induction false} EpochEndsAtSyn(history: seq<Arrival>, i: nat)
    requires i <= Syns(history)
    ensures
      var end := EpochEnd(history, i);
      && Syns(history[..end]) == i
      && (end == |history| <==> i == Syns(history))
      && (end < |history| ==> history[end].header.syn)
  {
    if i == Syns(history) {
      assert history[..|history|] == history;
    } else {
      EpochEndsAtSyn(Init(history), i);
      var end := EpochEnd(history, i);
      assert history[..end] == Init(history)[..end];
    }
  }

  /** Epoch `i` is what is delivered since the last SYN of the history up to the next one. */
  lemma {:induction false} EpochIsSinceSyn(maxStreamBytes: nat, history: seq<Arrival>, i: nat)
    requires i <= Syns(history)
    ensures |Epochs(maxStreamBytes, history)| == Syns(history) + 1
    ensures Epochs(maxStreamBytes, history)[i] == DeliveredSinceSyn(maxStreamBytes, history[..EpochEnd(history, i)])
  {
    hide DeliveredSinceSyn, Returned;
    if history != [] {
      EpochIsSinceSyn(maxStreamBytes, Init(history), if i <= Syns(Init(history)) then i else 0);
    }
    if i == Syns(history) {
      EpochsTogether(maxStreamBytes, history);
      assert history[..|history|] == history;
    } else {
      var end := EpochEnd(history, i);
      assert history[..end] == Init(history)[..end];
    }
  }

  /** Epoch `i` accepts a segment, behind its SYN, while the stream's first byte is at hand. */
  ghost predicate Opens(maxStreamBytes: nat, base: u32, history: seq<Arrival>, i: nat) {
    EpochOpens(maxStreamBytes, base, history[..EpochEnd(history, i)])
  }

  ghost predicate AtMostOneOpens(maxStreamBytes: nat, base: u32, history: seq<Arrival>) {
    forall i: nat, j: nat :: i < j <= Syns(history) ==>
      !(Opens(maxStreamBytes, base, history, i) && Opens(maxStreamBytes, base, history, j))
  }

  lemma HypothesesHoldUpTo(stream: seq<byte>, base: u32, history: seq<Arrival>, end: nat)
    requires FromSender(stream, base, history) && OpensAtBase(base, history) && end <= |history|
    ensures FromSender(stream, base, history[..end]) && OpensAtBase(base, history[..end])
  {
    hide Piece;
    var before := history[..end];
    forall i | 0 <= i < end && before[i].payload != [] && !before[i].header.syn
               && forall j :: 0 <= j < i ==> !before[j].header.syn && before[j].payload == []
      ensures before[i].header.seqNum == base
    {
      assert forall j :: 0 <= j < i ==> history[j] == before[j];
    }
  }

  /** Any epoch delivers something if and only if it opens. */
  lemma EveryEpochDeliversIff(maxStreamBytes: nat, stream: seq<byte>, base: u32, history: seq<Arrival>, i: nat)
    requires |stream| < TWO32 && FromSender(stream, base, history) && OpensAtBase(base, history)
    requires i <= Syns(history)
    ensures |Epochs(maxStreamBytes, history)| == Syns(history) + 1
    ensures Epochs(maxStreamBytes, history)[i] != [] <==> Opens(maxStreamBytes, base, history, i)
  {
    var end := EpochEnd(history, i);
    HypothesesHoldUpTo(stream, base, history, end);
    hide FromSender, OpensAtBase, EpochOpens, DeliveredSinceSyn, Epochs, EpochEnd;
    EpochIsSinceSyn(maxStreamBytes, history, i);
    EpochDeliversIff(maxStreamBytes, stream, base, history[..end]);
  }

  // ----- How often a byte comes out -----

  /** For each delivered byte its offset in the sender's stream, if every epoch is a prefix of it. */
  function Origins(epochs: seq<seq<byte>>): seq<nat> {
    if epochs == [] then [] else Origins(Init(epochs)) + seq(|Last(epochs)|, i => i)
  }

  /** The number of epochs that delivered anything. */
  function Productive(epochs: seq<seq<byte>>): nat {
    if epochs == [] then 0 else Productive(Init(epochs)) + (if Last(epochs) == [] then 0 else 1)
  }

  predicate Distinct(offsets: seq<nat>) {
    forall i, j :: 0 <= i < j < |offsets| ==> offsets[i] != offsets[j]
  }

  lemma {:induction false} OriginsAreTrue(stream: seq<byte>, epochs: seq<seq<byte>>)
    requires ArePrefixes(stream, epochs)
    ensures |Origins(epochs)| == |Flatten(epochs)|
    ensures forall k :: 0 <= k < |Origins(epochs)| ==>
              Origins(epochs)[k] < |stream| && Flatten(epochs)[k] == stream[Origins(epochs)[k]]
  {
    if epochs != [] {
      OriginsAreTrue(stream, Init(epochs));
      assert Last(epochs) == epochs[|epochs| - 1];
    }
  }

  lemma {:induction false} FirstByteComesOut(epochs: seq<seq<byte>>)
    ensures if Productive(epochs) == 0 then Origins(epochs) == [] && Flatten(epochs) == [] else 0 in Origins(epochs)
  {
    if epochs != [] {
      FirstByteComesOut(Init(epochs));
      if Last(epochs) != [] {
        assert Origins(epochs)[|Origins(Init(epochs))|] == 0;
      }
    }
  }

  lemma {:induction false} DistinctIff(epochs: seq<seq<byte>>)
    ensures Distinct(Origins(epochs)) <==> Productive(epochs) <= 1
  {
    if epochs != [] {
      DistinctIff(Init(epochs));
      FirstByteComesOut(Init(epochs));
      var before := Origins(Init(epochs));
      if Last(epochs) == [] {
        assert Origins(epochs) == before;
      } else if Productive(Init(epochs)) > 0 {
        var k :| 0 <= k < |before| && before[k] == 0;
        assert Origins(epochs)[k] == 0 && Origins(epochs)[|before|] == 0;
      }
    }
  }

  lemma {:induction false} OneProductiveEpoch(stream: seq<byte>, epochs: seq<seq<byte>>)
    requires ArePrefixes(stream, epochs) && Productive(epochs) <= 1
    ensures Flatten(epochs) <= stream
  {
    if epochs != [] {
      assert Last(epochs) == epochs[|epochs| - 1];
      if Last(epochs) == [] {
        OneProductiveEpoch(stream, Init(epochs));
      } else {
        FirstByteComesOut(Init(epochs));
      }
    }
  }

  lemma {:induction false} NoneProductive(epochs: seq<seq<byte>>)
    ensures Productive(epochs) == 0 <==> forall i :: 0 <= i < |epochs| ==> epochs[i] == []
  {
    if epochs != [] {
      NoneProductive(Init(epochs));
      assert Last(epochs) == epochs[|epochs| - 1];
    }
  }

  lemma {:induction false} AtMostOneProductive(epochs: seq<seq<byte>>)
    ensures Productive(epochs) <= 1 <==> forall i, j :: 0 <= i < j < |epochs| ==> epochs[i] == [] || epochs[j] == []
  {
    if epochs != [] {
      var before, n := Init(epochs), |epochs| - 1;
      AtMostOneProductive(before);
      NoneProductive(before);
      assert epochs == before + [epochs[n]];
      assert forall i :: 0 <= i < n ==> before[i] == epochs[i];
    }
  }

  lemma OneOpensIff(maxStreamBytes: nat, stream: seq<byte>, base: u32, history: seq<Arrival>)
    requires |stream| < TWO32 && FromSender(stream, base, history) && OpensAtBase(base, history)
    ensures Productive(Epochs(maxStreamBytes, history)) <= 1 <==> AtMostOneOpens(maxStreamBytes, base, history)
  {
    var epochs := Epochs(maxStreamBytes, history);
    EpochIsSinceSyn(maxStreamBytes, history, 0);
    AtMostOneProductive(epochs);
    hide FromSender, OpensAtBase, Epochs, Productive, Opens, DeliveredSinceSyn;
    forall i: nat | i <= Syns(history)
      ensures epochs[i] != [] <==> Opens(maxStreamBytes, base, history, i)
    {
      EveryEpochDeliversIff(maxStreamBytes, stream, base, history, i);
    }
  }

  /** For every history of a sender's pieces with any number of its SYNs: every delivered byte is the stream's byte at a
      known offset, and no offset comes out twice if and only if at most one epoch opens; the data is then a prefix of
      the stream. */
  lemma EachByteOnceIff(maxStreamBytes: nat, stream: seq<byte>, base: u32, history: seq<Arrival>)
    requires |stream| < TWO32 && FromSender(stream, base, history) && OpensAtBase(base, history)
    ensures
      var epochs, out := Epochs(maxStreamBytes, history), Delivered(maxStreamBytes, history);
      && |Origins(epochs)| == |out|
      && (forall k :: 0 <= k < |out| ==> Origins(epochs)[k] < |stream| && out[k] == stream[Origins(epochs)[k]])
      && (Distinct(Origins(epochs)) <==> AtMostOneOpens(maxStreamBytes, base, history))
      && (AtMostOneOpens(maxStreamBytes, base, history) ==> out <= stream)
  {
    var epochs := Epochs(maxStreamBytes, history);
    EpochsTogether(maxStreamBytes, history);
    EpochsArePrefixes(maxStreamBytes, stream, base, history);
    OneOpensIff(maxStreamBytes, stream, base, history);
    hide FromSender, OpensAtBase, Epochs, Delivered, DeliveredSinceSyn, ArePrefixes, AtMostOneOpens;
    OriginsAreTrue(stream, epochs);
    DistinctIff(epochs);
    if Productive(epochs) <= 1 {
      OneProductiveEpoch(stream, epochs);
    }
  }
}
