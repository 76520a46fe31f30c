/** What overwriting a buffered segment loses, and when the order of arrival matters. */
module ReassemblyOrder {
  import opened Common
  import opened Reassembly
  import opened ReassemblyOffsets
  import opened ReassemblyCompleteness
  import opened Tiling

  // ----- What overwriting loses -----

  /** Every byte buffered before is still buffered under its segment's number, or delivered. */
  ghost predicate Retains(v: Picture, w: Picture) {
    forall o :: o in v.kept ==>
      o + v.kept[o] <= w.delivered || (o in w.kept && v.kept[o] <= w.kept[o])
  }

  /** The store's guard lets the part through, and a longer segment is buffered under its number. */
  predicate OverwritesLonger(max: nat, v: Picture, p: Part) {
    Fits(max, v, p) && !Repeats(v, p) && p.offset in v.kept && p.size < v.kept[p.offset]
  }

  /** An arrival throws buffered bytes away if and only if it is stored over a longer segment. */
  lemma BytesAreLostIff(n: nat, max: nat, v: Picture, p: Part)
    requires Within(n, v.kept) && v.delivered <= n && v.delivered !in v.kept && PartOf(n, p)
    ensures !Retains(v, Arrive(max, v, p)) <==> OverwritesLonger(max, v, p)
  {
    if Fits(max, v, p) && !Repeats(v, p) {
      if p.offset in v.kept {
        assert Advanced(Kept(v, p)) == Kept(v, p);
      } else {
        NewPartRetains(n, v, p);
      }
    }
  }

  lemma NewPartRetains(n: nat, v: Picture, p: Part)
    requires Within(n, v.kept) && v.delivered <= n && PartOf(n, p) && p.offset !in v.kept
    ensures Retains(v, Advanced(Kept(v, p)))
  {
    TakenRetains(n, Kept(v, p));
  }

  lemma {:induction false} TakenRetains(n: nat, v: Picture)
    requires Within(n, v.kept) && v.delivered <= n
    ensures Retains(v, Advanced(v)) && v.delivered <= Advanced(v).delivered
    decreases |v.kept|
  {
    if v.delivered in v.kept {
      TakenRetains(n, Taken(v));
    }
  }

  // ----- When the order matters -----

  ghost predicate CutOf(n: nat, cut: set<Part>) {
    forall p :: p in cut ==> PartOf(n, p)
  }

  /** The arrivals are exactly the parts of the cut, each at least once. */
  ghost predicate Covers(cut: set<Part>, parts: seq<Part>) {
    forall p :: p in cut <==> p in parts
  }

  /** One of the lengths available at each offset of the cut. */
  ghost predicate IsChoice(cut: set<Part>, choice: Pieces) {
    && (forall p :: p in cut ==> p.offset in choice)
    && (forall o :: o in choice ==> Part(o, choice[o]) in cut)
  }

  lemma ChoiceWithin(n: nat, cut: set<Part>, choice: Pieces)
    requires CutOf(n, cut) && IsChoice(cut, choice)
    ensures Within(n, choice)
  {
  }

  ghost function SizeAt(cut: set<Part>, o: nat): nat
    requires exists p :: p in cut && p.offset == o
  {
    var p :| p in cut && p.offset == o;
    p.size
  }

  lemma SizeAtIsAvailable(cut: set<Part>, o: nat)
    requires exists p :: p in cut && p.offset == o
    ensures Part(o, SizeAt(cut, o)) in cut
  {
    var p :| p in cut && p.offset == o && SizeAt(cut, o) == p.size;
    assert p == Part(o, p.size);
  }

  /** Whatever the order, what is delivered is where some choice of lengths leads. */
  lemma OutcomeIsChoice(n: nat, cut: set<Part>, parts: seq<Part>) returns (choice: Pieces)
    requires CutOf(n, cut) && Covers(cut, parts) && PartsOf(n, parts)
    ensures IsChoice(cut, choice) && Within(n, choice)
    ensures Reach(n, choice, 0) == Reach(n, Effective(n, parts), 0)
  {
    var lengths := Effective(n, parts);
    EffectiveIsArrived(n, parts);
    var offsets := set p | p in cut :: p.offset;
    choice := map o | o in offsets :: if o in lengths then lengths[o] else SizeAt(cut, o);
    forall o | o in choice
      ensures Part(o, choice[o]) in cut
    {
      if o !in lengths {
        SizeAtIsAvailable(cut, o);
      }
    }
    forall o | o in lengths
      ensures o in choice && choice[o] == lengths[o]
    {
      assert Part(o, lengths[o]) in cut;
    }
    ChoiceWithin(n, cut, choice);
    ReachThrough(n, lengths, choice, 0);
    forall o | o in choice
      ensures o in lengths || o < Reach(n, lengths, 0)
    {
      assert Part(o, choice[o]) in parts;
    }
  }

  ghost function Listed(s: set<Part>): (r: seq<Part>)
    ensures forall p :: p in r <==> p in s
  {
    if s == {} then [] else
      var p :| p in s;
      [p] + Listed(s - {p})
  }

  lemma {:induction false} NothingAtZero(n: nat, parts: seq<Part>)
    requires PartsOf(n, parts) && forall p :: p in parts ==> p.offset != 0
    ensures 0 !in Effective(n, parts) && Reach(n, Effective(n, parts), 0) == 0
    ensures forall p :: p in parts ==> p.offset in Effective(n, parts)
  {
    EffectiveIsArrived(n, parts);
    forall o | o in Effective(n, parts)
      ensures o != 0
    {
      assert Part(o, Effective(n, parts)[o]) in parts;
    }
  }

  /** While nothing is delivered, the last length to arrive counts. */
  lemma {:induction false} LastLengthCounts(n: nat, front: seq<Part>, chosen: seq<Part>, choice: Pieces)
    requires PartsOf(n, front) && PartsOf(n, chosen) && PartsOf(n, front + chosen)
    requires forall p :: p in front || p in chosen ==> p.offset != 0
    requires forall p :: p in chosen ==> p.offset in choice && choice[p.offset] == p.size
    ensures forall p :: p in chosen ==>
              p.offset in Effective(n, front + chosen) && Effective(n, front + chosen)[p.offset] == p.size
  {
    if chosen != [] {
      var all, before := front + chosen, front + Init(chosen);
      PartsBefore(n, chosen);
      assert Init(all) == before && Last(all) == Last(chosen);
      PartsBefore(n, all);
      assert forall p :: p in Init(chosen) ==> p in chosen;
      assert Last(chosen) in chosen;
      LastLengthCounts(n, front, Init(chosen), choice);
      NothingAtZero(n, before);
      forall p | p in chosen
        ensures p.offset in Effective(n, all) && Effective(n, all)[p.offset] == p.size
      {
        if p.offset != Last(chosen).offset {
          assert chosen == Init(chosen) + [Last(chosen)];
          assert p in Init(chosen);
        }
      }
    }
  }

  lemma {:induction false} LaterZerosCountNothing(n: nat, front: seq<Part>, zeros: seq<Part>)
    requires PartsOf(n, front) && PartsOf(n, front + zeros)
    requires Reach(n, Effective(n, front), 0) > 0 && forall p :: p in zeros ==> p.offset == 0
    ensures Effective(n, front + zeros) == Effective(n, front)
  {
    if zeros == [] {
      assert front + zeros == front;
    } else {
      assert Init(front + zeros) == front + Init(zeros);
      PartsBefore(n, front + zeros);
      assert Last(zeros) in zeros && forall p :: p in Init(zeros) ==> p in zeros;
      LaterZerosCountNothing(n, front, Init(zeros));
    }
  }

  lemma MembersArePartsOf(n: nat, parts: seq<Part>)
    requires forall p :: p in parts ==> PartOf(n, p)
    ensures PartsOf(n, parts)
  {
    forall i | 0 <= i < |parts|
      ensures PartOf(n, parts[i])
    {
      assert parts[i] in parts;
    }
  }

  /** Every choice of lengths is the outcome of an order of arrival. */
  lemma ChoiceHappens(n: nat, cut: set<Part>, choice: Pieces) returns (parts: seq<Part>)
    requires CutOf(n, cut) && IsChoice(cut, choice) && Within(n, choice)
    ensures Covers(cut, parts) && PartsOf(n, parts)
    ensures Reach(n, Effective(n, parts), 0) == Reach(n, choice, 0)
  {
    if 0 !in choice {
      parts := Listed(cut);
      MembersArePartsOf(n, parts);
      NothingAtZero(n, parts);
    } else {
      var others := Listed(set p | p in cut && p.offset != 0 && choice[p.offset] != p.size);
      var chosen := Listed(set p | p in cut && p.offset != 0 && choice[p.offset] == p.size);
      var zeros := Listed(set p | p in cut && p.offset == 0 && choice[0] != p.size);
      parts := others + chosen + [Part(0, choice[0])] + zeros;
      MembersArePartsOf(n, others);
      MembersArePartsOf(n, chosen);
      MembersArePartsOf(n, others + chosen);
      MembersArePartsOf(n, parts);
      ChosenArrivesLast(n, others, chosen, choice, cut);
      LaterZerosCountNothing(n, others + chosen + [Part(0, choice[0])], zeros);
      hide Effective, Reach;
      OrderCovers(cut, choice, others, chosen, zeros);
    }
  }

  lemma OrderCovers(cut: set<Part>, choice: Pieces, others: seq<Part>, chosen: seq<Part>, zeros: seq<Part>)
    requires IsChoice(cut, choice) && 0 in choice
    requires forall p :: p in others <==> p in cut && p.offset != 0 && choice[p.offset] != p.size
    requires forall p :: p in chosen <==> p in cut && p.offset != 0 && choice[p.offset] == p.size
    requires forall p :: p in zeros <==> p in cut && p.offset == 0 && choice[0] != p.size
    ensures Covers(cut, others + chosen + [Part(0, choice[0])] + zeros)
  {
    forall p | p in cut
      ensures p in others + chosen + [Part(0, choice[0])] + zeros
    {
      assert p.offset == 0 && choice[0] == p.size ==> p == Part(0, choice[0]);
    }
  }

  lemma ChosenArrivesLast(n: nat, others: seq<Part>, chosen: seq<Part>, choice: Pieces, cut: set<Part>)
    requires CutOf(n, cut) && IsChoice(cut, choice) && Within(n, choice) && 0 in choice
    requires PartsOf(n, others) && PartsOf(n, chosen) && PartsOf(n, others + chosen)
    requires forall p :: p in others ==> p in cut && p.offset != 0
    requires forall p :: p in chosen <==> p in cut && p.offset != 0 && choice[p.offset] == p.size
    ensures PartsOf(n, others + chosen + [Part(0, choice[0])])
    ensures Effective(n, others + chosen + [Part(0, choice[0])]) == choice
    ensures Reach(n, choice, 0) > 0
  {
    var front, all := others + chosen, others + chosen + [Part(0, choice[0])];
    LastLengthCounts(n, others, chosen, choice);
    NothingAtZero(n, front);
    EffectiveIsArrived(n, front);
    assert Init(all) == front && Last(all) == Part(0, choice[0]);
    var lengths := Effective(n, front);
    forall o | o in choice && o != 0
      ensures o in lengths && lengths[o] == choice[o]
    {
      assert Part(o, choice[o]) in chosen;
    }
    forall o | o in lengths
      ensures o in choice && o != 0
    {
      assert Part(o, lengths[o]) in front;
    }
    assert lengths[0 := choice[0]] == choice;
  }

  /** The outcome is the same for all orders, duplicates and limits that turn nothing away if and only if all choices of
      lengths lead to the same place. */
  lemma ConfluentIff(stream: seq<byte>, syn: TcpHeader, cut: set<Part>, r: nat)
    requires |stream| < TWO31 && CutOf(|stream|, cut) && syn.syn
    ensures
      (forall max: nat, parts: seq<Part> :: PartsOf(|stream|, parts) && Covers(cut, parts) && NeverFull(max, parts) ==>
         |Delivered(max, Conversation(stream, syn, parts))| == r)
      <==>
      (forall choice: Pieces :: IsChoice(cut, choice) && Within(|stream|, choice) ==> Reach(|stream|, choice, 0) == r)
  {
    var n := |stream|;
    hide Effective, Reach, Delivered, NeverFull, Covers, IsChoice, Within, PartsOf;
    if forall choice: Pieces :: IsChoice(cut, choice) && Within(n, choice) ==> Reach(n, choice, 0) == r {
      forall max: nat, parts: seq<Part> | PartsOf(n, parts) && Covers(cut, parts) && NeverFull(max, parts)
        ensures |Delivered(max, Conversation(stream, syn, parts))| == r
      {
        var choice := OutcomeIsChoice(n, cut, parts);
        DeliversExactlyReachable(max, stream, syn, parts);
      }
    } else {
      var choice: Pieces :| IsChoice(cut, choice) && Within(n, choice) && Reach(n, choice, 0) != r;
      var parts := ChoiceHappens(n, cut, choice);
      RoomForAll(TotalSize(parts), parts);
      DeliversExactlyReachable(TotalSize(parts), stream, syn, parts);
    }
  }

  /** An offset with two lengths: the same three segments, the same bytes, two orders. A buffered byte is thrown away in
      the first and never delivered. */
  lemma OverwritingDependsOnOrder(syn: TcpHeader)
    requires syn.syn
    ensures
      var stream: seq<byte> := [10, 20, 30];
      var long, short, first := Part(1, 2), Part(1, 1), Part(0, 1);
      && Delivered(1000, Conversation(stream, syn, [long, short, first])) == [10, 20]
      && Delivered(1000, Conversation(stream, syn, [short, long, first])) == [10, 20, 30]
  {
    var stream: seq<byte> := [10, 20, 30];
    LastOfTwoCounts(stream, syn, 2, 1);
    LastOfTwoCounts(stream, syn, 1, 2);
    hide Delivered, Conversation;
  }

  /** Two lengths at offset 1, then the first byte: the second length counts. */
  lemma LastOfTwoCounts(stream: seq<byte>, syn: TcpHeader, a: nat, b: nat)
    requires |stream| == 3 && syn.syn && 0 < a <= 2 && 0 < b <= 2 && a != b
    ensures Delivered(1000, Conversation(stream, syn, [Part(1, a), Part(1, b), Part(0, 1)])) == stream[..1 + b]
  {
    hide Pictured, Delivered, Conversation, Arrive, Run;
    RunPictured(1000, stream, syn, [Part(1, a), Part(1, b), Part(0, 1)]);
    ThreeArrivals(Part(1, a), Part(1, b), Part(0, 1));
    LastOfTwoArrives(a, b);
  }

  lemma LastOfTwoArrives(a: nat, b: nat)
    requires 0 < a <= 2 && 0 < b <= 2 && a != b
    ensures Arrive(1000, Arrive(1000, Arrive(1000, START, Part(1, a)), Part(1, b)), Part(0, 1)).delivered == 1 + b
  {
    hide Arrive;
    StoredAhead(1000, START, Part(1, a));
    var v := Picture(0, map[1 := a], a);
    assert Kept(START, Part(1, a)) == v;
    StoredAhead(1000, v, Part(1, b));
    assert Kept(v, Part(1, b)).kept == map[1 := b];
    ChainOfTwo(1000, Kept(v, Part(1, b)), Part(0, 1));
  }

  lemma ThreeArrivals(a: Part, b: Part, c: Part)
    ensures Run(1000, [a, b, c]) == Arrive(1000, Arrive(1000, Arrive(1000, START, a), b), c)
  {
    hide Arrive;
    var two, three := [a, b], [a, b, c];
    assert Init(three) == two && Last(three) == c;
    TwoArrivals(a, b);
  }

  lemma ChainOfTwo(max: nat, v: Picture, p: Part)
    requires Fits(max, v, p) && !Repeats(v, p) && p.offset == v.delivered && p.size > 0
    requires v.kept.Keys == {p.offset + p.size} && v.kept[p.offset + p.size] > 0
    ensures Arrive(max, v, p).delivered == p.offset + p.size + v.kept[p.offset + p.size]
  {
    var w := Taken(Kept(v, p));
    assert w.kept == v.kept && w.delivered == p.offset + p.size;
    assert w.delivered in w.kept;
    var x := Taken(w);
    assert x.kept.Keys == {} && x.delivered !in x.kept;
    assert Advanced(x) == x && Advanced(w) == x;
  }
}
