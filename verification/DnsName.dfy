/** Domain names with compression pointers (section 4.1.4 of RFC 1035). */
module DnsName {
  import opened Common
  import opened Wire

  const DOT: byte := 0x2E

  /** What the decoding loop does at one position: control depends on the position alone. */
  datatype Move = Stop | Fail(error: Error) | Jump(target: nat) | Label(next: nat)

  function MoveAt(data: seq<byte>, dnsStart: nat, pos: nat): (m: Move)
    ensures m.Label? ==> pos < m.next <= |data|
    ensures m.Jump? ==> pos + 1 < |data| && m.target < |data|
  {
    if pos >= |data| || data[pos] == 0 then Stop
    else if data[pos] >= 0xC0 then
      if pos + 1 >= |data| then Fail(TruncatedHeader)
      else
        var target := dnsStart + (data[pos] - 0xC0) as int * 256 + data[pos + 1];
        if target >= |data| then Fail(MalformedPacket) else Jump(target)
    else if data[pos] >= 0x40 then Fail(MalformedPacket)
    else if pos + 1 + data[pos] > |data| then Fail(TruncatedHeader)
    else Label(pos + 1 + data[pos])
  }

  function LabelAt(data: seq<byte>, dnsStart: nat, pos: nat): seq<byte>
    requires MoveAt(data, dnsStart, pos).Label?
  {
    data[pos + 1..MoveAt(data, dnsStart, pos).next]
  }

  function Follow(m: Move): nat
    requires m.Jump? || m.Label?
  {
    if m.Jump? then m.target else m.next
  }

  /** The loop stops after at most `n` labels and jumps. */
  predicate HaltsWithin(data: seq<byte>, dnsStart: nat, pos: nat, n: nat)
    decreases n
  {
    var m := MoveAt(data, dnsStart, pos);
    m.Stop? || m.Fail? || (n > 0 && HaltsWithin(data, dnsStart, Follow(m), n - 1))
  }

  ghost predicate Halts(data: seq<byte>, dnsStart: nat, pos: nat) {
    exists n: nat :: HaltsWithin(data, dnsStart, pos, n)
  }

  lemma {:induction false} HaltsWithinMore(data: seq<byte>, dnsStart: nat, pos: nat, n: nat, more: nat)
    requires HaltsWithin(data, dnsStart, pos, n) && n <= more
    ensures HaltsWithin(data, dnsStart, pos, more)
    decreases n
  {
    var m := MoveAt(data, dnsStart, pos);
    if m.Jump? || m.Label? {
      HaltsWithinMore(data, dnsStart, Follow(m), n - 1, more - 1);
    }
  }

  /** The number of labels and jumps until the loop stops. */
  function Moves(data: seq<byte>, dnsStart: nat, pos: nat, n: nat): (k: nat)
    requires HaltsWithin(data, dnsStart, pos, n)
    ensures k <= n
    decreases n
  {
    var m := MoveAt(data, dnsStart, pos);
    if m.Jump? || m.Label? then 1 + Moves(data, dnsStart, Follow(m), n - 1) else 0
  }

  lemma {:induction false} MovesHalt(data: seq<byte>, dnsStart: nat, pos: nat, n: nat)
    requires HaltsWithin(data, dnsStart, pos, n)
    ensures HaltsWithin(data, dnsStart, pos, Moves(data, dnsStart, pos, n))
    decreases n
  {
    var m := MoveAt(data, dnsStart, pos);
    if m.Jump? || m.Label? {
      MovesHalt(data, dnsStart, Follow(m), n - 1);
    }
  }

  lemma {:induction false} MovesAgree(data: seq<byte>, dnsStart: nat, pos: nat, n: nat, k: nat)
    requires HaltsWithin(data, dnsStart, pos, n) && HaltsWithin(data, dnsStart, pos, k)
    ensures Moves(data, dnsStart, pos, n) == Moves(data, dnsStart, pos, k)
    decreases n
  {
    var m := MoveAt(data, dnsStart, pos);
    if m.Jump? || m.Label? {
      MovesAgree(data, dnsStart, Follow(m), n - 1, k - 1);
    }
  }

  /** The positions of the labels and pointers on the way. */
  function Visited(data: seq<byte>, dnsStart: nat, pos: nat, n: nat): (v: set<nat>)
    requires HaltsWithin(data, dnsStart, pos, n)
    ensures forall q :: q in v ==> q < |data|
    decreases n
  {
    var m := MoveAt(data, dnsStart, pos);
    if m.Jump? || m.Label? then {pos} + Visited(data, dnsStart, Follow(m), n - 1) else {}
  }

  /** From every visited position the loop stops at least as soon. */
  lemma {:induction false} VisitedIsAhead(data: seq<byte>, dnsStart: nat, pos: nat, n: nat, q: nat)
    requires HaltsWithin(data, dnsStart, pos, n) && q in Visited(data, dnsStart, pos, n)
    ensures HaltsWithin(data, dnsStart, q, n)
    ensures Moves(data, dnsStart, q, n) <= Moves(data, dnsStart, pos, n)
    decreases n
  {
    var m := MoveAt(data, dnsStart, pos);
    if q != pos {
      VisitedIsAhead(data, dnsStart, Follow(m), n - 1, q);
      HaltsWithinMore(data, dnsStart, q, n - 1, n);
      MovesAgree(data, dnsStart, q, n - 1, n);
    }
  }

  /** No position is visited twice on a way that ends. */
  lemma {:induction false} VisitedOnce(data: seq<byte>, dnsStart: nat, pos: nat, n: nat)
    requires HaltsWithin(data, dnsStart, pos, n)
    ensures |Visited(data, dnsStart, pos, n)| == Moves(data, dnsStart, pos, n)
    decreases n
  {
    var m := MoveAt(data, dnsStart, pos);
    if m.Jump? || m.Label? {
      VisitedOnce(data, dnsStart, Follow(m), n - 1);
      if pos in Visited(data, dnsStart, Follow(m), n - 1) {
        VisitedIsAhead(data, dnsStart, Follow(m), n - 1, pos);
        MovesAgree(data, dnsStart, pos, n - 1, n);
        assert false;
      }
    }
  }

  lemma {:induction false} PositionsAreFew(positions: set<nat>, bound: nat)
    requires forall q :: q in positions ==> q < bound
    ensures |positions| <= bound
  {
    if bound == 0 {
      assert positions == {};
    } else {
      PositionsAreFew(positions - {bound - 1}, bound - 1);
    }
  }

  /** The loop terminates if and only if it does so within as many labels and jumps as there are bytes. */
  lemma TerminationIsDecidable(data: seq<byte>, dnsStart: nat, pos: nat)
    ensures Halts(data, dnsStart, pos) <==> HaltsWithin(data, dnsStart, pos, |data|)
  {
    if Halts(data, dnsStart, pos) {
      var n: nat :| HaltsWithin(data, dnsStart, pos, n);
      VisitedOnce(data, dnsStart, pos, n);
      PositionsAreFew(Visited(data, dnsStart, pos, n), |data|);
      MovesHalt(data, dnsStart, pos, n);
      HaltsWithinMore(data, dnsStart, pos, Moves(data, dnsStart, pos, n), |data|);
    }
  }

  /** RFC 1035: a pointer points to a prior occurrence, before the run of labels that it ends. */
  predicate PointsBack(data: seq<byte>, dnsStart: nat, runStart: nat, pos: nat)
    decreases runStart, |data| - pos
  {
    match MoveAt(data, dnsStart, pos)
    case Jump(target) => target < runStart && PointsBack(data, dnsStart, target, target)
    case Label(next) => PointsBack(data, dnsStart, runStart, next)
    case _ => true
  }

  lemma {:induction false} PointingBackHalts(data: seq<byte>, dnsStart: nat, runStart: nat, pos: nat) returns (n: nat)
    requires PointsBack(data, dnsStart, runStart, pos)
    ensures HaltsWithin(data, dnsStart, pos, n)
    decreases runStart, |data| - pos
  {
    match MoveAt(data, dnsStart, pos)
    case Jump(target) =>
      var k := PointingBackHalts(data, dnsStart, target, target);
      n := k + 1;
    case Label(next) =>
      var k := PointingBackHalts(data, dnsStart, runStart, next);
      n := k + 1;
    case _ => n := 0;
  }

  /** Names whose pointers all point back are decoded in bounded time. */
  lemma PriorOccurrencesTerminate(data: seq<byte>, dnsStart: nat, pos: nat)
    requires PointsBack(data, dnsStart, pos, pos)
    ensures HaltsWithin(data, dnsStart, pos, |data|)
  {
    var n := PointingBackHalts(data, dnsStart, pos, pos);
    TerminationIsDecidable(data, dnsStart, pos);
  }

  /** The depth guard is never advanced: a pointer to itself is followed forever. */
  lemma {:induction false} SelfPointerNeverHalts(data: seq<byte>, dnsStart: nat, pos: nat, n: nat)
    requires MoveAt(data, dnsStart, pos) == Jump(pos)
    ensures !HaltsWithin(data, dnsStart, pos, n)
    decreases n
  {
    if n > 0 {
      SelfPointerNeverHalts(data, dnsStart, pos, n - 1);
    }
  }

  // ----- Meaning -----

  /** The labels of the name at `pos`, by recursion through pointers. */
  function Labels(data: seq<byte>, dnsStart: nat, pos: nat, n: nat): Result<seq<seq<byte>>>
    requires HaltsWithin(data, dnsStart, pos, n)
    decreases n
  {
    match MoveAt(data, dnsStart, pos)
    case Stop => Ok([])
    case Fail(e) => Err(e)
    case Jump(target) => Labels(data, dnsStart, target, n - 1)
    case Label(next) =>
      match Labels(data, dnsStart, next, n - 1)
      case Err(e) => Err(e)
      case Ok(rest) => Ok([LabelAt(data, dnsStart, pos)] + rest)
  }

  lemma {:induction false} LabelsAgree(data: seq<byte>, dnsStart: nat, pos: nat, n: nat, k: nat)
    requires HaltsWithin(data, dnsStart, pos, n) && HaltsWithin(data, dnsStart, pos, k)
    ensures Labels(data, dnsStart, pos, n) == Labels(data, dnsStart, pos, k)
    decreases n
  {
    var m := MoveAt(data, dnsStart, pos);
    if m.Jump? || m.Label? {
      LabelsAgree(data, dnsStart, Follow(m), n - 1, k - 1);
    }
  }

  function DotJoin(labels: seq<seq<byte>>): seq<byte> {
    if labels == [] then []
    else if |labels| == 1 then labels[0]
    else DotJoin(Init(labels)) + [DOT] + Last(labels)
  }

  /** Just past the first pointer, the zero byte, or the end of the data. */
  function NameEnd(data: seq<byte>, dnsStart: nat, pos: nat): (end: nat)
    ensures pos <= |data| ==> end <= |data|
    decreases |data| - pos
  {
    match MoveAt(data, dnsStart, pos)
    case Stop => if pos < |data| then pos + 1 else pos
    case Fail(_) => pos
    case Jump(_) => pos + 2
    case Label(next) => NameEnd(data, dnsStart, next)
  }

  datatype NamePos = NamePos(name: seq<byte>, pos: nat)

  /** A call that loops forever has no result. */
  datatype Outcome<+T> = Finished(result: Result<T>) | Hangs

  /** What decodeName computes. */
  function NameAt(data: seq<byte>, dnsStart: nat, pos: nat): Outcome<NamePos> {
    if HaltsWithin(data, dnsStart, pos, |data|) then
      match Labels(data, dnsStart, pos, |data|)
      case Err(e) => Finished(Err(e))
      case Ok(labels) => Finished(Ok(NamePos(DotJoin(labels), NameEnd(data, dnsStart, pos))))
    else Hangs
  }

  /** Labels are not empty, so the name is empty only before the first. */
  lemma {:induction false} DotJoinEmpty(labels: seq<seq<byte>>)
    requires forall i :: 0 <= i < |labels| ==> labels[i] != []
    ensures DotJoin(labels) == [] <==> labels == []
  {
  }

  function WithLabels(seen: seq<seq<byte>>, rest: Result<seq<seq<byte>>>): Result<seq<seq<byte>>> {
    match rest
    case Err(e) => Err(e)
    case Ok(labels) => Ok(seen + labels)
  }

  /** The loop stands at `pos` with the labels `seen`, at most `left` labels and jumps before its end. */
  ghost predicate CameTo(data: seq<byte>, dnsStart: nat, start: nat, pos: nat, left: nat, seen: seq<seq<byte>>,
                         jumped: bool, savedPos: nat)
  {
    && HaltsWithin(data, dnsStart, start, |data|) && HaltsWithin(data, dnsStart, pos, left)
    && Labels(data, dnsStart, start, |data|) == WithLabels(seen, Labels(data, dnsStart, pos, left))
    && if jumped then savedPos == NameEnd(data, dnsStart, start)
       else NameEnd(data, dnsStart, pos) == NameEnd(data, dnsStart, start)
  }

  lemma AtStart(data: seq<byte>, dnsStart: nat, start: nat)
    requires HaltsWithin(data, dnsStart, start, |data|)
    ensures CameTo(data, dnsStart, start, start, |data|, [], false, 0)
  {
    hide HaltsWithin, Labels, NameEnd;
    PrependNone(Labels(data, dnsStart, start, |data|));
  }

  lemma PointerFollowed(data: seq<byte>, dnsStart: nat, start: nat, pos: nat, left: nat, seen: seq<seq<byte>>,
                        jumped: bool, savedPos: nat)
    requires CameTo(data, dnsStart, start, pos, left, seen, jumped, savedPos) && MoveAt(data, dnsStart, pos).Jump?
    ensures left > 0
    ensures CameTo(data, dnsStart, start, MoveAt(data, dnsStart, pos).target, left - 1, seen, true,
                   if jumped then savedPos else pos + 2)
  {
    hide MoveAt, WithLabels;
  }

  lemma LabelPassed(data: seq<byte>, dnsStart: nat, start: nat, pos: nat, left: nat, seen: seq<seq<byte>>,
                    jumped: bool, savedPos: nat)
    requires CameTo(data, dnsStart, start, pos, left, seen, jumped, savedPos) && MoveAt(data, dnsStart, pos).Label?
    ensures left > 0
    ensures CameTo(data, dnsStart, start, MoveAt(data, dnsStart, pos).next, left - 1,
                   seen + [LabelAt(data, dnsStart, pos)], jumped, savedPos)
  {
    SeenGrows(seen, LabelAt(data, dnsStart, pos), Labels(data, dnsStart, MoveAt(data, dnsStart, pos).next, left - 1));
    hide MoveAt, WithLabels, LabelAt;
  }

  lemma LoopEnded(data: seq<byte>, dnsStart: nat, start: nat, pos: nat, left: nat, seen: seq<seq<byte>>,
                  jumped: bool, savedPos: nat)
    requires CameTo(data, dnsStart, start, pos, left, seen, jumped, savedPos)
    requires MoveAt(data, dnsStart, pos).Stop? || MoveAt(data, dnsStart, pos).Fail?
    ensures
      var end := if jumped then savedPos else if pos < |data| then pos + 1 else pos;
      var m := MoveAt(data, dnsStart, pos);
      NameAt(data, dnsStart, start) == Finished(if m.Stop? then Ok(NamePos(DotJoin(seen), end)) else Err(m.error))
  {
    hide MoveAt, DotJoin;
    assert seen + [] == seen;
  }

  /** The compression pointer at `pos`. */
  method ReadPointer(data: seq<byte>, dnsStart: nat, pos: nat) returns (r: Result<nat>)
    requires pos < |data| && data[pos] >= 0xC0
    ensures MoveAt(data, dnsStart, pos) == match r case Ok(target) => Jump(target) case Err(e) => Fail(e)
  {
    if pos + 1 >= |data| {
      return Err(TruncatedHeader);
    }
    var pointer := (data[pos] - 0xC0) as int * 256 + data[pos + 1];
    var target := dnsStart + pointer;
    if target >= |data| {
      return Err(MalformedPacket);
    }
    return Ok(target);
  }

  /** decodeName, on every input on which it terminates. */
  method DecodeName(data: seq<byte>, dnsStart: nat, start: nat) returns (r: Result<NamePos>)
    requires NameAt(data, dnsStart, start) != Hangs
    ensures Finished(r) == NameAt(data, dnsStart, start)
  {
    AtStart(data, dnsStart, start);
    hide CameTo, DotJoin, NameAt, HaltsWithin;
    var name: seq<byte>, jumped, savedPos: nat, pos: nat := [], false, 0, start;
    ghost var left: nat, seen: seq<seq<byte>>, ended := |data|, [], false;
    JoinOfNothing();
    hide Joined;
    while pos < |data|
      invariant CameTo(data, dnsStart, start, pos, left, seen, jumped, savedPos)
      invariant Joined(name, seen) && !ended
      decreases left
    {
      var len := data[pos];
      if len == 0 {
        LoopEnded(data, dnsStart, start, pos, left, seen, jumped, savedPos);
        ended := true;
        if !jumped {
          pos := pos + 1;
        }
        break;
      }
      if len >= 0xC0 {
        var target := ReadPointer(data, dnsStart, pos);
        if target.Err? {
          LoopEnded(data, dnsStart, start, pos, left, seen, jumped, savedPos);
          return Err(target.error);
        }
        PointerFollowed(data, dnsStart, start, pos, left, seen, jumped, savedPos);
        if !jumped {
          savedPos := pos + 2;
        }
        pos, jumped, left := target.value, true, left - 1;
        continue;
      }
      if len >= 0x40 {
        LoopEnded(data, dnsStart, start, pos, left, seen, jumped, savedPos);
        return Err(MalformedPacket);
      }
      if pos + 1 + len > |data| {
        LoopEnded(data, dnsStart, start, pos, left, seen, jumped, savedPos);
        return Err(TruncatedHeader);
      }
      LabelPassed(data, dnsStart, start, pos, left, seen, jumped, savedPos);
      JoinGrows(name, seen, LabelAt(data, dnsStart, pos));
      if name != [] {
        name := name + [DOT];
      }
      name := name + data[pos + 1..pos + 1 + len];
      seen := seen + [LabelAt(data, dnsStart, pos)];
      pos, left := pos + 1 + len, left - 1;
    }
    if !ended {
      LoopEnded(data, dnsStart, start, pos, left, seen, jumped, savedPos);
    }
    JoinedName(name, seen);
    if jumped {
      pos := savedPos;
    }
    return Ok(NamePos(name, pos));
  }

  /** The name so far is the dot-join of the labels seen, none of which is empty. */
  ghost predicate Joined(name: seq<byte>, seen: seq<seq<byte>>) {
    name == DotJoin(seen) && forall i :: 0 <= i < |seen| ==> seen[i] != []
  }

  lemma JoinOfNothing()
    ensures Joined([], [])
  {
  }

  lemma JoinGrows(name: seq<byte>, seen: seq<seq<byte>>, added: seq<byte>)
    requires Joined(name, seen) && added != []
    ensures Joined((if name == [] then [] else name + [DOT]) + added, seen + [added])
  {
    DotJoinEmpty(seen);
    DotJoinGrows(seen, added);
    hide DotJoin;
    assert [] + added == added;
  }

  lemma DotJoinGrows(seen: seq<seq<byte>>, added: seq<byte>)
    ensures DotJoin(seen + [added]) == if seen == [] then added else DotJoin(seen) + [DOT] + added
  {
    assert Init(seen + [added]) == seen;
  }

  lemma JoinedName(name: seq<byte>, seen: seq<seq<byte>>)
    requires Joined(name, seen)
    ensures name == DotJoin(seen)
  {
  }

  lemma SeenGrows(seen: seq<seq<byte>>, added: seq<byte>, rest: Result<seq<seq<byte>>>)
    ensures WithLabels(seen, match rest case Err(e) => Err(e) case Ok(labels) => Ok([added] + labels))
            == WithLabels(seen + [added], rest)
  {
    if rest.Ok? {
      ConcatAssociates(seen, [added], rest.value);
    }
  }

  lemma PrependNone(r: Result<seq<seq<byte>>>)
    ensures WithLabels([], r) == r
  {
    assert r.Ok? ==> [] + r.value == r.value;
  }

  // ----- Encoded names -----

  predicate GoodLabels(labels: seq<seq<byte>>) {
    forall i :: 0 <= i < |labels| ==> 1 <= |labels[i]| <= 63
  }

  /** Length octets and labels, without an end. */
  function EncodeLabels(labels: seq<seq<byte>>): seq<byte>
    requires GoodLabels(labels)
  {
    if labels == [] then [] else [|labels[0]|] + labels[0] + EncodeLabels(labels[1..])
  }

  lemma LabelInFront(data: seq<byte>, dnsStart: nat, pos: nat, l: seq<byte>, n: nat)
    requires 1 <= |l| <= 63 && At(data, pos, [|l|] + l)
    requires HaltsWithin(data, dnsStart, pos + 1 + |l|, n)
    ensures HaltsWithin(data, dnsStart, pos, n + 1)
    ensures Labels(data, dnsStart, pos, n + 1) == WithLabels([l], Labels(data, dnsStart, pos + 1 + |l|, n))
    ensures NameEnd(data, dnsStart, pos) == NameEnd(data, dnsStart, pos + 1 + |l|)
  {
    AtSplit(data, pos, [|l|], l);
    ByteReadsBack(data, pos, |l|);
    assert MoveAt(data, dnsStart, pos) == Label(pos + 1 + |l|);
    assert LabelAt(data, dnsStart, pos) == l;
  }

  /** Labels followed by anything that can be decoded: they are put in front of what it denotes. */
  lemma {:induction false} LabelsInFront(data: seq<byte>, dnsStart: nat, pos: nat, labels: seq<seq<byte>>, n: nat)
    requires GoodLabels(labels) && At(data, pos, EncodeLabels(labels))
    requires HaltsWithin(data, dnsStart, pos + |EncodeLabels(labels)|, n)
    ensures HaltsWithin(data, dnsStart, pos, n + |labels|)
    ensures Labels(data, dnsStart, pos, n + |labels|)
            == WithLabels(labels, Labels(data, dnsStart, pos + |EncodeLabels(labels)|, n))
    ensures NameEnd(data, dnsStart, pos) == NameEnd(data, dnsStart, pos + |EncodeLabels(labels)|)
    decreases |labels|
  {
    hide MoveAt, HaltsWithin, Labels, NameEnd;
    if labels == [] {
      PrependNone(Labels(data, dnsStart, pos, n));
    } else {
      var l, rest := labels[0], labels[1..];
      AtSplit(data, pos, [|l|] + l, EncodeLabels(rest));
      LabelsInFront(data, dnsStart, pos + 1 + |l|, rest, n);
      LabelInFront(data, dnsStart, pos, l, n + |rest|);
      PrependLabel(l, rest, Labels(data, dnsStart, pos + |EncodeLabels(labels)|, n));
      assert [l] + rest == labels;
    }
  }

  lemma PrependLabel(l: seq<byte>, rest: seq<seq<byte>>, r: Result<seq<seq<byte>>>)
    ensures WithLabels([l] + rest, r) == WithLabels([l], WithLabels(rest, r))
  {
    assert r.Ok? ==> ([l] + rest) + r.value == [l] + (rest + r.value);
  }

  lemma ZeroEnds(data: seq<byte>, dnsStart: nat, pos: nat)
    requires At(data, pos, [0])
    ensures HaltsWithin(data, dnsStart, pos, 0)
    ensures Labels(data, dnsStart, pos, 0) == Ok([]) && NameEnd(data, dnsStart, pos) == pos + 1
  {
    ByteReadsBack(data, pos, 0);
  }

  lemma PointerInFront(data: seq<byte>, dnsStart: nat, pos: nat, pointer: nat, tail: seq<seq<byte>>, n: nat)
    requires pointer < 0x4000 && dnsStart + pointer < |data|
    requires At(data, pos, [0xC0 + pointer / 256, pointer % 256])
    requires HaltsWithin(data, dnsStart, dnsStart + pointer, n)
    requires Labels(data, dnsStart, dnsStart + pointer, n) == Ok(tail)
    ensures HaltsWithin(data, dnsStart, pos, n + 1)
    ensures Labels(data, dnsStart, pos, n + 1) == Ok(tail) && NameEnd(data, dnsStart, pos) == pos + 2
  {
    assert data[pos..pos + 2][0] == 0xC0 + pointer / 256 && data[pos..pos + 2][1] == pointer % 256;
    assert MoveAt(data, dnsStart, pos) == Jump(dnsStart + pointer);
  }

  /** Labels known for some bound are those that the decoder finds. */
  lemma NameIsKnown(data: seq<byte>, dnsStart: nat, pos: nat, labels: seq<seq<byte>>, n: nat)
    requires HaltsWithin(data, dnsStart, pos, n) && Labels(data, dnsStart, pos, n) == Ok(labels)
    ensures NameAt(data, dnsStart, pos) == Finished(Ok(NamePos(DotJoin(labels), NameEnd(data, dnsStart, pos))))
  {
    hide MoveAt, HaltsWithin, Labels, NameEnd, DotJoin;
    TerminationIsDecidable(data, dnsStart, pos);
    LabelsAgree(data, dnsStart, pos, n, |data|);
  }

  /** An uncompressed name decodes to its labels and ends behind its zero byte. */
  lemma PlainName(data: seq<byte>, dnsStart: nat, pos: nat, labels: seq<seq<byte>>)
    requires GoodLabels(labels) && At(data, pos, EncodeLabels(labels) + [0])
    ensures NameAt(data, dnsStart, pos)
            == Finished(Ok(NamePos(DotJoin(labels), pos + |EncodeLabels(labels)| + 1)))
  {
    hide MoveAt, HaltsWithin, Labels, NameEnd, DotJoin, NameAt, EncodeLabels, GoodLabels;
    AtSplit(data, pos, EncodeLabels(labels), [0]);
    ZeroEnds(data, dnsStart, pos + |EncodeLabels(labels)|);
    LabelsInFront(data, dnsStart, pos, labels, 0);
    assert labels + [] == labels;
    NameIsKnown(data, dnsStart, pos, labels, |labels|);
  }

  /** A compressed name, labels and then a pointer, decodes to its labels followed by those of the name it points to,
      and ends behind the pointer. */
  lemma CompressedName(data: seq<byte>, dnsStart: nat, pos: nat, labels: seq<seq<byte>>, pointer: nat,
                       tail: seq<seq<byte>>, n: nat)
    requires GoodLabels(labels) && pointer < 0x4000 && dnsStart + pointer < |data|
    requires At(data, pos, EncodeLabels(labels) + [0xC0 + pointer / 256, pointer % 256])
    requires HaltsWithin(data, dnsStart, dnsStart + pointer, n)
    requires Labels(data, dnsStart, dnsStart + pointer, n) == Ok(tail)
    ensures NameAt(data, dnsStart, pos)
            == Finished(Ok(NamePos(DotJoin(labels + tail), pos + |EncodeLabels(labels)| + 2)))
  {
    hide MoveAt, HaltsWithin, Labels, NameEnd, DotJoin, NameAt, EncodeLabels, GoodLabels;
    AtSplit(data, pos, EncodeLabels(labels), [0xC0 + pointer / 256, pointer % 256]);
    PointerInFront(data, dnsStart, pos + |EncodeLabels(labels)|, pointer, tail, n);
    LabelsInFront(data, dnsStart, pos, labels, n + 1);
    NameIsKnown(data, dnsStart, pos, labels + tail, n + 1 + |labels|);
  }
}
