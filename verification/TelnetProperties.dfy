/** Decoding inverts encoding, and does not depend on where the stream is cut. */
module TelnetProperties {
  import opened Common
  import opened Wire
  import opened Telnet

  // ----- Encoding -----

  datatype Item =
    | Data(bytes: seq<byte>)
    | Negotiation(command: byte, option: byte)
    | Plain(command: byte)
    | Sub(option: byte, body: seq<byte>)

  predicate Good(item: Item) {
    match item
    case Data(bytes) => bytes != []
    case Negotiation(command, _) => 0xFB <= command <= 0xFE
    case Plain(command) => command < 0xFA
    case Sub(option, body) => !HoldsEnd([option] + body)
  }

  /** An IAC directly followed by SE. */
  predicate HoldsEnd(bytes: seq<byte>) {
    exists k :: 0 <= k < |bytes| - 1 && bytes[k] == 0xFF && bytes[k + 1] == 0xF0
  }

  predicate AllGood(items: seq<Item>) {
    forall i :: 0 <= i < |items| ==> Good(items[i])
  }

  /** Data bytes 255 are doubled, in data and in the parameters of a subnegotiation (RFC 855). */
  function Escape(bytes: seq<byte>): seq<byte> {
    if bytes == [] then [] else EscapeByte(bytes[0]) + Escape(bytes[1..])
  }

  function EscapeByte(b: byte): seq<byte> {
    if b == 0xFF then [0xFF, 0xFF] else [b]
  }

  function Encode(item: Item): seq<byte> {
    match item
    case Data(bytes) => Escape(bytes)
    case Negotiation(command, option) => [0xFF, command, option]
    case Plain(command) => [0xFF, command]
    case Sub(option, body) => [0xFF, 0xFA, option] + Escape(body) + [0xFF, 0xF0]
  }

  function EncodeAll(items: seq<Item>): seq<byte> {
    if items == [] then [] else Encode(items[0]) + EncodeAll(items[1..])
  }

  function CommandsOf(item: Item): seq<TelnetCommand> {
    match item
    case Data(_) => []
    case Negotiation(command, option) => [TelnetCommand(command, option)]
    case Plain(command) => [TelnetCommand(command, 0)]
    case Sub(option, _) => [TelnetCommand(0xFA, option), TelnetCommand(0xF0, 0)]
  }

  /** What a list of items says, after a segment begun. */
  function Read(items: seq<Item>, current: seq<byte>): TelnetMessage
    decreases |items|
  {
    if items == [] then TelnetMessage(Segment(current), [])
    else if items[0].Data? then Read(items[1..], current + items[0].bytes)
    else
      var rest := Read(items[1..], []);
      TelnetMessage(Segment(current) + rest.data, CommandsOf(items[0]) + rest.commands)
  }

  lemma EscapedByteToken(data: seq<byte>, pos: nat, b: byte)
    requires At(data, pos, EscapeByte(b))
    ensures pos < |data| && TokenAt(data, pos) == Byte(b, pos + |EscapeByte(b)|)
  {
    hide FindEnd;
    assert data[pos..pos + |EscapeByte(b)|][0] == EscapeByte(b)[0];
    assert b == IAC ==> data[pos..pos + 2][1] == IAC;
  }

  lemma {:induction false} EscapedDataScanned(data: seq<byte>, pos: nat, bytes: seq<byte>, current: seq<byte>)
    requires At(data, pos, Escape(bytes))
    ensures Scan(data, pos, current) == Scan(data, pos + |Escape(bytes)|, current + bytes)
    decreases |bytes|
  {
    hide TokenAt, EscapeByte, Segment, At;
    if bytes == [] {
      assert current + bytes == current;
    } else {
      var head := EscapeByte(bytes[0]);
      AtSplit(data, pos, head, Escape(bytes[1..]));
      EscapedByteToken(data, pos, bytes[0]);
      EscapedDataScanned(data, pos + |head|, bytes[1..], current + [bytes[0]]);
      assert current + [bytes[0]] + bytes[1..] == current + bytes;
    }
  }

  lemma EndInCons(a: byte, bytes: seq<byte>)
    requires bytes != []
    ensures HoldsEnd([a] + bytes) <==> (a == IAC && bytes[0] == SE) || HoldsEnd(bytes)
  {
    var all := [a] + bytes;
    assert forall k :: 0 <= k < |bytes| ==> all[k + 1] == bytes[k];
    if k :| 0 <= k < |bytes| - 1 && bytes[k] == IAC && bytes[k + 1] == SE {
      assert all[k + 1] == IAC && all[k + 2] == SE;
    }
    if a == IAC && bytes[0] == SE {
      assert all[0] == IAC && all[1] == SE;
    }
  }

  /** Doubling neither hides nor makes an IAC SE. */
  lemma {:induction false} EscapeKeepsEnds(a: byte, bytes: seq<byte>)
    ensures HoldsEnd([a] + Escape(bytes)) <==> HoldsEnd([a] + bytes)
    decreases |bytes|
  {
    if bytes == [] {
    } else {
      hide HoldsEnd;
      var b, rest := bytes[0], Escape(bytes[1..]);
      EscapeKeepsEnds(b, bytes[1..]);
      assert bytes == [b] + bytes[1..];
      EndInCons(a, bytes);
      EndInCons(a, [b] + rest);
      if b == IAC {
        assert Escape(bytes) == [IAC] + ([IAC] + rest);
        EndInCons(a, [IAC] + ([IAC] + rest));
        EndInCons(IAC, [IAC] + rest);
      }
    }
  }

  /** Where the parts of a subnegotiation lie. */
  lemma SubnegotiationLies(data: seq<byte>, pos: nat, option: byte, inner: seq<byte>)
    requires At(data, pos, [IAC, SB, option] + inner + [IAC, SE])
    ensures data[pos] == IAC && data[pos + 1] == SB
    ensures data[pos + 2..pos + 3 + |inner|] == [option] + inner
    ensures pos + 4 + |inner| < |data| && data[pos + 3 + |inner|] == IAC && data[pos + 4 + |inner|] == SE
  {
    var sent := [IAC, SB, option] + inner + [IAC, SE];
    var end := pos + 3 + |inner|;
    AtSplit(data, pos, [IAC, SB], ([option] + inner) + [IAC, SE]);
    AtSplit(data, pos + 2, [option] + inner, [IAC, SE]);
    assert sent == [IAC, SB] + (([option] + inner) + [IAC, SE]);
    assert data[pos..pos + 2][0] == IAC && data[pos..pos + 2][1] == SB;
    assert data[end..end + 2][0] == IAC && data[end..end + 2][1] == SE;
  }

  /** The search finds the given end if and only if nothing before it looks like one. */
  lemma FirstEndIff(data: seq<byte>, from: nat, end: nat)
    requires from <= end && end + 1 < |data| && data[end] == IAC && data[end + 1] == SE
    ensures FindEnd(data, from) == Some(end) <==> !HoldsEnd(data[from..end])
                                                  && !(from < end && data[end - 1] == IAC && data[end] == SE)
  {
    var body := data[from..end];
    assert forall k :: 0 <= k < |body| ==> body[k] == data[from + k];
    if HoldsEnd(body) {
      var k :| 0 <= k < |body| - 1 && body[k] == IAC && body[k + 1] == SE;
      var at := from + k;
      assert data[at] == IAC && data[at + 1] == SE;
    } else {
      forall k | from <= k < end
        ensures !(data[k] == IAC && data[k + 1] == SE)
      {
        var at := k - from;
        assert data[k] == body[at];
        if k + 1 < end {
          assert data[k + 1] == body[at + 1];
        }
      }
    }
  }

  /** What stands behind the option is found up to the first IAC SE. */
  lemma SubnegotiationEnds(data: seq<byte>, pos: nat, option: byte, inner: seq<byte>)
    requires At(data, pos, [IAC, SB, option] + inner + [IAC, SE])
    ensures data[pos] == IAC && data[pos + 1] == SB && data[pos + 2] == option
    ensures FindEnd(data, pos + 2) == Some(pos + 3 + |inner|) <==> !HoldsEnd([option] + inner)
    ensures FindEnd(data, pos + 2).Some?
  {
    hide HoldsEnd;
    SubnegotiationLies(data, pos, option, inner);
    FirstEndIff(data, pos + 2, pos + 3 + |inner|);
    assert data[pos + 2..pos + 3 + |inner|][0] == option;
  }

  /** A subnegotiation whose parameters have each IAC doubled reads back if and only if no IAC in its option and
      parameters is directly followed by a parameter SE: the search for the end does not know the doubling. */
  lemma SubReadsBackIff(data: seq<byte>, pos: nat, option: byte, body: seq<byte>)
    requires At(data, pos, Encode(Sub(option, body)))
    ensures
      var item := Sub(option, body);
      TokenAt(data, pos) == Commands(CommandsOf(item), pos + |Encode(item)|) <==> !HoldsEnd([option] + body)
  {
    SubnegotiationEnds(data, pos, option, Escape(body));
    EscapeKeepsEnds(option, body);
    hide HoldsEnd, Escape;
  }

  lemma CommandToken(data: seq<byte>, pos: nat, item: Item)
    requires Good(item) && !item.Data? && At(data, pos, Encode(item))
    ensures TokenAt(data, pos) == Commands(CommandsOf(item), pos + |Encode(item)|)
  {
    match item
    case Sub(option, body) => SubReadsBackIff(data, pos, option, body);
    case Negotiation(command, option) =>
      assert data[pos..pos + 3][0] == IAC && data[pos..pos + 3][1] == command && data[pos..pos + 3][2] == option;
    case Plain(command) =>
      assert data[pos..pos + 2][0] == IAC && data[pos..pos + 2][1] == command;
  }

  /** Decoding inverts encoding: segments and commands come out in order, adjacent data as one segment. */
  lemma {:induction false} ItemsReadBack(data: seq<byte>, pos: nat, items: seq<Item>, current: seq<byte>)
    requires AllGood(items) && At(data, pos, EncodeAll(items)) && pos + |EncodeAll(items)| == |data|
    ensures Scan(data, pos, current) == Decoded(Read(items, current), |data|)
    decreases |items|
  {
    hide Good, Encode, TokenAt, Segment;
    if items != [] {
      AtSplit(data, pos, Encode(items[0]), EncodeAll(items[1..]));
      if items[0].Data? {
        DataItemScanned(data, pos, items[0], current);
        ItemsReadBack(data, pos + |Encode(items[0])|, items[1..], current + items[0].bytes);
      } else {
        CommandToken(data, pos, items[0]);
        CommandIsNotEmpty(items[0]);
        ItemsReadBack(data, pos + |Encode(items[0])|, items[1..], []);
      }
    }
  }

  lemma DataItemScanned(data: seq<byte>, pos: nat, item: Item, current: seq<byte>)
    requires item.Data? && At(data, pos, Encode(item))
    ensures Scan(data, pos, current) == Scan(data, pos + |Encode(item)|, current + item.bytes)
  {
    hide Scan, Escape, At;
    EscapedDataScanned(data, pos, item.bytes, current);
  }

  lemma CommandIsNotEmpty(item: Item)
    requires !item.Data?
    ensures Encode(item) != []
  {
  }

  predicate NoAdjacentData(items: seq<Item>) {
    forall i :: 0 <= i < |items| - 1 ==> !(items[i].Data? && items[i + 1].Data?)
  }

  function DataOf(items: seq<Item>): seq<seq<byte>> {
    if items == [] then []
    else if items[0].Data? then [items[0].bytes] + DataOf(items[1..])
    else DataOf(items[1..])
  }

  function AllCommands(items: seq<Item>): seq<TelnetCommand> {
    if items == [] then [] else CommandsOf(items[0]) + AllCommands(items[1..])
  }

  lemma {:induction false} SeparatedItems(items: seq<Item>, current: seq<byte>)
    requires AllGood(items) && NoAdjacentData(items)
    requires current != [] && items != [] ==> !items[0].Data?
    ensures Read(items, current) == TelnetMessage(Segment(current) + DataOf(items), AllCommands(items))
    decreases |items|
  {
    if items != [] {
      var rest := items[1..];
      assert forall i :: 0 <= i < |rest| ==> rest[i] == items[i + 1];
      assert NoAdjacentData(rest);
      if items[0].Data? {
        assert current + items[0].bytes == items[0].bytes;
        SeparatedItems(rest, items[0].bytes);
      } else {
        SeparatedItems(rest, []);
      }
    }
  }

  /** Round trip: for every list of non-empty data segments, none adjacent, commands and subnegotiations without an
      inner IAC SE, the decoder returns exactly the segments and the commands in order and consumes everything. */
  lemma EncodedItemsDecode(before: seq<byte>, items: seq<Item>)
    requires AllGood(items) && NoAdjacentData(items)
    ensures
      var data := before + EncodeAll(items);
      Scan(data, |before|, []) == Decoded(TelnetMessage(DataOf(items), AllCommands(items)), |data|)
  {
    ItemsReadBack(before + EncodeAll(items), |before|, items, []);
    SeparatedItems(items, []);
  }

  // ----- A subnegotiation without an end -----

  lemma {:induction false} ItemsThenOpen(
    data: seq<byte>, pos: nat, items: seq<Item>, current: seq<byte>, begin: seq<TelnetCommand>)
    requires AllGood(items) && At(data, pos, EncodeAll(items)) && pos + |EncodeAll(items)| < |data|
    requires TokenAt(data, pos + |EncodeAll(items)|) == OpenSub(begin)
    ensures
      var m := Read(items, current);
      Scan(data, pos, current) == Decoded(TelnetMessage(m.data, m.commands + begin), |data|)
    decreases |items|
  {
    hide Good, Encode, TokenAt, Segment;
    if items == [] {
      assert [] + begin == begin;
    } else {
      AtSplit(data, pos, Encode(items[0]), EncodeAll(items[1..]));
      if items[0].Data? {
        DataItemScanned(data, pos, items[0], current);
        ItemsThenOpen(data, pos + |Encode(items[0])|, items[1..], current + items[0].bytes, begin);
      } else {
        CommandToken(data, pos, items[0]);
        CommandIsNotEmpty(items[0]);
        ItemsThenOpen(data, pos + |Encode(items[0])|, items[1..], [], begin);
        ConcatAssociates(CommandsOf(items[0]), Read(items[1..], []).commands, begin);
      }
    }
  }

  lemma FoundEndIsHeld(data: seq<byte>, from: nat, inner: seq<byte>)
    requires from <= |data| && data[from..] == inner && FindEnd(data, from).Some?
    ensures HoldsEnd(inner)
  {
    var k := FindEnd(data, from).value - from;
    assert inner[k] == data[from + k] == 0xFF && inner[k + 1] == data[from + k + 1] == 0xF0;
  }

  lemma OpenSubToken(data: seq<byte>, pos: nat, inner: seq<byte>)
    requires At(data, pos, [0xFF, 0xFA] + inner) && pos + 2 + |inner| == |data| && !HoldsEnd(inner)
    ensures TokenAt(data, pos) == OpenSub(if inner == [] then [] else [TelnetCommand(0xFA, inner[0])])
  {
    AtSplit(data, pos, [0xFF, 0xFA], inner);
    assert data[pos..pos + 2][0] == 0xFF && data[pos..pos + 2][1] == 0xFA;
    assert inner != [] ==> data[pos + 2..][0] == inner[0];
    if FindEnd(data, pos + 2).Some? {
      FoundEndIsHeld(data, pos + 2, inner);
    }
    hide HoldsEnd;
  }

  /** An unterminated subnegotiation takes all that is there, and its beginning is reported with its option at once,
      unless not even the option has arrived. */
  lemma OpenSubIsReported(before: seq<byte>, items: seq<Item>, inner: seq<byte>)
    requires AllGood(items) && NoAdjacentData(items) && !HoldsEnd(inner)
    ensures
      var data := before + EncodeAll(items) + ([0xFF, 0xFA] + inner);
      var begin := if inner == [] then [] else [TelnetCommand(0xFA, inner[0])];
      Scan(data, |before|, []) == Decoded(TelnetMessage(DataOf(items), AllCommands(items) + begin), |data|)
  {
    hide HoldsEnd, TokenAt, Scan, AllGood, NoAdjacentData;
    var data := before + EncodeAll(items) + ([0xFF, 0xFA] + inner);
    var pos := |before| + |EncodeAll(items)|;
    assert At(data, |before|, EncodeAll(items)) && At(data, pos, [0xFF, 0xFA] + inner);
    OpenSubToken(data, pos, inner);
    ItemsThenOpen(data, |before|, items, [], if inner == [] then [] else [TelnetCommand(0xFA, inner[0])]);
    SeparatedItems(items, []);
    assert Segment([]) + DataOf(items) == DataOf(items);
  }

  // ----- Splitting the stream -----

  /** The scan comes to a subnegotiation that has no end yet. */
  predicate StopsInSub(data: seq<byte>, i: nat)
    decreases |data| - i
  {
    i < |data| &&
    match TokenAt(data, i)
    case Byte(_, next) => StopsInSub(data, next)
    case Commands(_, next) => StopsInSub(data, next)
    case OpenSub(_) => true
    case Partial(_) => false
  }

  lemma {:induction false} FlattenConcat<T>(a: seq<seq<T>>, b: seq<seq<T>>)
    ensures Flatten(a + b) == Flatten(a) + Flatten(b)
    decreases |b|
  {
    if b == [] {
      assert a + b == a;
    } else {
      assert Init(a + b) == a + Init(b) && Last(a + b) == Last(b);
      FlattenConcat(a, Init(b));
      ConcatAssociates(Flatten(a), Flatten(Init(b)), Last(b));
    }
  }

  lemma FlattenSegment(current: seq<byte>, rest: seq<seq<byte>>)
    ensures Flatten(Segment(current) + rest) == current + Flatten(rest)
    ensures Flatten(Segment(current)) == current
  {
    FlattenConcat(Segment(current), rest);
    if current != [] {
      assert Init([current]) == [];
    }
  }

  /** A segment begun only puts its bytes in front. */
  lemma {:induction false} BegunSegment(data: seq<byte>, i: nat, current: seq<byte>)
    ensures Flatten(Scan(data, i, current).message.data) == current + Flatten(Scan(data, i, []).message.data)
    ensures Scan(data, i, current).message.commands == Scan(data, i, []).message.commands
    ensures Scan(data, i, current).offset == Scan(data, i, []).offset
    decreases |data| - i
  {
    FlattenSegment(current, []);
    assert Segment(current) + [] == Segment(current);
    if i < |data| {
      match TokenAt(data, i)
      case Byte(value, next) =>
        BegunSegment(data, next, current + [value]);
        BegunSegment(data, next, [value]);
        assert [] + [value] == [value];
      case Commands(commands, next) =>
        FlattenSegment(current, Scan(data, next, []).message.data);
        assert Segment([]) + Scan(data, next, []).message.data == Scan(data, next, []).message.data;
      case _ =>
    }
  }

  /** Complete tokens stay what they are when bytes are appended. */
  lemma TokenIsStable(a: seq<byte>, b: seq<byte>, i: nat)
    requires i < |a| && (TokenAt(a, i).Byte? || TokenAt(a, i).Commands?)
    ensures TokenAt(a + b, i) == TokenAt(a, i)
  {
    var c := a + b;
    assert forall k :: 0 <= k < |a| ==> c[k] == a[k];
  }

  lemma FindEndShifted(a: seq<byte>, b: seq<byte>, j: nat)
    ensures FindEnd(a + b, |a| + j) == match FindEnd(b, j) case None => None case Some(k) => Some(|a| + k)
  {
    var c := a + b;
    assert forall k :: 0 <= k < |b| ==> c[|a| + k] == b[k];
    assert forall k :: |a| <= k < |c| ==> c[k] == b[k - |a|];
  }

  function ShiftToken(t: Token, n: nat): Token {
    match t
    case Byte(value, next) => Byte(value, n + next)
    case Commands(commands, next) => Commands(commands, n + next)
    case _ => t
  }

  lemma TokenShifted(a: seq<byte>, b: seq<byte>, i: nat)
    requires i < |b|
    ensures TokenAt(a + b, |a| + i) == ShiftToken(TokenAt(b, i), |a|)
  {
    assert forall k :: 0 <= k < |b| ==> (a + b)[|a| + k] == b[k];
    FindEndShifted(a, b, i + 2);
  }

  /** Scanning depends on the bytes from the position on only. */
  lemma {:induction false} ScanShifted(a: seq<byte>, b: seq<byte>, i: nat, current: seq<byte>)
    requires i <= |b|
    ensures Scan(a + b, |a| + i, current) == Decoded(Scan(b, i, current).message, |a| + Scan(b, i, current).offset)
    decreases |b| - i
  {
    hide TokenAt, Segment;
    if i < |b| {
      TokenShifted(a, b, i);
      match TokenAt(b, i)
      case Byte(value, next) => ScanShifted(a, b, next, current + [value]);
      case Commands(_, next) => ScanShifted(a, b, next, []);
      case _ =>
    }
  }

  /** Data without segment limits, commands, and how far one got, of one scan continued by another. */
  predicate Continues(whole: Decoded, first: Decoded, second: Decoded) {
    && Flatten(whole.message.data) == Flatten(first.message.data) + Flatten(second.message.data)
    && whole.message.commands == first.message.commands + second.message.commands
    && whole.offset == second.offset
  }

  lemma {:induction false} AppendedScan(a: seq<byte>, b: seq<byte>, i: nat)
    requires i <= |a| && !StopsInSub(a, i)
    ensures Continues(Scan(a + b, i, []), Scan(a, i, []), Scan(a + b, Scan(a, i, []).offset, []))
    decreases |a| - i
  {
    hide TokenAt, Continues;
    if i < |a| {
      match TokenAt(a, i)
      case Byte(_, next) =>
        TokenIsStable(a, b, i);
        AppendedScan(a, b, next);
        ByteStep(a, i);
        ByteStep(a + b, i);
        BytePrefixed(Scan(a + b, i, []), Scan(a + b, next, []), Scan(a, i, []), Scan(a, next, []),
                     Scan(a + b, Scan(a, i, []).offset, []), TokenAt(a, i).value);
      case Commands(_, next) =>
        TokenIsStable(a, b, i);
        AppendedScan(a, b, next);
        CommandStep(a, i);
        CommandStep(a + b, i);
        CommandsPrefixed(Scan(a + b, i, []), Scan(a + b, next, []), Scan(a, i, []), Scan(a, next, []),
                         Scan(a + b, Scan(a, i, []).offset, []), TokenAt(a, i).commands);
      case Partial(_) => NothingScanned(Scan(a + b, i, []), Scan(a, i, []));
    } else {
      NothingScanned(Scan(a + b, i, []), Scan(a, i, []));
    }
  }

  lemma ByteStep(data: seq<byte>, i: nat)
    requires i < |data| && TokenAt(data, i).Byte?
    ensures
      var now, next := Scan(data, i, []), Scan(data, TokenAt(data, i).next, []);
      && Flatten(now.message.data) == [TokenAt(data, i).value] + Flatten(next.message.data)
      && now.message.commands == next.message.commands && now.offset == next.offset
  {
    var value := TokenAt(data, i).value;
    BegunSegment(data, TokenAt(data, i).next, [value]);
    assert [] + [value] == [value];
    hide TokenAt, Flatten;
  }

  lemma CommandStep(data: seq<byte>, i: nat)
    requires i < |data| && TokenAt(data, i).Commands?
    ensures
      var now, next := Scan(data, i, []), Scan(data, TokenAt(data, i).next, []);
      && now.message.data == next.message.data
      && now.message.commands == TokenAt(data, i).commands + next.message.commands && now.offset == next.offset
  {
    hide TokenAt;
    var next := Scan(data, TokenAt(data, i).next, []);
    assert Segment([]) + next.message.data == next.message.data;
  }

  lemma BytePrefixed(whole: Decoded, wholeRest: Decoded, first: Decoded, firstRest: Decoded, second: Decoded,
                     value: byte)
    requires Continues(wholeRest, firstRest, second)
    requires Flatten(whole.message.data) == [value] + Flatten(wholeRest.message.data)
    requires Flatten(first.message.data) == [value] + Flatten(firstRest.message.data)
    requires whole.message.commands == wholeRest.message.commands && whole.offset == wholeRest.offset
    requires first.message.commands == firstRest.message.commands
    ensures Continues(whole, first, second)
  {
    ConcatAssociates([value], Flatten(firstRest.message.data), Flatten(second.message.data));
  }

  lemma CommandsPrefixed(whole: Decoded, wholeRest: Decoded, first: Decoded, firstRest: Decoded, second: Decoded,
                         commands: seq<TelnetCommand>)
    requires Continues(wholeRest, firstRest, second)
    requires whole.message.data == wholeRest.message.data && first.message.data == firstRest.message.data
    requires whole.message.commands == commands + wholeRest.message.commands && whole.offset == wholeRest.offset
    requires first.message.commands == commands + firstRest.message.commands
    ensures Continues(whole, first, second)
  {
    ConcatAssociates(commands, firstRest.message.commands, second.message.commands);
  }

  lemma NothingScanned(whole: Decoded, first: Decoded)
    requires first.message == TelnetMessage([], [])
    ensures Continues(whole, first, whole)
  {
    assert [] + whole.message.commands == whole.message.commands;
    assert [] + Flatten(whole.message.data) == Flatten(whole.message.data);
  }

  /** Decode `a`, keep what was not consumed, append `b`, decode again. */
  predicate SplitsWell(a: seq<byte>, b: seq<byte>) {
    var first := Scan(a, 0, []);
    var second := Scan(a[first.offset..] + b, 0, []);
    var whole := Scan(a + b, 0, []);
    && Flatten(whole.message.data) == Flatten(first.message.data) + Flatten(second.message.data)
    && whole.message.commands == first.message.commands + second.message.commands
    && whole.offset == first.offset + second.offset
  }

  lemma SplitOutsideSub(a: seq<byte>, b: seq<byte>)
    requires !StopsInSub(a, 0)
    ensures SplitsWell(a, b)
  {
    var end := Scan(a, 0, []).offset;
    AppendedScan(a, b, 0);
    assert a + b == a[..end] + (a[end..] + b);
    ScanShifted(a[..end], a[end..] + b, 0, []);
  }

  /** An end that follows a data byte is swallowed with an open subnegotiation. */
  lemma {:induction false} OpenSubSwallows(a: seq<byte>, b: seq<byte>, i: nat)
    requires i <= |a| && StopsInSub(a, i) && b == [0x78, IAC, SE]
    ensures Flatten(Scan(a + b, i, []).message.data) == Flatten(Scan(a, i, []).message.data)
    ensures Scan(a, i, []).offset == |a|
    decreases |a| - i
  {
    match TokenAt(a, i)
    case Byte(value, next) =>
      TokenIsStable(a, b, i);
      OpenSubSwallows(a, b, next);
      BegunSegment(a, next, [value]);
      BegunSegment(a + b, next, [value]);
      assert [] + [value] == [value];
    case Commands(_, next) =>
      TokenIsStable(a, b, i);
      OpenSubSwallows(a, b, next);
      assert Segment([]) + Scan(a, next, []).message.data == Scan(a, next, []).message.data;
      assert Segment([]) + Scan(a + b, next, []).message.data == Scan(a + b, next, []).message.data;
    case OpenSub(_) =>
      var c := a + b;
      assert forall k :: 0 <= k < |a| ==> c[k] == a[k];
      assert c[|a|] == 0x78 && c[|a| + 1] == IAC && c[|a| + 2] == SE;
      assert FindEnd(c, i + 2) == Some(|a| + 1);
      assert Scan(c, |c|, []).message.data == [];
  }

  /** The result never depends on where the stream is cut if and only if the first part does not stop inside an
      unterminated subnegotiation. */
  lemma SplitIffOutsideSub(a: seq<byte>)
    ensures (forall b :: SplitsWell(a, b)) <==> !StopsInSub(a, 0)
  {
    if StopsInSub(a, 0) {
      var b: seq<byte> := [0x78, IAC, SE];
      OpenSubSwallows(a, b, 0);
      assert a[|a|..] + b == b;
      assert TokenAt(b, 0) == Byte(0x78, 1) && TokenAt(b, 1) == Commands([TelnetCommand(SE, 0)], 3);
      assert Scan(b, 1, [0x78]).message.data == [[0x78]] + Scan(b, 3, []).message.data;
      assert [] + [0x78] == [0x78];
      FlattenSegment([0x78], Scan(b, 3, []).message.data);
      assert !SplitsWell(a, b);
    } else {
      forall b ensures SplitsWell(a, b) {
        SplitOutsideSub(a, b);
      }
    }
  }
}
