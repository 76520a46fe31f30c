/** Telnet data and commands (RFC 854, RFC 855). */
module Telnet {
  import opened Common

  const IAC: byte := 0xFF
  const SB: byte := 0xFA
  const SE: byte := 0xF0
  const WILL: byte := 0xFB
  const DONT: byte := 0xFE

  datatype TelnetCommand = TelnetCommand(command: byte, option: byte)

  /** Plain data between commands, and the commands. */
  datatype TelnetMessage = TelnetMessage(data: seq<seq<byte>>, commands: seq<TelnetCommand>)

  /** A message and the offset up to which the buffer was consumed. */
  datatype Decoded = Decoded(message: TelnetMessage, offset: nat)

  // ----- Meaning -----

  /** The first IAC SE at or after `j`. */
  function FindEnd(data: seq<byte>, j: nat): (r: Option<nat>)
    ensures r.Some? ==> j <= r.value && r.value + 1 < |data| && data[r.value] == IAC && data[r.value + 1] == SE
    ensures forall k :: j <= k && k + 1 < |data| && (r.Some? ==> k < r.value) ==> !(data[k] == IAC && data[k + 1] == SE)
    decreases |data| - j
  {
    if j + 1 >= |data| then None
    else if data[j] == IAC && data[j + 1] == SE then Some(j)
    else FindEnd(data, j + 1)
  }

  /** What stands at a position: a data byte, a command, or something that needs bytes not yet there. */
  datatype Token =
    | Byte(value: byte, next: nat)
    | Commands(commands: seq<TelnetCommand>, next: nat)
    | OpenSub(commands: seq<TelnetCommand>)
    | Partial(endsSegment: bool)

  function TokenAt(data: seq<byte>, i: nat): (t: Token)
    requires i < |data|
    ensures t.Byte? || t.Commands? ==> i < t.next <= |data|
  {
    if data[i] != IAC then Byte(data[i], i + 1)
    else if i + 1 >= |data| then Partial(false)
    else
      var cmd := data[i + 1];
      if cmd == IAC then Byte(IAC, i + 2)
      else if cmd == SB then
        var begin := if i + 2 < |data| then [TelnetCommand(SB, data[i + 2])] else [];
        match FindEnd(data, i + 2)
        case Some(j) => Commands(begin + [TelnetCommand(SE, 0)], j + 2)
        case None => OpenSub(begin)
      else if WILL <= cmd <= DONT then
        if i + 2 >= |data| then Partial(true) else Commands([TelnetCommand(cmd, data[i + 2])], i + 3)
      else Commands([TelnetCommand(cmd, 0)], i + 2)
  }

  function Segment(current: seq<byte>): seq<seq<byte>> {
    if current == [] then [] else [current]
  }

  /** Decoding from position `i` with a segment begun. */
  function Scan(data: seq<byte>, i: nat, current: seq<byte>): (r: Decoded)
    ensures i <= |data| ==> r.offset <= |data|
    decreases |data| - i
  {
    if i >= |data| then Decoded(TelnetMessage(Segment(current), []), i)
    else
      match TokenAt(data, i)
      case Byte(value, next) => Scan(data, next, current + [value])
      case Commands(commands, next) =>
        var rest := Scan(data, next, []);
        Decoded(TelnetMessage(Segment(current) + rest.message.data, commands + rest.message.commands), rest.offset)
      case OpenSub(commands) => Decoded(TelnetMessage(Segment(current), commands), |data|)
      case Partial(_) => Decoded(TelnetMessage(Segment(current), []), i)
  }

  // ----- The decoder -----

  /** The loop that skips a subnegotiation. */
  method SkipToEnd(data: seq<byte>, start: nat) returns (j: nat)
    requires start <= |data|
    ensures j + 1 < |data| <==> FindEnd(data, start).Some?
    ensures j + 1 < |data| ==> FindEnd(data, start) == Some(j)
  {
    j := start;
    while j + 1 < |data|
      invariant start <= j
      invariant FindEnd(data, start) == FindEnd(data, j)
      decreases |data| - j
    {
      if data[j] == IAC && data[j + 1] == SE {
        break;
      }
      j := j + 1;
    }
  }

  /** The loop has come to position `i` with this much collected. */
  ghost predicate Collected(whole: Decoded, data: seq<byte>, i: nat, segments: seq<seq<byte>>,
                            commands: seq<TelnetCommand>, current: seq<byte>)
  {
    && i <= |data|
    && whole.message.data == segments + Scan(data, i, current).message.data
    && whole.message.commands == commands + Scan(data, i, current).message.commands
    && whole.offset == Scan(data, i, current).offset
  }

  lemma NothingCollected(data: seq<byte>, offset: nat)
    requires offset <= |data|
    ensures Collected(Scan(data, offset, []), data, offset, [], [], [])
  {
  }

  lemma ByteRound(whole: Decoded, data: seq<byte>, i: nat, segments: seq<seq<byte>>,
                  commands: seq<TelnetCommand>, current: seq<byte>)
    requires Collected(whole, data, i, segments, commands, current) && i < |data| && TokenAt(data, i).Byte?
    ensures Collected(whole, data, TokenAt(data, i).next, segments, commands, current + [TokenAt(data, i).value])
  {
    hide TokenAt;
  }

  /** One round of the loop on a command: the segment begun is ended. */
  lemma CommandRound(whole: Decoded, data: seq<byte>, i: nat, segments: seq<seq<byte>>,
                     commands: seq<TelnetCommand>, current: seq<byte>)
    requires Collected(whole, data, i, segments, commands, current)
    requires i < |data| && (TokenAt(data, i).Commands? || TokenAt(data, i).OpenSub?)
    ensures
      var token := TokenAt(data, i);
      var next := if token.Commands? then token.next else |data|;
      Collected(whole, data, next, segments + Segment(current), commands + token.commands, [])
  {
    hide TokenAt, Segment;
    var token := TokenAt(data, i);
    var rest := if token.Commands? then Scan(data, token.next, []).message else TelnetMessage([], []);
    ConcatAssociates(segments, Segment(current), rest.data);
    ConcatAssociates(commands, token.commands, rest.commands);
    if token.OpenSub? {
      EndOfScan(data);
    }
  }

  lemma EndOfScan(data: seq<byte>)
    ensures Scan(data, |data|, []) == Decoded(TelnetMessage([], []), |data|)
  {
  }

  /** After the last round the segment begun is all that is missing. */
  lemma LastRound(whole: Decoded, data: seq<byte>, i: nat, segments: seq<seq<byte>>,
                  commands: seq<TelnetCommand>, current: seq<byte>)
    requires Collected(whole, data, i, segments, commands, current)
    requires i == |data| || TokenAt(data, i).Partial?
    ensures whole == Decoded(TelnetMessage(segments + Segment(current), commands), i)
  {
    hide TokenAt, Segment;
    assert commands + [] == commands;
  }

  method DecodeTelnet(data: seq<byte>, offset: nat) returns (r: Result<Decoded>)
    ensures r == if |data| <= offset then Err(TruncatedHeader) else Ok(Scan(data, offset, []))
  {
    hide Scan, FindEnd, Collected;
    if |data| <= offset {
      return Err(TruncatedHeader);
    }
    var segments: seq<seq<byte>>, commands: seq<TelnetCommand>, current: seq<byte>, i: nat := [], [], [], offset;
    ghost var whole := Scan(data, offset, []);
    NothingCollected(data, offset);
    while i < |data|
      invariant i <= |data|
      invariant Collected(whole, data, i, segments, commands, current)
      decreases |data| - i
    {
      ghost var token, known, ended := TokenAt(data, i), commands, segments + Segment(current);
      assert ended + Segment([]) == ended;
      if token.Byte? {
        ByteRound(whole, data, i, segments, commands, current);
      } else if token.Partial? {
        LastRound(whole, data, i, segments, commands, current);
      } else {
        CommandRound(whole, data, i, segments, commands, current);
      }
      if data[i] == IAC {
        if i + 1 >= |data| {
          break;
        }
        var cmd := data[i + 1];
        if cmd == IAC {
          current := current + [IAC];
          i := i + 2;
        } else {
          if current != [] {
            segments := segments + [current];
            current := [];
          }
          assert segments == ended && current == [];
          if cmd == SB {
            if i + 2 < |data| {
              commands := commands + [TelnetCommand(SB, data[i + 2])];
            }
            var j := SkipToEnd(data, i + 2);
            if j + 1 < |data| {
              commands := commands + [TelnetCommand(SE, 0)];
              i := j + 2;
            } else {
              i := |data|;
            }
            assert commands == known + token.commands;
          } else if WILL <= cmd <= DONT {
            if i + 2 >= |data| {
              break;
            }
            commands := commands + [TelnetCommand(cmd, data[i + 2])];
            i := i + 3;
          } else {
            commands := commands + [TelnetCommand(cmd, 0)];
            i := i + 2;
          }
        }
      } else {
        current := current + [data[i]];
        i := i + 1;
      }
    }
    if i == |data| {
      LastRound(whole, data, i, segments, commands, current);
    }
    assert segments + [] == segments;
    if current != [] {
      segments := segments + [current];
    }
    return Ok(Decoded(TelnetMessage(segments, commands), i));
  }
}
