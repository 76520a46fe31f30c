/** The end of a mail and the commands that a mail answers, in bytes. */
module MailData {
  import opened Common
  import opened Flow
  import opened Mail
  import MailRoundTrip

  // ----- Dot-stuffed lines (section 3 of RFC 1939, section 4.5.2 of RFC 5321) -----

  /** A line without a line end inside. */
  predicate GoodLine(line: seq<byte>) {
    forall i :: 0 <= i < |line| - 1 ==> !(line[i] == 0x0D && line[i + 1] == 0x0A)
  }

  predicate GoodLines(lines: seq<seq<byte>>) {
    forall i :: 0 <= i < |lines| ==> GoodLine(lines[i])
  }

  /** A dot at the front of a line is doubled. */
  function Stuffed(line: seq<byte>): seq<byte> {
    if line != [] && line[0] == 0x2E then [0x2E] + line else line
  }

  /** The lines of a mail as they are sent, and the dot line that ends it. */
  function Sent(lines: seq<seq<byte>>): seq<byte> {
    if lines == [] then [0x2E, 0x0D, 0x0A] else Stuffed(lines[0]) + [0x0D, 0x0A] + Sent(lines[1..])
  }

  lemma StuffedIsGood(line: seq<byte>)
    requires GoodLine(line)
    ensures GoodLine(Stuffed(line))
    ensures Stuffed(line) == [] || Stuffed(line)[0] != 0x2E || (|Stuffed(line)| > 1 && Stuffed(line)[1] == 0x2E)
  {
    if line != [] && line[0] == 0x2E {
      var s := Stuffed(line);
      assert forall i :: 0 < i < |s| ==> s[i] == line[i - 1];
    }
  }

  /** The pattern that ends a mail behind its first line, in bytes. */
  lemma EndPattern(data: seq<byte>, i: nat)
    ensures OccursAt(data, CRLF + DOT_LINE, i)
            <==> i + 5 <= |data| && data[i] == 0x0D && data[i + 1] == 0x0A && data[i + 2] == 0x2E
                 && data[i + 3] == 0x0D && data[i + 4] == 0x0A
  {
    if i + 5 <= |data| {
      assert data[i..i + 5] == [data[i], data[i + 1], data[i + 2], data[i + 3], data[i + 4]];
    }
  }

  predicate DotAt(data: seq<byte>, i: nat) {
    i + 3 <= |data| && data[i] == 0x2E && data[i + 1] == 0x0D && data[i + 2] == 0x0A
  }

  predicate BreakAndDotAt(data: seq<byte>, i: nat) {
    DotAt(data, i + 2) && data[i] == 0x0D && data[i + 1] == 0x0A
  }

  /** A dot line at the front or behind a line end, in bytes. */
  lemma EndOfDataInBytes(data: seq<byte>)
    ensures HasEndOfData(data)
            <==> DotAt(data, 0) || exists i: nat :: BreakAndDotAt(data, i)
  {
    assert DotAt(data, 0) ==> data[..3] == DOT_LINE;
    if HasEndOfData(data) && !(DOT_LINE <= data) {
      var i := Find(data, CRLF + DOT_LINE, 0).value;
      EndPattern(data, i);
      assert BreakAndDotAt(data, i);
    }
    if i: nat :| BreakAndDotAt(data, i) {
      EndPattern(data, i);
    }
  }

  /** The bytes of two pieces with a line end between them. */
  predicate Lies(data: seq<byte>, s: seq<byte>, behind: seq<byte>) {
    && |data| == |s| + 2 + |behind|
    && (forall k :: 0 <= k < |s| ==> data[k] == s[k])
    && data[|s|] == 0x0D && data[|s| + 1] == 0x0A
    && (forall k :: 0 <= k < |behind| ==> data[|s| + 2 + k] == behind[k])
  }

  lemma EndStaysBehind(data: seq<byte>, s: seq<byte>, behind: seq<byte>)
    requires Lies(data, s, behind)
    ensures DotAt(behind, 0) ==> BreakAndDotAt(data, |s|)
    ensures forall i: nat :: BreakAndDotAt(behind, i) ==> BreakAndDotAt(data, |s| + 2 + i)
  {
    forall i: nat | BreakAndDotAt(behind, i)
      ensures BreakAndDotAt(data, |s| + 2 + i)
    {
      assert data[|s| + 2 + i] == behind[i] && data[|s| + 2 + (i + 1)] == behind[i + 1];
      DotMoves(data, s, behind, i + 2);
    }
    DotMoves(data, s, behind, 0);
  }

  lemma DotMoves(data: seq<byte>, s: seq<byte>, behind: seq<byte>, k: nat)
    requires Lies(data, s, behind)
    ensures DotAt(data, |s| + 2 + k) <==> DotAt(behind, k)
  {
    if k + 3 <= |behind| {
      assert data[|s| + 2 + k] == behind[k] && data[|s| + 2 + (k + 1)] == behind[k + 1];
      assert data[|s| + 2 + (k + 2)] == behind[k + 2];
    }
  }

  lemma NoBreakInside(data: seq<byte>, s: seq<byte>, behind: seq<byte>, i: nat)
    requires Lies(data, s, behind) && GoodLine(s) && i < |s|
    ensures !(data[i] == 0x0D && data[i + 1] == 0x0A)
  {
    assert data[i] == s[i];
    if i + 1 < |s| {
      assert data[i + 1] == s[i + 1];
    }
  }

  lemma EndIsBehind(data: seq<byte>, s: seq<byte>, behind: seq<byte>, i: nat)
    requires Lies(data, s, behind) && GoodLine(s) && BreakAndDotAt(data, i)
    ensures if i == |s| then DotAt(behind, 0) else i >= |s| + 2 && BreakAndDotAt(behind, i - |s| - 2)
  {
    if i < |s| {
      NoBreakInside(data, s, behind, i);
      assert false;
    }
    assert i >= |s| && i != |s| + 1;
    DotMoves(data, s, behind, if i == |s| then 0 else i - |s|);
    if i >= |s| + 2 {
      var k := i - |s| - 2;
      assert data[|s| + 2 + k] == behind[k] && data[|s| + 2 + (k + 1)] == behind[k + 1];
    }
  }

  /** A stuffed line and its end neither hold the end of a mail nor hide one behind them. */
  lemma EndBehindLine(line: seq<byte>, behind: seq<byte>)
    requires GoodLine(line)
    ensures HasEndOfData(Stuffed(line) + [0x0D, 0x0A] + behind) <==> HasEndOfData(behind)
  {
    var s, data := Stuffed(line), Stuffed(line) + [0x0D, 0x0A] + behind;
    StuffedIsGood(line);
    assert Lies(data, s, behind);
    assert !DotAt(data, 0);
    EndOfDataInBytes(data);
    EndOfDataInBytes(behind);
    hide HasEndOfData, Stuffed, Lies, GoodLine, DotAt, BreakAndDotAt;
    EndStaysBehind(data, s, behind);
    if i: nat :| BreakAndDotAt(data, i) {
      EndIsBehind(data, s, behind, i);
    }
  }

  /** The end is not found inside the first line, nor missed or invented behind it. */
  lemma FrontOfLine(line: seq<byte>, rest: seq<byte>, n: nat)
    requires GoodLine(line) && n <= |Stuffed(line)| + 2 + |rest|
    ensures
      var k := n - |Stuffed(line)| - 2;
      HasEndOfData((Stuffed(line) + [0x0D, 0x0A] + rest)[..n]) <==> k >= 0 && HasEndOfData(rest[..k])
  {
    hide HasEndOfData, Stuffed;
    var head := Stuffed(line) + [0x0D, 0x0A];
    var front := (head + rest)[..n];
    if n >= |head| {
      EndBehindLine(line, rest[..n - |head|]);
      assert front == head + rest[..n - |head|];
    } else {
      EndBehindLine(line, []);
      NothingHasNoEnd();
      assert head + [] == head && front + head[n..] == head;
      if HasEndOfData(front) {
        EndOfDataIsMonotone(front, head[n..]);
      }
    }
  }

  lemma NothingHasNoEnd()
    ensures !HasEndOfData([])
  {
  }

  /** For every list of lines, the empty one included: the mail as it is sent holds the end of data, and no proper
      prefix of it does. */
  lemma {:induction false} MailEndsAtItsEnd(lines: seq<seq<byte>>, n: nat)
    requires GoodLines(lines) && n <= |Sent(lines)|
    ensures HasEndOfData(Sent(lines)[..n]) <==> n == |Sent(lines)|
    decreases |lines|
  {
    if lines == [] {
      EndOfDataInBytes(Sent(lines)[..n]);
    } else {
      hide HasEndOfData, Stuffed, GoodLine;
      var size := |Stuffed(lines[0])| + 2;
      FrontOfLine(lines[0], Sent(lines[1..]), n);
      if n >= size {
        MailEndsAtItsEnd(lines[1..], n - size);
      }
    }
  }

  /** Whatever follows a mail, its end is found with its last byte. */
  lemma MailEndsInFrontOf(lines: seq<seq<byte>>, more: seq<byte>, n: nat)
    requires GoodLines(lines) && n <= |Sent(lines) + more|
    ensures HasEndOfData((Sent(lines) + more)[..n]) <==> n >= |Sent(lines)|
  {
    var all := Sent(lines) + more;
    hide HasEndOfData;
    if n < |Sent(lines)| {
      MailEndsAtItsEnd(lines, n);
      assert all[..n] == Sent(lines)[..n];
    } else {
      MailEndsAtItsEnd(lines, |Sent(lines)|);
      assert Sent(lines)[..|Sent(lines)|] == Sent(lines);
      EndOfDataIsMonotone(Sent(lines), all[|Sent(lines)|..n]);
      assert all[..n] == Sent(lines) + all[|Sent(lines)|..n];
    }
  }

  // ----- Lines that start data -----

  lemma BreakBytes(data: seq<byte>, i: nat)
    ensures OccursAt(data, CRLF, i) ==> data[i] == 0x0D && data[i + 1] == 0x0A
  {
    if i + 2 <= |data| {
      assert data[i..i + 2] == [data[i], data[i + 1]];
    }
  }

  lemma GoodIsSendable(line: seq<byte>)
    requires GoodLine(line) && line != []
    ensures MailRoundTrip.Sendable(line) && LineAt(line + [0x0D, 0x0A], 0) == Ok(line)
  {
    var data := line + CRLF;
    assert data == line + [0x0D, 0x0A];
    forall i | 0 <= i < |line|
      ensures !OccursAt(data, CRLF, i)
    {
      BreakBytes(data, i);
      assert data[i] == line[i];
      if i + 1 < |line| {
        assert data[i + 1] == line[i + 1];
      } else {
        assert data[i + 1] == 0x0D;
      }
    }
    assert data[0..|data|] == data;
    MailRoundTrip.LineReadsBack(data, 0, line);
  }

  /** A command line: a word and perhaps an argument behind a space. */
  function CommandLine(word: seq<byte>, argument: Option<seq<byte>>): seq<byte> {
    match argument
    case None => word
    case Some(a) => word + [0x20] + a
  }

  /** No status indicator stands at the front: neither "+OK" nor "-ERR". */
  predicate NoStatus(line: seq<byte>) {
    !([0x2B, 0x4F, 0x4B] <= line) && !([0x2D, 0x45, 0x52, 0x52] <= line)
  }

  /** "RETR" and "TOP", and "LIST" and "UIDL" without an argument. */
  predicate AsksForData(word: seq<byte>, argument: Option<seq<byte>>) {
    || word == [0x52, 0x45, 0x54, 0x52] || word == [0x54, 0x4F, 0x50]
    || ((word == [0x4C, 0x49, 0x53, 0x54] || word == [0x55, 0x49, 0x44, 0x4C])
        && (argument == None || argument == Some([])))
  }

  lemma ParsedCommand(word: seq<byte>, argument: Option<seq<byte>>)
    requires 0x20 !in word && NoStatus(CommandLine(word, argument))
    ensures ParsePop3(CommandLine(word, argument))
            == Pop3Message(false, word, if argument.Some? then argument.value else [], false, [])
  {
    MailRoundTrip.FirstSpace(CommandLine(word, argument), word, if argument.Some? then argument.value else []);
  }

  /** After a command line, of all commands and arguments, a multi-line response is awaited on the other direction if
      and only if the command asks for data. */
  lemma CommandAwaitsDataIff(states: Pop3States, f: FlowId, word: seq<byte>, argument: Option<seq<byte>>)
    requires 0x20 !in word && NoStatus(CommandLine(word, argument))
    requires GoodLine(CommandLine(word, argument)) && CommandLine(word, argument) != []
    requires Reverse(f) != f && !Pop3StateOf(states, f).inDataMode && !Pop3StateOf(states, Reverse(f)).pendingMultiline
    ensures
      Pop3StateOf(Pop3Call(states, f, CommandLine(word, argument) + [0x0D, 0x0A]).0, Reverse(f)).pendingMultiline
      <==> AsksForData(word, argument)
  {
    GoodIsSendable(CommandLine(word, argument));
    ParsedCommand(word, argument);
    hide LineAt, ParsePop3, CommandLine, GoodLine, NoStatus, HasEndOfData;
  }

  /** A line that begins with "+OK" starts the data that is awaited, one that begins with "-ERR" does not. */
  lemma StatusStartsDataIff(states: Pop3States, f: FlowId, text: seq<byte>, success: bool)
    requires Pop3StateOf(states, f) == Pop3FlowState(true, false)
    requires GoodLine((if success then [0x2B, 0x4F, 0x4B] else [0x2D, 0x45, 0x52, 0x52]) + text)
    ensures
      var line := (if success then [0x2B, 0x4F, 0x4B] else [0x2D, 0x45, 0x52, 0x52]) + text;
      var (after, decoded) := Pop3Call(states, f, line + [0x0D, 0x0A]);
      && Pop3StateOf(after, f) == Pop3FlowState(false, success)
      && decoded.Some? && decoded.value.offset == |line| + 2
  {
    var line := (if success then [0x2B, 0x4F, 0x4B] else [0x2D, 0x45, 0x52, 0x52]) + text;
    GoodIsSendable(line);
    assert if success then OK_STATUS <= line else line[0] == 0x2D && ERR_STATUS <= line;
    hide LineAt, GoodLine, StatusText, HasEndOfData;
  }

  /** A reply line starts the data of the other direction if and only if its code is 354; the line is the code, a space
      or a hyphen, and text. */
  lemma ReplyStartsDataIff(states: SmtpStates, f: FlowId, a: nat, b: nat, c: nat, hyphen: bool, text: seq<byte>)
    requires a < 10 && b < 10 && c < 10 && Reverse(f) != f
    requires GoodLine([0x30 + a, 0x30 + b, 0x30 + c, if hyphen then 0x2D else 0x20] + text)
    requires !SmtpStateOf(states, f).inDataMode && !SmtpStateOf(states, Reverse(f)).inDataMode
    ensures
      var line := [0x30 + a, 0x30 + b, 0x30 + c, if hyphen then 0x2D else 0x20] + text;
      SmtpStateOf(SmtpCall(states, f, line + [0x0D, 0x0A]).0, Reverse(f)).inDataMode <==> a == 3 && b == 5 && c == 4
  {
    var line := [0x30 + a, 0x30 + b, 0x30 + c, if hyphen then 0x2D else 0x20] + text;
    GoodIsSendable(line);
    assert ParseSmtp(line).isResponse && ParseSmtp(line).replyCode == 100 * a + 10 * b + c;
    hide LineAt, GoodLine, ParseSmtp, HasEndOfData;
  }
}
