/** Protocol lines read back, and do not depend on what follows them in the buffer. */
module MailRoundTrip {
  import opened Common
  import opened Wire
  import opened Mail

  /** A line that can be sent: not empty, and its terminator is the first. */
  ghost predicate Sendable(line: seq<byte>) {
    line != [] && forall i :: 0 <= i < |line| ==> !OccursAt(line + CRLF, CRLF, i)
  }

  /** A line at a position of a buffer is found, whatever follows it. */
  lemma LineReadsBack(data: seq<byte>, pos: nat, line: seq<byte>)
    requires Sendable(line) && At(data, pos, line + CRLF)
    ensures LineAt(data, pos) == Ok(line)
  {
    var end := pos + |line|;
    AtSplit(data, pos, line, CRLF);
    assert OccursAt(data, CRLF, end);
    forall i | pos <= i < end
      ensures !OccursAt(data, CRLF, i)
    {
      SliceOfSlice(data, pos, end + 2, i - pos, i - pos + 2);
      assert !OccursAt(line + CRLF, CRLF, i - pos);
    }
    assert LineAt(data, pos).Ok?;
    var found := LineAt(data, pos).value;
    FirstEnd(data, pos, |line|, |found|);
    SliceOfSlice(data, pos, end + 2, 0, |line|);
  }

  lemma FirstEnd(data: seq<byte>, pos: nat, m: nat, n: nat)
    requires OccursAt(data, CRLF, pos + m) && OccursAt(data, CRLF, pos + n)
    requires forall i :: pos <= i < pos + m || pos <= i < pos + n ==> !OccursAt(data, CRLF, i)
    ensures m == n
  {
  }

  /** A line that is found once is found in every longer buffer. */
  lemma LineIsStable(data: seq<byte>, more: seq<byte>, pos: nat)
    requires LineAt(data, pos).Ok?
    ensures LineAt(data + more, pos) == LineAt(data, pos)
  {
    var line := LineAt(data, pos).value;
    forall i | 0 <= i < |line|
      ensures !OccursAt(line + CRLF, CRLF, i)
    {
      SliceOfSlice(data, pos, pos + |line| + 2, i, i + 2);
      assert !OccursAt(data, CRLF, pos + i);
    }
    assert (data + more)[pos..pos + |line| + 2] == data[pos..pos + |line| + 2];
    LineReadsBack(data + more, pos, line);
  }

  lemma FirstSpace(line: seq<byte>, command: seq<byte>, argument: seq<byte>)
    requires SPACE !in command
    requires line == command + [SPACE] + argument || (line == command && argument == [])
    ensures SplitCommand(line) == (command, argument)
  {
    forall i | 0 <= i < |command|
      ensures !OccursAt(line, [SPACE], i)
    {
      assert line[i..i + 1][0] == command[i] && command[i] in command;
    }
    if line == command + [SPACE] + argument {
      assert line[|command|..|command| + 1] == [SPACE];
      assert OccursAt(line, [SPACE], |command|);
      assert Find(line, [SPACE], 0) == Some(|command|);
      assert line[..|command|] == command && line[|command| + 1..] == argument;
    } else {
      assert Find(line, [SPACE], 0) == None;
    }
  }

  /** A line determines the message it writes. */
  lemma Pop3WritesOnce(m: Pop3Message, line: seq<byte>)
    requires Pop3Writes(m, line)
    ensures ParsePop3(line) == m
  {
    if !m.isResponse {
      FirstSpace(line, m.command, m.argument);
    } else {
      assert line[0] == if m.success then OK_STATUS[0] else ERR_STATUS[0];
      StatusTextRead(line, if m.success then OK_STATUS else ERR_STATUS, m.responseText);
    }
  }

  lemma StatusTextRead(line: seq<byte>, status: seq<byte>, text: seq<byte>)
    requires line == status + [SPACE] + text || (line == status + text && (text == [] || text[0] != SPACE))
    ensures status <= line && StatusText(line, |status|) == text
  {
  }

  lemma SmtpWritesOnce(m: SmtpMessage, line: seq<byte>)
    requires SmtpWrites(m, line)
    ensures ParseSmtp(line) == m
  {
    if !m.isResponse {
      FirstSpace(line, m.command, m.argument);
    } else {
      ReplyRead(line, m.replyCode, if line[3] == SPACE then SPACE else 0x2D, m.replyText);
    }
  }

  lemma ReplyRead(line: seq<byte>, code: nat, separator: byte, text: seq<byte>)
    requires code < 1000 && (separator == SPACE || separator == 0x2D)
    requires line == ThreeDigits(code) + [separator] + text
    ensures IsReplyLine(line) && ReplyCode(line) == code && line[4..] == text
  {
    assert line[..3] == ThreeDigits(code);
    assert line[0] == line[..3][0] && line[1] == line[..3][1] && line[2] == line[..3][2];
  }

  /** Every way to write a POP3 message, anywhere in a buffer, decodes to that message and ends behind its line. */
  lemma Pop3ReadsBack(data: seq<byte>, pos: nat, m: Pop3Message, line: seq<byte>)
    requires Pop3Writes(m, line) && Sendable(line) && At(data, pos, line + CRLF)
    ensures DecodePop3(data, pos) == Ok(Decoded(m, pos + |line| + 2))
  {
    LineReadsBack(data, pos, line);
    Pop3WritesOnce(m, line);
    hide Pop3Writes, ParsePop3;
  }

  /** Likewise for SMTP. */
  lemma SmtpReadsBack(data: seq<byte>, pos: nat, m: SmtpMessage, line: seq<byte>)
    requires SmtpWrites(m, line) && Sendable(line) && At(data, pos, line + CRLF)
    ensures DecodeSmtp(data, pos) == Ok(Decoded(m, pos + |line| + 2))
  {
    LineReadsBack(data, pos, line);
    SmtpWritesOnce(m, line);
    hide SmtpWrites, ParseSmtp;
  }

  /** When decoding fails and how: at the end of the data the header is truncated; before it, without a line end or with
      one at once, the packet is malformed. */
  lemma MailErrors(data: seq<byte>, pos: nat)
    ensures DecodePop3(data, pos) == Err(TruncatedHeader) <==> pos >= |data|
    ensures DecodePop3(data, pos) == Err(MalformedPacket)
            <==> pos < |data| && (OccursAt(data, CRLF, pos) || forall i: nat :: pos <= i ==> !OccursAt(data, CRLF, i))
    ensures DecodePop3(data, pos).Err? ==> DecodeSmtp(data, pos) == Err(DecodePop3(data, pos).error)
    ensures DecodeSmtp(data, pos).Err? ==> DecodePop3(data, pos).Err?
  {
    hide ParsePop3, ParseSmtp, OccursAt, Pop3Writes, SmtpWrites;
  }
}
