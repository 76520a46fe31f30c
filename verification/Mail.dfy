/** SMTP and POP3: one protocol line at a time, and the data mode that one direction imposes on the other. */
module Mail {
  import opened Common
  import opened Flow

  const CRLF: seq<byte> := [0x0D, 0x0A]
  const SPACE: byte := 0x20

  /** ".", CR, LF: the end of a message at the start of a buffer. */
  const DOT_LINE: seq<byte> := [0x2E, 0x0D, 0x0A]
  const OK_STATUS: seq<byte> := [0x2B, 0x4F, 0x4B]
  const ERR_STATUS: seq<byte> := [0x2D, 0x45, 0x52, 0x52]
  const RETR: seq<byte> := [0x52, 0x45, 0x54, 0x52]
  const TOP: seq<byte> := [0x54, 0x4F, 0x50]
  const LIST: seq<byte> := [0x4C, 0x49, 0x53, 0x54]
  const UIDL: seq<byte> := [0x55, 0x49, 0x44, 0x4C]

  datatype Pop3Message = Pop3Message(
    isResponse: bool, command: seq<byte>, argument: seq<byte>, success: bool, responseText: seq<byte>)

  datatype SmtpMessage = SmtpMessage(
    isResponse: bool, command: seq<byte>, argument: seq<byte>, replyCode: nat, replyText: seq<byte>)

  /** A message and the offset just past its line. */
  datatype Decoded<+T> = Decoded(message: T, offset: nat)

  predicate OccursAt(text: seq<byte>, pattern: seq<byte>, i: nat) {
    i + |pattern| <= |text| && text[i..i + |pattern|] == pattern
  }

  /** The first occurrence of `pattern` at or after `from`, as string_view::find. */
  function Find(text: seq<byte>, pattern: seq<byte>, from: nat): (r: Option<nat>)
    ensures r.Some? ==> from <= r.value && OccursAt(text, pattern, r.value)
    ensures forall i :: from <= i && OccursAt(text, pattern, i) ==> r.Some? && r.value <= i
    decreases |text| - from
  {
    if from + |pattern| > |text| then None
    else if OccursAt(text, pattern, from) then Some(from)
    else if from == |text| then None
    else Find(text, pattern, from + 1)
  }

  /** The CRLF-terminated line at `offset`, without its terminator. */
  function LineAt(data: seq<byte>, offset: nat): (r: Result<seq<byte>>)
    ensures r.Ok? ==> r.value != [] && offset + |r.value| + 2 <= |data|
                      && data[offset..offset + |r.value| + 2] == r.value + CRLF
    ensures r.Ok? ==> forall i :: offset <= i < offset + |r.value| ==> !OccursAt(data, CRLF, i)
    ensures r.Ok? <==> !OccursAt(data, CRLF, offset) && exists i :: offset <= i && OccursAt(data, CRLF, i)
  {
    if |data| <= offset then Err(TruncatedHeader)
    else
      match Find(data, CRLF, offset)
      case None => Err(MalformedPacket)
      case Some(lineEnd) =>
        if lineEnd == offset then Err(MalformedPacket)
        else
          assert data[offset..lineEnd + 2] == data[offset..lineEnd] + data[lineEnd..lineEnd + 2];
          Ok(data[offset..lineEnd])
  }

  lemma LineIsSlice(data: seq<byte>, offset: nat)
    requires LineAt(data, offset).Ok?
    ensures data[offset..offset + |LineAt(data, offset).value|] == LineAt(data, offset).value
  {
    SliceOfSlice(data, offset, offset + |LineAt(data, offset).value| + 2, 0, |LineAt(data, offset).value|);
  }

  /** Command word and argument, split at the first space. */
  function SplitCommand(line: seq<byte>): (seq<byte>, seq<byte>) {
    match Find(line, [SPACE], 0)
    case None => (line, [])
    case Some(i) => (line[..i], line[i + 1..])
  }

  /** The text behind a status word of the given length; one separating space is dropped. */
  function StatusText(line: seq<byte>, n: nat): seq<byte> {
    if |line| > n && line[n] == SPACE then line[n + 1..]
    else if |line| > n then line[n..]
    else []
  }

  function ParsePop3(line: seq<byte>): Pop3Message {
    if OK_STATUS <= line then Pop3Message(true, [], [], true, StatusText(line, 3))
    else if ERR_STATUS <= line then Pop3Message(true, [], [], false, StatusText(line, 4))
    else
      var (command, argument) := SplitCommand(line);
      Pop3Message(false, command, argument, false, [])
  }

  /** The line is one way to write the message: a status word and text, or a command word and argument. */
  predicate Pop3Writes(m: Pop3Message, line: seq<byte>) {
    if m.isResponse then
      var status := if m.success then OK_STATUS else ERR_STATUS;
      && m.command == [] && m.argument == []
      && (line == status + [SPACE] + m.responseText
          || (line == status + m.responseText && (m.responseText == [] || m.responseText[0] != SPACE)))
    else
      && !m.success && m.responseText == [] && SPACE !in m.command && !(OK_STATUS <= line) && !(ERR_STATUS <= line)
      && (line == m.command + [SPACE] + m.argument || (line == m.command && m.argument == []))
  }

  lemma SplitCommandWrites(line: seq<byte>)
    ensures
      var (command, argument) := SplitCommand(line);
      && SPACE !in command
      && (line == command + [SPACE] + argument || (line == command && argument == []))
  {
    var (command, argument) := SplitCommand(line);
    if SPACE in command {
      var k :| 0 <= k < |command| && command[k] == SPACE;
      assert OccursAt(line, [SPACE], k);
      assert false;
    }
    if Find(line, [SPACE], 0).Some? {
      var i := Find(line, [SPACE], 0).value;
      assert line[i..i + 1] == [SPACE];
    }
  }

  lemma StatusTextWrites(line: seq<byte>, status: seq<byte>)
    requires status <= line
    ensures
      var text := StatusText(line, |status|);
      || line == status + [SPACE] + text
      || (line == status + text && (text == [] || text[0] != SPACE))
  {
  }

  lemma ParsedPop3Writes(line: seq<byte>)
    ensures Pop3Writes(ParsePop3(line), line)
  {
    hide SplitCommand, StatusText;
    if OK_STATUS <= line {
      StatusTextWrites(line, OK_STATUS);
    } else if ERR_STATUS <= line {
      StatusTextWrites(line, ERR_STATUS);
    } else {
      SplitCommandWrites(line);
    }
  }

  function DecodePop3(data: seq<byte>, offset: nat): (r: Result<Decoded<Pop3Message>>)
    ensures r.Ok? ==> offset < r.value.offset - 2 && r.value.offset <= |data|
                      && Pop3Writes(r.value.message, data[offset..r.value.offset - 2])
  {
    match LineAt(data, offset)
    case Err(e) => Err(e)
    case Ok(line) =>
      ParsedPop3Writes(line);
      LineIsSlice(data, offset);
      Ok(Decoded(ParsePop3(line), offset + |line| + 2))
  }

  predicate IsDigit(c: byte) {
    0x30 <= c <= 0x39
  }

  predicate IsReplyLine(line: seq<byte>) {
    && |line| >= 4 && IsDigit(line[0]) && IsDigit(line[1]) && IsDigit(line[2])
    && (line[3] == SPACE || line[3] == 0x2D)
  }

  function ReplyCode(line: seq<byte>): nat
    requires IsReplyLine(line)
  {
    (line[0] as int - 0x30) * 100 + (line[1] as int - 0x30) * 10 + (line[2] as int - 0x30)
  }

  function ParseSmtp(line: seq<byte>): SmtpMessage {
    if IsReplyLine(line) then
      SmtpMessage(true, [], [], ReplyCode(line), line[4..])
    else
      var (command, argument) := SplitCommand(line);
      SmtpMessage(false, command, argument, 0, [])
  }

  function ThreeDigits(n: nat): seq<byte>
    requires n < 1000
  {
    [0x30 + n / 100, 0x30 + n / 10 % 10, 0x30 + n % 10]
  }

  /** The line is one way to write the message: a three-digit code, a separator and text, or a command word and
      argument. */
  predicate SmtpWrites(m: SmtpMessage, line: seq<byte>) {
    if m.isResponse then
      && m.command == [] && m.argument == [] && m.replyCode < 1000
      && (line == ThreeDigits(m.replyCode) + [SPACE] + m.replyText
          || line == ThreeDigits(m.replyCode) + [0x2D] + m.replyText)
    else
      && m.replyCode == 0 && m.replyText == [] && SPACE !in m.command && !IsReplyLine(line)
      && (line == m.command + [SPACE] + m.argument || (line == m.command && m.argument == []))
  }

  lemma DigitsOfCode(line: seq<byte>)
    requires IsReplyLine(line)
    ensures ReplyCode(line) < 1000 && ThreeDigits(ReplyCode(line)) == line[..3]
  {
    var a: nat, b: nat, c: nat := line[0] as int - 0x30, line[1] as int - 0x30, line[2] as int - 0x30;
    DigitsOfNumber(a, b, c);
    assert line[..3] == [line[0], line[1], line[2]];
  }

  lemma DigitsOfNumber(a: nat, b: nat, c: nat)
    requires a < 10 && b < 10 && c < 10
    ensures var n := 100 * a + 10 * b + c; n < 1000 && n / 100 == a && n / 10 % 10 == b && n % 10 == c
  {
    var tens := 10 * a + b;
    assert 100 * a + 10 * b + c == 10 * tens + c;
    assert (10 * tens + c) / 10 == tens;
  }

  lemma ParsedSmtpWrites(line: seq<byte>)
    ensures SmtpWrites(ParseSmtp(line), line)
  {
    hide SplitCommand;
    if IsReplyLine(line) {
      DigitsOfCode(line);
      assert line == line[..3] + [line[3]] + line[4..];
    } else {
      SplitCommandWrites(line);
    }
  }

  function DecodeSmtp(data: seq<byte>, offset: nat): (r: Result<Decoded<SmtpMessage>>)
    ensures r.Ok? ==> offset < r.value.offset - 2 && r.value.offset <= |data|
                      && SmtpWrites(r.value.message, data[offset..r.value.offset - 2])
  {
    match LineAt(data, offset)
    case Err(e) => Err(e)
    case Ok(line) =>
      ParsedSmtpWrites(line);
      LineIsSlice(data, offset);
      Ok(Decoded(ParseSmtp(line), offset + |line| + 2))
  }

  // ----- Data mode -----

  datatype Pop3FlowState = Pop3FlowState(pendingMultiline: bool, inDataMode: bool)
  datatype SmtpFlowState = SmtpFlowState(inDataMode: bool)

  type Pop3States = map<FlowId, Pop3FlowState>
  type SmtpStates = map<FlowId, SmtpFlowState>

  /** operator[] of the maps: an absent flow is in the default state. */
  function Pop3StateOf(states: Pop3States, flowId: FlowId): Pop3FlowState {
    if flowId in states then states[flowId] else Pop3FlowState(false, false)
  }

  function SmtpStateOf(states: SmtpStates, flowId: FlowId): SmtpFlowState {
    if flowId in states then states[flowId] else SmtpFlowState(false)
  }

  /** The buffer starts with a dot line or has one after a line end. */
  predicate HasEndOfData(data: seq<byte>) {
    DOT_LINE <= data || Find(data, CRLF + DOT_LINE, 0).Some?
  }

  /** A command whose success response is followed by data: RETR, TOP, and LIST or UIDL without argument. */
  predicate IsMultilineCommand(m: Pop3Message) {
    && !m.isResponse
    && (m.command == RETR || m.command == TOP || ((m.command == LIST || m.command == UIDL) && m.argument == []))
  }

  /** The POP3 case of decodeL7 on one buffer. */
  function Pop3Call(states: Pop3States, flowId: FlowId, data: seq<byte>): (Pop3States, Option<Decoded<Pop3Message>>) {
    var state := Pop3StateOf(states, flowId);
    if state.inDataMode then
      (states[flowId := if HasEndOfData(data) then state.(inDataMode := false) else state], None)
    else
      match DecodePop3(data, 0)
      case Err(_) => (states[flowId := state], None)
      case Ok(d) =>
        if IsMultilineCommand(d.message) then
          var rev := Reverse(flowId);
          var known := states[flowId := state];
          (known[rev := Pop3StateOf(known, rev).(pendingMultiline := true)], Some(d))
        else if d.message.isResponse && state.pendingMultiline then
          (states[flowId := Pop3FlowState(false, d.message.success)], Some(d))
        else
          (states[flowId := state], Some(d))
  }

  /** The SMTP case of decodeL7 on one buffer. */
  function SmtpCall(states: SmtpStates, flowId: FlowId, data: seq<byte>): (SmtpStates, Option<Decoded<SmtpMessage>>) {
    var state := SmtpStateOf(states, flowId);
    if state.inDataMode then
      (states[flowId := SmtpFlowState(!HasEndOfData(data))], None)
    else
      match DecodeSmtp(data, 0)
      case Err(_) => (states[flowId := state], None)
      case Ok(d) =>
        if d.message.isResponse && d.message.replyCode == 354 then
          (states[flowId := state][Reverse(flowId) := SmtpFlowState(true)], Some(d))
        else
          (states[flowId := state], Some(d))
  }

  // ----- Histories of calls on both directions -----

  datatype Call = Call(flowId: FlowId, data: seq<byte>)

  function Pop3After(calls: seq<Call>): Pop3States {
    if calls == [] then map[] else Pop3Call(Pop3After(Init(calls)), Last(calls).flowId, Last(calls).data).0
  }

  function SmtpAfter(calls: seq<Call>): SmtpStates {
    if calls == [] then map[] else SmtpCall(SmtpAfter(Init(calls)), Last(calls).flowId, Last(calls).data).0
  }

  /** What call `i` of a history decoded. */
  function Pop3At(calls: seq<Call>, i: nat): Option<Decoded<Pop3Message>>
    requires i < |calls|
  {
    Pop3Call(Pop3After(calls[..i]), calls[i].flowId, calls[i].data).1
  }

  function SmtpAt(calls: seq<Call>, i: nat): Option<Decoded<SmtpMessage>>
    requires i < |calls|
  {
    SmtpCall(SmtpAfter(calls[..i]), calls[i].flowId, calls[i].data).1
  }

  ghost predicate Pop3ResponseAt(calls: seq<Call>, i: nat, f: FlowId)
    requires i < |calls|
  {
    calls[i].flowId == f && Pop3At(calls, i).Some? && Pop3At(calls, i).value.message.isResponse
  }

  /** Call `i` decoded a multi-line command on the other direction, and no response on `f` was decoded since. */
  ghost predicate AwaitsFrom(calls: seq<Call>, i: nat, f: FlowId)
    requires i < |calls|
  {
    && calls[i].flowId == Reverse(f)
    && Pop3At(calls, i).Some? && IsMultilineCommand(Pop3At(calls, i).value.message)
    && forall j :: i < j < |calls| ==> !Pop3ResponseAt(calls, j, f)
  }

  ghost predicate Awaits(calls: seq<Call>, f: FlowId) {
    exists i :: 0 <= i < |calls| && AwaitsFrom(calls, i, f)
  }

  ghost predicate EndAt(calls: seq<Call>, i: nat, f: FlowId)
    requires i < |calls|
  {
    calls[i].flowId == f && HasEndOfData(calls[i].data)
  }

  /** Call `i` decoded the awaited success response on `f`, and no buffer seen on `f` since holds the end of data. */
  ghost predicate Pop3DataFrom(calls: seq<Call>, i: nat, f: FlowId)
    requires i < |calls|
  {
    && Pop3ResponseAt(calls, i, f) && Pop3At(calls, i).value.message.success
    && Awaits(calls[..i], f)
    && forall j :: i < j < |calls| ==> !EndAt(calls, j, f)
  }

  /** Call `i` decoded a 354 reply on the other direction, and no buffer seen on `f` since holds the end of data. */
  ghost predicate SmtpDataFrom(calls: seq<Call>, i: nat, f: FlowId)
    requires i < |calls|
  {
    && calls[i].flowId == Reverse(f)
    && SmtpAt(calls, i).Some? && SmtpAt(calls, i).value.message.isResponse
    && SmtpAt(calls, i).value.message.replyCode == 354
    && forall j :: i < j < |calls| ==> !EndAt(calls, j, f)
  }

  ghost predicate Pop3InData(calls: seq<Call>, f: FlowId) {
    exists i :: 0 <= i < |calls| && Pop3DataFrom(calls, i, f)
  }

  ghost predicate SmtpInData(calls: seq<Call>, f: FlowId) {
    exists i :: 0 <= i < |calls| && SmtpDataFrom(calls, i, f)
  }

  lemma EarlierCallsSnoc(calls: seq<Call>, i: nat)
    requires calls != [] && i < |calls| - 1
    ensures Init(calls)[..i] == calls[..i] && Init(calls)[i] == calls[i]
    ensures Pop3At(Init(calls), i) == Pop3At(calls, i)
    ensures SmtpAt(Init(calls), i) == SmtpAt(calls, i)
  {
  }

  lemma LastCall(calls: seq<Call>)
    requires calls != []
    ensures calls[|calls| - 1] == Last(calls)
    ensures Pop3At(calls, |calls| - 1) == Pop3Call(Pop3After(Init(calls)), Last(calls).flowId, Last(calls).data).1
    ensures SmtpAt(calls, |calls| - 1) == SmtpCall(SmtpAfter(Init(calls)), Last(calls).flowId, Last(calls).data).1
  {
  }

  lemma ResponsesSnoc(calls: seq<Call>, f: FlowId)
    requires calls != []
    ensures forall j {:trigger Pop3ResponseAt(calls, j, f)} {:trigger Pop3ResponseAt(Init(calls), j, f)} ::
              0 <= j < |calls| - 1 ==> (Pop3ResponseAt(Init(calls), j, f) <==> Pop3ResponseAt(calls, j, f))
  {
    forall j | 0 <= j < |calls| - 1
      ensures Pop3ResponseAt(Init(calls), j, f) <==> Pop3ResponseAt(calls, j, f)
    {
      EarlierCallsSnoc(calls, j);
    }
  }

  lemma AwaitsFromEarlier(calls: seq<Call>, i: nat, f: FlowId)
    requires calls != [] && i < |calls| - 1
    ensures AwaitsFrom(calls, i, f) <==> AwaitsFrom(Init(calls), i, f) && !Pop3ResponseAt(calls, |calls| - 1, f)
  {
    hide Pop3At, IsMultilineCommand, Pop3ResponseAt;
    EarlierCallsSnoc(calls, i);
    ResponsesSnoc(calls, f);
  }

  lemma AwaitsSnoc(calls: seq<Call>, f: FlowId)
    requires calls != []
    ensures
      var n := |calls| - 1;
      Awaits(calls, f) <==>
      (AwaitsFrom(calls, n, f) || (Awaits(Init(calls), f) && !Pop3ResponseAt(calls, n, f)))
  {
    hide AwaitsFrom, Pop3ResponseAt;
    forall i | 0 <= i < |calls| - 1
      ensures AwaitsFrom(calls, i, f) <==> AwaitsFrom(Init(calls), i, f) && !Pop3ResponseAt(calls, |calls| - 1, f)
    {
      AwaitsFromEarlier(calls, i, f);
    }
  }

  lemma EndsSnoc(calls: seq<Call>, f: FlowId)
    requires calls != []
    ensures forall j {:trigger EndAt(calls, j, f)} {:trigger EndAt(Init(calls), j, f)} :: 0 <= j < |calls| - 1 ==>
              (EndAt(Init(calls), j, f) <==> EndAt(calls, j, f))
  {
    hide HasEndOfData;
  }

  lemma Pop3DataFromEarlier(calls: seq<Call>, i: nat, f: FlowId)
    requires calls != [] && i < |calls| - 1
    ensures Pop3DataFrom(calls, i, f) <==> Pop3DataFrom(Init(calls), i, f) && !EndAt(calls, |calls| - 1, f)
  {
    hide Pop3At, HasEndOfData, Awaits, Pop3ResponseAt;
    EarlierCallsSnoc(calls, i);
    ResponsesSnoc(calls, f);
    EndsSnoc(calls, f);
    hide EndAt;
  }

  lemma Pop3InDataSnoc(calls: seq<Call>, f: FlowId)
    requires calls != []
    ensures
      var n := |calls| - 1;
      Pop3InData(calls, f) <==>
      (Pop3DataFrom(calls, n, f) || (Pop3InData(Init(calls), f) && !EndAt(calls, n, f)))
  {
    hide Pop3DataFrom, EndAt;
    forall i | 0 <= i < |calls| - 1
      ensures Pop3DataFrom(calls, i, f) <==> Pop3DataFrom(Init(calls), i, f) && !EndAt(calls, |calls| - 1, f)
    {
      Pop3DataFromEarlier(calls, i, f);
    }
  }

  lemma SmtpDataFromEarlier(calls: seq<Call>, i: nat, f: FlowId)
    requires calls != [] && i < |calls| - 1
    ensures SmtpDataFrom(calls, i, f) <==> SmtpDataFrom(Init(calls), i, f) && !EndAt(calls, |calls| - 1, f)
  {
    hide SmtpAt, EndAt;
    EarlierCallsSnoc(calls, i);
    EndsSnoc(calls, f);
  }

  lemma SmtpInDataSnoc(calls: seq<Call>, f: FlowId)
    requires calls != []
    ensures
      var n := |calls| - 1;
      SmtpInData(calls, f) <==>
      (SmtpDataFrom(calls, n, f) || (SmtpInData(Init(calls), f) && !EndAt(calls, n, f)))
  {
    hide SmtpDataFrom, EndAt;
    forall i | 0 <= i < |calls| - 1
      ensures SmtpDataFrom(calls, i, f) <==> SmtpDataFrom(Init(calls), i, f) && !EndAt(calls, |calls| - 1, f)
    {
      SmtpDataFromEarlier(calls, i, f);
    }
  }

  /** What one call does to the state of any flow. */
  lemma Pop3CallOnState(states: Pop3States, c: Call, f: FlowId)
    ensures
      var (after, decoded) := Pop3Call(states, c.flowId, c.data);
      var response := c.flowId == f && decoded.Some? && decoded.value.message.isResponse;
      var command := c.flowId == Reverse(f) && decoded.Some? && IsMultilineCommand(decoded.value.message);
      && Pop3StateOf(after, f).pendingMultiline == (command || (Pop3StateOf(states, f).pendingMultiline && !response))
      && Pop3StateOf(after, f).inDataMode
         == ((response && decoded.value.message.success && Pop3StateOf(states, f).pendingMultiline)
             || (Pop3StateOf(states, f).inDataMode && !(c.flowId == f && HasEndOfData(c.data))))
  {
    assert Reverse(Reverse(f)) == f;
    assert Reverse(c.flowId) == f <==> c.flowId == Reverse(f);
  }

  /** For every two-direction history: a response is awaited on f exactly when a multi-line command went the other
      way after the last response on f, and f is in data mode exactly when the last awaited success response on f
      was not yet followed by a buffer holding the end of data. */
  lemma {:induction false} Pop3StateIsHistory(calls: seq<Call>, f: FlowId)
    ensures Pop3StateOf(Pop3After(calls), f).pendingMultiline <==> Awaits(calls, f)
    ensures Pop3StateOf(Pop3After(calls), f).inDataMode <==> Pop3InData(calls, f)
  {
    if calls != [] {
      Pop3StateIsHistory(Init(calls), f);
      AwaitsSnoc(calls, f);
      Pop3InDataSnoc(calls, f);
      LastCall(calls);
      assert Init(calls) == calls[..|calls| - 1];
      assert Reverse(Reverse(f)) == f;
      Pop3CallOnState(Pop3After(Init(calls)), Last(calls), f);
    }
  }

  lemma SmtpCallOnState(states: SmtpStates, c: Call, f: FlowId)
    ensures
      var (after, decoded) := SmtpCall(states, c.flowId, c.data);
      var goAhead := c.flowId == Reverse(f) && decoded.Some?
                     && decoded.value.message.isResponse && decoded.value.message.replyCode == 354;
      SmtpStateOf(after, f).inDataMode
      == (goAhead || (SmtpStateOf(states, f).inDataMode && !(c.flowId == f && HasEndOfData(c.data))))
  {
    assert Reverse(Reverse(f)) == f;
    assert Reverse(c.flowId) == f <==> c.flowId == Reverse(f);
    hide HasEndOfData, DecodeSmtp;
  }

  /** For every two-direction history: f is in SMTP data mode exactly when a 354 reply was decoded on the other
      direction and no buffer on f has held the end of data since. */
  lemma {:induction false} SmtpStateIsHistory(calls: seq<Call>, f: FlowId)
    ensures SmtpStateOf(SmtpAfter(calls), f).inDataMode <==> SmtpInData(calls, f)
  {
    hide SmtpCall, HasEndOfData, SmtpInData;
    if calls == [] {
      NoSmtpDataYet(f);
    } else {
      SmtpStateIsHistory(Init(calls), f);
      SmtpInDataSnoc(calls, f);
      LastCall(calls);
      SmtpCallOnState(SmtpAfter(Init(calls)), Last(calls), f);
    }
  }

  lemma NoSmtpDataYet(f: FlowId)
    ensures !SmtpInData([], f)
  {
  }

  // ----- The end of data does not depend on segmentation -----

  /** Once a buffer holds the end of data, every longer buffer does. */
  lemma EndOfDataIsMonotone(data: seq<byte>, more: seq<byte>)
    requires HasEndOfData(data)
    ensures HasEndOfData(data + more)
  {
    if !(DOT_LINE <= data) {
      var i := Find(data, CRLF + DOT_LINE, 0).value;
      assert (data + more)[i..i + 5] == data[i..i + 5];
      assert OccursAt(data + more, CRLF + DOT_LINE, i);
    }
  }
}
