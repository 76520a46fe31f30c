/** Extraction from a ServerHello inverts its encoding. */
module TlsServerHello {
  import opened Common
  import opened Wire
  import opened Tls
  import opened TlsClientHello

  /** In a ServerHello the version extension holds the selected version (section 4.2.1 of RFC 8446); it is read whatever
      follows it, and not if it is cut short. */
  datatype ServerExtension =
    | Selected(version: u16, rest: seq<byte>)
    | CutSelected(part: seq<byte>)
    | Plain(e: Extension)

  predicate GoodServerExtension(x: ServerExtension) {
    match x
    case Selected(_, rest) => 2 + |rest| < 0x1_0000
    case CutSelected(part) => |part| <= 1
    case Plain(e) => GoodExtension(e) && !e.SupportedVersions?
  }

  function ServerBody(x: ServerExtension): (r: seq<byte>)
    requires GoodServerExtension(x)
    ensures |r| < 0x1_0000
  {
    match x
    case Selected(version, rest) => U16Bytes(version) + rest
    case CutSelected(part) => part
    case Plain(e) => Body(e)
  }

  function ServerType(x: ServerExtension): u16 {
    match x
    case Selected(_, _) => 0x002B
    case CutSelected(_) => 0x002B
    case Plain(e) => TypeOf(e)
  }

  function EncodeServerExtension(x: ServerExtension): seq<byte>
    requires GoodServerExtension(x)
  {
    U16Bytes(ServerType(x)) + U16Bytes(|ServerBody(x)|) + ServerBody(x)
  }

  predicate GoodServerExtensions(xs: seq<ServerExtension>) {
    forall i :: 0 <= i < |xs| ==> GoodServerExtension(xs[i])
  }

  function EncodeServerExtensions(xs: seq<ServerExtension>): seq<byte>
    requires GoodServerExtensions(xs)
  {
    if xs == [] then [] else EncodeServerExtension(xs[0]) + EncodeServerExtensions(xs[1..])
  }

  function LearnServer(info: HelloInfo, x: ServerExtension): HelloInfo {
    match x
    case Selected(version, _) => info.(tlsVersion := Some(version))
    case CutSelected(_) => info
    case Plain(e) => Learn(info, e)
  }

  function LearnAllServer(info: HelloInfo, xs: seq<ServerExtension>): HelloInfo
    decreases |xs|
  {
    if xs == [] then info else LearnAllServer(LearnServer(info, xs[0]), xs[1..])
  }

  /** Both sides are read alike but for the version extension. */
  lemma ServerExtensionReadsBack(data: seq<byte>, pos: nat, x: ServerExtension, info: HelloInfo)
    requires GoodServerExtension(x) && At(data, pos, ServerBody(x))
    ensures Effect(data, pos, ServerType(x), |ServerBody(x)|, 2, info) == LearnServer(info, x)
  {
    match x
    case Selected(version, rest) =>
      AtSplit(data, pos, U16Bytes(version), rest);
      U16ReadsBack(data, pos, version);
    case CutSelected(_) =>
    case Plain(e) =>
      ExtensionReadsBack(data, pos, e, info);
      hide Body, Learn, At, SniEffect, AlpnEffect, GoodExtension;
  }

  lemma {:induction false} ServerExtensionsReadBack(
    data: seq<byte>, pos: nat, xs: seq<ServerExtension>, cut: seq<byte>, info: HelloInfo)
    requires GoodServerExtensions(xs) && CutExtension(cut)
    requires At(data, pos, EncodeServerExtensions(xs)) && At(data, pos + |EncodeServerExtensions(xs)|, cut)
    ensures Extensions(data, pos, pos + |EncodeServerExtensions(xs)| + |cut|, 2, info) == LearnAllServer(info, xs)
    decreases |xs|
  {
    hide Effect, LearnServer, ServerBody, ServerType, GoodServerExtension, U16At, At, CutExtension;
    if xs == [] {
      CutIsSkipped(data, pos, cut, 2, info);
    } else {
      var x, rest := xs[0], EncodeServerExtensions(xs[1..]);
      var kind, size := U16Bytes(ServerType(x)), U16Bytes(|ServerBody(x)|);
      AtSplit(data, pos, EncodeServerExtension(x), rest);
      AtSplit(data, pos, kind + size, ServerBody(x));
      AtSplit(data, pos, kind, size);
      U16ReadsBack(data, pos, ServerType(x));
      U16ReadsBack(data, pos + 2, |ServerBody(x)|);
      ServerExtensionReadsBack(data, pos + 4, x, info);
      ServerExtensionsReadBack(data, pos + 4 + |ServerBody(x)|, xs[1..], cut, LearnServer(info, x));
    }
  }

  // ----- The message -----

  /** A ServerHello in one record. */
  datatype ServerHello = ServerHello(
    recordVersion: u16, lengthBytes: seq<byte>, legacyVersion: u16, random: seq<byte>, sessionId: seq<byte>,
    suite: u16, compression: byte, extras: Extras<ServerExtension>)

  predicate ServerFits(h: ServerHello) {
    && |h.lengthBytes| == 3 && |h.random| == 32 && |h.sessionId| < 0x100
    && match h.extras
       case Nothing(few) => |few| <= 1
       case Block(_, xs, cut, _) =>
         && GoodServerExtensions(xs) && CutExtension(cut)
         && BlockFits(h.extras, |EncodeServerExtensions(xs)| + |cut|)
  }

  predicate WellFormedServer(h: ServerHello) {
    ServerFits(h) && |ServerMessage(h)| < 0x1_0000
  }

  function ServerStart(h: ServerHello): (r: seq<byte>)
    requires |h.lengthBytes| == 3 && |h.random| == 32 && |h.sessionId| < 0x100
    ensures |r| == 39 + |h.sessionId|
  {
    ([2] + h.lengthBytes) + (U16Bytes(h.legacyVersion) + h.random) + [|h.sessionId|] + h.sessionId
  }

  function ServerExtensionPart(h: ServerHello): seq<byte>
    requires ServerFits(h)
  {
    match h.extras
    case Nothing(few) => few
    case Block(announced, xs, cut, rest) => U16Bytes(announced) + EncodeServerExtensions(xs) + cut + rest
  }

  function ServerMessage(h: ServerHello): seq<byte>
    requires ServerFits(h)
  {
    ServerStart(h) + (U16Bytes(h.suite) + [h.compression]) + ServerExtensionPart(h)
  }

  function EncodeServerHello(h: ServerHello): seq<byte>
    requires WellFormedServer(h)
  {
    [22] + U16Bytes(h.recordVersion) + U16Bytes(|ServerMessage(h)|) + ServerMessage(h)
  }

  /** What the hello says: the one suite the server chose, and its extensions. */
  function ServerContent(h: ServerHello): HelloInfo {
    var info := HelloInfo([h.suite], None, None, None);
    if h.extras.Nothing? then info else LearnAllServer(info, h.extras.extensions)
  }

  lemma ServerStartReadsBack(data: seq<byte>, hs: nat, h: ServerHello)
    requires ServerFits(h) && At(data, hs, ServerStart(h))
    ensures HelloStartAt(data, hs) == HelloStart(2, hs + |ServerStart(h)|)
  {
    var a, b := [2] + h.lengthBytes, U16Bytes(h.legacyVersion) + h.random;
    AtSplit(data, hs, a + b + [|h.sessionId|], h.sessionId);
    AtSplit(data, hs, a + b, [|h.sessionId|]);
    AtSplit(data, hs, a, b);
    assert data[hs..hs + 4][0] == 2;
    assert data[hs + 38..hs + 39][0] == |h.sessionId|;
    hide EncodeServerExtensions, GoodServerExtensions;
  }

  lemma ServerPartReadsBack(data: seq<byte>, pos: nat, h: ServerHello, info: HelloInfo)
    requires ServerFits(h) && At(data, pos, ServerExtensionPart(h))
    ensures ExtensionBlock(data, pos, pos + |ServerExtensionPart(h)|, 2, info)
            == if h.extras.Nothing? then info else LearnAllServer(info, h.extras.extensions)
  {
    hide Extensions, EncodeServerExtensions, LearnAllServer, GoodServerExtensions, CutExtension, At;
    match h.extras
    case Nothing(_) =>
    case Block(announced, xs, cut, rest) =>
      AtSplit(data, pos, U16Bytes(announced) + EncodeServerExtensions(xs) + cut, rest);
      AtSplit(data, pos, U16Bytes(announced) + EncodeServerExtensions(xs), cut);
      AtSplit(data, pos, U16Bytes(announced), EncodeServerExtensions(xs));
      U16ReadsBack(data, pos, announced);
      ServerExtensionsReadBack(data, pos + 2, xs, cut, info);
  }

  lemma ServerMessageReadsBack(data: seq<byte>, beyond: byte, hs: nat, h: ServerHello)
    requires ServerFits(h) && At(data, hs, ServerMessage(h))
    ensures HelloAt(data, beyond, hs, hs + |ServerMessage(h)|) == ServerContent(h)
  {
    hide ServerStart, ServerExtensionPart, ExtensionBlock, HelloStartAt, LearnAllServer, EncodeServerExtensions,
         GoodServerExtensions, At;
    var middle := U16Bytes(h.suite) + [h.compression];
    var pos := hs + |ServerStart(h)|;
    AtSplit(data, hs, ServerStart(h) + middle, ServerExtensionPart(h));
    AtSplit(data, hs, ServerStart(h), middle);
    AtSplit(data, pos, U16Bytes(h.suite), [h.compression]);
    ServerStartReadsBack(data, hs, h);
    U16ReadsBack(data, pos, h.suite);
    Reaches(data, pos, middle);
    ServerPartReadsBack(data, pos + 3, h, HelloInfo([h.suite], None, None, None));
  }

  lemma Reaches(data: seq<byte>, pos: nat, bytes: seq<byte>)
    requires At(data, pos, bytes)
    ensures pos + |bytes| <= |data|
  {
  }

  /** For every ServerHello, wherever its record starts and whatever surrounds it: the decoder returns
      exactly its one cipher suite and what its extensions say, the selected version included. */
  lemma ServerHelloReadsBack(before: seq<byte>, h: ServerHello, behind: seq<byte>, beyond: byte)
    requires WellFormedServer(h)
    ensures
      var data, offset := before + EncodeServerHello(h) + behind, |before|;
      RecordAt(data, beyond, offset)
      == Ok(Decoded(TlsRecord(22, h.recordVersion, ServerContent(h)), offset + |EncodeServerHello(h)|))
  {
    hide HelloAt, ServerContent, ServerMessage, ServerFits;
    var data, offset := before + EncodeServerHello(h) + behind, |before|;
    var message := ServerMessage(h);
    var a, b, c := [22], U16Bytes(h.recordVersion), U16Bytes(|message|);
    assert At(data, offset, EncodeServerHello(h));
    AtSplit(data, offset, a + b + c, message);
    AtSplit(data, offset, a + b, c);
    AtSplit(data, offset, a, b);
    ByteReadsBack(data, offset, 22);
    U16ReadsBack(data, offset + 1, h.recordVersion);
    U16ReadsBack(data, offset + 3, |message|);
    ServerMessageReadsBack(data, beyond, offset + 5, h);
  }
}
