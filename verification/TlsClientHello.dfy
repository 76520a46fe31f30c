/** Extraction from a ClientHello inverts its encoding, also where lists are cut short or bytes are not read. */
module TlsClientHello {
  import opened Common
  import opened Wire
  import opened Tls

  /** Server name (RFC 6066), protocol list (RFC 7301), version list (RFC 8446), or any other extension. The lengths of
      the first two lists and the kind of a name are not read, so they are arbitrary here. A list may be cut short: a
      name longer than what is left of its extension, a protocol of which only a part is there, versions fewer than
      announced. Behind the first name and the announced versions anything may follow. */
  datatype Extension =
    | Sni(listLength: u16, nameType: byte, host: seq<byte>, rest: seq<byte>)
    | CutSni(listLength: u16, nameType: byte, hostLength: u16, part: seq<byte>)
    | Alpn(listLength: u16, protocols: seq<seq<byte>>, cut: seq<byte>)
    | SupportedVersions(announced: byte, versions: seq<u16>, rest: seq<byte>)
    | Unread(extType: u16, body: seq<byte>)

  predicate GoodProtocols(protocols: seq<seq<byte>>) {
    forall i :: 0 <= i < |protocols| ==> |protocols[i]| < 0x100
  }

  function EncodeProtocols(protocols: seq<seq<byte>>): seq<byte>
    requires GoodProtocols(protocols)
  {
    if protocols == [] then [] else [|protocols[0]|] + protocols[0] + EncodeProtocols(protocols[1..])
  }

  /** Nothing, or a protocol of which not all bytes are there. */
  predicate CutProtocol(cut: seq<byte>) {
    cut != [] ==> |cut| <= cut[0]
  }

  function EncodeU16s(ns: seq<u16>): (r: seq<byte>)
    ensures |r| == 2 * |ns|
  {
    if ns == [] then [] else U16Bytes(ns[0]) + EncodeU16s(ns[1..])
  }

  predicate GoodExtension(e: Extension) {
    match e
    case Sni(_, _, host, rest) => |host| + |rest| + 5 < 0x1_0000
    case CutSni(_, _, hostLength, part) => |part| < hostLength && |part| + 5 < 0x1_0000
    case Alpn(_, protocols, cut) =>
      && GoodProtocols(protocols) && CutProtocol(cut)
      && |EncodeProtocols(protocols)| + |cut| + 2 < 0x1_0000
    case SupportedVersions(announced, versions, rest) =>
      && 2 * |versions| <= announced && (2 * |versions| + 1 >= announced || |rest| <= 1)
      && 1 + 2 * |versions| + |rest| < 0x1_0000
    case Unread(extType, body) =>
      |body| < (if extType == 0x0000 then 5 else if extType == 0x0010 then 2 else if extType == 0x002B then 1
                else 0x1_0000)
  }

  function TypeOf(e: Extension): u16 {
    match e
    case Sni(_, _, _, _) => 0x0000
    case CutSni(_, _, _, _) => 0x0000
    case Alpn(_, _, _) => 0x0010
    case SupportedVersions(_, _, _) => 0x002B
    case Unread(extType, _) => extType
  }

  /** The length of the name list, the kind of its first name, and that name's length. */
  function NameHeader(listLength: u16, nameType: byte, hostLength: u16): (r: seq<byte>)
    ensures |r| == 5
  {
    U16Bytes(listLength) + [nameType] + U16Bytes(hostLength)
  }

  function Body(e: Extension): (r: seq<byte>)
    requires GoodExtension(e)
    ensures |r| < 0x1_0000
  {
    match e
    case Sni(listLength, nameType, host, rest) => NameHeader(listLength, nameType, |host|) + host + rest
    case CutSni(listLength, nameType, hostLength, part) => NameHeader(listLength, nameType, hostLength) + part
    case Alpn(listLength, protocols, cut) => U16Bytes(listLength) + EncodeProtocols(protocols) + cut
    case SupportedVersions(announced, versions, rest) => [announced] + EncodeU16s(versions) + rest
    case Unread(_, body) => body
  }

  function EncodeExtension(e: Extension): seq<byte>
    requires GoodExtension(e)
  {
    U16Bytes(TypeOf(e)) + U16Bytes(|Body(e)|) + Body(e)
  }

  /** Fewer bytes than an extension's type and length take, or than its length announces. */
  predicate CutExtension(cut: seq<byte>) {
    |cut| >= 4 ==> |cut| < 4 + (cut[2] as int * 256 + cut[3])
  }

  predicate GoodExtensions(es: seq<Extension>) {
    forall i :: 0 <= i < |es| ==> GoodExtension(es[i])
  }

  function EncodeExtensions(es: seq<Extension>): seq<byte>
    requires GoodExtensions(es)
  {
    if es == [] then [] else EncodeExtension(es[0]) + EncodeExtensions(es[1..])
  }

  // ----- What should be extracted -----

  function Largest(versions: seq<u16>, least: u16): (m: u16)
    ensures least <= m && forall i :: 0 <= i < |versions| ==> versions[i] <= m
    ensures m == least || m in versions
  {
    if versions == [] then least else Largest(versions[1..], Max(least, versions[0]))
  }

  /** The information in one extension; an extension that is repeated replaces the earlier one. */
  function Learn(info: HelloInfo, e: Extension): HelloInfo {
    match e
    case Sni(_, _, host, _) => info.(sni := Some(host))
    case CutSni(_, _, _, _) => info
    case Alpn(_, protocols, _) => info.(alpn := Some(protocols))
    case SupportedVersions(_, versions, _) =>
      if Largest(versions, 0) > 0 then info.(tlsVersion := Some(Largest(versions, 0))) else info
    case Unread(_, _) => info
  }

  function LearnAll(info: HelloInfo, es: seq<Extension>): HelloInfo
    decreases |es|
  {
    if es == [] then info else LearnAll(Learn(info, es[0]), es[1..])
  }

  // ----- Lists read back -----

  lemma {:induction false} ProtocolsReadBack(
    data: seq<byte>, pos: nat, protocols: seq<seq<byte>>, cut: seq<byte>)
    requires GoodProtocols(protocols) && CutProtocol(cut)
    requires At(data, pos, EncodeProtocols(protocols)) && At(data, pos + |EncodeProtocols(protocols)|, cut)
    ensures Protocols(data, pos, pos + |EncodeProtocols(protocols)| + |cut|) == protocols
    decreases |protocols|
  {
    hide CutProtocol;
    if protocols == [] {
      CutIsNoProtocol(data, pos, cut);
    } else {
      var p, rest := protocols[0], EncodeProtocols(protocols[1..]);
      AtSplit(data, pos, [|p|] + p, rest);
      AtSplit(data, pos, [|p|], p);
      ByteReadsBack(data, pos, |p|);
      ProtocolsReadBack(data, pos + 1 + |p|, protocols[1..], cut);
      assert protocols == [p] + protocols[1..];
    }
  }

  lemma CutIsNoProtocol(data: seq<byte>, pos: nat, cut: seq<byte>)
    requires CutProtocol(cut) && At(data, pos, cut)
    ensures Protocols(data, pos, pos + |cut|) == []
  {
    assert cut != [] ==> data[pos] == data[pos..pos + |cut|][0] == cut[0];
  }

  lemma {:induction false} VersionsReadBack(
    data: seq<byte>, pos: nat, versions: seq<u16>, versionsLen: nat, extLen: nat, vi: nat, least: u16)
    requires pos + extLen <= |data| && At(data, pos + vi, EncodeU16s(versions))
    requires vi + 2 * |versions| <= 1 + versionsLen && vi + 2 * |versions| <= extLen
    requires vi + 2 * |versions| >= versionsLen || vi + 2 * |versions| + 1 >= extLen
    ensures MaxVersion(data, pos, extLen, versionsLen, vi, least) == Largest(versions, least)
    decreases |versions|
  {
    if versions != [] {
      AtSplit(data, pos + vi, U16Bytes(versions[0]), EncodeU16s(versions[1..]));
      U16ReadsBack(data, pos + vi, versions[0]);
      VersionsReadBack(data, pos, versions[1..], versionsLen, extLen, vi + 2, Max(least, versions[0]));
    }
  }

  lemma {:induction false} SuitesReadBack(data: seq<byte>, beyond: byte, pos: nat, suites: seq<u16>)
    requires At(data, pos, EncodeU16s(suites))
    ensures CipherSuites(data, beyond, pos, 2 * |suites|) == suites
    decreases |suites|
  {
    if suites != [] {
      AtSplit(data, pos, U16Bytes(suites[0]), EncodeU16s(suites[1..]));
      U16ReadsBack(data, pos, suites[0]);
      SuitesReadBack(data, beyond, pos + 2, suites[1..]);
      assert suites == [suites[0]] + suites[1..];
      hide EncodeU16s, U16Bytes, At;
    }
  }

  lemma NameHeaderReadsBack(data: seq<byte>, pos: nat, listLength: u16, nameType: byte, hostLength: u16)
    requires At(data, pos, NameHeader(listLength, nameType, hostLength))
    ensures pos + 5 <= |data| && U16At(data, pos + 3) == hostLength
  {
    AtSplit(data, pos, U16Bytes(listLength) + [nameType], U16Bytes(hostLength));
    U16ReadsBack(data, pos + 3, hostLength);
  }

  lemma SniReadsBack(data: seq<byte>, pos: nat, e: Extension, info: HelloInfo)
    requires (e.Sni? || e.CutSni?) && GoodExtension(e) && At(data, pos, Body(e))
    ensures SniEffect(data, pos, |Body(e)|, info) == Learn(info, e)
  {
    hide NameHeader;
    match e
    case Sni(listLength, nameType, host, rest) =>
      AtSplit(data, pos, NameHeader(listLength, nameType, |host|) + host, rest);
      AtSplit(data, pos, NameHeader(listLength, nameType, |host|), host);
      NameHeaderReadsBack(data, pos, listLength, nameType, |host|);
    case CutSni(listLength, nameType, hostLength, part) =>
      AtSplit(data, pos, NameHeader(listLength, nameType, hostLength), part);
      NameHeaderReadsBack(data, pos, listLength, nameType, hostLength);
  }

  /** One extension has the effect it should have. */
  lemma ExtensionReadsBack(data: seq<byte>, pos: nat, e: Extension, info: HelloInfo)
    requires GoodExtension(e) && At(data, pos, Body(e))
    ensures Effect(data, pos, TypeOf(e), |Body(e)|, CLIENT_HELLO, info) == Learn(info, e)
  {
    hide At;
    match e
    case Sni(_, _, _, _) => SniReadsBack(data, pos, e, info);
    case CutSni(_, _, _, _) => SniReadsBack(data, pos, e, info);
    case Alpn(_, _, _) => AlpnReadsBack(data, pos, e, info);
    case SupportedVersions(_, _, _) => SupportedVersionsReadBack(data, pos, e, info);
    case Unread(_, _) =>
  }

  lemma AlpnReadsBack(data: seq<byte>, pos: nat, e: Extension, info: HelloInfo)
    requires e.Alpn? && GoodExtension(e) && At(data, pos, Body(e))
    ensures AlpnEffect(data, pos, |Body(e)|, info) == info.(alpn := Some(e.protocols))
  {
    AtSplit(data, pos, U16Bytes(e.listLength) + EncodeProtocols(e.protocols), e.cut);
    AtSplit(data, pos, U16Bytes(e.listLength), EncodeProtocols(e.protocols));
    ProtocolsReadBack(data, pos + 2, e.protocols, e.cut);
    hide EncodeProtocols, Protocols;
  }

  lemma SupportedVersionsReadBack(data: seq<byte>, pos: nat, e: Extension, info: HelloInfo)
    requires e.SupportedVersions? && GoodExtension(e) && At(data, pos, Body(e))
    ensures VersionsEffect(data, pos, |Body(e)|, CLIENT_HELLO, info) == Learn(info, e)
  {
    AtSplit(data, pos, [e.announced] + EncodeU16s(e.versions), e.rest);
    AtSplit(data, pos, [e.announced], EncodeU16s(e.versions));
    ByteReadsBack(data, pos, e.announced);
    VersionsReadBack(data, pos, e.versions, e.announced, |Body(e)|, 1, 0);
    hide EncodeU16s, MaxVersion, Largest;
  }

  /** A list of extensions is applied in order and to its end, or up to an extension that is cut off. */
  lemma {:induction false} ExtensionsReadBack(
    data: seq<byte>, pos: nat, es: seq<Extension>, cut: seq<byte>, info: HelloInfo)
    requires GoodExtensions(es) && CutExtension(cut)
    requires At(data, pos, EncodeExtensions(es)) && At(data, pos + |EncodeExtensions(es)|, cut)
    ensures Extensions(data, pos, pos + |EncodeExtensions(es)| + |cut|, CLIENT_HELLO, info) == LearnAll(info, es)
    decreases |es|
  {
    hide Effect, Learn, Body, TypeOf, GoodExtension, U16At, At, CutExtension;
    if es == [] {
      CutIsSkipped(data, pos, cut, CLIENT_HELLO, info);
    } else {
      var e, rest := es[0], EncodeExtensions(es[1..]);
      var kind, size := U16Bytes(TypeOf(e)), U16Bytes(|Body(e)|);
      AtSplit(data, pos, EncodeExtension(e), rest);
      AtSplit(data, pos, kind + size, Body(e));
      AtSplit(data, pos, kind, size);
      U16ReadsBack(data, pos, TypeOf(e));
      U16ReadsBack(data, pos + 2, |Body(e)|);
      ExtensionReadsBack(data, pos + 4, e, info);
      ExtensionsReadBack(data, pos + 4 + |Body(e)|, es[1..], cut, Learn(info, e));
    }
  }

  lemma CutIsSkipped(data: seq<byte>, pos: nat, cut: seq<byte>, hsType: byte, info: HelloInfo)
    requires CutExtension(cut) && At(data, pos, cut)
    ensures Extensions(data, pos, pos + |cut|, hsType, info) == info
  {
    if |cut| >= 4 {
      var s := data[pos..pos + |cut|];
      assert s[2] == data[pos + 2] && s[3] == data[pos + 3];
    }
  }

  // ----- The message -----

  /** The bytes behind the fixed part: fewer than the length of an extension block takes, or such a block. It may end
      with an extension that is cut off. The record may end before the block does, or go on behind it. */
  datatype Extras<E> =
    | Nothing(few: seq<byte>)
    | Block(announced: u16, extensions: seq<E>, cut: seq<byte>, rest: seq<byte>)

  /** The block as announced and the record's end agree on where the extensions end. */
  predicate BlockFits<E>(x: Extras<E>, size: nat)
    requires x.Block?
  {
    size <= x.announced && (size == x.announced || x.rest == [])
  }

  /** A ClientHello in one record. The three bytes of the handshake length are not read, so they are arbitrary here. */
  datatype ClientHello = ClientHello(
    recordVersion: u16, lengthBytes: seq<byte>, legacyVersion: u16, random: seq<byte>, sessionId: seq<byte>,
    cipherSuites: seq<u16>, compressions: seq<byte>, extras: Extras<Extension>)

  predicate FieldsFit(h: ClientHello) {
    && |h.lengthBytes| == 3 && |h.random| == 32 && |h.sessionId| < 0x100
    && 2 * |h.cipherSuites| < 0x1_0000 && |h.compressions| < 0x100
  }

  predicate ExtensionsFit(h: ClientHello) {
    match h.extras
    case Nothing(few) => |few| <= 1
    case Block(_, es, cut, _) =>
      GoodExtensions(es) && CutExtension(cut) && BlockFits(h.extras, |EncodeExtensions(es)| + |cut|)
  }

  predicate WellFormed(h: ClientHello) {
    FieldsFit(h) && ExtensionsFit(h) && |Message(h)| < 0x1_0000
  }

  function ExtensionPart(h: ClientHello): seq<byte>
    requires ExtensionsFit(h)
  {
    match h.extras
    case Nothing(few) => few
    case Block(announced, es, cut, rest) => U16Bytes(announced) + EncodeExtensions(es) + cut + rest
  }

  /** Handshake type, three length bytes, version, random and session id. */
  function Start(h: ClientHello): (r: seq<byte>)
    requires |h.lengthBytes| == 3 && |h.random| == 32 && |h.sessionId| < 0x100
    ensures |r| == 39 + |h.sessionId|
  {
    ([1] + h.lengthBytes) + (U16Bytes(h.legacyVersion) + h.random) + [|h.sessionId|] + h.sessionId
  }

  function Middle(h: ClientHello): seq<byte>
    requires 2 * |h.cipherSuites| < 0x1_0000 && |h.compressions| < 0x100
  {
    U16Bytes(2 * |h.cipherSuites|) + EncodeU16s(h.cipherSuites) + ([|h.compressions|] + h.compressions)
  }

  function Message(h: ClientHello): seq<byte>
    requires FieldsFit(h)
    requires ExtensionsFit(h)
  {
    Start(h) + Middle(h) + ExtensionPart(h)
  }

  function EncodeHello(h: ClientHello): seq<byte>
    requires WellFormed(h)
  {
    [22] + U16Bytes(h.recordVersion) + U16Bytes(|Message(h)|) + Message(h)
  }

  /** What the hello says. */
  function Content(h: ClientHello): HelloInfo {
    var info := NO_HELLO.(cipherSuites := h.cipherSuites);
    if h.extras.Nothing? then info else LearnAll(info, h.extras.extensions)
  }

  lemma StartReadsBack(data: seq<byte>, hs: nat, h: ClientHello)
    requires WellFormed(h) && At(data, hs, Start(h))
    ensures HelloStartAt(data, hs) == HelloStart(CLIENT_HELLO, hs + |Start(h)|)
  {
    var a, b := [1] + h.lengthBytes, U16Bytes(h.legacyVersion) + h.random;
    AtSplit(data, hs, a + b + [|h.sessionId|], h.sessionId);
    AtSplit(data, hs, a + b, [|h.sessionId|]);
    AtSplit(data, hs, a, b);
    assert data[hs..hs + 4][0] == 1;
    assert data[hs + 38..hs + 39][0] == |h.sessionId|;
  }

  lemma MiddleReadsBack(data: seq<byte>, beyond: byte, pos: nat, h: ClientHello)
    requires WellFormed(h) && At(data, pos, Middle(h))
    ensures U16At(data, pos) == 2 * |h.cipherSuites|
    ensures |data| >= pos + 2 + 2 * |h.cipherSuites| + 1
    ensures CipherSuites(data, beyond, pos + 2, 2 * |h.cipherSuites|) == h.cipherSuites
    ensures pos + 2 + 2 * |h.cipherSuites| + 1 + data[pos + 2 + 2 * |h.cipherSuites|] == pos + |Middle(h)|
  {
    var a, b, c := U16Bytes(2 * |h.cipherSuites|), EncodeU16s(h.cipherSuites), [|h.compressions|] + h.compressions;
    var p := pos + 2 + |b|;
    assert Middle(h) == a + b + c && |Middle(h)| == 3 + |b| + |h.compressions|;
    hide EncodeU16s, CipherSuites, U16At, Middle, WellFormed;
    AtSplit(data, pos, a + b, c);
    AtSplit(data, pos, a, b);
    CountedBytes(data, p, h.compressions);
    U16ReadsBack(data, pos, 2 * |h.cipherSuites|);
    SuitesReadBack(data, beyond, pos + 2, h.cipherSuites);
  }

  /** A length octet and that many bytes. */
  lemma CountedBytes(data: seq<byte>, p: nat, bytes: seq<byte>)
    requires |bytes| < 0x100 && At(data, p, [|bytes|] + bytes)
    ensures p + 1 + |bytes| <= |data| && data[p] == |bytes|
  {
    AtSplit(data, p, [|bytes|], bytes);
    ByteReadsBack(data, p, |bytes|);
  }

  lemma ExtensionPartReadsBack(data: seq<byte>, pos: nat, h: ClientHello, info: HelloInfo)
    requires WellFormed(h) && At(data, pos, ExtensionPart(h))
    ensures ExtensionBlock(data, pos, pos + |ExtensionPart(h)|, CLIENT_HELLO, info)
            == if h.extras.Nothing? then info else LearnAll(info, h.extras.extensions)
  {
    hide Extensions, EncodeExtensions, LearnAll, GoodExtensions, Message, FieldsFit, CutExtension, At;
    match h.extras
    case Nothing(_) =>
    case Block(announced, es, cut, rest) =>
      AtSplit(data, pos, U16Bytes(announced) + EncodeExtensions(es) + cut, rest);
      AtSplit(data, pos, U16Bytes(announced) + EncodeExtensions(es), cut);
      AtSplit(data, pos, U16Bytes(announced), EncodeExtensions(es));
      U16ReadsBack(data, pos, announced);
      ExtensionsReadBack(data, pos + 2, es, cut, info);
  }

  lemma MessageReadsBack(data: seq<byte>, beyond: byte, hs: nat, h: ClientHello)
    requires WellFormed(h) && At(data, hs, Message(h))
    ensures HelloAt(data, beyond, hs, hs + |Message(h)|) == Content(h)
  {
    hide Start, Middle, ExtensionPart, ExtensionBlock, HelloStartAt, CipherSuites, LearnAll, EncodeU16s,
         EncodeExtensions, GoodExtensions, At;
    AtSplit(data, hs, Start(h) + Middle(h), ExtensionPart(h));
    AtSplit(data, hs, Start(h), Middle(h));
    StartReadsBack(data, hs, h);
    var pos := hs + |Start(h)|;
    MiddleReadsBack(data, beyond, pos, h);
    ExtensionPartReadsBack(data, pos + |Middle(h)|, h, NO_HELLO.(cipherSuites := h.cipherSuites));
  }

  /** For every ClientHello with an even cipher suite list, wherever its record starts and whatever surrounds it: the
      decoder returns exactly its cipher suites, host name, protocols in order and largest listed version. */
  lemma ClientHelloReadsBack(before: seq<byte>, h: ClientHello, behind: seq<byte>, beyond: byte)
    requires WellFormed(h)
    ensures
      var data, offset := before + EncodeHello(h) + behind, |before|;
      RecordAt(data, beyond, offset)
      == Ok(Decoded(TlsRecord(22, h.recordVersion, Content(h)), offset + |EncodeHello(h)|))
  {
    hide HelloAt, Content, Message;
    var data, offset := before + EncodeHello(h) + behind, |before|;
    var message := Message(h);
    var a, b, c := [22], U16Bytes(h.recordVersion), U16Bytes(|message|);
    assert At(data, offset, EncodeHello(h));
    AtSplit(data, offset, a + b + c, message);
    AtSplit(data, offset, a + b, c);
    AtSplit(data, offset, a, b);
    ByteReadsBack(data, offset, 22);
    U16ReadsBack(data, offset + 1, h.recordVersion);
    U16ReadsBack(data, offset + 3, |message|);
    MessageReadsBack(data, beyond, offset + 5, h);
  }

  /** With at most one extension of each kind the extracted fields are those of the extensions themselves. */
  lemma {:induction false} SingleExtensionsAreFound(info: HelloInfo, es: seq<Extension>, k: nat)
    requires k < |es|
    requires forall i :: 0 <= i < |es| && i != k ==> TypeOf(es[i]) != TypeOf(es[k])
    ensures
      var learned := LearnAll(info, es);
      match es[k]
      case Sni(_, _, host, _) => learned.sni == Some(host)
      case CutSni(_, _, _, _) => learned.sni == info.sni
      case Alpn(_, protocols, _) => learned.alpn == Some(protocols)
      case SupportedVersions(_, versions, _) =>
        learned.tlsVersion == if Largest(versions, 0) > 0 then Some(Largest(versions, 0)) else info.tlsVersion
      case Unread(_, _) => learned.cipherSuites == info.cipherSuites
    decreases |es|
  {
    var rest := es[1..];
    assert forall i :: 0 <= i < |rest| ==> rest[i] == es[i + 1];
    if k > 0 {
      SingleExtensionsAreFound(Learn(info, es[0]), rest, k - 1);
      OthersKeep(info, [es[0]], TypeOf(es[k]));
    } else {
      OthersKeep(Learn(info, es[0]), rest, TypeOf(es[0]));
    }
  }

  lemma {:induction false} OthersKeep(info: HelloInfo, es: seq<Extension>, kind: u16)
    requires forall i :: 0 <= i < |es| ==> TypeOf(es[i]) != kind
    ensures
      var learned := LearnAll(info, es);
      && learned.cipherSuites == info.cipherSuites
      && (kind == EXT_SNI ==> learned.sni == info.sni)
      && (kind == EXT_ALPN ==> learned.alpn == info.alpn)
      && (kind == EXT_SUPPORTED_VERSIONS ==> learned.tlsVersion == info.tlsVersion)
    decreases |es|
  {
    if es != [] {
      OthersKeep(Learn(info, es[0]), es[1..], kind);
    }
  }
}
