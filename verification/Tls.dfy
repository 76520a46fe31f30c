/** TLS records and the hello messages inside them. */
module Tls {
  import opened Common
  import opened Wire

  const RECORD_HEADER := 5
  const HANDSHAKE: byte := 22
  const CLIENT_HELLO: byte := 1
  const SERVER_HELLO: byte := 2
  const EXT_SNI := 0x0000
  const EXT_ALPN := 0x0010
  const EXT_SUPPORTED_VERSIONS := 0x002B

  /** What is extracted from a hello. */
  datatype HelloInfo = HelloInfo(
    cipherSuites: seq<u16>, sni: Option<seq<byte>>, alpn: Option<seq<seq<byte>>>, tlsVersion: Option<u16>)

  const NO_HELLO := HelloInfo([], None, None, None)

  datatype TlsRecord = TlsRecord(contentType: byte, version: u16, hello: HelloInfo)

  /** A record and the offset behind it. */
  datatype Decoded = Decoded(record: TlsRecord, offset: nat)

  // ----- Lists inside a hello -----

  /** Two bytes, of which the second may be the one in memory behind the buffer. */
  function PairAt(data: seq<byte>, beyond: byte, pos: nat): u16
    requires pos < |data|
  {
    data[pos] as int * 256 + (if pos + 1 < |data| then data[pos + 1] else beyond)
  }

  /** The cipher suite loop reads two bytes at a time, so an odd length reads one byte past the list. */
  function CipherSuites(data: seq<byte>, beyond: byte, pos: nat, len: nat): seq<u16>
    requires pos + len <= |data|
    decreases len
  {
    if len == 0 then []
    else if len == 1 then [PairAt(data, beyond, pos)]
    else [PairAt(data, beyond, pos)] + CipherSuites(data, beyond, pos + 2, len - 2)
  }

  function Protocols(data: seq<byte>, pos: nat, end: nat): seq<seq<byte>>
    requires end <= |data|
    decreases end - pos
  {
    if pos >= end || pos + 1 + data[pos] > end then []
    else [data[pos + 1..pos + 1 + data[pos]]] + Protocols(data, pos + 1 + data[pos], end)
  }

  function Max(a: u16, b: u16): u16 {
    if a > b then a else b
  }

  /** The largest version from index `vi` of the extension on, or `least`. */
  function MaxVersion(data: seq<byte>, pos: nat, extLen: nat, versionsLen: nat, vi: nat, least: u16): u16
    requires pos + extLen <= |data|
    decreases extLen - vi
  {
    if vi + 1 < 1 + versionsLen && vi + 1 < extLen
    then MaxVersion(data, pos, extLen, versionsLen, vi + 2, Max(least, U16At(data, pos + vi)))
    else least
  }

  function SniEffect(data: seq<byte>, pos: nat, extLen: nat, info: HelloInfo): HelloInfo
    requires pos + extLen <= |data|
  {
    if extLen < 5 then info
    else
      var nameLen := U16At(data, pos + 3);
      if pos + 5 + nameLen <= pos + extLen then info.(sni := Some(data[pos + 5..pos + 5 + nameLen])) else info
  }

  function AlpnEffect(data: seq<byte>, pos: nat, extLen: nat, info: HelloInfo): HelloInfo
    requires pos + extLen <= |data|
  {
    if extLen < 2 then info else info.(alpn := Some(Protocols(data, pos + 2, pos + extLen)))
  }

  function VersionsEffect(data: seq<byte>, pos: nat, extLen: nat, hsType: byte, info: HelloInfo): HelloInfo
    requires pos + extLen <= |data|
  {
    if hsType == CLIENT_HELLO then
      if extLen < 3 then info
      else
        var maxVer := MaxVersion(data, pos, extLen, data[pos], 1, 0);
        if maxVer > 0 then info.(tlsVersion := Some(maxVer)) else info
    else if extLen < 2 then info
    else info.(tlsVersion := Some(U16At(data, pos)))
  }

  /** What one extension adds to the extracted information. */
  function Effect(data: seq<byte>, pos: nat, extType: u16, extLen: nat, hsType: byte, info: HelloInfo): HelloInfo
    requires pos + extLen <= |data|
  {
    if extLen == 0 then info
    else if extType == EXT_SNI then SniEffect(data, pos, extLen, info)
    else if extType == EXT_ALPN then AlpnEffect(data, pos, extLen, info)
    else if extType == EXT_SUPPORTED_VERSIONS then VersionsEffect(data, pos, extLen, hsType, info)
    else info
  }

  function Extensions(data: seq<byte>, pos: nat, extEnd: nat, hsType: byte, info: HelloInfo): HelloInfo
    requires extEnd <= |data|
    decreases extEnd - pos
  {
    if pos + 4 > extEnd then info
    else
      var extType, extLen := U16At(data, pos), U16At(data, pos + 2);
      if pos + 4 + extLen > extEnd then info
      else Extensions(data, pos + 4 + extLen, extEnd, hsType, Effect(data, pos + 4, extType, extLen, hsType, info))
  }

  function ExtensionBlock(data: seq<byte>, pos: nat, recordEnd: nat, hsType: byte, info: HelloInfo): HelloInfo
    requires recordEnd <= |data|
  {
    if pos + 2 > recordEnd then info
    else
      var extEnd := pos + 2 + U16At(data, pos);
      Extensions(data, pos + 2, if extEnd > recordEnd then recordEnd else extEnd, hsType, info)
  }

  // ----- Hello messages -----

  /** The handshake type, if it is a hello, and the position behind its session id. */
  datatype HelloStart = NotHello | HelloStart(hsType: byte, pos: nat)

  function HelloStartAt(data: seq<byte>, hs: nat): HelloStart {
    if |data| < hs + 4 || (data[hs] != CLIENT_HELLO && data[hs] != SERVER_HELLO) || |data| < hs + 4 + 34 + 1
    then NotHello
    else HelloStart(data[hs], hs + 4 + 34 + 1 + data[hs + 4 + 34])
  }

  /** The length and position of a client's cipher suite list, if it lies inside the buffer. */
  function CipherListAt(data: seq<byte>, hs: nat): Option<(nat, nat)> {
    match HelloStartAt(data, hs)
    case NotHello => None
    case HelloStart(hsType, pos) =>
      if hsType != CLIENT_HELLO || |data| < pos + 2 || |data| < pos + 2 + U16At(data, pos) then None
      else Some((U16At(data, pos), pos + 2))
  }

  /** A cipher suite list of odd length does not end with the buffer. */
  predicate CiphersReadable(data: seq<byte>, hs: nat) {
    match CipherListAt(data, hs)
    case None => true
    case Some((len, pos)) => len % 2 == 1 ==> pos + len < |data|
  }

  function HelloAt(data: seq<byte>, beyond: byte, hs: nat, recordEnd: nat): HelloInfo
    requires recordEnd <= |data|
  {
    match HelloStartAt(data, hs)
    case NotHello => NO_HELLO
    case HelloStart(hsType, pos) =>
      if |data| < pos + 2 then NO_HELLO
      else if hsType == CLIENT_HELLO then
        var len := U16At(data, pos);
        if |data| < pos + 2 + len then NO_HELLO
        else
          var info := NO_HELLO.(cipherSuites := CipherSuites(data, beyond, pos + 2, len));
          var comp := pos + 2 + len;
          if |data| < comp + 1 then info
          else ExtensionBlock(data, comp + 1 + data[comp], recordEnd, hsType, info)
      else
        var info := NO_HELLO.(cipherSuites := [U16At(data, pos)]);
        if |data| < pos + 3 then info
        else ExtensionBlock(data, pos + 3, recordEnd, hsType, info)
  }

  // ----- Records -----

  /** Where the record at `offset` ends, if a complete record with a valid content type is there. */
  function RecordEndAt(data: seq<byte>, offset: nat): (r: Result<nat>)
    ensures r.Ok? ==> offset + RECORD_HEADER <= r.value <= |data|
  {
    if |data| < offset + RECORD_HEADER then Err(TruncatedHeader)
    else if data[offset] < 20 || data[offset] > 23 then Err(MalformedPacket)
    else if |data| < offset + RECORD_HEADER + U16At(data, offset + 3) then Err(TruncatedHeader)
    else Ok(offset + RECORD_HEADER + U16At(data, offset + 3))
  }

  predicate Readable(data: seq<byte>, offset: nat) {
    RecordEndAt(data, offset).Ok? && data[offset] == HANDSHAKE ==> CiphersReadable(data, offset + RECORD_HEADER)
  }

  /** The record at `offset`; `beyond` is the byte in memory behind the buffer. */
  function RecordAt(data: seq<byte>, beyond: byte, offset: nat): Result<Decoded>
  {
    match RecordEndAt(data, offset)
    case Err(e) => Err(e)
    case Ok(end) =>
      var hello := if data[offset] == HANDSHAKE then HelloAt(data, beyond, offset + RECORD_HEADER, end) else NO_HELLO;
      Ok(Decoded(TlsRecord(data[offset], U16At(data, offset + 1), hello), end))
  }

  /** When there is no record, and why: the header or the announced content is not all there, or the content type is
      none of the four. */
  lemma RecordErrors(data: seq<byte>, beyond: byte, offset: nat)
    ensures RecordAt(data, beyond, offset) == Err(TruncatedHeader)
            <==> || |data| < offset + 5
                 || (20 <= data[offset] <= 23
                     && |data| < offset + 5 + (data[offset + 3] as int * 256 + data[offset + 4]))
    ensures RecordAt(data, beyond, offset) == Err(MalformedPacket)
            <==> |data| >= offset + 5 && !(20 <= data[offset] <= 23)
  {
    hide HelloAt;
  }

  /** Nothing is extracted from a record of another type, from a handshake message that is no hello, and from a hello of
      which less is in the buffer than its fixed part, its session id and the two bytes behind it. */
  lemma NothingIsExtracted(data: seq<byte>, beyond: byte, offset: nat)
    requires RecordAt(data, beyond, offset).Ok?
    requires || data[offset] != 22 || |data| < offset + 9 || (data[offset + 5] != 1 && data[offset + 5] != 2)
             || |data| < offset + 44 || |data| < offset + 46 + data[offset + 43]
    ensures RecordAt(data, beyond, offset).value.record.hello == HelloInfo([], None, None, None)
  {
    hide CipherSuites, ExtensionBlock;
  }

  // ----- The decoder -----

  lemma SuitesStep(data: seq<byte>, beyond: byte, pos: nat, i: nat, len: nat, suites: seq<u16>)
    requires pos + len <= |data| && i < len
    ensures
      suites + CipherSuites(data, beyond, pos + i, len - i) ==
      (suites + [PairAt(data, beyond, pos + i)])
      + (if i + 2 <= len then CipherSuites(data, beyond, pos + i + 2, len - i - 2) else [])
  {
    var rest := if i + 2 <= len then CipherSuites(data, beyond, pos + i + 2, len - i - 2) else [];
    ConcatAssociates(suites, [PairAt(data, beyond, pos + i)], rest);
    hide PairAt;
  }

  method ReadCipherSuites(data: seq<byte>, beyond: byte, pos: nat, len: nat) returns (suites: seq<u16>)
    requires pos + len <= |data|
    ensures suites == CipherSuites(data, beyond, pos, len)
  {
    ghost var all := CipherSuites(data, beyond, pos, len);
    hide CipherSuites, PairAt;
    suites := [];
    var i := 0;
    assert [] + all == all;
    while i < len
      invariant i <= len + 1
      invariant all == if i <= len then suites + CipherSuites(data, beyond, pos + i, len - i) else suites
    {
      SuitesStep(data, beyond, pos, i, len, suites);
      suites := suites + [PairAt(data, beyond, pos + i)];
      assert suites + [] == suites;
      i := i + 2;
    }
    if i == len {
      NoSuites(data, beyond, pos + len);
      assert suites + [] == suites;
    }
  }

  lemma NoSuites(data: seq<byte>, beyond: byte, pos: nat)
    requires pos <= |data|
    ensures CipherSuites(data, beyond, pos, 0) == []
  {
  }

  method ReadProtocols(data: seq<byte>, pos: nat, end: nat) returns (protocols: seq<seq<byte>>)
    requires end <= |data|
    ensures protocols == Protocols(data, pos, end)
  {
    protocols := [];
    var alpnPos := pos;
    while alpnPos < end
      invariant Protocols(data, pos, end) == protocols + Protocols(data, alpnPos, end)
      decreases end - alpnPos
    {
      var protoLen := data[alpnPos];
      if alpnPos + 1 + protoLen > end {
        break;
      }
      ghost var rest := Protocols(data, alpnPos + 1 + protoLen, end);
      var name := data[alpnPos + 1..alpnPos + 1 + protoLen];
      assert protocols + ([name] + rest) == (protocols + [name]) + rest;
      protocols := protocols + [name];
      alpnPos := alpnPos + 1 + protoLen;
    }
    assert protocols + [] == protocols;
  }

  method ReadMaxVersion(data: seq<byte>, pos: nat, extLen: nat) returns (maxVer: u16)
    requires pos + extLen <= |data| && extLen >= 3
    ensures maxVer == MaxVersion(data, pos, extLen, data[pos], 1, 0)
  {
    maxVer := 0;
    var versionsLen := data[pos];
    var vi := 1;
    while vi + 1 < 1 + versionsLen && vi + 1 < extLen
      invariant vi >= 1
      invariant MaxVersion(data, pos, extLen, data[pos], 1, 0)
                == MaxVersion(data, pos, extLen, versionsLen, vi, maxVer)
      decreases extLen - vi
    {
      var ver := U16At(data, pos + vi);
      if ver > maxVer {
        maxVer := ver;
      }
      vi := vi + 2;
    }
  }

  method ReadExtensions(data: seq<byte>, start: nat, extEnd: nat, hsType: byte, known: HelloInfo)
    returns (info: HelloInfo)
    requires extEnd <= |data|
    ensures info == Extensions(data, start, extEnd, hsType, known)
  {
    hide Protocols, MaxVersion;
    info := known;
    var pos := start;
    while pos + 4 <= extEnd
      invariant Extensions(data, start, extEnd, hsType, known) == Extensions(data, pos, extEnd, hsType, info)
      decreases extEnd - pos
    {
      var extType := U16At(data, pos);
      var extLen := U16At(data, pos + 2);
      pos := pos + 4;
      if pos + extLen > extEnd {
        break;
      }
      if extType == EXT_SNI && extLen > 0 {
        if extLen >= 5 {
          var sniPos := pos + 3;
          var nameLen := U16At(data, sniPos);
          sniPos := sniPos + 2;
          if sniPos + nameLen <= pos + extLen {
            info := info.(sni := Some(data[sniPos..sniPos + nameLen]));
          }
        }
      } else if extType == EXT_ALPN && extLen > 0 {
        if extLen >= 2 {
          var protocols := ReadProtocols(data, pos + 2, pos + extLen);
          info := info.(alpn := Some(protocols));
        }
      } else if extType == EXT_SUPPORTED_VERSIONS && extLen > 0 {
        if hsType == CLIENT_HELLO {
          if extLen >= 3 {
            var maxVer := ReadMaxVersion(data, pos, extLen);
            if maxVer > 0 {
              info := info.(tlsVersion := Some(maxVer));
            }
          }
        } else {
          if extLen >= 2 {
            info := info.(tlsVersion := Some(U16At(data, pos)));
          }
        }
      }
      pos := pos + extLen;
    }
  }

  method ReadHello(data: seq<byte>, beyond: byte, hsOffset: nat, recordEnd: nat) returns (info: HelloInfo)
    requires recordEnd <= |data|
    ensures info == HelloAt(data, beyond, hsOffset, recordEnd)
  {
    hide CipherSuites, Extensions;
    info := NO_HELLO;
    if |data| < hsOffset + 4 {
      return;
    }
    var hsType := data[hsOffset];
    if hsType != CLIENT_HELLO && hsType != SERVER_HELLO {
      return;
    }
    var pos := hsOffset + 4;
    if |data| < pos + 34 {
      return;
    }
    pos := pos + 34;
    if |data| < pos + 1 {
      return;
    }
    pos := pos + 1 + data[pos];
    if hsType == CLIENT_HELLO {
      if |data| < pos + 2 {
        return;
      }
      var cipherSuitesLen := U16At(data, pos);
      pos := pos + 2;
      if |data| < pos + cipherSuitesLen {
        return;
      }
      var suites := ReadCipherSuites(data, beyond, pos, cipherSuitesLen);
      info := info.(cipherSuites := suites);
      pos := pos + cipherSuitesLen;
      if |data| < pos + 1 {
        return;
      }
      pos := pos + 1 + data[pos];
    } else {
      if |data| < pos + 2 {
        return;
      }
      info := info.(cipherSuites := [U16At(data, pos)]);
      pos := pos + 2;
      if |data| < pos + 1 {
        return;
      }
      pos := pos + 1;
    }
    if pos + 2 > recordEnd {
      return;
    }
    var extTotalLen := U16At(data, pos);
    pos := pos + 2;
    var extEnd := pos + extTotalLen;
    if extEnd > recordEnd {
      extEnd := recordEnd;
    }
    info := ReadExtensions(data, pos, extEnd, hsType, info);
  }

  /** decodeTls; an error leaves the caller's offset as it was. */
  method DecodeTls(data: seq<byte>, beyond: byte, offset: nat) returns (r: Result<Decoded>)
    ensures r == RecordAt(data, beyond, offset)
  {
    hide HelloAt;
    if |data| < offset + RECORD_HEADER {
      return Err(TruncatedHeader);
    }
    var contentType := data[offset];
    if contentType < 20 || contentType > 23 {
      return Err(MalformedPacket);
    }
    var version := U16At(data, offset + 1);
    var recordLen := U16At(data, offset + 3);
    if |data| < offset + RECORD_HEADER + recordLen {
      return Err(TruncatedHeader);
    }
    var recordEnd := offset + RECORD_HEADER + recordLen;
    var hello := NO_HELLO;
    if contentType == HANDSHAKE {
      hello := ReadHello(data, beyond, offset + RECORD_HEADER, recordEnd);
    }
    return Ok(Decoded(TlsRecord(contentType, version, hello), recordEnd));
  }

  // ----- The byte behind the buffer -----

  /** The loop's reads stay inside the buffer if and only if the list is readable. */
  lemma CipherReadsStayInsideIff(data: seq<byte>, hs: nat)
    requires CipherListAt(data, hs).Some?
    ensures
      var (len, pos) := CipherListAt(data, hs).value;
      (forall i :: 0 <= i < len && i % 2 == 0 ==> pos + i + 1 < |data|) <==> CiphersReadable(data, hs)
  {
    var (len, pos) := CipherListAt(data, hs).value;
    if len % 2 == 1 {
      assert (len - 1) % 2 == 0;
    }
  }

  lemma {:induction false} InsideSuitesAgree(data: seq<byte>, b: byte, c: byte, pos: nat, len: nat)
    requires pos + len <= |data| && (len % 2 == 1 ==> pos + len < |data|)
    ensures CipherSuites(data, b, pos, len) == CipherSuites(data, c, pos, len)
    decreases len
  {
    if len > 1 {
      InsideSuitesAgree(data, b, c, pos + 2, len - 2);
    }
  }

  /** An odd list that ends the buffer ends with a suite whose low byte was never sent. */
  lemma {:induction false} LastSuiteIsForeign(data: seq<byte>, beyond: byte, pos: nat, len: nat)
    requires pos + len == |data| && len % 2 == 1
    ensures
      var suites := CipherSuites(data, beyond, pos, len);
      |suites| == (len + 1) / 2 && suites[|suites| - 1] == data[|data| - 1] as int * 256 + beyond
    decreases len
  {
    if len > 1 {
      LastSuiteIsForeign(data, beyond, pos + 2, len - 2);
    }
  }

  lemma ReadableHelloAgrees(data: seq<byte>, b: byte, c: byte, hs: nat, recordEnd: nat)
    requires recordEnd <= |data| && CiphersReadable(data, hs)
    ensures HelloAt(data, b, hs, recordEnd) == HelloAt(data, c, hs, recordEnd)
  {
    hide CipherSuites, ExtensionBlock;
    if CipherListAt(data, hs).Some? {
      var (len, pos) := CipherListAt(data, hs).value;
      InsideSuitesAgree(data, b, c, pos, len);
    }
  }

  lemma UnreadableHelloDiffers(data: seq<byte>, hs: nat, recordEnd: nat)
    requires recordEnd <= |data| && !CiphersReadable(data, hs)
    ensures HelloAt(data, 0, hs, recordEnd) != HelloAt(data, 1, hs, recordEnd)
  {
    hide CipherSuites, ExtensionBlock;
    var (len, pos) := CipherListAt(data, hs).value;
    LastSuiteIsForeign(data, 0, pos, len);
    LastSuiteIsForeign(data, 1, pos, len);
  }

  /** What is decoded does not depend on memory behind the buffer if and only if the record is readable. */
  lemma RecordIgnoresBeyondIff(data: seq<byte>, offset: nat)
    ensures (forall b: byte, c: byte :: RecordAt(data, b, offset) == RecordAt(data, c, offset))
            <==> Readable(data, offset)
  {
    hide HelloAt, CiphersReadable;
    var start := offset + RECORD_HEADER;
    if RecordEndAt(data, offset).Ok? && data[offset] == HANDSHAKE {
      var end := RecordEndAt(data, offset).value;
      if CiphersReadable(data, start) {
        forall b: byte, c: byte
          ensures RecordAt(data, b, offset) == RecordAt(data, c, offset)
        {
          ReadableHelloAgrees(data, b, c, start, end);
        }
      } else {
        UnreadableHelloDiffers(data, start, end);
        assert RecordAt(data, 0, offset) != RecordAt(data, 1, offset);
      }
    }
  }

  /** A ClientHello whose one-byte cipher suite list ends the buffer: a suite is reported that was never sent. */
  lemma OneByteListReadsPast(versionAndRandom: seq<byte>, suite: byte, beyond: byte)
    requires |versionAndRandom| == 34
    ensures
      var data := [22, 3, 1, 0, 42, 1, 0, 0, 38] + versionAndRandom + [0, 0, 1, suite];
      && !Readable(data, 0)
      && RecordAt(data, beyond, 0)
         == Ok(Decoded(TlsRecord(22, 0x0301, NO_HELLO.(cipherSuites := [suite as int * 256 + beyond])), 47))
  {
    hide ExtensionBlock;
    var data: seq<byte> := [22, 3, 1, 0, 42, 1, 0, 0, 38] + versionAndRandom + [0, 0, 1, suite];
    assert data[5] == CLIENT_HELLO && data[43] == 0 && U16At(data, 44) == 1 && data[46] == suite;
    assert HelloStartAt(data, 5) == HelloStart(CLIENT_HELLO, 44);
    assert CipherSuites(data, beyond, 46, 1) == [suite as int * 256 + beyond];
  }
}
