/** Hello fields and the bytes behind a record: the hello is read against the end of the buffer, not of its record. */
module TlsRecordCut {
  import opened Common
  import opened Wire
  import opened Tls

  /** The fields up to the cipher suites lie inside the buffer, or the first payload byte already says that there is no
      hello. */
  predicate SuitesInside(data: seq<byte>, hs: nat) {
    && hs < |data|
    && ((data[hs] != CLIENT_HELLO && data[hs] != SERVER_HELLO)
        || match HelloStartAt(data, hs)
           case NotHello => false
           case HelloStart(hsType, pos) =>
             && pos + 2 <= |data|
             && (hsType == CLIENT_HELLO ==> CipherListAt(data, hs).Some? && CiphersReadable(data, hs)))
  }

  // ----- Extensions read nothing behind the record -----

  lemma SamePrefix(data: seq<byte>, longer: seq<byte>)
    requires data <= longer
    ensures forall i :: 0 <= i < |data| ==> longer[i] == data[i]
  {
    assert data == longer[..|data|];
  }

  lemma {:induction false} SuitesAgree(data: seq<byte>, longer: seq<byte>, b: byte, c: byte, pos: nat, len: nat)
    requires data <= longer && pos + len <= |data| && (len % 2 == 1 ==> pos + len < |data|)
    ensures CipherSuites(data, b, pos, len) == CipherSuites(longer, c, pos, len)
    decreases len
  {
    SamePrefix(data, longer);
    if len > 1 {
      SuitesAgree(data, longer, b, c, pos + 2, len - 2);
    }
  }

  lemma {:induction false} ProtocolsAgree(data: seq<byte>, longer: seq<byte>, pos: nat, end: nat)
    requires data <= longer && end <= |data|
    ensures Protocols(data, pos, end) == Protocols(longer, pos, end)
    decreases end - pos
  {
    SamePrefix(data, longer);
    if !(pos >= end || pos + 1 + data[pos] > end) {
      assert data[pos + 1..pos + 1 + data[pos]] == longer[pos + 1..pos + 1 + data[pos]];
      ProtocolsAgree(data, longer, pos + 1 + data[pos], end);
    }
  }

  lemma {:induction false} MaxVersionAgrees(
    data: seq<byte>, longer: seq<byte>, pos: nat, extLen: nat, versionsLen: nat, vi: nat, least: u16)
    requires data <= longer && pos + extLen <= |data|
    ensures MaxVersion(data, pos, extLen, versionsLen, vi, least)
            == MaxVersion(longer, pos, extLen, versionsLen, vi, least)
    decreases extLen - vi
  {
    SamePrefix(data, longer);
    if vi + 1 < 1 + versionsLen && vi + 1 < extLen {
      MaxVersionAgrees(data, longer, pos, extLen, versionsLen, vi + 2, Max(least, U16At(data, pos + vi)));
    }
  }

  lemma EffectAgrees(
    data: seq<byte>, longer: seq<byte>, pos: nat, extType: u16, extLen: nat, hsType: byte, info: HelloInfo)
    requires data <= longer && pos + extLen <= |data|
    ensures Effect(data, pos, extType, extLen, hsType, info) == Effect(longer, pos, extType, extLen, hsType, info)
    ensures Effect(data, pos, extType, extLen, hsType, info).cipherSuites == info.cipherSuites
  {
    hide Protocols, MaxVersion;
    SamePrefix(data, longer);
    if extLen >= 2 {
      ProtocolsAgree(data, longer, pos + 2, pos + extLen);
    }
    if extLen >= 3 {
      MaxVersionAgrees(data, longer, pos, extLen, data[pos], 1, 0);
    }
    if extLen >= 5 && 5 + U16At(data, pos + 3) <= extLen {
      var nameLen := U16At(data, pos + 3);
      assert longer[pos + 5..pos + 5 + nameLen] == data[pos + 5..pos + 5 + nameLen];
    }
  }

  lemma {:induction false} ExtensionsAgree(
    data: seq<byte>, longer: seq<byte>, pos: nat, extEnd: nat, hsType: byte, info: HelloInfo)
    requires data <= longer && extEnd <= |data|
    ensures Extensions(data, pos, extEnd, hsType, info) == Extensions(longer, pos, extEnd, hsType, info)
    ensures Extensions(data, pos, extEnd, hsType, info).cipherSuites == info.cipherSuites
    decreases extEnd - pos
  {
    hide Effect;
    SamePrefix(data, longer);
    if pos + 4 <= extEnd {
      var extType, extLen := U16At(data, pos), U16At(data, pos + 2);
      if pos + 4 + extLen <= extEnd {
        EffectAgrees(data, longer, pos + 4, extType, extLen, hsType, info);
        ExtensionsAgree(data, longer, pos + 4 + extLen, extEnd, hsType,
                        Effect(data, pos + 4, extType, extLen, hsType, info));
      }
    }
  }

  /** An extension block that begins behind the record is not read. */
  lemma BlockAgrees(data: seq<byte>, longer: seq<byte>, pos: nat, hsType: byte, info: HelloInfo)
    requires data <= longer
    ensures ExtensionBlock(data, pos, |data|, hsType, info) == ExtensionBlock(longer, pos, |data|, hsType, info)
    ensures ExtensionBlock(data, pos, |data|, hsType, info).cipherSuites == info.cipherSuites
  {
    hide Extensions;
    SamePrefix(data, longer);
    if pos + 2 <= |data| {
      var extEnd := pos + 2 + U16At(data, pos);
      ExtensionsAgree(data, longer, pos + 2, if extEnd > |data| then |data| else extEnd, hsType, info);
    }
  }

  /** No extension changes the cipher suites. */
  lemma BlockKeepsSuites(data: seq<byte>, pos: nat, recordEnd: nat, hsType: byte, info: HelloInfo)
    requires recordEnd <= |data|
    ensures ExtensionBlock(data, pos, recordEnd, hsType, info).cipherSuites == info.cipherSuites
  {
    hide Extensions;
    if pos + 2 <= recordEnd {
      var extEnd := pos + 2 + U16At(data, pos);
      ExtensionsAgree(data, data, pos + 2, if extEnd > recordEnd then recordEnd else extEnd, hsType, info);
    }
  }

  // ----- Both directions -----

  lemma ClientHelloAgrees(data: seq<byte>, longer: seq<byte>, b: byte, c: byte, hs: nat)
    requires data <= longer && SuitesInside(data, hs) && data[hs] == CLIENT_HELLO
    ensures HelloAt(data, b, hs, |data|) == HelloAt(longer, c, hs, |data|)
  {
    hide CipherSuites, ExtensionBlock;
    SamePrefix(data, longer);
    var pos := HelloStartAt(data, hs).pos;
    var len := U16At(data, pos);
    SuitesAgree(data, longer, b, c, pos + 2, len);
    var info, comp := NO_HELLO.(cipherSuites := CipherSuites(data, b, pos + 2, len)), pos + 2 + len;
    if comp < |data| {
      BlockAgrees(data, longer, comp + 1 + data[comp], CLIENT_HELLO, info);
    } else if comp < |longer| {
      BehindRecord(longer, comp + 1 + longer[comp], |data|, CLIENT_HELLO, info);
    }
  }

  lemma ServerHelloAgrees(data: seq<byte>, longer: seq<byte>, b: byte, c: byte, hs: nat)
    requires data <= longer && SuitesInside(data, hs) && data[hs] == SERVER_HELLO
    ensures HelloAt(data, b, hs, |data|) == HelloAt(longer, c, hs, |data|)
  {
    hide CipherSuites, ExtensionBlock;
    SamePrefix(data, longer);
    var pos := HelloStartAt(data, hs).pos;
    var info := NO_HELLO.(cipherSuites := [U16At(data, pos)]);
    if pos + 3 <= |data| {
      BlockAgrees(data, longer, pos + 3, SERVER_HELLO, info);
    } else {
      BehindRecord(longer, pos + 3, |data|, SERVER_HELLO, info);
    }
  }

  lemma BehindRecord(longer: seq<byte>, pos: nat, recordEnd: nat, hsType: byte, info: HelloInfo)
    requires recordEnd <= |longer| && pos + 2 > recordEnd
    ensures ExtensionBlock(longer, pos, recordEnd, hsType, info) == info
  {
  }

  lemma InsideHelloAgrees(data: seq<byte>, longer: seq<byte>, b: byte, c: byte, hs: nat)
    requires data <= longer && SuitesInside(data, hs)
    ensures HelloAt(data, b, hs, |data|) == HelloAt(longer, c, hs, |data|)
  {
    SamePrefix(data, longer);
    if data[hs] == CLIENT_HELLO {
      ClientHelloAgrees(data, longer, b, c, hs);
    } else if data[hs] == SERVER_HELLO {
      ServerHelloAgrees(data, longer, b, c, hs);
    }
  }

  /** Bytes enough to complete every hello that is cut off before its suites. */
  const ONES: seq<byte> := seq(70000, _ => 1)

  /** A hello without suites gets some from the bytes behind it. */
  lemma CutHelloGetsSuites(data: seq<byte>, b: byte, hs: nat)
    requires hs <= |data| && !SuitesInside(data, hs) && CiphersReadable(data, hs)
    ensures HelloAt(data, b, hs, |data|).cipherSuites == []
    ensures HelloAt(data + ONES, b, hs, |data|).cipherSuites != []
  {
    hide CipherSuites, ExtensionBlock;
    var longer := data + ONES;
    assert forall i :: 0 <= i < |data| ==> longer[i] == data[i];
    assert forall i :: |data| <= i < |longer| ==> longer[i] == 1;
    var pos := HelloStartAt(longer, hs).pos;
    if longer[hs] == CLIENT_HELLO {
      assert U16At(longer, pos) > 0;
      SuitesComeOut(longer, b, hs, |data|);
    } else {
      BlockKeepsSuites(longer, pos + 3, |data|, SERVER_HELLO, NO_HELLO.(cipherSuites := [U16At(longer, pos)]));
    }
  }

  lemma SuitesComeOut(data: seq<byte>, b: byte, hs: nat, recordEnd: nat)
    requires recordEnd <= |data| && CipherListAt(data, hs).Some? && CipherListAt(data, hs).value.0 > 0
    ensures HelloAt(data, b, hs, recordEnd).cipherSuites != []
  {
    hide ExtensionBlock;
    var (len, pos) := CipherListAt(data, hs).value;
    var info, comp := NO_HELLO.(cipherSuites := CipherSuites(data, b, pos, len)), pos + len;
    if comp < |data| {
      BlockKeepsSuites(data, comp + 1 + data[comp], recordEnd, CLIENT_HELLO, info);
    }
  }

  /** The record's content type is not a handshake, or its hello is complete as far as the cipher suites. */
  predicate SelfContained(data: seq<byte>, offset: nat)
    requires offset < |data|
  {
    data[offset] != HANDSHAKE || SuitesInside(data, offset + RECORD_HEADER)
  }

  /** For a buffer that ends with its record: what is decoded from the record is the same whatever follows, in the
      buffer and in memory behind it, if and only if the record is self-contained. */
  lemma RecordIgnoresWhatFollowsIff(data: seq<byte>, offset: nat)
    requires RecordEndAt(data, offset) == Ok(|data|)
    ensures
      (forall more: seq<byte>, b: byte, c: byte :: RecordAt(data + more, b, offset) == RecordAt(data, c, offset))
      <==> SelfContained(data, offset)
  {
    hide HelloAt, SuitesInside, CiphersReadable;
    var hs := offset + RECORD_HEADER;
    if SelfContained(data, offset) {
      forall more: seq<byte>, b: byte, c: byte
        ensures RecordAt(data + more, b, offset) == RecordAt(data, c, offset)
      {
        HeaderStays(data, more, offset);
        if data[offset] == HANDSHAKE {
          InsideHelloAgrees(data, data + more, c, b, hs);
        }
      }
    } else if CiphersReadable(data, hs) {
      HeaderStays(data, ONES, offset);
      CutHelloGetsSuites(data, 0, hs);
      assert RecordAt(data + ONES, 0, offset) != RecordAt(data, 0, offset);
    } else {
      UnreadableHelloDiffers(data, hs, |data|);
      assert data + [] == data;
      assert RecordAt(data + [], 0, offset) != RecordAt(data, 1, offset);
    }
  }

  lemma HeaderStays(data: seq<byte>, more: seq<byte>, offset: nat)
    requires RecordEndAt(data, offset) == Ok(|data|)
    ensures RecordEndAt(data + more, offset) == Ok(|data|)
    ensures (data + more)[offset] == data[offset] && U16At(data + more, offset + 1) == U16At(data, offset + 1)
  {
    var longer := data + more;
    assert forall i :: 0 <= i < |data| ==> longer[i] == data[i];
  }

  /** An input: a record that ends behind its session id length reports no suites when it ends the buffer, and a suite
      made of the next bytes when some follow. */
  lemma SuitesFromTheNextBytes(versionAndRandom: seq<byte>, beyond: byte)
    requires |versionAndRandom| == 34
    ensures
      var data := [22, 3, 1, 0, 39, 1, 0, 0, 35] + versionAndRandom + [0];
      && RecordAt(data, beyond, 0) == Ok(Decoded(TlsRecord(22, 0x0301, NO_HELLO), 44))
      && RecordAt(data + [0, 2, 7, 7], beyond, 0)
         == Ok(Decoded(TlsRecord(22, 0x0301, NO_HELLO.(cipherSuites := [0x0707])), 44))
  {
    hide ExtensionBlock;
    var data: seq<byte> := [22, 3, 1, 0, 39, 1, 0, 0, 35] + versionAndRandom + [0];
    var longer := data + [0, 2, 7, 7];
    assert data[5] == CLIENT_HELLO && data[43] == 0;
    assert HelloStartAt(data, 5) == HelloStart(CLIENT_HELLO, 44);
    assert longer[5] == CLIENT_HELLO && longer[43] == 0 && longer[44] == 0 && longer[45] == 2;
    assert longer[46] == 7 && longer[47] == 7;
    assert HelloStartAt(longer, 5) == HelloStart(CLIENT_HELLO, 44);
    assert longer[0] == 22 && U16At(longer, 1) == 0x0301 && U16At(longer, 3) == 39;
    assert CipherSuites(longer, beyond, 46, 2) == [0x0707] + CipherSuites(longer, beyond, 48, 0);
    assert CipherSuites(longer, beyond, 46, 2) == [0x0707];
    assert CipherListAt(longer, 5) == Some((2, 46)) && |longer| == 48;
  }
}
