/** The constructors and printers of the address classes. */
module AddressCode {
  import opened Common
  import opened Flow
  import opened Address

  // ----- IPv6 -----

  lemma LastGroup(part: string, gs: seq<u16>, pos: nat)
    requires pos <= |part| && FindChar(part, ':', pos).None?
    ensures
      Prepend(gs, GroupsFrom(part[pos..])) ==
      match FromChars(part[pos..|part|], 16, 0xFFFF)
      case None => None
      case Some(g) => Some(gs + [g])
  {
    hide FromChars;
    FindInRest(part, ':', pos);
    assert part[pos..|part|] == part[pos..];
  }

  lemma GroupInFront(s: string, end: nat)
    requires FindChar(s, ':', 0) == Some(end)
    ensures
      GroupsFrom(s) ==
      match FromChars(s[..end], 16, 0xFFFF)
      case None => None
      case Some(g) => Prepend([g], GroupsFrom(s[end + 1..]))
  {
    hide FromChars, FindChar, Prepend;
  }

  /** One round of the splitting loop. */
  lemma NextGroup(part: string, gs: seq<u16>, pos: nat, end: nat)
    requires pos <= |part| && FindChar(part, ':', pos) == Some(end)
    ensures
      Prepend(gs, GroupsFrom(part[pos..])) ==
      match FromChars(part[pos..end], 16, 0xFFFF)
      case None => None
      case Some(g) => Prepend(gs + [g], GroupsFrom(part[end + 1..]))
  {
    hide FromChars, FindChar;
    FindInRest(part, ':', pos);
    var rest := part[pos..];
    GroupInFront(rest, end - pos);
    assert part[pos..end] == rest[..end - pos] && part[end + 1..] == rest[end - pos + 1..];
    hide GroupsFrom;
    if FromChars(part[pos..end], 16, 0xFFFF).Some? {
      PrependTwice(gs, FromChars(part[pos..end], 16, 0xFFFF).value, GroupsFrom(part[end + 1..]));
    }
  }

  method ParseGroupList(part: string) returns (groups: Option<seq<u16>>)
    ensures groups == ParseGroups(part)
  {
    hide Prepend, GroupsFrom, FromChars;
    if part == "" {
      return Some([]);
    }
    var gs: seq<u16>, pos := [], 0;
    assert part[0..] == part;
    PrependNothing(GroupsFrom(part));
    while pos <= |part|
      invariant pos <= |part| ==> GroupsFrom(part) == Prepend(gs, GroupsFrom(part[pos..]))
      invariant pos > |part| ==> GroupsFrom(part) == Some(gs)
      decreases |part| + 1 - pos
    {
      var colon := FindChar(part, ':', pos);
      var end := if colon.Some? then colon.value else |part|;
      if colon.Some? {
        NextGroup(part, gs, pos, end);
      } else {
        LastGroup(part, gs, pos);
      }
      var group := FromChars(part[pos..end], 16, 0xFFFF);
      if group.None? {
        return None;
      }
      gs := gs + [group.value];
      pos := end + 1;
    }
    return Some(gs);
  }

  /** Write groups from index `idx` on; the other bytes stay. */
  method WriteGroups(bytes: array<byte>, idx: nat, groups: seq<u16>)
    requires bytes.Length == 16 && idx + |groups| <= 8
    modifies bytes
    ensures forall j :: 0 <= j < |groups| ==>
              bytes[2 * (idx + j)] == groups[j] / 256 && bytes[2 * (idx + j) + 1] == groups[j] % 256
    ensures forall k :: 0 <= k < 16 && !(2 * idx <= k < 2 * (idx + |groups|)) ==> bytes[k] == old(bytes[k])
  {
    for i := 0 to |groups|
      invariant forall j :: 0 <= j < i ==>
                  bytes[2 * (idx + j)] == groups[j] / 256 && bytes[2 * (idx + j) + 1] == groups[j] % 256
      invariant forall k :: 0 <= k < 16 && !(2 * idx <= k < 2 * (idx + i)) ==> bytes[k] == old(bytes[k])
    {
      bytes[2 * (idx + i)] := groups[i] / 256;
      bytes[2 * (idx + i) + 1] := groups[i] % 256;
    }
  }

  /** The address bytes: left groups, zeros, right groups. */
  method Layout(left: seq<u16>, zeroFill: nat, right: seq<u16>) returns (r: Bytes16)
    requires |left| + zeroFill + |right| == 8
    ensures r == BytesOf(left + Zeros(zeroFill) + right)
  {
    var bytes := new byte[16](_ => 0);
    WriteGroups(bytes, 0, left);
    WriteGroups(bytes, |left| + zeroFill, right);
    ghost var groups: Groups := left + Zeros(zeroFill) + right;
    forall k | 0 <= k < 16
      ensures bytes[k] == BytesOf(groups)[k]
    {
      var j := k / 2;
      if j < |left| {
        assert groups[j] == left[j] && k == 2 * (0 + j) + k % 2;
      } else if j < |left| + zeroFill {
        assert groups[j] == 0;
      } else {
        var i := j - |left| - zeroFill;
        assert groups[j] == right[i] && k == 2 * (|left| + zeroFill + i) + k % 2;
      }
    }
    assert bytes[..] == BytesOf(groups);
    return bytes[..];
  }

  /** The IPv6 constructor from text; None where it throws. */
  method ParseIPv6Address(str: string) returns (r: Option<Bytes16>)
    ensures r == match ParseIPv6(str) case None => None case Some(groups) => Some(BytesOf(groups))
  {
    hide ParseGroups, BytesOf;
    var dcolon := FindDoubleColon(str, 0);
    var left, right := None, Some([]);
    if dcolon.Some? {
      left := ParseGroupList(str[..dcolon.value]);
      if left.None? {
        return None;
      }
      right := ParseGroupList(str[dcolon.value + 2..]);
    } else {
      left := ParseGroupList(str);
    }
    if left.None? || right.None? {
      return None;
    }
    var totalGroups := |left.value| + |right.value|;
    if (dcolon.Some? && totalGroups > 8) || (dcolon.None? && totalGroups != 8) {
      return None;
    }
    var bytes := Layout(left.value, 8 - totalGroups, right.value);
    if dcolon.None? {
      assert left.value + Zeros(0) + [] == left.value;
    }
    return Some(bytes);
  }

  lemma RunStartsAfter(groups: Groups, s: nat, n: nat, k: nat)
    requires ZeroRun(groups, s, n) && k < s + n && groups[k] != 0
    ensures s > k
  {
  }

  /** The scan for the longest run of zero groups. */
  method FindBestRun(groups: Groups) returns (bestStart: int, bestLen: nat)
    ensures bestLen > 0 ==> bestStart >= 0 && BestRun(groups, bestStart, bestLen)
    ensures bestLen == 0 ==> BestRun(groups, 0, 0)
  {
    bestStart, bestLen := -1, 0;
    var curStart, curLen := -1, 0;
    for i := 0 to 8
      invariant curLen >= 0 && (curLen == 0 <==> curStart == -1) && (curLen > 0 ==> curStart == i - curLen >= 0)
      invariant forall k :: i - curLen <= k < i ==> 0 <= k && groups[k] == 0
      invariant curLen < i ==> groups[i - curLen - 1] != 0
      invariant curLen <= i
      invariant curLen <= bestLen
      invariant bestLen > 0 ==> 0 <= bestStart <= i - bestLen && ZeroRun(groups, bestStart, bestLen)
      invariant forall s: nat, n: nat :: n > 0 && s + n <= i && ZeroRun(groups, s, n) ==>
                  n < bestLen || (n == bestLen && s >= bestStart)
    {
      if groups[i] == 0 {
        if curStart < 0 {
          curStart := i;
        }
        curLen := curLen + 1;
        forall s: nat, n: nat | n > 0 && s + n == i + 1 && ZeroRun(groups, s, n)
          ensures s >= curStart && n <= curLen
        {
          if curStart > 0 {
            RunStartsAfter(groups, s, n, curStart - 1);
          }
        }
        if curLen > bestLen {
          bestStart, bestLen := curStart, curLen;
        }
      } else {
        curStart, curLen := -1, 0;
        forall s: nat, n: nat | n > 0 && s + n == i + 1
          ensures !ZeroRun(groups, s, n)
        {
          assert groups[s + n - 1] != 0;
        }
      }
    }
  }

  /** What the printing loop has written once it has come to group `i`. */
  function Printed(groups: Groups, start: int, len: nat, i: nat): string
    requires i <= 8 && (start >= 0 ==> start + len <= 8)
  {
    if start < 0 || i <= start then Join(groups[..i], 16, ':')
    else if start + len <= i then Join(groups[..start], 16, ':') + DOUBLE_COLON + Join(groups[start + len..i], 16, ':')
    else ""
  }

  lemma JoinNext(groups: Groups, from: nat, i: nat)
    requires from <= i < 8
    ensures Join(groups[from..i + 1], 16, ':')
            == Join(groups[from..i], 16, ':') + (if from < i then ":" else "") + Numeral(groups[i], 16)
  {
    hide Join, Numeral;
    JoinSnoc(groups[from..i], groups[i], 16, ':');
    assert groups[from..i + 1] == groups[from..i] + [groups[i]];
    if from == i {
      JoinOfNone();
      assert groups[i..i] == [];
      assert "" + "" + Numeral(groups[i], 16) == Numeral(groups[i], 16);
    }
  }

  lemma PrintedNext(groups: Groups, start: int, len: nat, i: nat)
    requires i < 8 && (start >= 0 ==> 0 < len && start + len <= 8 && (i < start || start + len <= i))
    ensures Printed(groups, start, len, i + 1)
            == Printed(groups, start, len, i)
               + (if i > 0 && !(start >= 0 && i == start + len) then ":" else "") + Numeral(groups[i], 16)
  {
    hide Join, Numeral;
    if start < 0 || i < start {
      JoinNext(groups, 0, i);
      assert groups[0..i] == groups[..i] && groups[0..i + 1] == groups[..i + 1];
    } else {
      JoinNext(groups, start + len, i);
      var left, right := Join(groups[..start], 16, ':') + DOUBLE_COLON, Join(groups[start + len..i], 16, ':');
      var colon := if start + len < i then ":" else "";
      ConcatAssociates(left, right + colon, Numeral(groups[i], 16));
      ConcatAssociates(left, right, colon);
    }
  }

  lemma JoinOfNone()
    ensures Join([], 16, ':') == ""
  {
  }

  lemma RunInside(groups: Groups, start: nat, len: nat)
    requires BestRun(groups, start, len)
    ensures start + len <= 8
  {
  }

  /** Passing the compressed run. */
  lemma PrintedSkip(groups: Groups, start: nat, len: nat)
    requires 0 < len && start + len <= 8
    ensures Printed(groups, start, len, start + len) == Printed(groups, start, len, start) + DOUBLE_COLON
  {
    hide Join;
    JoinOfNone();
    var end := start + len;
    assert groups[end..end] == [];
    var left := Join(groups[..start], 16, ':') + DOUBLE_COLON;
    assert left + "" == left;
  }

  lemma PrintedWhole(groups: Groups, start: int, len: nat)
    requires start >= 0 ==> 0 < len && start + len <= 8
    ensures Printed(groups, start, len, 8)
            == if start >= 0 then Compressed(groups, start, len) else Join(groups, 16, ':')
  {
    hide Join;
    assert groups[..8] == groups;
    assert start >= 0 ==> groups[start + len..8] == groups[start + len..];
  }

  lemma PrintedNothing(groups: Groups, start: int, len: nat)
    requires start >= 0 ==> 0 < len && start + len <= 8
    ensures Printed(groups, start, len, 0) == ""
  {
    assert groups[..0] == [];
  }

  /** The printing loop. */
  method PrintGroups(groups: Groups, bestStart: int, bestLen: nat) returns (s: string)
    requires bestStart >= 0 ==> 0 < bestLen && bestStart + bestLen <= 8
    ensures s == if bestStart >= 0 then Compressed(groups, bestStart, bestLen) else Join(groups, 16, ':')
  {
    hide Printed, Join;
    PrintedNothing(groups, bestStart, bestLen);
    s := "";
    var i := 0;
    while i < 8
      invariant 0 <= i <= 8
      invariant bestStart >= 0 ==> i <= bestStart || bestStart + bestLen <= i
      invariant s == Printed(groups, bestStart, bestLen, i)
    {
      if bestStart >= 0 && i == bestStart {
        PrintedSkip(groups, bestStart, bestLen);
        s := s + DOUBLE_COLON;
        i := i + bestLen;
        continue;
      }
      PrintedNext(groups, bestStart, bestLen, i);
      if i > 0 && !(bestStart >= 0 && i == bestStart + bestLen) {
        s := s + ":";
      }
      s := s + Numeral(groups[i], 16);
      i := i + 1;
    }
    PrintedWhole(groups, bestStart, bestLen);
  }

  /** IPv6Address::toString. */
  method IPv6ToString(bytes: Bytes16) returns (s: string)
    ensures IsCanonicalText(GroupsOf(bytes), s)
  {
    hide Join, BestRun, GroupsOf;
    var groups := GroupsOf(bytes);
    var bestStart, bestLen := FindBestRun(groups);
    ghost var runStart: nat, runLen := if bestLen > 0 then bestStart else 0, bestLen;
    RunInside(groups, runStart, runLen);
    if bestLen < 2 {
      bestStart := -1;
    }
    s := PrintGroups(groups, bestStart, bestLen);
    assert BestRun(groups, runStart, runLen);
  }

  /** Round trip through the code: printing an address and parsing the text gives the same sixteen bytes. */
  method PrintThenParse(bytes: Bytes16) returns (r: Option<Bytes16>)
    ensures r == Some(bytes)
  {
    var s := IPv6ToString(bytes);
    CanonicalReadsBack(GroupsOf(bytes), s);
    GroupsAndBytes(bytes);
    r := ParseIPv6Address(s);
  }

  /** Any text that is accepted is brought into the one canonical form of its address, and there it stays. */
  method ParseThenPrint(str: string) returns (r: Option<string>)
    ensures r.Some? <==> ParseIPv6(str).Some?
    ensures r.Some? ==> IsCanonicalText(ParseIPv6(str).value, r.value) && ParseIPv6(r.value) == ParseIPv6(str)
    ensures forall groups: Groups :: IsCanonicalText(groups, str) ==> r == Some(str)
  {
    hide ParseIPv6, BytesOf, GroupsOf, IsCanonicalText;
    forall groups: Groups | IsCanonicalText(groups, str)
      ensures ParseIPv6(str) == Some(groups)
    {
      CanonicalReadsBack(groups, str);
    }
    var bytes := ParseIPv6Address(str);
    if bytes.None? {
      return None;
    }
    var groups := ParseIPv6(str).value;
    BytesAndGroups(groups);
    var s := IPv6ToString(bytes.value);
    CanonicalReadsBack(groups, s);
    if IsCanonicalText(groups, str) {
      CanonicalIsBijective(groups, groups, s, str);
    }
    return Some(s);
  }

  // ----- IPv4 -----

  lemma NoOctet(str: string, octets: seq<u16>, pos: nat, i: nat)
    requires pos <= |str| && i < 4
    requires pos == |str| || (i < 3 && FindChar(str, '.', pos).None?)
    ensures Prepend(octets, OctetsFrom(str[pos..], i)) == None
  {
    FindInRest(str, '.', pos);
  }

  lemma LastOctet(str: string, octets: seq<u16>, pos: nat)
    requires pos < |str|
    ensures
      Prepend(octets, OctetsFrom(str[pos..], 3)) ==
      match FromChars(str[pos..|str|], 10, 255)
      case None => None
      case Some(o) => Some(octets + [o])
  {
    hide FromChars;
    assert str[pos..|str|] == str[pos..];
  }

  lemma OctetOfRest(s: string, i: nat, end: nat)
    requires i < 3 && FindChar(s, '.', 0) == Some(end)
    ensures
      OctetsFrom(s, i) ==
      match FromChars(s[..end], 10, 255)
      case None => None
      case Some(o) => Prepend([o], OctetsFrom(s[end + 1..], i + 1))
  {
    hide FromChars, FindChar, Prepend;
  }

  /** One round of the octet loop. */
  lemma NextOctet(str: string, octets: seq<u16>, pos: nat, i: nat, end: nat)
    requires pos < |str| && i < 3 && FindChar(str, '.', pos) == Some(end)
    ensures
      Prepend(octets, OctetsFrom(str[pos..], i)) ==
      match FromChars(str[pos..end], 10, 255)
      case None => None
      case Some(o) => Prepend(octets + [o], OctetsFrom(str[end + 1..], i + 1))
  {
    hide FromChars, FindChar;
    FindInRest(str, '.', pos);
    var rest := str[pos..];
    OctetOfRest(rest, i, end - pos);
    assert str[pos..end] == rest[..end - pos] && str[end + 1..] == rest[end - pos + 1..];
    hide OctetsFrom;
    if FromChars(str[pos..end], 10, 255).Some? {
      var o := FromChars(str[pos..end], 10, 255).value;
      PrependTwice(octets, o, OctetsFrom(str[end + 1..], i + 1));
    }
  }

  /** The IPv4 constructor from text; None where it throws. */
  method ParseIPv4Address(str: string) returns (r: Option<Bytes4>)
    ensures r == OctetsFrom(str, 0)
  {
    hide Prepend, OctetsFrom, FromChars;
    var octets: seq<u16>, pos := [], 0;
    assert str[0..] == str;
    PrependNothing(OctetsFrom(str, 0));
    for i := 0 to 4
      invariant i < 4 ==> pos <= |str| && OctetsFrom(str, 0) == Prepend(octets, OctetsFrom(str[pos..], i))
      invariant i == 4 ==> OctetsFrom(str, 0) == Some(octets)
    {
      if pos >= |str| {
        NoOctet(str, octets, pos, i);
        return None;
      }
      var dot := FindChar(str, '.', pos);
      if i < 3 && dot.None? {
        NoOctet(str, octets, pos, i);
        return None;
      }
      var end := if i == 3 then |str| else dot.value;
      if i == 3 {
        LastOctet(str, octets, pos);
      } else {
        NextOctet(str, octets, pos, i, end);
      }
      var octet := FromChars(str[pos..end], 10, 255);
      if octet.None? {
        return None;
      }
      octets := octets + [octet.value];
      pos := end + 1;
    }
    return Some(octets);
  }

  /** IPv4Address::toString. */
  method IPv4ToString(bytes: Bytes4) returns (s: string)
    ensures s == Join(bytes, 10, '.') && OctetsFrom(s, 0) == Some(bytes)
  {
    s := Numeral(bytes[0], 10) + "." + Numeral(bytes[1], 10) + "."
         + Numeral(bytes[2], 10) + "." + Numeral(bytes[3], 10);
    var b: seq<byte> := bytes;
    assert b == [b[0], b[1], b[2], b[3]];
    JoinSnoc([b[0]], b[1], 10, '.');
    JoinSnoc([b[0], b[1]], b[2], 10, '.');
    JoinSnoc([b[0], b[1], b[2]], b[3], 10, '.');
    assert [b[0]] + [b[1]] == [b[0], b[1]];
    assert [b[0], b[1]] + [b[2]] == [b[0], b[1], b[2]];
    assert [b[0], b[1], b[2]] + [b[3]] == b;
    OctetsReadBack(b, 0);
  }

  // ----- MAC -----

  /** The MAC constructor from text; None where it throws. */
  method ParseMacAddress(str: string) returns (r: Option<Bytes6>)
    ensures r == ParseMac(str)
  {
    if |str| != 17 {
      return None;
    }
    var sep := str[2];
    if sep != ':' && sep != '-' {
      return None;
    }
    var bytes: seq<byte> := [];
    for i := 0 to 6
      invariant |bytes| == i
      invariant forall j :: 0 <= j < i ==>
                  (j > 0 ==> str[3 * j - 1] == sep) && FromChars(str[3 * j..3 * j + 2], 16, 255) == Some(bytes[j])
    {
      var offset := i * 3;
      if i > 0 && str[offset - 1] != sep {
        assert str[3 * i - 1] != str[2];
        return None;
      }
      var val := FromChars(str[offset..offset + 2], 16, 255);
      if val.None? {
        assert FromChars(str[3 * i..3 * i + 2], 16, 255).None?;
        return None;
      }
      bytes := bytes + [val.value];
    }
    assert MacShape(str) && ParseMac(str).value == bytes;
    return Some(bytes);
  }

  /** MacAddress::toString. */
  method MacToString(bytes: Bytes6) returns (s: string)
    ensures s == MacText(bytes, ':') && ParseMac(s) == Some(bytes)
  {
    s := "";
    for i := 0 to 6
      invariant s == MacText(bytes[..i], ':')
    {
      assert Init(bytes[..i + 1]) == bytes[..i];
      if i > 0 {
        s := s + ":";
      }
      s := s + TwoDigits(bytes[i]);
    }
    assert bytes[..6] == bytes;
    MacReadsBack(bytes, ':');
  }
}
