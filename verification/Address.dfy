/** Text forms of IPv4, IPv6 and MAC addresses. */
module Address {
  import opened Common
  import opened Flow

  // ----- Numerals -----

  /** The value of a digit in either case; 16 if the character is none. */
  function DigitValue(c: char): nat {
    if '0' <= c <= '9' then c as int - '0' as int
    else if 'a' <= c <= 'f' then c as int - 'a' as int + 10
    else if 'A' <= c <= 'F' then c as int - 'A' as int + 10
    else 16
  }

  /** Lower-case digits, as printed. */
  function Digit(d: nat): char
    requires d < 16
  {
    if d < 10 then '0' + d as char else 'a' + (d - 10) as char
  }

  predicate IsNumeral(s: string, base: nat) {
    s != "" && forall i :: 0 <= i < |s| ==> DigitValue(s[i]) < base
  }

  function Value(s: string, base: nat): nat {
    if s == "" then 0 else Value(Init(s), base) * base + DigitValue(Last(s))
  }

  /** std::from_chars on a whole string, into a type that holds values up to `limit`. */
  function FromChars(s: string, base: nat, limit: nat): (r: Option<nat>)
    ensures r.Some? ==> r.value <= limit
  {
    if IsNumeral(s, base) && Value(s, base) <= limit then Some(Value(s, base)) else None
  }

  /** The numeral without leading zeros that std::to_string and the hex stream print. */
  function Numeral(n: nat, base: nat): (s: string)
    requires base == 10 || base == 16
    ensures s != ""
    decreases n
  {
    if n < base then [Digit(n)] else Numeral(n / base, base) + [Digit(n % base)]
  }

  lemma DigitReadsBack(d: nat)
    requires d < 16
    ensures DigitValue(Digit(d)) == d && (d > 0 ==> Digit(d) != '0')
  {
  }

  lemma {:induction false} NumeralIsCanonical(n: nat, base: nat)
    requires base == 10 || base == 16
    ensures IsNumeral(Numeral(n, base), base)
    ensures n > 0 ==> Numeral(n, base)[0] != '0'
    decreases n
  {
    hide DigitValue, Digit;
    DigitReadsBack(n % base);
    if n >= base {
      NumeralIsCanonical(n / base, base);
    }
  }

  /** A printed numeral reads back and has no leading zero. */
  lemma {:induction false} NumeralReadsBack(n: nat, base: nat)
    requires base == 10 || base == 16
    ensures IsNumeral(Numeral(n, base), base) && Value(Numeral(n, base), base) == n
    ensures n > 0 ==> Numeral(n, base)[0] != '0'
    decreases n
  {
    hide DigitValue, Digit, IsNumeral;
    NumeralIsCanonical(n, base);
    DigitReadsBack(n % base);
    if n < base {
      assert Value("", base) == 0;
      NumeralSnoc("", Digit(n), base);
      assert "" + [Digit(n)] == [Digit(n)];
    } else {
      NumeralReadsBack(n / base, base);
      NumeralSnoc(Numeral(n / base, base), Digit(n % base), base);
      DivMod(n, base);
    }
  }

  lemma DivMod(n: nat, base: nat)
    requires base == 10 || base == 16
    ensures n / base * base + n % base == n
  {
  }

  lemma NumeralSnoc(s: string, c: char, base: nat)
    ensures Value(s + [c], base) == Value(s, base) * base + DigitValue(c)
  {
    assert Init(s + [c]) == s;
  }

  // ----- Separated lists -----

  function Prepend(items: seq<u16>, rest: Option<seq<u16>>): Option<seq<u16>> {
    match rest
    case None => None
    case Some(more) => Some(items + more)
  }

  lemma PrependNothing(rest: Option<seq<u16>>)
    ensures Prepend([], rest) == rest
  {
    if rest.Some? {
      assert [] + rest.value == rest.value;
    }
  }

  lemma PrependTwice(items: seq<u16>, item: u16, rest: Option<seq<u16>>)
    ensures Prepend(items, Prepend([item], rest)) == Prepend(items + [item], rest)
  {
    if rest.Some? {
      assert items + ([item] + rest.value) == (items + [item]) + rest.value;
    }
  }

  function FindChar(s: string, c: char, from: nat): (r: Option<nat>)
    ensures r.Some? ==> from <= r.value < |s| && s[r.value] == c
    ensures forall i :: from <= i < |s| && (r.Some? ==> i < r.value) ==> s[i] != c
    decreases |s| - from
  {
    if from >= |s| then None
    else if s[from] == c then Some(from)
    else FindChar(s, c, from + 1)
  }

  function Join(groups: seq<u16>, base: nat, separator: char): string
    requires base == 10 || base == 16
  {
    if groups == [] then ""
    else if |groups| == 1 then Numeral(groups[0], base)
    else Numeral(groups[0], base) + [separator] + Join(groups[1..], base, separator)
  }

  lemma NumeralHasNo(n: nat, base: nat, c: char)
    requires (base == 10 || base == 16) && DigitValue(c) == 16
    ensures c !in Numeral(n, base)
  {
    NumeralReadsBack(n, base);
  }

  lemma FindFirst(a: string, c: char, b: string)
    requires c !in a
    ensures FindChar(a + [c] + b, c, 0) == Some(|a|)
  {
    var s := a + [c] + b;
    assert s[|a|] == c;
  }

  lemma {:induction false} FindNone(s: string, c: char, from: nat)
    requires c !in s
    ensures FindChar(s, c, from) == None
    decreases |s| - from
  {
    if from < |s| {
      assert s[from] in s;
      FindNone(s, c, from + 1);
    }
  }

  // ----- IPv6 -----

  type Groups = s: seq<u16> | |s| == 8 witness [0, 0, 0, 0, 0, 0, 0, 0]

  const DOUBLE_COLON := "::"

  function FindDoubleColon(s: string, from: nat): (r: Option<nat>)
    ensures r.Some? ==> from <= r.value && r.value + 2 <= |s| && s[r.value] == ':' && s[r.value + 1] == ':'
    ensures forall i :: from <= i && i + 1 < |s| && (r.Some? ==> i < r.value) ==> !(s[i] == ':' && s[i + 1] == ':')
    decreases |s| - from
  {
    if from + 2 > |s| then None
    else if s[from] == ':' && s[from + 1] == ':' then Some(from)
    else FindDoubleColon(s, from + 1)
  }

  /** Hexadecimal groups separated by single colons; an empty group is an error. */
  function GroupsFrom(s: string): Option<seq<u16>> {
    match FindChar(s, ':', 0)
    case None =>
      (match FromChars(s, 16, 0xFFFF)
       case None => None
       case Some(g) => Some([g]))
    case Some(i) =>
      match FromChars(s[..i], 16, 0xFFFF)
      case None => None
      case Some(g) => Prepend([g], GroupsFrom(s[i + 1..]))
  }

  function ParseGroups(part: string): Option<seq<u16>> {
    if part == "" then Some([]) else GroupsFrom(part)
  }

  function Zeros(n: nat): (r: seq<u16>)
    ensures |r| == n
  {
    seq(n, _ => 0)
  }

  /** The eight groups that a text denotes; None where the constructor throws. */
  function ParseIPv6(s: string): Option<Groups> {
    match FindDoubleColon(s, 0)
    case None =>
      (match ParseGroups(s)
       case Some(left) => if |left| == 8 then Some(left) else None
       case None => None)
    case Some(i) =>
      match (ParseGroups(s[..i]), ParseGroups(s[i + 2..]))
      case (Some(left), Some(right)) =>
        if |left| + |right| > 8 then None
        else Some(left + Zeros(8 - |left| - |right|) + right)
      case _ => None
  }

  predicate ZeroRun(groups: seq<u16>, start: nat, len: nat) {
    start + len <= |groups| && forall i :: start <= i < start + len ==> groups[i] == 0
  }

  /** No zero run is longer, and none as long starts further left. */
  ghost predicate BestRun(groups: seq<u16>, start: nat, len: nat) {
    && ZeroRun(groups, start, len)
    && forall s: nat, n: nat :: n > 0 && ZeroRun(groups, s, n) ==> n < len || (n == len && s >= start)
  }

  /** The text with one run of zeros written as a double colon. */
  function Compressed(groups: seq<u16>, start: nat, len: nat): string
    requires start + len <= |groups|
  {
    Join(groups[..start], 16, ':') + DOUBLE_COLON + Join(groups[start + len..], 16, ':')
  }

  /** RFC 5952: the leftmost longest run of at least two zero groups is compressed, nothing else. */
  ghost predicate IsCanonicalText(groups: Groups, s: string) {
    exists start: nat, len: nat :: BestRun(groups, start, len)
      && s == if len >= 2 then Compressed(groups, start, len) else Join(groups, 16, ':')
  }

  /** Texts of groups neither start nor end with a colon and have no double colon. */
  predicate PlainColons(s: string) {
    && (s != "" ==> s[0] != ':' && Last(s) != ':')
    && forall i :: 0 <= i < |s| - 1 ==> !(s[i] == ':' && s[i + 1] == ':')
  }

  lemma {:induction false} JoinIsPlain(groups: seq<u16>)
    ensures PlainColons(Join(groups, 16, ':')) && (groups != [] ==> Join(groups, 16, ':') != "")
  {
    if groups != [] {
      var head := Numeral(groups[0], 16);
      NumeralHasNo(groups[0], 16, ':');
      assert forall i :: 0 <= i < |head| ==> head[i] in head;
      JoinIsPlain(groups[1..]);
      if |groups| > 1 {
        ConsIsPlain(head, Join(groups[1..], 16, ':'));
      }
    }
  }

  lemma ConsIsPlain(head: string, tail: string)
    requires head != "" && ':' !in head && tail != "" && PlainColons(tail)
    ensures PlainColons(head + [':'] + tail)
  {
    var s := head + [':'] + tail;
    assert s[0] == head[0] && head[0] in head;
    assert Last(s) == Last(tail);
    forall i | 0 <= i < |s| - 1
      ensures !(s[i] == ':' && s[i + 1] == ':')
    {
      if i < |head| {
        assert s[i] == head[i] && head[i] in head;
      } else if i == |head| {
        assert s[i + 1] == tail[0];
      } else {
        assert s[i] == tail[i - |head| - 1] && s[i + 1] == tail[i - |head|];
      }
    }
  }

  lemma GroupThenRest(g: u16, tail: string)
    ensures GroupsFrom(Numeral(g, 16) + [':'] + tail) == Prepend([g], GroupsFrom(tail))
  {
    var head := Numeral(g, 16);
    NumeralReadsBack(g, 16);
    NumeralHasNo(g, 16, ':');
    FindFirst(head, ':', tail);
    var s := head + [':'] + tail;
    assert s[..|head|] == head && s[|head| + 1..] == tail;
    hide Numeral, IsNumeral, Value, FindChar, Prepend;
  }

  lemma LastGroupReadsBack(g: u16)
    ensures GroupsFrom(Numeral(g, 16)) == Some([g])
  {
    NumeralReadsBack(g, 16);
    NumeralHasNo(g, 16, ':');
    FindNone(Numeral(g, 16), ':', 0);
    hide Numeral, IsNumeral, Value, FindChar;
  }

  lemma {:induction false} GroupsReadBack(groups: seq<u16>)
    requires groups != []
    ensures GroupsFrom(Join(groups, 16, ':')) == Some(groups)
  {
    hide GroupsFrom, Numeral;
    if |groups| == 1 {
      assert groups == [groups[0]];
      LastGroupReadsBack(groups[0]);
    } else {
      GroupThenRest(groups[0], Join(groups[1..], 16, ':'));
      GroupsReadBack(groups[1..]);
      assert groups == [groups[0]] + groups[1..];
    }
  }

  lemma DoubleColonFound(left: string, right: string)
    requires PlainColons(left)
    ensures FindDoubleColon(left + DOUBLE_COLON + right, 0) == Some(|left|)
  {
    var s := left + DOUBLE_COLON + right;
    assert s[|left|] == ':' && s[|left| + 1] == ':';
    forall i | 0 <= i < |left|
      ensures !(s[i] == ':' && s[i + 1] == ':')
    {
      assert s[i] == left[i];
      if i == |left| - 1 {
        assert left[i] == Last(left);
      } else {
        assert s[i + 1] == left[i + 1];
      }
    }
  }

  lemma PartReadsBack(groups: seq<u16>)
    ensures ParseGroups(Join(groups, 16, ':')) == Some(groups)
  {
    JoinIsPlain(groups);
    if groups != [] {
      GroupsReadBack(groups);
    }
  }

  /** Compressing any run of zeros is undone by the parser. */
  lemma CompressedReadsBack(groups: Groups, start: nat, len: nat)
    requires ZeroRun(groups, start, len)
    ensures ParseIPv6(Compressed(groups, start, len)) == Some(groups)
  {
    hide Join, PlainColons, ParseGroups;
    var a, b := groups[..start], groups[start + len..];
    var left, right := Join(a, 16, ':'), Join(b, 16, ':');
    var s := Compressed(groups, start, len);
    JoinIsPlain(a);
    DoubleColonFound(left, right);
    assert s[..|left|] == left && s[|left| + 2..] == right;
    PartReadsBack(a);
    PartReadsBack(b);
    assert a + Zeros(len) + b == groups;
  }

  lemma PlainReadsBack(groups: Groups)
    ensures ParseIPv6(Join(groups, 16, ':')) == Some(groups)
  {
    JoinIsPlain(groups);
    GroupsReadBack(groups);
    assert FindDoubleColon(Join(groups, 16, ':'), 0) == None;
  }

  /** Round trip: parsing the printed form of any address gives the address back. */
  lemma CanonicalReadsBack(groups: Groups, s: string)
    requires IsCanonicalText(groups, s)
    ensures ParseIPv6(s) == Some(groups)
  {
    var start: nat, len: nat :| BestRun(groups, start, len)
      && s == if len >= 2 then Compressed(groups, start, len) else Join(groups, 16, ':');
    if len >= 2 {
      CompressedReadsBack(groups, start, len);
    } else {
      PlainReadsBack(groups);
    }
  }

  /** Two addresses never share a printed form, and every address has only one. */
  lemma CanonicalIsBijective(g: Groups, h: Groups, s: string, t: string)
    requires IsCanonicalText(g, s) && IsCanonicalText(h, t)
    ensures s == t <==> g == h
  {
    CanonicalReadsBack(g, s);
    CanonicalReadsBack(h, t);
  }

  /** The eight big-endian groups of sixteen bytes, and back. */
  function GroupsOf(bytes: Bytes16): Groups {
    seq(8, i requires 0 <= i < 8 => bytes[2 * i] as int * 256 + bytes[2 * i + 1])
  }

  function BytesOf(groups: Groups): Bytes16 {
    seq(16, i requires 0 <= i < 16 => if i % 2 == 0 then groups[i / 2] / 256 else groups[i / 2] % 256)
  }

  lemma GroupsAndBytes(bytes: Bytes16)
    ensures BytesOf(GroupsOf(bytes)) == bytes
  {
    forall i | 0 <= i < 16
      ensures BytesOf(GroupsOf(bytes))[i] == bytes[i]
    {
    }
  }

  lemma BytesAndGroups(groups: Groups)
    ensures GroupsOf(BytesOf(groups)) == groups
  {
    forall i | 0 <= i < 8
      ensures GroupsOf(BytesOf(groups))[i] == groups[i]
    {
    }
  }

  lemma {:induction false} JoinSnoc(groups: seq<u16>, g: u16, base: nat, separator: char)
    requires base == 10 || base == 16
    ensures Join(groups + [g], base, separator)
            == if groups == [] then Numeral(g, base) else Join(groups, base, separator) + [separator] + Numeral(g, base)
  {
    if |groups| == 1 {
      assert (groups + [g])[1..] == [g];
    } else if groups != [] {
      assert (groups + [g])[1..] == groups[1..] + [g];
      JoinSnoc(groups[1..], g, base, separator);
    }
  }

  lemma FindInRest(s: string, c: char, from: nat)
    requires from <= |s|
    ensures FindChar(s, c, from) == match FindChar(s[from..], c, 0) case None => None case Some(i) => Some(from + i)
  {
    var rest := s[from..];
    assert forall i :: from <= i < |s| ==> s[i] == rest[i - from];
    assert forall i :: 0 <= i < |rest| ==> rest[i] == s[from + i];
  }

  // ----- IPv4 -----

  /** Decimal octets separated by dots, from octet number `i` on; None where the constructor throws. */
  function OctetsFrom(s: string, i: nat): (r: Option<seq<u16>>)
    requires i < 4
    ensures r.Some? ==> |r.value| == 4 - i && forall k :: 0 <= k < |r.value| ==> r.value[k] <= 255
    decreases 4 - i
  {
    if s == "" then None
    else if i == 3 then
      match FromChars(s, 10, 255)
      case None => None
      case Some(octet) => Some([octet])
    else
      match FindChar(s, '.', 0)
      case None => None
      case Some(dot) =>
        match FromChars(s[..dot], 10, 255)
        case None => None
        case Some(octet) => Prepend([octet], OctetsFrom(s[dot + 1..], i + 1))
  }

  lemma OctetInFront(octet: byte, tail: string, i: nat)
    requires i < 3
    ensures OctetsFrom(Numeral(octet, 10) + ['.'] + tail, i) == Prepend([octet], OctetsFrom(tail, i + 1))
  {
    var head := Numeral(octet, 10);
    NumeralReadsBack(octet, 10);
    NumeralHasNo(octet, 10, '.');
    FindFirst(head, '.', tail);
    var s := head + ['.'] + tail;
    assert s[..|head|] == head && s[|head| + 1..] == tail;
    hide Numeral, IsNumeral, Value, FindChar, Prepend;
  }

  lemma LastOctetReadsBack(octet: byte)
    ensures OctetsFrom(Numeral(octet, 10), 3) == Some([octet])
  {
    NumeralReadsBack(octet, 10);
  }

  lemma {:induction false} OctetsReadBack(bytes: seq<byte>, i: nat)
    requires i < 4 && |bytes| == 4 - i
    ensures OctetsFrom(Join(bytes, 10, '.'), i) == Some(bytes)
    decreases 4 - i
  {
    hide OctetsFrom, Numeral;
    if i == 3 {
      assert bytes == [bytes[0]];
      LastOctetReadsBack(bytes[0]);
    } else {
      OctetInFront(bytes[0], Join(bytes[1..], 10, '.'), i);
      OctetsReadBack(bytes[1..], i + 1);
      var rest: seq<u16> := bytes[1..];
      assert [bytes[0]] + rest == bytes;
    }
  }

  // ----- MAC -----

  type Bytes6 = s: seq<byte> | |s| == 6 witness [0, 0, 0, 0, 0, 0]

  function TwoDigits(b: byte): string {
    [Digit(b / 16), Digit(b % 16)]
  }

  /** Two hexadecimal digits per byte with the given separator. */
  function MacText(bytes: seq<byte>, separator: char): string {
    if bytes == [] then ""
    else if |bytes| == 1 then TwoDigits(bytes[0])
    else MacText(Init(bytes), separator) + [separator] + TwoDigits(Last(bytes))
  }

  predicate MacShape(s: string) {
    && |s| == 17 && (s[2] == ':' || s[2] == '-')
    && forall i :: 0 <= i < 6 ==> (i > 0 ==> s[3 * i - 1] == s[2]) && FromChars(s[3 * i..3 * i + 2], 16, 255).Some?
  }

  /** Six bytes; None where the constructor throws. */
  function ParseMac(s: string): Option<Bytes6> {
    if MacShape(s)
    then Some(seq(6, i requires 0 <= i < 6 => FromChars(s[3 * i..3 * i + 2], 16, 255).value))
    else None
  }

  lemma TwoDigitsReadBack(b: byte)
    ensures FromChars(TwoDigits(b), 16, 255) == Some(b)
  {
    DigitReadsBack(b / 16);
    DigitReadsBack(b % 16);
    hide Digit, DigitValue;
    NumeralSnoc("", Digit(b / 16), 16);
    assert "" + [Digit(b / 16)] == [Digit(b / 16)];
    NumeralSnoc([Digit(b / 16)], Digit(b % 16), 16);
    assert [Digit(b / 16)] + [Digit(b % 16)] == TwoDigits(b);
    assert Value("", 16) == 0 && b / 16 * 16 + b % 16 == b;
  }

  lemma {:induction false} MacTextAt(bytes: seq<byte>, separator: char, i: nat)
    requires i < |bytes|
    ensures |MacText(bytes, separator)| == 3 * |bytes| - 1
    ensures MacText(bytes, separator)[3 * i..3 * i + 2] == TwoDigits(bytes[i])
    ensures i > 0 ==> MacText(bytes, separator)[3 * i - 1] == separator
  {
    if |bytes| > 1 {
      var j := if i < |bytes| - 1 then i else 0;
      MacTextAt(Init(bytes), separator, j);
      var front := MacText(Init(bytes), separator);
      assert |front| == 3 * |bytes| - 4;
      if i < |bytes| - 1 {
        assert MacText(bytes, separator)[3 * i..3 * i + 2] == front[3 * i..3 * i + 2];
      }
    }
  }

  /** Both separators are read back; the printed form uses the colon. */
  lemma MacReadsBack(bytes: Bytes6, separator: char)
    requires separator == ':' || separator == '-'
    ensures ParseMac(MacText(bytes, separator)) == Some(bytes)
  {
    hide MacText, FromChars, TwoDigits;
    var s := MacText(bytes, separator);
    forall i | 0 <= i < 6
      ensures |s| == 17 && s[3 * i..3 * i + 2] == TwoDigits(bytes[i]) && (i > 0 ==> s[3 * i - 1] == separator)
      ensures FromChars(TwoDigits(bytes[i]), 16, 255) == Some(bytes[i])
    {
      MacTextAt(bytes, separator, i);
      TwoDigitsReadBack(bytes[i]);
    }
    assert s[3 * 1 - 1] == separator;
    assert MacShape(s);
    assert ParseMac(s).value == bytes;
  }
}
