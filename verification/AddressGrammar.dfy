/** Which texts are accepted as addresses, and as which: a grammar for each kind, both ways. */
module AddressGrammar {
  import opened Common
  import opened Flow
  import opened Address
  import opened AddressCase

  // ----- Numbers -----

  function ZeroDigits(k: nat): (r: string)
    ensures |r| == k
  {
    seq(k, _ => '0')
  }

  /** The printed numeral behind any number of zeros, its letters in either case. */
  predicate Spells(s: string, n: nat, base: nat)
    requires base == 10 || base == 16
  {
    var digits := Numeral(n, base);
    |digits| <= |s| && AlikeTexts(s, ZeroDigits(|s| - |digits|) + digits)
  }

  lemma {:induction false} ZerosInFront(k: nat, s: string, base: nat, limit: nat)
    requires s != "" && base > 0
    ensures FromChars(ZeroDigits(k) + s, base, limit) == FromChars(s, base, limit)
  {
    hide FromChars;
    if k == 0 {
      assert ZeroDigits(0) + s == s;
    } else {
      ZerosInFront(k - 1, s, base, limit);
      LeadingZeroIsIgnored(ZeroDigits(k - 1) + s, base, limit);
      assert ZeroDigits(k) + s == ['0'] + (ZeroDigits(k - 1) + s);
    }
  }

  lemma DigitSpelled(c: char)
    requires DigitValue(c) < 16
    ensures Alike(c, Digit(DigitValue(c)))
  {
  }

  lemma AlikeSnoc(s: string, t: string, c: char, d: char)
    requires AlikeTexts(s, t) && Alike(c, d)
    ensures AlikeTexts(s + [c], t + [d])
  {
    hide Alike;
  }

  lemma FirstDigit(c: char, base: nat)
    requires (base == 10 || base == 16) && DigitValue(c) < base
    ensures Spells([c], DigitValue(c), base)
  {
    hide DigitValue, Digit, Alike, AlikeTexts;
    var d := DigitValue(c);
    DigitSpelled(c);
    NothingAlike();
    AlikeSnoc("", "", c, Digit(d));
    assert "" + [c] == [c] && "" + [Digit(d)] == Numeral(d, base) == ZeroDigits(0) + Numeral(d, base);
  }

  lemma OneMoreDigit(s: string, v: nat, c: char, base: nat)
    requires (base == 10 || base == 16) && Spells(s, v, base) && DigitValue(c) < base
    ensures Spells(s + [c], v * base + DigitValue(c), base)
  {
    hide DigitValue, Digit, Alike, AlikeTexts, Numeral;
    var d, k := DigitValue(c), |s| - |Numeral(v, base)|;
    DigitSpelled(c);
    AlikeSnoc(s, ZeroDigits(k) + Numeral(v, base), c, Digit(d));
    NumeralGrows(v, d, base);
    NumeralGrows(0, d, base);
    if v > 0 {
      assert ZeroDigits(k) + Numeral(v, base) + [Digit(d)] == ZeroDigits(k) + Numeral(v * base + d, base);
    } else {
      ZeroIsPrinted(base);
      assert ZeroDigits(k) + "0" + [Digit(d)] == ZeroDigits(k + 1) + [Digit(d)];
    }
  }

  /** The value of any numeral is spelled by it. */
  lemma {:induction false} NumeralSpells(s: string, base: nat)
    requires (base == 10 || base == 16) && IsNumeral(s, base)
    ensures Spells(s, Value(s, base), base)
  {
    hide DigitValue, Spells;
    if |s| == 1 {
      assert s == [s[0]] && Value("", base) == 0;
      FirstDigit(s[0], base);
    } else {
      NumeralSpells(Init(s), base);
      OneMoreDigit(Init(s), Value(Init(s), base), Last(s), base);
      assert s == Init(s) + [Last(s)];
    }
  }

  lemma NothingAlike()
    ensures AlikeTexts("", "")
  {
  }

  lemma ZeroIsPrinted(base: nat)
    requires base == 10 || base == 16
    ensures Numeral(0, base) == "0"
  {
  }

  lemma NumeralGrows(v: nat, d: nat, base: nat)
    requires (base == 10 || base == 16) && d < base
    ensures Numeral(v * base + d, base) == if v > 0 then Numeral(v, base) + [Digit(d)] else [Digit(d)]
  {
    assert (v * base + d) / base == v && (v * base + d) % base == d;
  }

  /** A number is read from a text if and only if it is in range and the text spells it. */
  lemma NumberIsReadIff(s: string, base: nat, limit: nat, n: nat)
    requires base == 10 || base == 16
    ensures FromChars(s, base, limit) == Some(n) <==> n <= limit && Spells(s, n, base)
  {
    hide AlikeTexts, Value, IsNumeral;
    if FromChars(s, base, limit) == Some(n) {
      NumeralSpells(s, base);
    }
    if n <= limit && Spells(s, n, base) {
      var k := |s| - |Numeral(n, base)|;
      AlikeNumbers(s, ZeroDigits(k) + Numeral(n, base), base, limit);
      ZerosInFront(k, Numeral(n, base), base, limit);
      NumeralReadsBack(n, base);
    }
  }

  lemma SpelledIsPlain(s: string, n: nat, base: nat, c: char)
    requires (base == 10 || base == 16) && Spells(s, n, base) && DigitValue(c) == 16
    ensures s != "" && c !in s
  {
    hide Spells, DigitValue;
    NumberIsReadIff(s, base, n, n);
    hide Value;
  }

  // ----- Lists of numbers -----

  /** The texts with a separator between each two. */
  function Separated(parts: seq<string>, separator: char): string {
    if parts == [] then ""
    else if |parts| == 1 then parts[0]
    else parts[0] + [separator] + Separated(parts[1..], separator)
  }

  predicate SpellsAll(parts: seq<string>, ns: seq<u16>, base: nat)
    requires base == 10 || base == 16
  {
    |parts| == |ns| && forall i :: 0 <= i < |parts| ==> Spells(parts[i], ns[i], base)
  }

  /** The text is the numbers spelled in order, with a separator between each two. */
  ghost predicate ListOf(s: string, ns: seq<u16>, base: nat, separator: char)
    requires base == 10 || base == 16
  {
    exists parts :: SpellsAll(parts, ns, base) && s == Separated(parts, separator)
  }

  lemma OneSpelled(s: string, n: u16, base: nat, separator: char)
    requires (base == 10 || base == 16) && Spells(s, n, base)
    ensures ListOf(s, [n], base, separator)
  {
    hide Spells;
    assert SpellsAll([s], [n], base) && s == Separated([s], separator);
  }

  lemma OneMoreSpelled(head: string, n: u16, tail: string, ns: seq<u16>, base: nat, separator: char)
    requires (base == 10 || base == 16) && Spells(head, n, base) && ns != [] && ListOf(tail, ns, base, separator)
    ensures ListOf(head + [separator] + tail, [n] + ns, base, separator)
  {
    hide Spells;
    var parts :| SpellsAll(parts, ns, base) && tail == Separated(parts, separator);
    var all := [head] + parts;
    assert all[1..] == parts;
    assert SpellsAll(all, [n] + ns, base) && head + [separator] + tail == Separated(all, separator);
  }

  /** Takes a list apart again. */
  lemma FirstSpelled(s: string, ns: seq<u16>, base: nat, separator: char) returns (head: string, tail: string)
    requires (base == 10 || base == 16) && ns != [] && ListOf(s, ns, base, separator) && DigitValue(separator) == 16
    ensures Spells(head, ns[0], base) && head != "" && separator !in head
    ensures |ns| == 1 ==> s == head
    ensures |ns| > 1 ==> s == head + [separator] + tail && ListOf(tail, ns[1..], base, separator)
  {
    hide Spells, DigitValue;
    var parts :| SpellsAll(parts, ns, base) && s == Separated(parts, separator);
    head := parts[0];
    tail := Separated(parts[1..], separator);
    SpelledIsPlain(head, ns[0], base, separator);
    assert SpellsAll(parts[1..], ns[1..], base);
  }

  lemma {:induction false} GroupsAreRead(s: string, groups: seq<u16>)
    requires groups != [] && ListOf(s, groups, 16, ':')
    ensures GroupsFrom(s) == Some(groups)
    decreases |groups|
  {
    hide Spells, ListOf, FromChars, FindChar;
    var head, tail := FirstSpelled(s, groups, 16, ':');
    NumberIsReadIff(head, 16, 0xFFFF, groups[0]);
    if |groups| == 1 {
      FindNone(s, ':', 0);
      assert groups == [groups[0]];
    } else {
      FindFirst(head, ':', tail);
      assert s[..|head|] == head && s[|head| + 1..] == tail;
      GroupsAreRead(tail, groups[1..]);
      assert groups == [groups[0]] + groups[1..];
    }
  }

  lemma {:induction false} ReadGroupsAreSpelled(s: string)
    requires GroupsFrom(s).Some?
    ensures GroupsFrom(s).value != [] && ListOf(s, GroupsFrom(s).value, 16, ':')
    decreases |s|
  {
    hide Spells, ListOf, FromChars;
    match FindChar(s, ':', 0)
    case None =>
      var g := FromChars(s, 16, 0xFFFF).value;
      SpelledGroup(s, g);
      OneSpelled(s, g, 16, ':');
    case Some(i) =>
      var g := FromChars(s[..i], 16, 0xFFFF).value;
      ReadGroupsAreSpelled(s[i + 1..]);
      SpelledGroup(s[..i], g);
      OneMoreSpelled(s[..i], g, s[i + 1..], GroupsFrom(s[i + 1..]).value, 16, ':');
      assert s == s[..i] + [':'] + s[i + 1..];
  }

  lemma SpelledGroup(s: string, g: u16)
    requires FromChars(s, 16, 0xFFFF) == Some(g)
    ensures Spells(s, g, 16)
  {
    NumberIsReadIff(s, 16, 0xFFFF, g);
    hide Spells;
  }

  /** Groups are read from a part of an IPv6 text if and only if it lists them; the empty text lists none. */
  lemma PartIsReadIff(s: string, groups: seq<u16>)
    ensures ParseGroups(s) == Some(groups) <==> ListOf(s, groups, 16, ':')
  {
    hide Spells;
    if groups == [] {
      assert SpellsAll([], [], 16);
      hide GroupsFrom;
      if s != "" && ParseGroups(s).Some? {
        ReadGroupsAreSpelled(s);
      }
    } else {
      if ListOf(s, groups, 16, ':') {
        var head, tail := FirstSpelled(s, groups, 16, ':');
        GroupsAreRead(s, groups);
      }
      if ParseGroups(s) == Some(groups) {
        ReadGroupsAreSpelled(s);
      }
    }
  }

  // ----- IPv6 -----

  /** Eight groups, or a double colon in place of the zeros that are missing, with any number of groups around it. */
  ghost predicate IPv6Text(s: string, groups: Groups) {
    || ListOf(s, groups, 16, ':')
    || exists left: string, right: string, start: nat, len: nat :: Shortened(s, groups, left, right, start, len)
  }

  ghost predicate Shortened(s: string, groups: Groups, left: string, right: string, start: nat, len: nat) {
    && s == left + "::" + right
    && ZeroRun(groups, start, len)
    && ListOf(left, groups[..start], 16, ':') && ListOf(right, groups[start + len..], 16, ':')
  }

  lemma {:induction false} ListIsPlain(s: string, groups: seq<u16>)
    requires ListOf(s, groups, 16, ':')
    ensures PlainColons(s) && (groups != [] ==> s != "")
    decreases |groups|
  {
    if groups != [] {
      hide Spells, ListOf;
      var head, tail := FirstSpelled(s, groups, 16, ':');
      assert forall i :: 0 <= i < |head| ==> head[i] in head;
      if |groups| > 1 {
        ListIsPlain(tail, groups[1..]);
        ConsIsPlain(head, tail);
      }
    }
  }

  /** The IPv6 constructor accepts exactly the texts of the grammar, each as the address it denotes. */
  lemma IPv6IsReadIff(s: string, groups: Groups)
    ensures ParseIPv6(s) == Some(groups) <==> IPv6Text(s, groups)
  {
    if ParseIPv6(s) == Some(groups) {
      ReadIPv6IsSpelled(s);
    }
    if IPv6Text(s, groups) {
      SpelledIPv6IsRead(s, groups);
    }
    hide ParseIPv6, IPv6Text;
  }

  lemma ReadIPv6IsSpelled(s: string)
    requires ParseIPv6(s).Some?
    ensures IPv6Text(s, ParseIPv6(s).value)
  {
    hide ListOf, ParseGroups;
    var groups := ParseIPv6(s).value;
    match FindDoubleColon(s, 0)
    case None => PartIsReadIff(s, groups);
    case Some(i) =>
      var left, right := ParseGroups(s[..i]).value, ParseGroups(s[i + 2..]).value;
      var len := 8 - |left| - |right|;
      assert s == s[..i] + "::" + s[i + 2..];
      assert groups[..|left|] == left && groups[|left| + len..] == right;
      PartIsReadIff(s[..i], left);
      PartIsReadIff(s[i + 2..], right);
      assert Shortened(s, groups, s[..i], s[i + 2..], |left|, len);
  }

  lemma SpelledIPv6IsRead(s: string, groups: Groups)
    requires IPv6Text(s, groups)
    ensures ParseIPv6(s) == Some(groups)
  {
    hide ListOf, ParseGroups, PlainColons;
    if ListOf(s, groups, 16, ':') {
      PartIsReadIff(s, groups);
      ListHasNoDoubleColon(s, groups);
    } else {
      var left: string, right: string, start: nat, len: nat :| Shortened(s, groups, left, right, start, len);
      var a, b := groups[..start], groups[start + len..];
      PartIsReadIff(left, a);
      PartIsReadIff(right, b);
      ListIsPlain(left, a);
      DoubleColonFound(left, right);
      assert s[..|left|] == left && s[|left| + 2..] == right;
      assert a + Zeros(len) + b == groups;
    }
  }

  lemma ListHasNoDoubleColon(s: string, groups: seq<u16>)
    requires ListOf(s, groups, 16, ':')
    ensures FindDoubleColon(s, 0) == None
  {
    ListIsPlain(s, groups);
    hide ListOf;
  }

  // ----- IPv4 -----

  lemma {:induction false} OctetsAreRead(s: string, bytes: seq<byte>, i: nat)
    requires i < 4 && |bytes| == 4 - i && ListOf(s, bytes, 10, '.')
    ensures OctetsFrom(s, i) == Some(bytes)
    decreases |bytes|
  {
    hide Spells, ListOf, FromChars, FindChar;
    var head, tail := FirstSpelled(s, bytes, 10, '.');
    NumberIsReadIff(head, 10, 255, bytes[0]);
    if i == 3 {
      assert bytes == [bytes[0]];
    } else {
      FindFirst(head, '.', tail);
      assert s[..|head|] == head && s[|head| + 1..] == tail;
      OctetsAreRead(tail, bytes[1..], i + 1);
      assert bytes == [bytes[0]] + bytes[1..];
    }
  }

  lemma {:induction false} ReadOctetsAreSpelled(s: string, i: nat)
    requires i < 4 && OctetsFrom(s, i).Some?
    ensures ListOf(s, OctetsFrom(s, i).value, 10, '.')
    decreases 4 - i
  {
    hide Spells, ListOf, FromChars;
    if i == 3 {
      var o := FromChars(s, 10, 255).value;
      NumberIsReadIff(s, 10, 255, o);
      OneSpelled(s, o, 10, '.');
    } else {
      var dot := FindChar(s, '.', 0).value;
      var o := FromChars(s[..dot], 10, 255).value;
      NumberIsReadIff(s[..dot], 10, 255, o);
      ReadOctetsAreSpelled(s[dot + 1..], i + 1);
      OneMoreSpelled(s[..dot], o, s[dot + 1..], OctetsFrom(s[dot + 1..], i + 1).value, 10, '.');
      assert s == s[..dot] + ['.'] + s[dot + 1..];
    }
  }

  /** The IPv4 constructor accepts exactly four numerals up to 255 between dots, leading zeros included. */
  lemma IPv4IsReadIff(s: string, bytes: Bytes4)
    ensures OctetsFrom(s, 0) == Some(bytes) <==> ListOf(s, bytes, 10, '.')
  {
    if ListOf(s, bytes, 10, '.') {
      OctetsAreRead(s, bytes, 0);
    }
    if OctetsFrom(s, 0) == Some(bytes) {
      ReadOctetsAreSpelled(s, 0);
    }
    hide ListOf, OctetsFrom;
  }

  // ----- MAC -----

  lemma TwoCharsSpell(s: string, b: byte)
    requires |s| == 2
    ensures FromChars(s, 16, 255) == Some(b) <==> AlikeTexts(s, TwoDigits(b))
  {
    hide AlikeTexts;
    if AlikeTexts(s, TwoDigits(b)) {
      AlikeNumbers(s, TwoDigits(b), 16, 255);
      TwoDigitsReadBack(b);
    }
    if FromChars(s, 16, 255) == Some(b) {
      NumberIsReadIff(s, 16, 255, b);
      NumeralOfByte(b);
    }
    hide FromChars, TwoDigits;
  }

  lemma NumeralOfByte(b: byte)
    ensures |Numeral(b, 16)| <= 2
    ensures ZeroDigits(2 - |Numeral(b, 16)|) + Numeral(b, 16) == TwoDigits(b)
  {
    NumeralGrows(b / 16, b % 16, 16);
    assert b / 16 * 16 + b % 16 == b;
    if b >= 16 {
      assert Numeral(b / 16, 16) == [Digit(b / 16)];
    }
  }

  /** The MAC constructor accepts exactly the printed text of an address, with colons or with dashes throughout and its
      letters in either case. */
  lemma MacIsReadIff(s: string, bytes: Bytes6)
    ensures ParseMac(s) == Some(bytes)
            <==> AlikeTexts(s, MacText(bytes, ':')) || AlikeTexts(s, MacText(bytes, '-'))
  {
    hide AlikeTexts, MacText;
    if AlikeTexts(s, MacText(bytes, ':')) {
      MacIgnoresCase(s, MacText(bytes, ':'));
      MacReadsBack(bytes, ':');
    } else if AlikeTexts(s, MacText(bytes, '-')) {
      MacIgnoresCase(s, MacText(bytes, '-'));
      MacReadsBack(bytes, '-');
    } else if ParseMac(s) == Some(bytes) {
      ReadMacIsSpelled(s, bytes);
    }
  }

  lemma ReadMacIsSpelled(s: string, bytes: Bytes6)
    requires ParseMac(s) == Some(bytes)
    ensures AlikeTexts(s, MacText(bytes, s[2]))
  {
    hide FromChars, MacText, TwoDigits, Alike;
    var t := MacText(bytes, s[2]);
    MacTextAt(bytes, s[2], 0);
    forall i | 0 <= i < 17
      ensures Alike(s[i], t[i])
    {
      var k := i / 3;
      MacTextAt(bytes, s[2], k);
      assert FromChars(s[3 * k..3 * k + 2], 16, 255) == Some(bytes[k]);
      TwoCharsSpell(s[3 * k..3 * k + 2], bytes[k]);
      if i % 3 == 2 {
        MacTextAt(bytes, s[2], k + 1);
        assert i == 3 * (k + 1) - 1;
        AlikeItself(s[i]);
      } else {
        assert s[i] == s[3 * k..3 * k + 2][i - 3 * k] && t[i] == t[3 * k..3 * k + 2][i - 3 * k];
      }
    }
  }

  lemma AlikeItself(c: char)
    ensures Alike(c, c)
  {
  }

  // ----- The printed form -----

  lemma CanonicalIs(groups: Groups, start: nat, len: nat, s: string)
    requires BestRun(groups, start, len)
    ensures IsCanonicalText(groups, s)
            <==> s == if len >= 2 then Compressed(groups, start, len) else Join(groups, 16, ':')
  {
    var t := if len >= 2 then Compressed(groups, start, len) else Join(groups, 16, ':');
    assert IsCanonicalText(groups, t);
    hide IsCanonicalText, Compressed, Join, BestRun;
    if IsCanonicalText(groups, s) {
      CanonicalIsBijective(groups, groups, s, t);
    }
  }

  lemma NumeralsOfExamples()
    ensures Numeral(0x2001, 16) == "2001" && Numeral(0xDB8, 16) == "db8"
    ensures Numeral(0, 16) == "0" && Numeral(1, 16) == "1"
  {
    NumeralGrows(0x200, 1, 16);
    NumeralGrows(0x20, 0, 16);
    NumeralGrows(2, 0, 16);
    NumeralGrows(0, 2, 16);
    NumeralGrows(0xDB, 8, 16);
    NumeralGrows(0xD, 0xB, 16);
    NumeralGrows(0, 0xD, 16);
  }

  /** Of two zero runs that are equally long the first is compressed (section 4.2.3 of RFC 5952). */
  lemma FirstOfEqualRuns(s: string)
    ensures IsCanonicalText([0x2001, 0xDB8, 0, 0, 1, 0, 0, 1], s) <==> s == "2001:db8::1:0:0:1"
  {
    hide IsCanonicalText, BestRun, Join;
    var groups: Groups := [0x2001, 0xDB8, 0, 0, 1, 0, 0, 1];
    ExampleRuns(groups);
    CanonicalIs(groups, 2, 2, s);
    assert groups[..2] == [0x2001, 0xDB8] && groups[4..] == [1, 0, 0, 1];
    ExampleText();
  }

  lemma RunAvoids(groups: Groups, s: nat, n: nat, k: nat)
    requires ZeroRun(groups, s, n) && k < 8 && groups[k] != 0
    ensures k < s || s + n <= k
  {
  }

  lemma ExampleRuns(groups: Groups)
    requires groups == [0x2001, 0xDB8, 0, 0, 1, 0, 0, 1]
    ensures BestRun(groups, 2, 2)
  {
    forall s: nat, n: nat | n > 0 && ZeroRun(groups, s, n)
      ensures n <= 2 && s >= 2
    {
      RunAvoids(groups, s, n, 0);
      RunAvoids(groups, s, n, 1);
      RunAvoids(groups, s, n, 4);
      RunAvoids(groups, s, n, 7);
    }
  }

  lemma ExampleText()
    ensures Join([0x2001, 0xDB8], 16, ':') == "2001:db8" && Join([1, 0, 0, 1], 16, ':') == "1:0:0:1"
  {
    hide Numeral;
    NumeralsOfExamples();
    JoinSnoc([0x2001], 0xDB8, 16, ':');
    assert [0x2001] + [0xDB8] == [0x2001, 0xDB8];
    JoinSnoc([1], 0, 16, ':');
    assert [1] + [0] == [1, 0];
    JoinSnoc([1, 0], 0, 16, ':');
    assert [1, 0] + [0] == [1, 0, 0];
    JoinSnoc([1, 0, 0], 1, 16, ':');
    assert [1, 0, 0] + [1] == [1, 0, 0, 1];
  }
}
