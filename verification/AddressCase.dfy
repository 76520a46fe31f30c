/** What an address text may vary in: the case of its digits and leading zeros. */
module AddressCase {
  import opened Common
  import opened Flow
  import opened Address

  /** The same character, or the two cases of one of the letters a to f. */
  predicate Alike(c: char, d: char) {
    || c == d
    || ('a' <= c <= 'f' && c as int - 'a' as int == d as int - 'A' as int)
    || ('a' <= d <= 'f' && d as int - 'a' as int == c as int - 'A' as int)
  }

  predicate AlikeTexts(s: string, t: string) {
    |s| == |t| && forall i :: 0 <= i < |s| ==> Alike(s[i], t[i])
  }

  /** Exactly the digits and the letters a to f in either case have a value below sixteen. */
  lemma DigitsAre(c: char)
    ensures DigitValue(c) < 16 <==> '0' <= c <= '9' || 'a' <= c <= 'f' || 'A' <= c <= 'F'
    ensures '0' <= c <= '9' ==> DigitValue(c) == c as int - '0' as int
    ensures 'a' <= c <= 'f' || 'A' <= c <= 'F' ==> 10 <= DigitValue(c)
    ensures forall d :: Alike(c, d) ==> DigitValue(c) == DigitValue(d)
  {
  }

  lemma {:induction false} AlikeValues(s: string, t: string, base: nat)
    requires AlikeTexts(s, t)
    ensures Value(s, base) == Value(t, base)
  {
    hide DigitValue, Alike;
    if s != "" {
      AlikeValues(Init(s), Init(t), base);
      assert Alike(Last(s), Last(t));
      DigitsAre(Last(s));
    }
  }

  lemma AlikeNumbers(s: string, t: string, base: nat, limit: nat)
    requires AlikeTexts(s, t)
    ensures FromChars(s, base, limit) == FromChars(t, base, limit)
  {
    hide DigitValue, Alike;
    AlikeValues(s, t, base);
    forall i | 0 <= i < |s|
      ensures DigitValue(s[i]) == DigitValue(t[i])
    {
      DigitsAre(s[i]);
    }
  }

  lemma SlicesAlike(s: string, t: string, a: nat, b: nat)
    requires AlikeTexts(s, t) && a <= b <= |s|
    ensures AlikeTexts(s[a..b], t[a..b])
  {
  }

  lemma {:induction false} SeparatorsAlike(s: string, t: string, c: char, from: nat)
    requires AlikeTexts(s, t) && (c == ':' || c == '-' || c == '.')
    ensures FindChar(s, c, from) == FindChar(t, c, from)
    decreases |s| - from
  {
    if from < |s| {
      assert Alike(s[from], t[from]);
      SeparatorsAlike(s, t, c, from + 1);
    }
  }

  lemma SameLength(s: string, t: string)
    requires AlikeTexts(s, t)
    ensures |s| == |t|
  {
  }

  lemma SeparatorAlike(s: string, t: string, i: nat)
    requires AlikeTexts(s, t) && i < |s|
    ensures s[i] == ':' <==> t[i] == ':'
    ensures s[i] == '-' <==> t[i] == '-'
  {
    assert Alike(s[i], t[i]);
  }

  lemma {:induction false} DoubleColonsAlike(s: string, t: string, from: nat)
    requires AlikeTexts(s, t)
    ensures FindDoubleColon(s, from) == FindDoubleColon(t, from)
    decreases |s| - from
  {
    hide AlikeTexts;
    SameLength(s, t);
    if from + 2 <= |s| {
      SeparatorAlike(s, t, from);
      SeparatorAlike(s, t, from + 1);
      DoubleColonsAlike(s, t, from + 1);
    }
  }

  lemma {:induction false} GroupsAlike(s: string, t: string)
    requires AlikeTexts(s, t)
    ensures GroupsFrom(s) == GroupsFrom(t)
    decreases |s|
  {
    hide FromChars, FindChar, AlikeTexts, Prepend;
    SeparatorsAlike(s, t, ':', 0);
    SameLength(s, t);
    if FindChar(s, ':', 0).Some? {
      var i := FindChar(s, ':', 0).value;
      SlicesAlike(s, t, 0, i);
      SlicesAlike(s, t, i + 1, |s|);
      assert s[..i] == s[0..i] && t[..i] == t[0..i] && s[i + 1..] == s[i + 1..|s|] && t[i + 1..] == t[i + 1..|s|];
      AlikeNumbers(s[..i], t[..i], 16, 0xFFFF);
      GroupsAlike(s[i + 1..], t[i + 1..]);
    } else {
      AlikeNumbers(s, t, 16, 0xFFFF);
    }
  }

  lemma PartsAlike(s: string, t: string, a: nat, b: nat)
    requires AlikeTexts(s, t) && a <= b <= |s|
    ensures ParseGroups(s[a..b]) == ParseGroups(t[a..b])
  {
    SlicesAlike(s, t, a, b);
    GroupsAlike(s[a..b], t[a..b]);
    hide GroupsFrom;
  }

  /** Texts that differ only in the case of digits denote the same IPv6 address, or none. */
  lemma IPv6IgnoresCase(s: string, t: string)
    requires AlikeTexts(s, t)
    ensures ParseIPv6(s) == ParseIPv6(t)
  {
    hide AlikeTexts, ParseGroups, FindDoubleColon;
    DoubleColonsAlike(s, t, 0);
    SameLength(s, t);
    if FindDoubleColon(s, 0).Some? {
      var i := FindDoubleColon(s, 0).value;
      PartsAlike(s, t, 0, i);
      PartsAlike(s, t, i + 2, |s|);
      assert s[..i] == s[0..i] && t[..i] == t[0..i] && s[i + 2..] == s[i + 2..|s|] && t[i + 2..] == t[i + 2..|s|];
    } else {
      PartsAlike(s, t, 0, |s|);
      assert s[0..|s|] == s && t[0..|s|] == t;
    }
  }

  /** Likewise for MAC addresses. */
  lemma MacIgnoresCase(s: string, t: string)
    requires AlikeTexts(s, t)
    ensures ParseMac(s) == ParseMac(t)
  {
    hide FromChars;
    if |s| == 17 {
      forall i | 0 <= i < 6
        ensures FromChars(s[3 * i..3 * i + 2], 16, 255) == FromChars(t[3 * i..3 * i + 2], 16, 255)
      {
        SlicesAlike(s, t, 3 * i, 3 * i + 2);
        AlikeNumbers(s[3 * i..3 * i + 2], t[3 * i..3 * i + 2], 16, 255);
      }
      forall i | 0 <= i < 17
        ensures s[i] == ':' <==> t[i] == ':'
        ensures s[i] == '-' <==> t[i] == '-'
      {
        SeparatorAlike(s, t, i);
      }
      hide AlikeTexts;
      MacFromParts(s, t);
    }
  }

  lemma MacFromParts(s: string, t: string)
    requires |s| == |t| == 17
    requires forall i :: 0 <= i < 17 ==> (s[i] == ':' <==> t[i] == ':') && (s[i] == '-' <==> t[i] == '-')
    requires forall i :: 0 <= i < 6 ==>
               FromChars(s[3 * i..3 * i + 2], 16, 255) == FromChars(t[3 * i..3 * i + 2], 16, 255)
    ensures ParseMac(s) == ParseMac(t)
  {
    hide FromChars;
    assert MacShape(s) <==> MacShape(t);
    if MacShape(s) {
      assert ParseMac(s).value == ParseMac(t).value;
    }
  }

  lemma {:induction false} ZeroInFront(s: string, base: nat)
    ensures Value(['0'] + s, base) == Value(s, base)
    decreases |s|
  {
    if s == "" {
      assert ['0'] + s == ['0'] && Init(['0']) == "";
      assert Value("", base) == 0 && Value(['0'], base) == 0;
    } else {
      assert Init(['0'] + s) == ['0'] + Init(s) && Last(['0'] + s) == Last(s);
      ZeroInFront(Init(s), base);
    }
  }

  /** A leading zero changes neither whether a number is accepted nor its value. */
  lemma LeadingZeroIsIgnored(s: string, base: nat, limit: nat)
    requires s != "" && base > 0
    ensures FromChars(['0'] + s, base, limit) == FromChars(s, base, limit)
  {
    ZeroInFront(s, base);
    var t := ['0'] + s;
    assert forall i :: 0 <= i < |s| ==> t[i + 1] == s[i];
    assert DigitValue(t[0]) == 0;
    hide DigitValue, Value;
  }
}
