/** The string operations the scanner relies on: lower-casing header names,
    `str()` of an integer and `", ".join(...)`. */
module Text {

  predicate IsUpperAscii(c: char) {
    'A' <= c <= 'Z'
  }

  /** ASCII lower-casing of one character; every other character is kept. */
  function LowerChar(c: char): (d: char)
    ensures !IsUpperAscii(d)
    ensures IsUpperAscii(c) ==> d as int == c as int + 32
    ensures !IsUpperAscii(c) ==> d == c
  {
    if IsUpperAscii(c) then (c as int + 32) as char else c
  }

  /** `s.lower()` restricted to ASCII letters. */
  function Lower(s: string): (r: string)
    ensures |r| == |s|
    ensures forall i :: 0 <= i < |s| ==> !IsUpperAscii(r[i])
    ensures forall i :: 0 <= i < |s| && IsUpperAscii(s[i]) ==> r[i] as int == s[i] as int + 32
    ensures forall i :: 0 <= i < |s| && !IsUpperAscii(s[i]) ==> r[i] == s[i]
  {
    seq(|s|, i requires 0 <= i < |s| => LowerChar(s[i]))
  }

  /** Two names that differ only in the case of ASCII letters. */
  predicate EqualIgnoringCase(a: string, b: string) {
    Lower(a) == Lower(b)
  }

  /** A string without upper-case ASCII letters is its own lower-case form. */
  lemma LowerFixesLowerCase(s: string)
    requires forall i :: 0 <= i < |s| ==> !IsUpperAscii(s[i])
    ensures Lower(s) == s
  {
  }

  predicate IsDigit(c: char) {
    '0' <= c <= '9'
  }

  predicate AllDigits(s: string) {
    forall i :: 0 <= i < |s| ==> IsDigit(s[i])
  }

  function DigitChar(d: nat): (c: char)
    requires d < 10
    ensures IsDigit(c)
    ensures DigitValue(c) == d
  {
    ('0' as int + d) as char
  }

  function DigitValue(c: char): nat
    requires IsDigit(c)
  {
    c as int - '0' as int
  }

  /** `str(n)` for a natural number: shortest decimal numeral, no sign. */
  function NatToDecimal(n: nat): (s: string)
    ensures |s| >= 1
    ensures AllDigits(s)
    ensures s[0] == '0' ==> n == 0 && s == "0"
    decreases n
  {
    if n < 10 then [DigitChar(n)]
    else NatToDecimal(n / 10) + [DigitChar(n % 10)]
  }

  /** The value of a decimal numeral: the partner of `NatToDecimal`. */
  function DecimalValue(s: string): nat
    requires AllDigits(s)
    decreases |s|
  {
    if |s| == 0 then 0
    else DecimalValue(s[..|s| - 1]) * 10 + DigitValue(s[|s| - 1])
  }

  /** Reading back a rendered natural number gives the number. */
  lemma {:induction false} NatDecimalRoundTrip(n: nat)
    ensures DecimalValue(NatToDecimal(n)) == n
    decreases n
  {
    var s := NatToDecimal(n);
    if n >= 10 {
      assert s[..|s| - 1] == NatToDecimal(n / 10);
      NatDecimalRoundTrip(n / 10);
    }
  }

  /** An optionally signed decimal numeral. */
  predicate IsNumeral(s: string) {
    |s| >= 1 && AllDigits(s[if s[0] == '-' then 1 else 0..])
  }

  /** `str(i)` for any integer: a minus sign before the magnitude when negative. */
  function IntToDecimal(i: int): (s: string)
    ensures IsNumeral(s)
    ensures i < 0 <==> s[0] == '-'
    ensures AllDigits(s[if i < 0 then 1 else 0..])
    ensures |s| >= 2 ==> s[if i < 0 then 1 else 0] != '0'
  {
    if i < 0 then "-" + NatToDecimal(-i) else NatToDecimal(i)
  }

  /** The value of an optionally signed numeral: the partner of `IntToDecimal`. */
  function SignedDecimalValue(s: string): int
    requires IsNumeral(s)
  {
    if s[0] == '-' then 0 - DecimalValue(s[1..]) as int else DecimalValue(s)
  }

  /** Reading back a rendered integer gives the integer, so distinct ports
      are always rendered differently. */
  lemma IntDecimalRoundTrip(i: int)
    ensures SignedDecimalValue(IntToDecimal(i)) == i
  {
    var s := IntToDecimal(i);
    if i < 0 {
      assert s[1..] == NatToDecimal(-i);
      NatDecimalRoundTrip(-i);
    } else {
      NatDecimalRoundTrip(i);
    }
  }

  /** A digit string that does not start with zero has a positive value. */
  lemma {:induction false} LeadingDigitPositive(s: string)
    requires |s| >= 1 && AllDigits(s) && s[0] != '0'
    ensures DecimalValue(s) >= 1
    decreases |s|
  {
    if |s| > 1 {
      LeadingDigitPositive(s[..|s| - 1]);
    }
  }

  /** `NatToDecimal(n)` is the only digit string without a leading zero
      that reads back as `n`. */
  lemma {:induction false} NatDecimalUnique(s: string, n: nat)
    requires |s| >= 1 && AllDigits(s) && (|s| >= 2 ==> s[0] != '0')
    requires DecimalValue(s) == n
    ensures s == NatToDecimal(n)
    decreases |s|
  {
    if |s| >= 2 {
      var t := s[..|s| - 1];
      LeadingDigitPositive(t);
      NatDecimalUnique(t, DecimalValue(t));
      assert n / 10 == DecimalValue(t) && n % 10 == DigitValue(s[|s| - 1]);
      assert s == t + [DigitChar(n % 10)];
    }
  }

  /** The contract of `IntToDecimal` fixes its text: the only numeral that
      reads back as `i`, carries a sign exactly when `i` is negative and has
      no leading zero is `IntToDecimal(i)`. */
  lemma IntDecimalUnique(s: string, i: int)
    requires IsNumeral(s) && (i < 0 <==> s[0] == '-')
    requires |s| >= 2 ==> s[if i < 0 then 1 else 0] != '0'
    requires SignedDecimalValue(s) == i
    ensures s == IntToDecimal(i)
  {
    if i < 0 {
      var d := s[1..];
      assert DecimalValue(d) == -i;
      assert |d| >= 2 ==> d[0] == s[1];
      NatDecimalUnique(d, -i);
      assert s == "-" + d;
    } else {
      assert s[0..] == s;
      NatDecimalUnique(s, i);
    }
  }

  /** `sep.join(parts)`. */
  function Join(sep: string, parts: seq<string>): (r: string)
    ensures |parts| == 0 ==> r == ""
    ensures |parts| > 0 ==> |r| == Offset(sep, parts, |parts| - 1) + |parts[|parts| - 1]|
    decreases |parts|
  {
    if |parts| == 0 then ""
    else if |parts| == 1 then parts[0]
    else parts[0] + sep + Join(sep, parts[1..])
  }

  /** Where `parts[i]` starts in `Join(sep, parts)`: after every earlier part
      and its separator. */
  function Offset(sep: string, parts: seq<string>, i: nat): nat
    requires i < |parts|
    decreases i
  {
    if i == 0 then 0 else |parts[0]| + |sep| + Offset(sep, parts[1..], i - 1)
  }

  /** The joined string is exactly the parts laid end to end with one
      separator between neighbours. */
  lemma {:induction false} JoinLayout(sep: string, parts: seq<string>, i: nat)
    requires i < |parts|
    ensures Offset(sep, parts, i) + |parts[i]| <= |Join(sep, parts)|
    ensures Join(sep, parts)[Offset(sep, parts, i)..Offset(sep, parts, i) + |parts[i]|] == parts[i]
    ensures i + 1 < |parts| ==> Offset(sep, parts, i) + |parts[i]| + |sep| <= |Join(sep, parts)|
    ensures i + 1 < |parts| ==>
      Join(sep, parts)[Offset(sep, parts, i) + |parts[i]|..Offset(sep, parts, i) + |parts[i]| + |sep|] == sep
    decreases i
  {
    if |parts| > 1 {
      var r := Join(sep, parts);
      var tail := Join(sep, parts[1..]);
      var k := |parts[0]| + |sep|;
      assert r == parts[0] + sep + tail;
      if i > 0 {
        JoinLayout(sep, parts[1..], i - 1);
        assert Offset(sep, parts, i) == k + Offset(sep, parts[1..], i - 1);
        assert r[k..] == tail;
      }
    }
  }

  /** `sub` appears in `s` starting at index `k`. */
  predicate OccursAt(sub: string, s: string, k: int) {
    0 <= k && k + |sub| <= |s| && s[k..k + |sub|] == sub
  }

  /** `sub` appears somewhere in `s`. */
  predicate Occurs(sub: string, s: string) {
    exists k :: 0 <= k <= |s| && OccursAt(sub, s, k)
  }

  /** Text found in a string is still found after adding text around it. */
  lemma OccursInContext(sub: string, before: string, s: string, after: string)
    requires Occurs(sub, s)
    ensures Occurs(sub, before + s + after)
  {
    var k :| 0 <= k <= |s| && OccursAt(sub, s, k);
    assert k + |sub| <= |s| && s[k..k + |sub|] == sub;
    var t := before + s + after;
    assert t[|before| + k..|before| + k + |sub|] == s[k..k + |sub|];
    assert OccursAt(sub, t, |before| + k);
  }

  /** Every part appears in the joined text. */
  lemma JoinContainsParts(sep: string, parts: seq<string>)
    ensures forall i :: 0 <= i < |parts| ==> Occurs(parts[i], Join(sep, parts))
  {
    forall i | 0 <= i < |parts|
      ensures Occurs(parts[i], Join(sep, parts))
    {
      JoinLayout(sep, parts, i);
      assert OccursAt(parts[i], Join(sep, parts), Offset(sep, parts, i));
    }
  }

  /** The joined text ends with the last part. */
  lemma JoinEndsWithLast(sep: string, parts: seq<string>)
    requires |parts| > 0 && |parts[|parts| - 1]| > 0
    ensures var r := Join(sep, parts);
      |r| > 0 && r[|r| - 1] == parts[|parts| - 1][|parts[|parts| - 1]| - 1]
  {
    var n := |parts| - 1;
    JoinLayout(sep, parts, n);
    var r := Join(sep, parts);
    var k := Offset(sep, parts, n);
    assert r[k..k + |parts[n]|] == parts[n];
    assert r[|r| - 1] == r[k..k + |parts[n]|][|parts[n]| - 1];
  }

  /** `str` of an integer ends with a digit. */
  lemma DecimalEndsWithDigit(i: int)
    ensures var s := IntToDecimal(i); IsDigit(s[|s| - 1])
  {
    var s := IntToDecimal(i);
    var digits := s[if i < 0 then 1 else 0..];
    assert digits[|digits| - 1] == s[|s| - 1];
  }

  /** `sep.join(map(str, values))` of a non-empty list ends with a digit. */
  lemma JoinedDecimalsEndWithDigit(sep: string, values: seq<int>)
    requires |values| > 0
    ensures var r := Join(sep, seq(|values|, i requires 0 <= i < |values| => IntToDecimal(values[i])));
      |r| > 0 && IsDigit(r[|r| - 1])
  {
    var parts := seq(|values|, i requires 0 <= i < |values| => IntToDecimal(values[i]));
    var n := |values| - 1;
    assert parts[n] == IntToDecimal(values[n]);
    DecimalEndsWithDigit(values[n]);
    JoinEndsWithLast(sep, parts);
  }
}
