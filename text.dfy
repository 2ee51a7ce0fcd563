/** Text as the channel handles it: a C++ `std::string` is a sequence of
    8-bit chars, modelled as a Dafny string whose characters all lie below
    256, converted one for one to and from the bytes on the wire; and
    `std::to_string` of an unsigned rank, as decimal digits. */
module Text {
  import opened Wire

  predicate IsOctets(s: string)
  {
    forall i :: 0 <= i < |s| ==> s[i] as int < 256
  }

  /** A `std::string`: every char is one byte. */
  type CString = s: string | IsOctets(s)

  /** The bytes behind `s.data()`. */
  function OctetsOf(s: CString): (b: seq<byte>)
    ensures |b| == |s|
  {
    seq(|s|, i requires 0 <= i < |s| => s[i] as int)
  }

  /** `std::string(buffer, length)`: the chars made of the received bytes. */
  function TextOf(b: seq<byte>): (s: CString)
    ensures |s| == |b|
  {
    seq(|b|, i requires 0 <= i < |b| => b[i] as char)
  }

  lemma TextOfOctets(s: CString)
    ensures TextOf(OctetsOf(s)) == s
  {
    var t := TextOf(OctetsOf(s));
    assert forall i :: 0 <= i < |s| ==> t[i] == s[i];
  }

  lemma OctetsOfText(b: seq<byte>)
    ensures OctetsOf(TextOf(b)) == b
  {
    var c := OctetsOf(TextOf(b));
    assert forall i :: 0 <= i < |b| ==> c[i] == b[i];
  }

  predicate IsDigit(c: char)
  {
    '0' <= c <= '9'
  }

  predicate AllDigits(s: string)
  {
    forall i :: 0 <= i < |s| ==> IsDigit(s[i])
  }

  /** The number of decimal digits `s` starts with. */
  function LeadingDigits(s: string): nat
  {
    if s != [] && IsDigit(s[0]) then 1 + LeadingDigits(s[1..]) else 0
  }

  lemma {:induction false} LeadingDigitsOf(d: string, rest: string)
    requires AllDigits(d) && rest != [] && !IsDigit(rest[0])
    ensures LeadingDigits(d + rest) == |d|
  {
    if d != [] {
      assert (d + rest)[1..] == d[1..] + rest;
      LeadingDigitsOf(d[1..], rest);
    } else {
      assert d + rest == rest;
    }
  }

  function DigitChar(d: nat): (c: char)
    requires d < 10
    ensures IsDigit(c)
  {
    (48 + d) as char
  }

  /** `std::to_string(n)` for an unsigned `n`: its decimal digits, most
      significant first, without leading zeros. */
  function NatToString(n: nat): (s: string)
    ensures |s| >= 1 && AllDigits(s)
    ensures s[0] == '0' ==> n == 0
  {
    if n < 10 then [DigitChar(n)] else NatToString(n / 10) + [DigitChar(n % 10)]
  }

  /** The value of a string of decimal digits. */
  function DigitsValue(s: string): nat
    requires AllDigits(s)
  {
    if s == [] then 0 else 10 * DigitsValue(s[..|s| - 1]) + (s[|s| - 1] as int - 48)
  }

  lemma {:induction false} NatToStringValue(n: nat)
    ensures DigitsValue(NatToString(n)) == n
  {
    if n >= 10 {
      var s := NatToString(n);
      assert s[..|s| - 1] == NatToString(n / 10);
      NatToStringValue(n / 10);
    }
  }

  /** Different ranks print differently. */
  lemma NatToStringInjective(m: nat, n: nat)
    requires NatToString(m) == NatToString(n)
    ensures m == n
  {
    NatToStringValue(m);
    NatToStringValue(n);
  }
}
