/**
 The pieces of java.lang the inventory code leans on, stated over Dafny values:
 nullable references, `String.trim`, ASCII digits (the `\d` of a Java regex)
 and the decimal rendering of an `int` that string concatenation performs.
 */
module JavaLang {

  /** A Java reference that may be null. */
  datatype Nullable<+T> = Null | NonNull(value: T)

  /** `String.trim` removes every leading and trailing character at or below U+0020. */
  predicate IsTrimmable(c: char) {
    c <= ' '
  }

  /** True iff `s.trim().isEmpty()`: every character of s is trimmable. */
  predicate IsBlank(s: string) {
    forall k :: 0 <= k < |s| ==> IsTrimmable(s[k])
  }

  /** Number of leading trimmable characters. */
  function LeadingTrim(s: string): (i: nat)
    ensures i <= |s|
    ensures forall k :: 0 <= k < i ==> IsTrimmable(s[k])
    ensures i < |s| ==> !IsTrimmable(s[i])
  {
    if |s| == 0 then 0
    else if IsTrimmable(s[0]) then 1 + LeadingTrim(s[1..])
    else 0
  }

  /** Length of s once its trailing trimmable characters are dropped. */
  function TrailingTrim(s: string): (j: nat)
    ensures j <= |s|
    ensures forall k :: j <= k < |s| ==> IsTrimmable(s[k])
    ensures 0 < j ==> !IsTrimmable(s[j - 1])
  {
    if |s| == 0 then 0
    else if IsTrimmable(s[|s| - 1]) then TrailingTrim(s[..|s| - 1])
    else |s|
  }

  /** Java's `String.trim()`. */
  function Trim(s: string): (r: string)
    ensures |r| <= |s|
    ensures r == [] <==> IsBlank(s)
    ensures r != [] ==> !IsTrimmable(r[0]) && !IsTrimmable(r[|r| - 1])
    ensures exists i, j :: 0 <= i <= j <= |s| && r == s[i..j]
                          && IsBlank(s[..i]) && IsBlank(s[j..])
  {
    var i := LeadingTrim(s);
    if i == |s| then
      assert s[..i] == s && s[i..] == [];
      s[i..i]
    else
      var j := TrailingTrim(s);
      assert i < j;
      assert IsBlank(s[..i]) && IsBlank(s[j..]);
      s[i..j]
  }

  /** Trimming a trimmed string changes nothing. */
  lemma TrimIdempotent(s: string)
    ensures Trim(Trim(s)) == Trim(s)
  {
    var t := Trim(s);
    if t != [] {
      assert LeadingTrim(t) == 0;
      assert TrailingTrim(t) == |t|;
      assert t[0..|t|] == t;
    }
  }

  /** A string with no trimmable character at either end is its own trim. */
  lemma TrimOfTrimmed(s: string)
    requires s != [] && !IsTrimmable(s[0]) && !IsTrimmable(s[|s| - 1])
    ensures Trim(s) == s
  {
    assert LeadingTrim(s) == 0;
    assert TrailingTrim(s) == |s|;
    assert s[0..|s|] == s;
  }

  /** The `\d` character class of a Java regex (ASCII digits only). */
  predicate IsAsciiDigit(c: char) {
    '0' <= c <= '9'
  }

  predicate AllDigits(s: string) {
    forall k :: 0 <= k < |s| ==> IsAsciiDigit(s[k])
  }

  /** The digit character for d. */
  function DigitChar(d: nat): (c: char)
    requires d < 10
    ensures IsAsciiDigit(c)
    ensures DigitValue(c) == d
  {
    ('0' as int + d) as char
  }

  function DigitValue(c: char): (d: nat)
    requires IsAsciiDigit(c)
    ensures d < 10
  {
    c as int - '0' as int
  }

  /** Decimal digits of n, most significant first, with no leading zero. */
  function NatToString(n: nat): (r: string)
    ensures 1 <= |r|
    ensures AllDigits(r)
    ensures r[0] == '0' ==> n == 0 && |r| == 1
    decreases n
  {
    if n < 10 then [DigitChar(n)]
    else NatToString(n / 10) + [DigitChar(n % 10)]
  }

  /** `String.valueOf(int)`, the rendering `"..." + quantity` performs. */
  function IntToString(n: int): (r: string)
    ensures 1 <= |r|
    ensures n < 0 <==> r[0] == '-'
    ensures n < 0 ==> AllDigits(r[1..])
    ensures 0 <= n ==> AllDigits(r)
    ensures n < 0 ==> 2 <= |r| && r[1] != '0'
    ensures r[0] == '0' ==> n == 0 && |r| == 1
  {
    if n < 0 then "-" + NatToString(-n) else NatToString(n)
  }

  /** The value of a run of decimal digits. */
  function DigitsValue(s: string): nat
    requires AllDigits(s)
  {
    if |s| == 0 then 0
    else 10 * DigitsValue(s[..|s| - 1]) + DigitValue(s[|s| - 1])
  }

  /** The value of an optionally negated run of decimal digits. */
  function DecimalValue(s: string): int
    requires 1 <= |s|
    requires s[0] == '-' ==> AllDigits(s[1..])
    requires s[0] != '-' ==> AllDigits(s)
  {
    if s[0] == '-' then -(DigitsValue(s[1..]) as int) else DigitsValue(s)
  }

  lemma {:induction false} NatToStringRoundTrip(n: nat)
    ensures DigitsValue(NatToString(n)) == n
    decreases n
  {
    var r := NatToString(n);
    if n >= 10 {
      NatToStringRoundTrip(n / 10);
      assert r[..|r| - 1] == NatToString(n / 10);
    }
  }

  /** The decimal rendering of an int reads back as that int. */
  lemma IntToStringRoundTrip(n: int)
    ensures DecimalValue(IntToString(n)) == n
  {
    if n < 0 {
      NatToStringRoundTrip(-n);
      assert IntToString(n)[1..] == NatToString(-n);
    } else {
      NatToStringRoundTrip(n);
    }
  }

  /** Distinct ints have distinct decimal renderings. */
  lemma IntToStringInjective(m: int, n: int)
    requires IntToString(m) == IntToString(n)
    ensures m == n
  {
    IntToStringRoundTrip(m);
    IntToStringRoundTrip(n);
  }
}
