/**
 The two pieces of logic in the SMS screen: the text watcher that keeps the
 phone field formatted as XXX-XXX-XXXX while the user types, and the checks
 `sendSMS` makes before handing a message to the platform.
 */
module SmsActivity {
  import opened JavaLang

  /** `replaceAll("-", "")`: the text with every dash removed. */
  function StripDashes(s: string): (r: string)
    ensures '-' !in r
    ensures |r| <= |s|
    ensures '-' !in s ==> r == s
  {
    if s == [] then []
    else
      (if s[0] == '-' then [] else [s[0]]) + StripDashes(s[1..])
  }

  lemma {:induction false} StripDashesConcat(a: string, b: string)
    ensures StripDashes(a + b) == StripDashes(a) + StripDashes(b)
    decreases |a|
  {
    if a != [] {
      var head := if a[0] == '-' then [] else [a[0]];
      StripDashesConcat(a[1..], b);
      assert (a + b)[0] == a[0];
      assert (a + b)[1..] == a[1..] + b;
      assert StripDashes(a + b) == head + StripDashes(a[1..] + b);
      assert StripDashes(a) == head + StripDashes(a[1..]);
    } else {
      assert a + b == b;
    }
  }

  /**
   Only the dashes go: the result is shorter by the number of dashes, and every
   other character occurs in it exactly as often as in the input.
   */
  lemma {:induction false} StripDashesKeepsOthers(s: string)
    ensures |StripDashes(s)| == |s| - multiset(s)['-']
    ensures forall c :: c != '-' ==> multiset(StripDashes(s))[c] == multiset(s)[c]
  {
    if s != [] {
      StripDashesKeepsOthers(s[1..]);
      assert s == [s[0]] + s[1..];
      assert multiset(s) == multiset{s[0]} + multiset(s[1..]);
    }
  }

  /** Dropping dashes around one dash. */
  lemma StripAroundDash(x: string, y: string)
    ensures StripDashes(x + "-" + y) == StripDashes(x) + StripDashes(y)
  {
    var dash := "-";
    assert StripDashes(dash) == StripDashes(dash[1..]);
    assert dash[1..] == [];
    StripDashesConcat(x + dash, y);
    StripDashesConcat(x, dash);
  }

  /** A slice of dash-free text is dash-free. */
  lemma SliceHasNoDash(d: string, i: nat, j: nat)
    requires '-' !in d
    requires i <= j <= |d|
    ensures '-' !in d[i..j]
  {
    assert forall k :: 0 <= k < j - i ==> d[i..j][k] == d[i + k];
  }

  /**
   The reference layout of dash-free text d: a dash after the 3rd and after the
   6th character, each only when more characters follow it.
   */
  function Dashed(d: string): string {
    if |d| <= 3 then d
    else if |d| <= 6 then d[..3] + "-" + d[3..]
    else d[..3] + "-" + d[3..6] + "-" + d[6..]
  }

  /** What the phone field shows once the watcher has run on `text`. */
  function Format(text: string): string {
    Dashed(StripDashes(text))
  }

  /** `\d{3}-\d{3}-\d{4}` matched against the whole string. */
  predicate MatchesPhonePattern(p: string): (r: bool)
    ensures r <==> |p| == 12 && forall k :: 0 <= k < 12 ==>
                     if k == 3 || k == 7 then p[k] == '-' else IsAsciiDigit(p[k])
  {
    assert |p| == 12 ==> forall k :: 0 <= k < 3 ==> p[..3][k] == p[k];
    assert |p| == 12 ==> forall k :: 4 <= k < 7 ==> p[4..7][k - 4] == p[k];
    assert |p| == 12 ==> forall k :: 8 <= k < 12 ==> p[8..][k - 8] == p[k];
    && |p| == 12
    && AllDigits(p[..3]) && p[3] == '-'
    && AllDigits(p[4..7]) && p[7] == '-'
    && AllDigits(p[8..])
  }

  /** One more character of dash-free input extends the layout by a pending dash, if due, and that character. */
  lemma DashedStep(number: string, k: nat)
    requires k < |number|
    ensures Dashed(number[..k + 1]) == Dashed(number[..k]) + (if k == 3 || k == 6 then "-" else "") + [number[k]]
  {
    var p, q := number[..k], number[..k + 1];
    assert q == p + [number[k]];
    if 3 < k + 1 <= 6 {
      assert q[..3] == p[..3];
      if k > 3 { assert q[3..] == p[3..] + [number[k]]; }
    } else if k + 1 > 6 {
      assert q[..3] == p[..3];
      assert q[3..6] == p[3..6];
      if k > 6 { assert q[6..] == p[6..] + [number[k]]; }
    }
  }

  /**
   `PhoneNumberTextWatcher.afterTextChanged`: strip the dashes, then copy the
   characters back one by one, appending a dash after index 2 and after index
   5 unless that index is the last one.
   */
  method FormatPhoneNumber(text: string) returns (formatted: string)
    ensures formatted == Format(text)
  {
    var number := StripDashes(text);
    var length := |number|;
    formatted := "";
    for i := 0 to length
      invariant formatted == Dashed(number[..i]) + (if (i == 3 || i == 6) && i < length then "-" else "")
    {
      DashedStep(number, i);
      formatted := formatted + [number[i]];
      if (i == 2 || i == 5) && i < length - 1 {
        formatted := formatted + "-";
      }
    }
    assert number[..length] == number;
  }

  /** Removing the dashes from the formatted text gives the input with its dashes removed. */
  lemma FormatKeepsCharacters(text: string)
    ensures StripDashes(Format(text)) == StripDashes(text)
  {
    var d := StripDashes(text);
    if 3 < |d| <= 6 {
      var x, y := d[..3], d[3..];
      SliceHasNoDash(d, 0, 3);
      SliceHasNoDash(d, 3, |d|);
      StripAroundDash(x, y);
      assert x + y == d;
    } else if |d| > 6 {
      var x, y, z := d[..3], d[3..6], d[6..];
      SliceHasNoDash(d, 0, 3);
      SliceHasNoDash(d, 3, 6);
      SliceHasNoDash(d, 6, |d|);
      StripAroundDash(x, y);
      StripAroundDash(x + "-" + y, z);
      assert Dashed(d) == (x + "-" + y) + "-" + z;
      assert x + y + z == d;
    }
  }

  /** With n dash-free input characters, the output has n characters plus one dash past 3 and one past 6. */
  lemma FormatLength(text: string)
    ensures var n := |StripDashes(text)|;
            |Format(text)| == n + (if n > 3 then 1 else 0) + (if n > 6 then 1 else 0)
  {
  }

  /** Dashes sit only at indices 3 and 7, exactly when characters follow them, and never at the end. */
  lemma FormatDashPositions(text: string)
    ensures var f, n := Format(text), |StripDashes(text)|;
            && (forall i :: 0 <= i < |f| && f[i] == '-' ==> i == 3 || i == 7)
            && (n > 3 <==> 3 < |f| && f[3] == '-')
            && (n > 6 <==> 7 < |f| && f[7] == '-')
            && (f != [] ==> f[|f| - 1] != '-')
  {
    var d := StripDashes(text);
    var f := Format(text);
    forall i | 0 <= i < |f| && i != 3 && i != 7
      ensures f[i] != '-'
    {
      var j := if i < 3 then i else if i < 7 then i - 1 else i - 2;
      if |d| <= 3 {
        assert f[i] == d[i];
      } else if |d| <= 6 {
        assert f[i] == d[j];
      } else {
        assert f[i] == d[j];
      }
      assert d[j] in d;
    }
    if |d| > 3 {
      assert f[|f| - 1] == d[|d| - 1];
    } else if d != [] {
      assert f[|f| - 1] == d[|d| - 1];
    }
  }

  /** Formatting what the watcher produced changes nothing: the watcher is idempotent. */
  lemma FormatIdempotent(text: string)
    ensures Format(Format(text)) == Format(text)
  {
    FormatKeepsCharacters(text);
  }

  /** Ten dash-free digits come out as DDD-DDD-DDDD, which the send check accepts. */
  lemma TenDigitsFormatAsPhone(text: string)
    requires |StripDashes(text)| == 10 && AllDigits(StripDashes(text))
    ensures MatchesPhonePattern(Format(text))
  {
    var d := StripDashes(text);
    var f := Format(text);
    assert f == d[..3] + "-" + d[3..6] + "-" + d[6..];
    assert f[..3] == d[..3];
    assert f[4..7] == d[3..6];
    assert f[8..] == d[6..];
  }

  /** A phone that passes the send check is already in the watcher's layout, over ten digits. */
  lemma PhonePatternIsFormatted(p: string)
    requires MatchesPhonePattern(p)
    ensures |StripDashes(p)| == 10 && AllDigits(StripDashes(p))
    ensures Format(p) == p
  {
    var x, y, z := p[..3], p[4..7], p[8..];
    assert p == (x + "-" + y) + "-" + z;
    assert '-' !in x && '-' !in y && '-' !in z by {
      assert forall k :: 0 <= k < |x| ==> IsAsciiDigit(x[k]);
      assert forall k :: 0 <= k < |y| ==> IsAsciiDigit(y[k]);
      assert forall k :: 0 <= k < |z| ==> IsAsciiDigit(z[k]);
    }
    StripAroundDash(x, y);
    StripAroundDash(x + "-" + y, z);
    var d := x + y + z;
    assert StripDashes(p) == d;
    assert d[..3] == x && d[3..6] == y && d[6..] == z;
  }

  /** The outcome of pressing "Send" on the SMS screen. */
  datatype SendDecision =
    | MissingField                                // "Enter both Phone Number and Message"
    | InvalidFormat                               // "Invalid phone number format!"
    | Attempt(phoneNumber: string, message: string)  // sendTextMessage is called with these

  /** The checks of `sendSMS`: both trimmed fields non-empty, then the phone pattern. */
  function SendSms(phoneText: string, messageText: string): (r: SendDecision)
    ensures r == MissingField <==> IsBlank(phoneText) || IsBlank(messageText)
    ensures r.Attempt? <==>
              !IsBlank(phoneText) && !IsBlank(messageText) && MatchesPhonePattern(Trim(phoneText))
    ensures r.Attempt? ==> r.phoneNumber == Trim(phoneText) && r.message == Trim(messageText)
    ensures r.Attempt? ==> r.message != "" && |StripDashes(r.phoneNumber)| == 10
  {
    var phoneNumber := Trim(phoneText);
    var message := Trim(messageText);
    if phoneNumber != "" && message != "" then
      if !MatchesPhonePattern(phoneNumber) then InvalidFormat
      else
        PhonePatternIsFormatted(phoneNumber);
        Attempt(phoneNumber, message)
    else MissingField
  }

  /**
   Whatever the user types, once the watcher has formatted ten digits the
   field is sent as shown, provided the message is not blank.
   */
  lemma TypedTenDigitsAreSent(typed: string, messageText: string)
    requires |StripDashes(typed)| == 10 && AllDigits(StripDashes(typed))
    requires !IsBlank(messageText)
    ensures SendSms(Format(typed), messageText) == Attempt(Format(typed), Trim(messageText))
  {
    var f := Format(typed);
    TenDigitsFormatAsPhone(typed);
    assert IsAsciiDigit(f[0]) && IsAsciiDigit(f[11]);
    TrimOfTrimmed(f);
  }
}
