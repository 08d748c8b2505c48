/**
 The checks the registration screen makes before it creates an account
 (`RegisterActivity.registerUser`), and the store call it then makes.
 */
module RegisterActivity {
  import opened JavaLang
  import opened DatabaseHelper
  import DatabaseHelperProperties
  import SmsActivity

  /** `\d{10}` matched against the whole string. */
  predicate IsTenDigitPhone(p: string): (r: bool)
    ensures r ==> !IsBlank(p) && '-' !in p
  {
    assert |p| == 10 && AllDigits(p) ==> !IsTrimmable(p[0]) && forall k :: 0 <= k < |p| ==> p[k] != '-';
    |p| == 10 && AllDigits(p)
  }

  /**
   A phone that passes the registration check is one the SMS screen's watcher
   lays out as DDD-DDD-DDDD over the same ten digits, so the send check accepts it.
   */
  lemma RegisteredPhoneIsSendable(p: string)
    requires IsTenDigitPhone(p)
    ensures SmsActivity.Format(p) == p[..3] + "-" + p[3..6] + "-" + p[6..]
    ensures SmsActivity.MatchesPhonePattern(SmsActivity.Format(p))
    ensures SmsActivity.StripDashes(SmsActivity.Format(p)) == p
  {
    SmsActivity.TenDigitsFormatAsPhone(p);
    SmsActivity.FormatKeepsCharacters(p);
  }

  /** The outcome of pressing "Register". */
  datatype RegisterOutcome =
    | FieldsRequired   // "All fields are required"
    | InvalidPhone     // "Invalid phone number! Enter 10 digits."
    | Registered       // "Registration successful! Please login."
    | UsernameExists   // "Username already exists!"

  /** Some field is empty once trimmed. */
  predicate MissingField(usernameText: string, passwordText: string, phoneText: string) {
    IsBlank(usernameText) || IsBlank(passwordText) || IsBlank(phoneText)
  }

  /**
   `registerUser`: trim the three fields; refuse an empty one, then a phone
   that is not exactly ten ASCII digits, both without touching the store;
   otherwise register the trimmed values through the three-argument overload.
   */
  function SubmitRegistration(s: Store, usernameText: string, passwordText: string, phoneText: string)
    : (r: (Store, RegisterOutcome))
    requires Valid(s)
    ensures Valid(r.0)
    ensures r.1 == FieldsRequired <==> MissingField(usernameText, passwordText, phoneText)
    ensures r.1 == InvalidPhone <==>
              !MissingField(usernameText, passwordText, phoneText) && !IsTenDigitPhone(Trim(phoneText))
    ensures r.1 == Registered <==>
              && !MissingField(usernameText, passwordText, phoneText)
              && IsTenDigitPhone(Trim(phoneText))
              && !UsernameTaken(s.users, Trim(usernameText))
    ensures r.1 != Registered ==> r.0 == s
    ensures r.1 == Registered ==>
              r.0 == RegisterUserWithPhone(s, Trim(usernameText), Trim(passwordText), NonNull(Trim(phoneText))).0
  {
    var username := Trim(usernameText);
    var password := Trim(passwordText);
    var phoneNumber := Trim(phoneText);
    if username == "" || password == "" || phoneNumber == "" then (s, FieldsRequired)
    else if !IsTenDigitPhone(phoneNumber) then (s, InvalidPhone)
    else
      var (s', success) := RegisterUserWithPhone(s, username, password, NonNull(phoneNumber));
      if success then (s', Registered) else (s', UsernameExists)
  }

  /**
   After a successful registration the user logs in with the trimmed
   credentials, with SMS alerts off and the trimmed ten-digit phone on record.
   */
  lemma RegistrationStoresTrimmedFields(s: Store, usernameText: string, passwordText: string, phoneText: string)
    requires Valid(s)
    ensures var (s1, outcome) := SubmitRegistration(s, usernameText, passwordText, phoneText);
            outcome == Registered ==>
              var id := AuthenticateUser(s1, Trim(usernameText), Trim(passwordText));
              && id != NotFound
              && id !in s.users
              && !GetSmsPreference(s1, id)
              && GetUserPhoneNumber(s1, id) == NonNull(Trim(phoneText))
              && IsTenDigitPhone(GetUserPhoneNumber(s1, id).value)
  {
    DatabaseHelperProperties.RegisteredUserDefaults(s, Trim(usernameText), Trim(passwordText), NonNull(Trim(phoneText)));
  }

  /**
   Submitting a second valid form with the same (trimmed) username reports
   that the username exists and leaves the store as the first submission left it.
   */
  lemma SecondSubmissionRejected(s: Store, usernameText: string, passwordText: string, phoneText: string,
                                 usernameText2: string, passwordText2: string, phoneText2: string)
    requires Valid(s)
    requires Trim(usernameText2) == Trim(usernameText)
    requires !MissingField(usernameText2, passwordText2, phoneText2) && IsTenDigitPhone(Trim(phoneText2))
    ensures var (s1, outcome1) := SubmitRegistration(s, usernameText, passwordText, phoneText);
            outcome1 == Registered ==>
              SubmitRegistration(s1, usernameText2, passwordText2, phoneText2) == (s1, UsernameExists)
  {
    var (s1, outcome1) := SubmitRegistration(s, usernameText, passwordText, phoneText);
    if outcome1 == Registered {
      assert s1.users[s.nextUserId].username == Trim(usernameText);
      assert UsernameTaken(s1.users, Trim(usernameText2));
    }
  }
}
