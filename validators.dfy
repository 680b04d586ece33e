/**
 * The twelve field validators of the registration form, each a pure
 * function of the field's value (and, for phone and confirm-password, of
 * the one related field) returning the verdict and the exact error text.
 * Names, e-mail and phone are trimmed first; age and passwords are not.
 */
module Validators {
  import opened Wrappers
  import opened Text
  import opened JsNumber
  import opened Tables

  /** A validator's verdict; an invalid verdict carries the message shown under the field. */
  datatype Outcome = Valid | Invalid(message: string)

  // ---------------------------------------------------------------------------
  // First and last name.
  // ---------------------------------------------------------------------------

  /** A name is required and must be at least two characters long once trimmed. */
  function ValidateName(fieldName: string, raw: string): (r: Outcome)
    ensures r.Valid? <==> |Trim(raw)| >= 2
    ensures Trim(raw) == [] ==> r == Invalid(fieldName + " is required")
    ensures |Trim(raw)| == 1 ==> r == Invalid(fieldName + " must be at least 2 characters")
  {
    var value := Trim(raw);
    if value == [] then Invalid(fieldName + " is required")
    else if |value| < 2 then Invalid(fieldName + " must be at least 2 characters")
    else Valid
  }

  function ValidateFirstName(raw: string): (r: Outcome)
    ensures r.Valid? <==> |Trim(raw)| >= 2
  {
    ValidateName("First Name", raw)
  }

  function ValidateLastName(raw: string): (r: Outcome)
    ensures r.Valid? <==> |Trim(raw)| >= 2
  {
    ValidateName("Last Name", raw)
  }

  /** `Jo` is an acceptable first and last name. */
  lemma NameAccepted(name: string)
    requires name == "Jo"
    ensures ValidateFirstName(name).Valid? && ValidateLastName(name).Valid?
  {
    TrimOfUnpadded(name);
  }

  /** Surrounding whitespace never changes a name's verdict. */
  lemma NameIgnoresPadding(fieldName: string, p: string, m: string, q: string)
    requires AllWhitespace(p) && AllWhitespace(q) && Unpadded(m)
    ensures ValidateName(fieldName, p + m + q) == ValidateName(fieldName, m)
  {
    TrimOfPadded(p, m, q);
    TrimOfPadded([], m, []);
    assert [] + m + [] == m;
  }

  // ---------------------------------------------------------------------------
  // E-mail.
  // ---------------------------------------------------------------------------

  /** The class `[^\s@]`. */
  predicate IsEmailChar(c: char) {
    !IsWhitespace(c) && c != '@'
  }

  /**
   * Reference for `/^[^\s@]+@[^\s@]+\.[^\s@]+$/`: an `@` with at least one
   * character before it, a `.` with at least one character on each side
   * after it, and every other character in `[^\s@]`.
   */
  ghost predicate MatchesEmailPattern(v: string) {
    exists at, dot | 0 < at && at + 1 < dot && dot + 1 < |v| ::
      && v[at] == '@' && v[dot] == '.'
      && forall k | 0 <= k < |v| && k != at :: IsEmailChar(v[k])
  }

  /** True when a `.` stands somewhere strictly inside `d`. */
  predicate HasInnerDot(d: string) {
    exists j | 0 < j < |d| - 1 :: d[j] == '.'
  }

  /** The hand-written test: no whitespace, one `@` with text before it, and an inner `.` after it. */
  predicate HasEmailFormat(v: string) {
    && NoWhitespace(v)
    && match IndexOf(v, "@")
       case None => false
       case Some(at) => at > 0 && '@' !in v[at + 1..] && HasInnerDot(v[at + 1..])
  }

  lemma NotAtBeforeFirst(v: string, at: nat, k: nat)
    requires IndexOf(v, "@") == Some(at) && k < at
    ensures v[k] != '@'
  {
    assert !OccursAt(v, "@", k);
    assert v[k..k + 1] == [v[k]];
  }

  lemma EmailFormatMatchesPattern(v: string)
    ensures HasEmailFormat(v) <==> MatchesEmailPattern(v)
  {
    if HasEmailFormat(v) {
      FormatMatchesPattern(v);
    }
    if MatchesEmailPattern(v) {
      PatternHasFormat(v);
    }
  }

  lemma FormatMatchesPattern(v: string)
    requires HasEmailFormat(v)
    ensures MatchesEmailPattern(v)
  {
    var at := IndexOf(v, "@").value;
    assert v[at..at + 1] == "@";
    var d := v[at + 1..];
    var j :| 0 < j < |d| - 1 && d[j] == '.';
    var dot := at + 1 + j;
    FormatCharsAreEmailChars(v, at);
    assert v[at] == '@' && v[dot] == '.';
  }

  lemma FormatCharsAreEmailChars(v: string, at: nat)
    requires HasEmailFormat(v) && IndexOf(v, "@") == Some(at)
    ensures forall k | 0 <= k < |v| && k != at :: IsEmailChar(v[k])
  {
    var d := v[at + 1..];
    forall k | 0 <= k < |v| && k != at ensures IsEmailChar(v[k]) {
      if k < at {
        NotAtBeforeFirst(v, at, k);
      } else {
        assert v[k] == d[k - at - 1];
      }
    }
  }

  lemma PatternHasFormat(v: string)
    requires MatchesEmailPattern(v)
    ensures HasEmailFormat(v)
  {
    var at, dot :| 0 < at && at + 1 < dot && dot + 1 < |v| && v[at] == '@' && v[dot] == '.'
                   && forall k | 0 <= k < |v| && k != at :: IsEmailChar(v[k]);
    OnlyAtIsFirst(v, at);
    var d := v[at + 1..];
    assert d[dot - at - 1] == '.';
    assert '@' !in d by {
      forall i | 0 <= i < |d| ensures d[i] != '@' { assert d[i] == v[at + 1 + i]; }
    }
  }

  /** The only `@` of a string is the one `indexOf` finds, and the string has no whitespace. */
  lemma OnlyAtIsFirst(v: string, at: nat)
    requires at < |v| && v[at] == '@' && forall k | 0 <= k < |v| && k != at :: IsEmailChar(v[k])
    ensures IndexOf(v, "@") == Some(at) && NoWhitespace(v)
  {
    assert OccursAt(v, "@", at) by { assert v[at..at + 1] == [v[at]]; }
    forall k | 0 <= k < at ensures !OccursAt(v, "@", k) {
      assert v[k..k + 1] == [v[k]];
    }
    FirstOccurrence(v, "@", at);
  }

  /** A string with a single `sep` at index `i` splits into the text before and the text after it. */
  lemma SplitAtOnlySeparator(v: string, i: nat, sep: char)
    requires i < |v| && v[i] == sep && sep !in v[..i] && sep !in v[i + 1..]
    ensures Split(v, sep) == [v[..i], v[i + 1..]]
  {
    assert v == v[..i] + [sep] + v[i + 1..];
    SplitAfterPiece(v[..i], v[i + 1..], sep);
    SplitNoSep(v[i + 1..], sep);
  }

  /** `value.split('@')[1]` of a well-formed address: everything after its `@`. */
  function EmailDomain(v: string): (d: string)
    requires HasEmailFormat(v)
    ensures d == v[IndexOf(v, "@").value + 1..]
  {
    var at := IndexOf(v, "@").value;
    assert v[at..at + 1] == "@";
    assert '@' !in v[..at] by {
      forall k | 0 <= k < at ensures v[..at][k] != '@' { NotAtBeforeFirst(v, at, k); }
    }
    SplitAtOnlySeparator(v, at, '@');
    Split(v, '@')[1]
  }

  /** `DISPOSABLE_EMAIL_DOMAINS.some(d => domain.toLowerCase().includes(d))`. */
  predicate IsDisposableDomain(domain: string) {
    exists i | 0 <= i < |DisposableDomains| :: Includes(Lower(domain), DisposableDomains[i])
  }

  /**
   * Reference for an acceptable address: it matches the pattern and, after
   * its `@`, the lower-cased domain contains no disposable entry anywhere.
   */
  ghost predicate AcceptableEmail(v: string) {
    && MatchesEmailPattern(v)
    && forall at | 0 <= at < |v| && v[at] == '@' :: ContainsNoDisposable(v[at + 1..])
  }

  /** No disposable entry occurs at any position of the lower-cased `domain`. */
  ghost predicate ContainsNoDisposable(domain: string) {
    forall i, k | 0 <= i < |DisposableDomains| :: !OccursAt(Lower(domain), DisposableDomains[i], k)
  }

  lemma DisposableMatchesReference(v: string)
    requires HasEmailFormat(v)
    ensures AcceptableEmail(v) <==> !IsDisposableDomain(EmailDomain(v))
  {
    EmailFormatMatchesPattern(v);
    var at := IndexOf(v, "@").value;
    assert v[at..at + 1] == "@";
    var d := EmailDomain(v);
    forall a | 0 <= a < |v| && v[a] == '@' ensures a == at {
      if a < at { NotAtBeforeFirst(v, at, a); }
    }
    forall i | 0 <= i < |DisposableDomains| ensures Includes(Lower(d), DisposableDomains[i]) <==> exists k :: OccursAt(Lower(d), DisposableDomains[i], k) {
      IncludesIffOccurs(Lower(d), DisposableDomains[i]);
    }
  }

  /** Required, well-formed, and not from a disposable domain, checked in that order. */
  function ValidateEmail(raw: string): (r: Outcome)
    ensures r.Valid? <==> AcceptableEmail(Trim(raw))
    ensures Trim(raw) == [] ==> r == Invalid("Email is required")
    ensures Trim(raw) != [] && !MatchesEmailPattern(Trim(raw)) ==> r == Invalid("Please enter a valid email address")
    ensures MatchesEmailPattern(Trim(raw)) && !AcceptableEmail(Trim(raw)) ==> r == Invalid("Disposable email domains are not allowed")
  {
    var value := Trim(raw);
    EmailFormatMatchesPattern(value);
    if value == [] then Invalid("Email is required")
    else if !HasEmailFormat(value) then Invalid("Please enter a valid email address")
    else
      DisposableMatchesReference(value);
      if IsDisposableDomain(EmailDomain(value)) then Invalid("Disposable email domains are not allowed")
      else Valid
  }

  /**
   * An address `local@domain` built from `[^\s@]` characters, with an inner
   * `.` in the domain, is rejected exactly when the domain is disposable.
   */
  lemma EmailOfParts(local: string, domain: string)
    requires local != [] && forall k | 0 <= k < |local| :: IsEmailChar(local[k])
    requires HasInnerDot(domain) && forall k | 0 <= k < |domain| :: IsEmailChar(domain[k])
    ensures IsDisposableDomain(domain) ==> ValidateEmail(local + "@" + domain) == Invalid("Disposable email domains are not allowed")
    ensures !IsDisposableDomain(domain) ==> ValidateEmail(local + "@" + domain) == Valid
  {
    var v := local + "@" + domain;
    UnpaddedOfParts(local, domain);
    TrimOfPadded([], v, []);
    assert [] + v + [] == v;
    EmailFormatOfParts(local, domain);
  }

  /** `test@tempmail.com` is well formed, and rejected for its disposable domain. */
  lemma DisposableAddressRejected(local: string, domain: string)
    requires local == "test" && domain == "tempmail.com"
    ensures ValidateEmail(local + "@" + domain) == Invalid("Disposable email domains are not allowed")
  {
    LocalPartTest(local);
    TempmailShape(domain);
    HostNameFacts(domain);
    assert domain == DisposableDomains[0];
    ListedDomainIsDisposable(0);
    EmailOfParts(local, domain);
  }

  lemma LocalPartTest(local: string)
    requires local == "test"
    ensures local != [] && forall k | 0 <= k < |local| :: IsEmailChar(local[k])
  {}

  lemma TempmailShape(domain: string)
    requires domain == "tempmail.com"
    ensures HasInnerDot(domain) && forall k | 0 <= k < |domain| :: IsHostChar(domain[k])
  {
    assert domain[8] == '.';
  }

  /** A listed domain that is already lower case is disposable: it contains itself. */
  lemma ListedDomainIsDisposable(i: nat)
    requires i < |DisposableDomains| && IsLowerCase(DisposableDomains[i])
    ensures IsDisposableDomain(DisposableDomains[i])
  {
    ContainsItself(DisposableDomains[i]);
  }

  lemma ContainsItself(d: string)
    requires IsLowerCase(d)
    ensures Includes(Lower(d), d)
  {
    LowerOfLowerCase(d);
    assert OccursAt(d, d, 0);
    IncludesIffOccurs(d, d);
  }

  /** Lower-case ASCII letters, digits, `.` and `-`: what the listed domains are made of. */
  predicate IsHostChar(c: char) {
    'a' <= c <= 'z' || IsDigit(c) || c == '.' || c == '-'
  }

  /** A host name of such characters is lower case and made of `[^\s@]` characters. */
  lemma HostNameFacts(d: string)
    requires forall k | 0 <= k < |d| :: IsHostChar(d[k])
    ensures IsLowerCase(d) && forall k | 0 <= k < |d| :: IsEmailChar(d[k])
  {}

  /** An occurrence with none before it is the one `indexOf` finds. */
  lemma FirstOccurrence(s: string, p: string, i: nat)
    requires OccursAt(s, p, i) && forall k | 0 <= k < i :: !OccursAt(s, p, k)
    ensures IndexOf(s, p) == Some(i)
  {
    var r := IndexOf(s, p);
    assert r.Some?;
    assert !(r.value < i) && !(r.value > i);
  }

  lemma UnpaddedOfParts(local: string, domain: string)
    requires local != [] && !IsWhitespace(local[0])
    requires domain != [] && !IsWhitespace(domain[|domain| - 1])
    ensures Unpadded(local + "@" + domain)
  {
    var v := local + "@" + domain;
    assert v[0] == local[0] && v[|v| - 1] == domain[|domain| - 1];
  }

  lemma EmailFormatOfParts(local: string, domain: string)
    requires local != [] && forall k | 0 <= k < |local| :: IsEmailChar(local[k])
    requires HasInnerDot(domain) && forall k | 0 <= k < |domain| :: IsEmailChar(domain[k])
    ensures HasEmailFormat(local + "@" + domain)
    ensures EmailDomain(local + "@" + domain) == domain
  {
    var v := local + "@" + domain;
    var at := |local|;
    assert v[at..at + 1] == "@";
    forall k | 0 <= k < at ensures !OccursAt(v, "@", k) {
      assert v[k..k + 1] == [local[k]];
    }
    FirstOccurrence(v, "@", at);
    assert v[at + 1..] == domain;
    forall k | 0 <= k < |v| ensures !IsWhitespace(v[k]) {
      if k < at { assert v[k] == local[k]; }
      else if k > at { assert v[k] == domain[k - at - 1]; }
    }
  }

  /** Every listed domain has at least ten characters. */
  lemma DisposableLengths()
    ensures forall i | 0 <= i < |DisposableDomains| :: |DisposableDomains[i]| >= 10
  {}

  /** A lower-case domain shorter than every listed entry is not disposable. */
  lemma ShortDomainNotDisposable(domain: string)
    requires IsLowerCase(domain) && |domain| < 10
    ensures !IsDisposableDomain(domain)
  {
    LowerOfLowerCase(domain);
    DisposableLengths();
    forall i | 0 <= i < |DisposableDomains| ensures !Includes(domain, DisposableDomains[i]) {
      IncludesIffOccurs(domain, DisposableDomains[i]);
    }
  }

  /** `a@b.c` is well formed and its domain is not disposable, so it passes. */
  lemma ShortAddressAccepted(local: string, domain: string)
    requires local == "a" && domain == "b.c"
    ensures ValidateEmail(local + "@" + domain) == Valid
  {
    ShortAddressShape(local, domain);
    HostNameFacts(domain);
    ShortDomainNotDisposable(domain);
    EmailOfParts(local, domain);
  }

  lemma ShortAddressShape(local: string, domain: string)
    requires local == "a" && domain == "b.c"
    ensures local != [] && forall k | 0 <= k < |local| :: IsEmailChar(local[k])
    ensures HasInnerDot(domain) && |domain| < 10 && forall k | 0 <= k < |domain| :: IsHostChar(domain[k])
  {
    assert domain[1] == '.';
  }

  /** A lower-case domain is disposable exactly when it contains an entry as it stands. */
  lemma LowerCaseDomainDisposable(domain: string)
    requires IsLowerCase(domain)
    ensures IsDisposableDomain(domain) <==> exists i | 0 <= i < |DisposableDomains| :: Includes(domain, DisposableDomains[i])
  {
    LowerOfLowerCase(domain);
  }

  // ---------------------------------------------------------------------------
  // Phone.
  // ---------------------------------------------------------------------------

  /** `/^\d{lo,hi}$/`. */
  predicate DigitsBetween(s: string, lo: nat, hi: nat) {
    AllDigits(s) && lo <= |s| <= hi
  }

  /** `/^\+?\d{7,15}$/`. */
  predicate IsInternationalNumber(s: string) {
    DigitsBetween(s, 7, 15) || (|s| >= 1 && s[0] == '+' && DigitsBetween(s[1..], 7, 15))
  }

  /** `country && COUNTRY_CODES[country]`: the dial code of the selected country, if it has one. */
  function DialCodeOf(country: string): (code: Option<string>)
    ensures code.Some? <==> country in CountryCodes
    ensures code.Some? ==> code.value == CountryCodes[country]
  {
    DialCodeKeys();
    if country != "" && country in CountryCodes then Some(CountryCodes[country]) else None
  }

  /**
   * With a dial code the trimmed number must start with it and the rest,
   * whitespace removed, be 7 to 12 digits; without one the whitespace-free
   * number must be an optional `+` and 7 to 15 digits.
   */
  function ValidatePhone(raw: string, country: string): (r: Outcome)
    ensures Trim(raw) == [] ==> r == Invalid("Phone Number is required")
    ensures Trim(raw) != [] && DialCodeOf(country).Some? ==>
      var code := DialCodeOf(country).value;
      && (r.Valid? <==> StartsWith(Trim(raw), code) && DigitsBetween(RemoveWhitespace(Trim(raw)[|code|..]), 7, 12))
      && (!StartsWith(Trim(raw), code) ==> r == Invalid("Phone number must start with " + code))
    ensures Trim(raw) != [] && DialCodeOf(country).None? ==>
      (r.Valid? <==> IsInternationalNumber(RemoveWhitespace(Trim(raw))))
    ensures r.Invalid? && Trim(raw) != [] && (DialCodeOf(country).Some? ==> StartsWith(Trim(raw), DialCodeOf(country).value)) ==>
      r.message == "Please enter a valid phone number"
  {
    var value := Trim(raw);
    if value == [] then Invalid("Phone Number is required")
    else match DialCodeOf(country)
      case Some(code) =>
        if !StartsWith(value, code) then Invalid("Phone number must start with " + code)
        else
          ReplacePrefix(value, code);
          if !DigitsBetween(RemoveWhitespace(ReplaceFirst(value, code, "")), 7, 12) then Invalid("Please enter a valid phone number")
          else Valid
      case None =>
        if !IsInternationalNumber(RemoveWhitespace(value)) then Invalid("Please enter a valid phone number")
        else Valid
  }

  /** The country-specific message names the expected dial code. */
  lemma PhonePrefixMessageNamesCode(raw: string, country: string)
    requires Trim(raw) != [] && DialCodeOf(country).Some? && !StartsWith(Trim(raw), DialCodeOf(country).value)
    ensures var m := ValidatePhone(raw, country).message;
      OccursAt(m, DialCodeOf(country).value, |m| - |DialCodeOf(country).value|)
  {
    var code := DialCodeOf(country).value;
    var m := "Phone number must start with " + code;
    assert m[|m| - |code|..] == code;
  }

  lemma DigitsHaveNoWhitespace(s: string)
    requires AllDigits(s)
    ensures NoWhitespace(s)
  {}

  /**
   * A number written as the selected country's dial code followed by
   * digits is accepted exactly when there are 7 to 12 digits.
   */
  lemma PhoneWithDialCode(country: string, code: string, digits: string)
    requires DialCodeOf(country) == Some(code) && AllDigits(digits)
    ensures ValidatePhone(code + digits, country).Valid? <==> 7 <= |digits| <= 12
  {
    DialCodeOfIsDialCode(country);
    CodeThenDigitsUnpadded(code, digits);
    CodeThenDigitsSplits(code, digits);
    DialCodeDigits(code + digits, country, code, digits);
  }

  lemma DialCodeDigits(raw: string, country: string, code: string, digits: string)
    requires DialCodeOf(country) == Some(code) && Trim(raw) != [] && StartsWith(Trim(raw), code)
    requires RemoveWhitespace(Trim(raw)[|code|..]) == digits && AllDigits(digits)
    ensures ValidatePhone(raw, country).Valid? <==> 7 <= |digits| <= 12
  {}

  /** The unpadded number starts with the code, and what follows it is the digits, whitespace-free. */
  lemma CodeThenDigitsSplits(code: string, digits: string)
    requires code != [] && AllDigits(digits) && Trim(code + digits) == code + digits
    ensures Trim(code + digits) != [] && StartsWith(Trim(code + digits), code)
    ensures RemoveWhitespace(Trim(code + digits)[|code|..]) == digits
  {
    var v := code + digits;
    assert v[..|code|] == code;
    assert v[|code|..] == digits;
    DigitsHaveNoWhitespace(digits);
    RemoveWhitespaceSpec(digits);
  }

  /** A dial code followed by digits has no surrounding whitespace. */
  lemma CodeThenDigitsUnpadded(code: string, digits: string)
    requires IsDialCode(code) && AllDigits(digits)
    ensures code != [] && Trim(code + digits) == code + digits
  {
    DialCodeEnds(code);
    var v := code + digits;
    assert v[0] == '+';
    assert v[|v| - 1] == if digits == [] then code[|code| - 1] else digits[|digits| - 1];
    TrimOfUnpadded(v);
  }

  /** Every dial code of the table is a `+` followed by digits. */
  lemma DialCodeOfIsDialCode(country: string)
    requires DialCodeOf(country).Some?
    ensures IsDialCode(DialCodeOf(country).value)
  {
    DialCodesWellFormed();
  }

  /** A dial code starts with `+` and ends with a digit. */
  lemma DialCodeEnds(code: string)
    requires IsDialCode(code)
    ensures |code| >= 2 && code[0] == '+' && IsDigit(code[|code| - 1])
  {
    assert code[|code| - 1] == code[1..][|code| - 2];
  }

  /** With india selected, `+911234567890` passes and `1234567890` is told to start with `+91`. */
  lemma IndiaPhoneExamples(country: string, code: string, digits: string)
    requires country == "india" && code == "+91" && digits == "1234567890"
    ensures ValidatePhone(code + digits, country).Valid?
    ensures ValidatePhone(digits, country) == Invalid("Phone number must start with " + code)
  {
    IndiaDialCode(country, code);
    TenDigits(digits);
    PhoneWithDialCode(country, code, digits);
    PhoneMissingDialCode(country, digits);
  }

  lemma IndiaDialCode(country: string, code: string)
    requires country == "india" && code == "+91"
    ensures DialCodeOf(country) == Some(code)
  {}

  lemma TenDigits(digits: string)
    requires digits == "1234567890"
    ensures digits != [] && AllDigits(digits) && |digits| == 10
  {}

  /** With usa selected, `+1` followed by the seven digits `1234567` passes. */
  lemma UsaPhoneAccepted(country: string, code: string, digits: string)
    requires country == "usa" && code == "+1" && digits == "1234567"
    ensures ValidatePhone(code + digits, country).Valid?
  {
    UsaDialCode(country, code);
    SevenDigits(digits);
    PhoneWithDialCode(country, code, digits);
  }

  lemma UsaDialCode(country: string, code: string)
    requires country == "usa" && code == "+1"
    ensures DialCodeOf(country) == Some(code)
  {}

  lemma SevenDigits(digits: string)
    requires digits == "1234567"
    ensures AllDigits(digits) && |digits| == 7
  {}

  /** For a country with a dial code, a number that starts with a digit names the missing code. */
  lemma PhoneMissingDialCode(country: string, digits: string)
    requires DialCodeOf(country).Some? && digits != [] && AllDigits(digits)
    ensures ValidatePhone(digits, country) == Invalid("Phone number must start with " + DialCodeOf(country).value)
  {
    TrimOfUnpadded(digits);
    DialCodeOfIsDialCode(country);
    DigitDoesNotStartDialCode(DialCodeOf(country).value, digits);
  }

  lemma DigitDoesNotStartDialCode(code: string, digits: string)
    requires IsDialCode(code) && digits != [] && IsDigit(digits[0])
    ensures !StartsWith(digits, code)
  {
    if |code| <= |digits| {
      assert digits[..|code|][0] == digits[0];
    }
  }

  // ---------------------------------------------------------------------------
  // Age (optional).
  // ---------------------------------------------------------------------------

  /** Empty is fine; otherwise `parseInt` must give a number from 1 to 120. The value is not trimmed. */
  function ValidateAge(raw: string): (r: Outcome)
    ensures r.Invalid? ==> r == Invalid("Age must be between 1 and 120")
    ensures raw == [] ==> r.Valid?
    ensures raw != [] ==> (r.Valid? <==> ParseInt(raw).Some? && 1 <= ParseInt(raw).value <= 120)
  {
    if raw == [] then Valid
    else match ParseInt(raw)
      case None => Invalid("Age must be between 1 and 120")
      case Some(age) => if age < 1 || age > 120 then Invalid("Age must be between 1 and 120") else Valid
  }

  /**
   * An age written as a numeral, possibly after whitespace and a sign and
   * before trailing text, is accepted exactly for 1..120 without `-`.
   */
  lemma AgeOfNumeral(ws: string, sign: string, n: nat, tail: string)
    requires AllWhitespace(ws)
    requires sign == "" || sign == "+" || sign == "-"
    requires tail == [] || (!IsDigit(tail[0]) && tail[0] != 'x' && tail[0] != 'X')
    ensures ValidateAge(ws + sign + Decimal(n) + tail).Valid? <==> sign != "-" && 1 <= n <= 120
  {
    ParseIntOfDecimal(ws, sign, n, tail);
  }

  /**
   * Any run of decimal digits, leading zeros included, possibly after
   * whitespace and a sign and before trailing text, is accepted exactly when
   * it is not negated and its value is 1..120, unless it begins `0x`.
   */
  lemma AgeOfDigits(ws: string, sign: string, z: string, tail: string)
    requires AllWhitespace(ws)
    requires sign == "" || sign == "+" || sign == "-"
    requires z != [] && AllDigits(z)
    requires tail == [] || !IsDigit(tail[0])
    requires !HasHexPrefix(z + tail)
    ensures ValidateAge(ws + sign + z + tail).Valid? <==> sign != "-" && 1 <= DigitsValue(z, 10) <= 120
  {
    ParseIntOfDigits(ws, sign, z, tail);
  }

  /**
   * After `0x` or `0X` the age is read in hexadecimal: accepted exactly when
   * some hexadecimal digit follows, there is no `-`, and the value is 1..120.
   */
  lemma AgeOfHex(ws: string, sign: string, x: string, z: string, tail: string)
    requires AllWhitespace(ws)
    requires sign == "" || sign == "+" || sign == "-"
    requires |x| == 2 && HasHexPrefix(x)
    requires AllRadixDigits(z, 16)
    requires tail == [] || !IsRadixDigit(tail[0], 16)
    ensures ValidateAge(ws + sign + x + z + tail).Valid? <==> z != [] && sign != "-" && 1 <= DigitsValue(z, 16) <= 120
  {
    ParseIntOfHex(ws, sign, x, z, tail);
    assert |ws + sign + x + z + tail| >= 2;
  }

  /** `007` reads as 7, `08` as 8, `0x1F` as 31 and `12x` as 12: all four pass. */
  lemma AgeParseExamples(zeros: string, zero8: string, hex: string, xTail: string)
    requires zeros == "007" && zero8 == "08" && hex == "0x1F" && xTail == "12x"
    ensures ParseInt(zeros) == Some(7) && ValidateAge(zeros).Valid?
    ensures ParseInt(zero8) == Some(8) && ValidateAge(zero8).Valid?
    ensures ParseInt(hex) == Some(31) && ValidateAge(hex).Valid?
    ensures ParseInt(xTail) == Some(12) && ValidateAge(xTail).Valid?
  {
    ZeroPaddedShape(zeros, 7);
    ParseIntOfDigits("", "", zeros, "");
    ZeroPaddedShape(zero8, 8);
    ParseIntOfDigits("", "", zero8, "");
    HexShape(hex);
    ParseIntOfHex("", "", "0x", "1F", "");
    XTailShape(xTail);
    ParseIntOfDigits("", "", "12", "x");
  }

  /** The two zero-padded spellings: digits only, no `0x`, with the expected value. */
  lemma ZeroPaddedShape(v: string, n: nat)
    requires (v == "007" && n == 7) || (v == "08" && n == 8)
    ensures v == "" + "" + v + "" && v != [] && AllDigits(v) && !HasHexPrefix(v + "") && DigitsValue(v, 10) == n
  {
    assert v + "" == v;
    if v == "007" {
      assert v == ['0'] + "07" && "07" == ['0'] + "7";
      LeadingZeroIgnored("07", 10);
      LeadingZeroIgnored("7", 10);
    } else {
      assert v == ['0'] + "8";
      LeadingZeroIgnored("8", 10);
    }
  }

  lemma HexShape(v: string)
    requires v == "0x1F"
    ensures v == "" + "" + "0x" + "1F" + "" && |"0x"| == 2 && HasHexPrefix("0x") && DigitsValue("1F", 16) == 31
    ensures AllRadixDigits("1F", 16)
  {}

  lemma XTailShape(v: string)
    requires v == "12x"
    ensures v == "" + "" + "12" + "x" && AllDigits("12") && !HasHexPrefix("12" + "x") && DigitsValue("12", 10) == 12
  {}

  /** `12abc` reads as 12 and passes; 0 and 121 fall just outside the inclusive bounds. */
  lemma AgeExamples(numeral: string, low: string, high: string)
    requires numeral == "12abc" && low == "0" && high == "121"
    ensures ValidateAge(numeral).Valid? && !ValidateAge(low).Valid? && !ValidateAge(high).Valid?
  {
    Spelled(numeral, 12, "abc");
    AgeOfNumeral("", "", 12, "abc");
    Spelled(low, 0, "");
    AgeOfNumeral("", "", 0, "");
    Spelled(high, 121, "");
    AgeOfNumeral("", "", 121, "");
  }

  /** The three spellings the age examples use. */
  lemma Spelled(v: string, n: nat, tail: string)
    requires (v == "12abc" && n == 12 && tail == "abc") || (v == "0" && n == 0 && tail == "") || (v == "121" && n == 121 && tail == "")
    ensures v == "" + "" + Decimal(n) + tail
  {}

  /** A non-empty age with no digit after the optional sign is rejected (`NaN`). */
  lemma AgeWithoutDigits(ws: string, sign: string, rest: string)
    requires AllWhitespace(ws)
    requires sign == "" || sign == "+" || sign == "-"
    requires rest == [] || !IsDigit(rest[0])
    requires sign == "" ==> rest == [] || (!IsWhitespace(rest[0]) && rest[0] != '+' && rest[0] != '-')
    requires ws + sign + rest != []
    ensures ValidateAge(ws + sign + rest) == Invalid("Age must be between 1 and 120")
  {
    ParseIntNaN(ws, sign, rest);
  }

  // ---------------------------------------------------------------------------
  // Gender, country, state, city, passwords, terms.
  // ---------------------------------------------------------------------------

  /** Some radio button of the gender group must be checked. */
  function ValidateGender(choice: Option<string>): (r: Outcome)
    ensures r.Valid? <==> choice.Some?
    ensures r.Invalid? ==> r.message == "Please select a gender"
  {
    if choice.None? then Invalid("Please select a gender") else Valid
  }

  /** A select is filled in when its value is not the placeholder's empty value. */
  function ValidateSelection(fieldName: string, value: string): (r: Outcome)
    ensures r.Valid? <==> value != []
    ensures r.Invalid? ==> r.message == fieldName + " is required"
  {
    if value == [] then Invalid(fieldName + " is required") else Valid
  }

  /** Required and at least eight characters; the value is not trimmed. */
  function ValidatePassword(password: string): (r: Outcome)
    ensures r.Valid? <==> |password| >= 8
    ensures password == [] ==> r == Invalid("Password is required")
    ensures 0 < |password| < 8 ==> r == Invalid("Password must be at least 8 characters")
  {
    if password == [] then Invalid("Password is required")
    else if |password| < 8 then Invalid("Password must be at least 8 characters")
    else Valid
  }

  /** Required, then exactly (case-sensitively, untrimmed) equal to the password. */
  function ValidateConfirmPassword(confirm: string, password: string): (r: Outcome)
    ensures r.Valid? <==> confirm != [] && confirm == password
    ensures confirm == [] ==> r == Invalid("Please confirm your password")
    ensures confirm != [] && confirm != password ==> r == Invalid("Passwords do not match")
  {
    if confirm == [] then Invalid("Please confirm your password")
    else if confirm != password then Invalid("Passwords do not match")
    else Valid
  }

  /** `12345678` is long enough, and confirming it with itself passes. */
  lemma PasswordAccepted(pass: string)
    requires pass == "12345678"
    ensures ValidatePassword(pass).Valid? && ValidateConfirmPassword(pass, pass).Valid?
  {}

  /** The terms box must be checked. */
  function ValidateTerms(agreed: bool): (r: Outcome)
    ensures r.Valid? <==> agreed
    ensures r.Invalid? ==> r.message == "You must agree to the Terms & Conditions"
  {
    if !agreed then Invalid("You must agree to the Terms & Conditions") else Valid
  }
}
