/** The two input validators of the authentication service: the password rule
    (a minimum length plus `PASSWORD_REGEX`) and the e-mail shape check. */
module Validation {
  import opened JsText

  const PasswordMinLength: nat := 8

  const LengthError := "Password must be at least 8 characters long"
  const ComplexityError :=
    "Password must contain at least one uppercase letter, one lowercase letter, one number, and one special character"

  predicate IsAsciiDigit(c: char) { '0' <= c <= '9' }

  /** The symbol set `[@$!%*?&]` of the password rule. */
  predicate IsPasswordSymbol(c: char) {
    c == '@' || c == '$' || c == '!' || c == '%' || c == '*' || c == '?' || c == '&'
  }

  /** The four look-aheads of `PASSWORD_REGEX`, each demanding one kind of character. */
  datatype CharClass = Lower | Upper | Digit | Symbol

  predicate InClass(k: CharClass, c: char) {
    match k
    case Lower => IsAsciiLower(c)
    case Upper => IsAsciiUpper(c)
    case Digit => IsAsciiDigit(c)
    case Symbol => IsPasswordSymbol(c)
  }

  /** The class `[A-Za-z\d@$!%*?&]` the first character must belong to. */
  predicate InLeadingClass(c: char) {
    IsAsciiLower(c) || IsAsciiUpper(c) || IsAsciiDigit(c) || IsPasswordSymbol(c)
  }

  /** The text a `.*` anchored at position 0 can span: everything before the first
      line terminator. */
  function FirstLine(s: string): (r: string)
    ensures |r| <= |s| && r == s[..|r|]
    ensures forall i :: 0 <= i < |r| ==> !IsLineTerminator(r[i])
    ensures |r| < |s| ==> IsLineTerminator(s[|r|])
  {
    if s == [] || IsLineTerminator(s[0]) then [] else [s[0]] + FirstLine(s[1..])
  }

  predicate ContainsClass(line: string, k: CharClass) {
    exists i :: 0 <= i < |line| && InClass(k, line[i])
  }

  /** `PASSWORD_REGEX.test(s)` for
      `/^(?=.*[a-z])(?=.*[A-Z])(?=.*\d)(?=.*[@$!%*?&])[A-Za-z\d@$!%*?&]/`:
      no `$`, so only the first character is constrained beyond the look-aheads. */
  predicate MatchesPasswordRegex(s: string) {
    var line := FirstLine(s);
    && ContainsClass(line, Lower)
    && ContainsClass(line, Upper)
    && ContainsClass(line, Digit)
    && ContainsClass(line, Symbol)
    && |s| > 0 && InLeadingClass(s[0])
  }

  /** What `(?=.*X)` at position 0 means in the regular-expression semantics:
      some character of class X with no line terminator before it. */
  ghost predicate LookaheadAtStart(s: string, k: CharClass) {
    exists i :: 0 <= i < |s| && InClass(k, s[i]) && forall j :: 0 <= j < i ==> !IsLineTerminator(s[j])
  }

  ghost predicate PasswordRegexSemantics(s: string) {
    && LookaheadAtStart(s, Lower)
    && LookaheadAtStart(s, Upper)
    && LookaheadAtStart(s, Digit)
    && LookaheadAtStart(s, Symbol)
    && |s| > 0 && InLeadingClass(s[0])
  }

  lemma LookaheadViaFirstLine(s: string, k: CharClass)
    ensures ContainsClass(FirstLine(s), k) <==> LookaheadAtStart(s, k)
  {
    var line := FirstLine(s);
    if ContainsClass(line, k) {
      var i :| 0 <= i < |line| && InClass(k, line[i]);
      assert s[i] == line[i];
      assert forall j :: 0 <= j < i ==> !IsLineTerminator(s[j]) by {
        forall j | 0 <= j < i ensures !IsLineTerminator(s[j]) {
          assert s[j] == line[j];
        }
      }
    }
    if LookaheadAtStart(s, k) {
      var i :| 0 <= i < |s| && InClass(k, s[i]) && forall j :: 0 <= j < i ==> !IsLineTerminator(s[j]);
      assert i < |line| by {
        if |line| < |s| {
          assert IsLineTerminator(s[|line|]);
        }
      }
      assert line[i] == s[i];
    }
  }

  /** A string without line terminators is its own first line. */
  lemma FirstLineOfSingleLine(s: string)
    requires forall i :: 0 <= i < |s| ==> !IsLineTerminator(s[i])
    ensures FirstLine(s) == s
  {
  }

  /** The scan over the first line decides exactly the regular expression. */
  lemma {:induction false} PasswordRegexCorrect(s: string)
    ensures MatchesPasswordRegex(s) <==> PasswordRegexSemantics(s)
  {
    LookaheadViaFirstLine(s, Lower);
    LookaheadViaFirstLine(s, Upper);
    LookaheadViaFirstLine(s, Digit);
    LookaheadViaFirstLine(s, Symbol);
  }

  /** `{ isValid, errors }` as returned by `validatePassword`. */
  datatype PasswordCheck = PasswordCheck(isValid: bool, errors: seq<string>)

  /** `validatePassword`: the length rule (on JavaScript's UTF-16 length) and the
      complexity rule are checked independently, and both can fail at once. */
  function ValidatePassword(password: string): (r: PasswordCheck)
    ensures r.isValid <==> r.errors == []
    ensures |r.errors| <= 2
    ensures LengthError in r.errors <==> Utf16Length(password) < PasswordMinLength
    ensures ComplexityError in r.errors <==> !PasswordRegexSemantics(password)
    ensures forall e :: e in r.errors ==> e == LengthError || e == ComplexityError
    ensures |r.errors| == 2 ==> r.errors == [LengthError, ComplexityError]
  {
    PasswordRegexCorrect(password);
    var lengthErrors := if password == [] || Utf16Length(password) < PasswordMinLength then [LengthError] else [];
    var complexityErrors := if !MatchesPasswordRegex(password) then [ComplexityError] else [];
    var errors := lengthErrors + complexityErrors;
    PasswordCheck(errors == [], errors)
  }

  lemma ValidPassFacts(s: string)
    requires s == "Valid1Pass!"
    ensures MatchesPasswordRegex(s) && Utf16Length(s) >= PasswordMinLength
  {
    FirstLineOfSingleLine(s);
    assert InClass(Lower, s[1]) && InClass(Upper, s[0]) && InClass(Digit, s[5]) && InClass(Symbol, s[10]);
  }

  /** `"Valid1Pass!"` is accepted. */
  lemma ValidPassExample(p: string)
    requires p == "Valid1Pass!"
    ensures ValidatePassword(p) == PasswordCheck(true, [])
  {
    ValidPassFacts(p);
    PasswordRegexCorrect(p);
  }

  lemma NoUppercaseFacts(s: string)
    requires s == "alllowercase1!"
    ensures !MatchesPasswordRegex(s) && Utf16Length(s) >= PasswordMinLength
  {
    FirstLineOfSingleLine(s);
    assert forall i :: 0 <= i < |s| ==> !IsAsciiUpper(s[i]);
  }

  /** `"alllowercase1!"` is long enough but has no capital letter. */
  lemma NoUppercaseExample()
    ensures ValidatePassword("alllowercase1!") == PasswordCheck(false, [ComplexityError])
  {
    NoUppercaseFacts("alllowercase1!");
  }

  lemma ShortFacts(s: string)
    requires s == "short1"
    ensures !MatchesPasswordRegex(s) && Utf16Length(s) == 6
  {
    FirstLineOfSingleLine(s);
    assert forall i :: 0 <= i < |s| ==> !IsAsciiUpper(s[i]);
    assert forall i :: 0 <= i < |s| ==> s[i] as int < 0x1_0000;
  }

  /** `"short1"` breaks both rules. */
  lemma ShortExample(p: string)
    requires p == "short1"
    ensures ValidatePassword(p) == PasswordCheck(false, [LengthError, ComplexityError])
  {
    ShortFacts(p);
    PasswordRegexCorrect(p);
  }

  /** `"#Valid1Pass!"` holds every required kind of character, yet fails: its first
      character is outside the leading class. */
  lemma LeadingSymbolExample()
    ensures ValidatePassword("#Valid1Pass!") == PasswordCheck(false, [ComplexityError])
  {
    var s := "#Valid1Pass!";
    assert !InLeadingClass(s[0]);
    assert !MatchesPasswordRegex(s);
    assert Utf16Length(s) >= |s| == 12;
  }

  /** `[^\s@]`: a character any of the three parts of an address may hold. */
  predicate IsAddressChar(c: char) {
    !IsWhiteSpace(c) && c != '@'
  }

  predicate AllAddressChars(s: string) {
    forall i :: 0 <= i < |s| ==> IsAddressChar(s[i])
  }

  /** `validateEmail`: `/^[^\s@]+@[^\s@]+\.[^\s@]+$/.test(email)`, i.e. the address
      splits as local `@` domain-head `.` domain-tail, three non-empty parts free of
      white space and `@`. */
  predicate ValidateEmail(email: string) {
    exists at, dot ::
      && 1 <= at && at + 2 <= dot && dot + 2 <= |email|
      && email[at] == '@' && email[dot] == '.'
      && AllAddressChars(email[..at]) && AllAddressChars(email[at + 1..dot]) && AllAddressChars(email[dot + 1..])
  }

  predicate HasInnerDot(domain: string) {
    exists m :: 0 < m < |domain| - 1 && domain[m] == '.'
  }

  /** The same shape said plainly: no white space, exactly one `@`, something
      before it, and a `.` after it that is neither first nor last. */
  ghost predicate EmailShape(email: string) {
    && (forall i :: 0 <= i < |email| ==> !IsWhiteSpace(email[i]))
    && multiset(email)['@'] == 1
    && '@' in email
    && var at := IndexOf(email, '@');
       at > 0 && HasInnerDot(email[at + 1..])
  }

  lemma AddressCharsSlice(s: string, lo: nat, hi: nat)
    requires lo <= hi <= |s|
    ensures AllAddressChars(s[lo..hi]) <==> forall i :: lo <= i < hi ==> IsAddressChar(s[i])
  {
    if AllAddressChars(s[lo..hi]) {
      forall i | lo <= i < hi ensures IsAddressChar(s[i]) {
        assert s[lo..hi][i - lo] == s[i];
      }
    }
  }

  lemma AtCount(local: string, domain: string)
    requires '@' !in local && '@' !in domain
    ensures multiset(local + ['@'] + domain)['@'] == 1
  {
    assert multiset(local + ['@'] + domain) == multiset(local) + multiset{'@'} + multiset(domain);
  }

  /** An address whose only non-address character is one `@` at `at`. */
  predicate SingleAt(email: string, at: nat) {
    && at < |email| && email[at] == '@'
    && forall i :: 0 <= i < |email| && i != at ==> IsAddressChar(email[i])
  }

  lemma SingleAtFacts(email: string, at: nat)
    requires SingleAt(email, at)
    ensures forall i :: 0 <= i < |email| ==> !IsWhiteSpace(email[i])
    ensures multiset(email)['@'] == 1
    ensures '@' in email && IndexOf(email, '@') == at
  {
    var local, domain := email[..at], email[at + 1..];
    assert email == local + ['@'] + domain;
    assert '@' !in domain by {
      forall i | 0 <= i < |domain| ensures domain[i] != '@' {
        assert domain[i] == email[at + 1 + i];
      }
    }
    AtCount(local, domain);
    IndexOfIsFirst(email, '@', at);
    forall i | 0 <= i < |email| ensures !IsWhiteSpace(email[i]) {
      if i != at {
        assert IsAddressChar(email[i]);
      }
    }
  }

  lemma SingleAtOfShape(email: string)
    requires EmailShape(email)
    ensures SingleAt(email, IndexOf(email, '@'))
  {
    var at := IndexOf(email, '@');
    var local, domain := email[..at], email[at + 1..];
    assert email == local + ['@'] + domain;
    assert multiset(email) == multiset(local) + multiset{'@'} + multiset(domain);
    assert '@' !in domain by {
      assert multiset(domain)['@'] == 0;
    }
    forall i | 0 <= i < |email| && i != at ensures IsAddressChar(email[i]) {
      if i > at {
        assert email[i] == domain[i - at - 1];
      }
    }
  }

  lemma SingleAtOfValid(email: string, at: nat, dot: nat)
    requires 1 <= at && at + 2 <= dot && dot + 2 <= |email|
    requires email[at] == '@' && email[dot] == '.'
    requires AllAddressChars(email[..at]) && AllAddressChars(email[at + 1..dot]) && AllAddressChars(email[dot + 1..])
    ensures SingleAt(email, at)
  {
    AddressCharsSlice(email, 0, at);
    AddressCharsSlice(email, at + 1, dot);
    AddressCharsSlice(email, dot + 1, |email|);
    assert email[..at] == email[0..at];
    assert email[dot + 1..] == email[dot + 1..|email|];
  }

  lemma EmailShapeOfValid(email: string)
    requires ValidateEmail(email)
    ensures EmailShape(email)
  {
    var at, dot :|
      && 1 <= at && at + 2 <= dot && dot + 2 <= |email|
      && email[at] == '@' && email[dot] == '.'
      && AllAddressChars(email[..at]) && AllAddressChars(email[at + 1..dot]) && AllAddressChars(email[dot + 1..]);
    SingleAtOfValid(email, at, dot);
    SingleAtFacts(email, at);
    assert email[at + 1..][dot - at - 1] == '.';
  }

  lemma ValidOfEmailShape(email: string)
    requires EmailShape(email)
    ensures ValidateEmail(email)
  {
    SingleAtOfShape(email);
    var at := IndexOf(email, '@');
    var domain := email[at + 1..];
    var m :| 0 < m < |domain| - 1 && domain[m] == '.';
    var dot := at + 1 + m;
    AddressCharsSlice(email, 0, at);
    AddressCharsSlice(email, at + 1, dot);
    AddressCharsSlice(email, dot + 1, |email|);
    assert email[..at] == email[0..at];
    assert email[dot + 1..] == email[dot + 1..|email|];
    assert email[dot] == '.';
  }

  /** The regular expression and the plain description accept the same addresses. */
  lemma ValidateEmailShape(email: string)
    ensures ValidateEmail(email) <==> EmailShape(email)
  {
    if ValidateEmail(email) {
      EmailShapeOfValid(email);
    }
    if EmailShape(email) {
      ValidOfEmailShape(email);
    }
  }
}
