/**
 * The signup form's validation in routes/users.js: the password-strength
 * regular expression and the ordered chain of four field checks of which only
 * the first failure is shown.
 */
module Validation {
  import opened Js

  /** The character classes the password pattern looks ahead for. */
  datatype CharClass = Lower | Upper | Digit | Symbol

  /** `[a-z]`, `[A-Z]`, `[0-9]` and `[^A-Za-z0-9]`, one code unit at a time. */
  predicate InClass(c: CodeUnit, k: CharClass) {
    match k
    case Lower => 0x61 <= c <= 0x7A
    case Upper => 0x41 <= c <= 0x5A
    case Digit => 0x30 <= c <= 0x39
    case Symbol => !(0x61 <= c <= 0x7A || 0x41 <= c <= 0x5A || 0x30 <= c <= 0x39)
  }

  /** Every code unit matches `.`, which (without the `s` flag) excludes line terminators. */
  predicate AllDots(s: JsString)
    decreases |s|
  {
    s == [] || (!IsLineTerminator(s[0]) && AllDots(s[1..]))
  }

  /**
   * `(?=.*[k])` tried at the start of `s`: `.*` runs over code units that are
   * not line terminators until one of class `k` follows.
   */
  predicate LookaheadFinds(s: JsString, k: CharClass)
    decreases |s|
  {
    s != [] && (InClass(s[0], k) || (!IsLineTerminator(s[0]) && LookaheadFinds(s[1..], k)))
  }

  /**
   * `strongPw.test(s)` for `/^(?=.*[a-z])(?=.*[A-Z])(?=.*[0-9])(?=.*[^A-Za-z0-9]).{8,}$/`:
   * the four lookaheads at position 0, then `.{8,}` running to the end of the input.
   */
  predicate StrongPw(s: JsString) {
    && LookaheadFinds(s, Lower)
    && LookaheadFinds(s, Upper)
    && LookaheadFinds(s, Digit)
    && LookaheadFinds(s, Symbol)
    && |s| >= 8 && AllDots(s)
  }

  predicate Contains(s: JsString, k: CharClass) {
    exists i :: 0 <= i < |s| && InClass(s[i], k)
  }

  predicate NoLineTerminator(s: JsString) {
    forall i :: 0 <= i < |s| ==> !IsLineTerminator(s[i])
  }

  /** The password policy in plain words. */
  predicate MeetsPolicy(s: JsString) {
    && |s| >= 8
    && NoLineTerminator(s)
    && Contains(s, Lower) && Contains(s, Upper) && Contains(s, Digit) && Contains(s, Symbol)
  }

  /** `.*` matches all of `s` exactly when no code unit of `s` is a line terminator. */
  lemma {:induction false} AllDotsIffNoLineTerminator(s: JsString)
    ensures AllDots(s) <==> NoLineTerminator(s)
    decreases |s|
  {
    if s != [] {
      AllDotsIffNoLineTerminator(s[1..]);
      assert forall i :: 1 <= i < |s| ==> s[i] == s[1..][i - 1];
    }
  }

  /** On a string without line terminators, the lookahead for `k` succeeds exactly when `k` occurs. */
  lemma {:induction false} LookaheadIffContains(s: JsString, k: CharClass)
    requires NoLineTerminator(s)
    ensures LookaheadFinds(s, k) <==> Contains(s, k)
    decreases |s|
  {
    if s != [] {
      var t := s[1..];
      assert NoLineTerminator(t) by {
        forall i | 0 <= i < |t| ensures !IsLineTerminator(t[i]) {
          assert t[i] == s[i + 1];
        }
      }
      LookaheadIffContains(t, k);
      if Contains(t, k) {
        var i :| 0 <= i < |t| && InClass(t[i], k);
        assert s[i + 1] == t[i];
      }
      if Contains(s, k) && !InClass(s[0], k) {
        var i :| 0 <= i < |s| && InClass(s[i], k);
        assert t[i - 1] == s[i];
      }
    }
  }

  /**
   * The pattern accepts exactly the strings of 8 or more code units, none a
   * line terminator, with a lowercase letter, an uppercase letter, a digit and
   * a code unit that is none of these.
   */
  lemma {:induction false} StrongPwIffPolicy(s: JsString)
    ensures StrongPw(s) <==> MeetsPolicy(s)
  {
    AllDotsIffNoLineTerminator(s);
    if NoLineTerminator(s) {
      LookaheadIffContains(s, Lower);
      LookaheadIffContains(s, Upper);
      LookaheadIffContains(s, Digit);
      LookaheadIffContains(s, Symbol);
    }
  }

  /** "Abcdef1!" has all four classes in 8 code units. */
  lemma StrongPwAcceptsExample()
    ensures StrongPw(Lit("Abcdef1!"))
  {
    var s := Lit("Abcdef1!");
    assert s == [0x41, 0x62, 0x63, 0x64, 0x65, 0x66, 0x31, 0x21];
    assert Contains(s, Lower) by { assert InClass(s[1], Lower); }
    assert Contains(s, Upper) by { assert InClass(s[0], Upper); }
    assert Contains(s, Digit) by { assert InClass(s[6], Digit); }
    assert Contains(s, Symbol) by { assert InClass(s[7], Symbol); }
    assert NoLineTerminator(s);
    assert MeetsPolicy(s);
    StrongPwIffPolicy(s);
  }

  /** A string with no uppercase letter is refused. */
  lemma {:induction false} NoUpperRefused(s: JsString)
    requires forall i :: 0 <= i < |s| ==> !(0x41 <= s[i] <= 0x5A)
    ensures !StrongPw(s)
  {
    StrongPwIffPolicy(s);
  }

  /** "abcdefgh" lacks an uppercase letter, a digit and a symbol. */
  lemma StrongPwRefusesLowercase()
    ensures !StrongPw(Lit("abcdefgh"))
  {
    var s := Lit("abcdefgh");
    assert s == [0x61, 0x62, 0x63, 0x64, 0x65, 0x66, 0x67, 0x68];
    NoUpperRefused(s);
  }

  /** "Abc123!" is one code unit short. */
  lemma StrongPwRefusesShort()
    ensures !StrongPw(Lit("Abc123!"))
  {
  }

  /** A missing password is tested as the string "undefined", which has no uppercase letter. */
  lemma StrongPwRefusesUndefined()
    ensures !StrongPw(Stringify(None))
  {
    var s := Lit("undefined");
    assert s == [0x75, 0x6E, 0x64, 0x65, 0x66, 0x69, 0x6E, 0x65, 0x64];
    NoUpperRefused(s);
  }

  /** The signup request body; `None` is a field that was not sent. */
  datatype SignupForm = SignupForm(
    username: Option<JsString>,
    email: Option<JsString>,
    password: Option<JsString>,
    confirm: Option<JsString>)

  /** The four checks, in the order they are declared. */
  datatype SignupCheck = UsernameLength | EmailShape | PasswordStrength | PasswordsMatch

  function Rank(c: SignupCheck): nat {
    match c
    case UsernameLength => 0
    case EmailShape => 1
    case PasswordStrength => 2
    case PasswordsMatch => 3
  }

  /** The `withMessage` text of each check; the pieces concatenate to the literal in the chain. */
  function Message(c: SignupCheck): JsString {
    match c
    case UsernameLength => Lit("Username must ") + Lit("be 5-20 ") + Lit("characters")
    case EmailShape => Lit("Enter a valid ") + Lit("email address")
    case PasswordStrength => Lit("Password must ") + Lit("be 8+ chars and ") + Lit("include a ") + Lit("lowercase, ") + Lit("uppercase, ") + Lit("number, and ") + Lit("symbol")
    case PasswordsMatch => Lit("Passwords do ") + Lit("not match")
  }

  /** The field check `c` reads. */
  function FieldOf(f: SignupForm, c: SignupCheck): Option<JsString> {
    match c
    case UsernameLength => f.username
    case EmailShape => f.email
    case PasswordStrength => f.password
    case PasswordsMatch => f.confirm
  }

  /**
   * Whether check `c` rejects the value `v` of its field. The username and
   * the email are trimmed first (a missing field counts as ""); the password
   * is tested as sent, so a missing one is tested as "undefined"; the
   * confirmation is compared with `!==` to the body's password. `isEmail` is
   * the library's e-mail shape test.
   */
  predicate Rejects(c: SignupCheck, v: Option<JsString>, isEmail: JsString -> bool, bodyPassword: Option<JsString>) {
    match c
    case UsernameLength => !(5 <= |Trim(OrEmpty(v))| <= 20)
    case EmailShape => !isEmail(Trim(OrEmpty(v)))
    case PasswordStrength => !StrongPw(Stringify(v))
    case PasswordsMatch => v != bodyPassword
  }

  /** Whether check `c` rejects the form, reading its field from the body alone. */
  predicate Fails(f: SignupForm, isEmail: JsString -> bool, c: SignupCheck) {
    Rejects(c, FieldOf(f, c), isEmail, f.password)
  }

  /** The checks in the order they are declared. */
  const Declared: seq<SignupCheck> := [UsernameLength, EmailShape, PasswordStrength, PasswordsMatch]

  /** The checks of `cs` that reject the form, in the order of `cs`. */
  function FailingAmong(f: SignupForm, isEmail: JsString -> bool, cs: seq<SignupCheck>): seq<SignupCheck>
    decreases |cs|
  {
    if cs == [] then []
    else (if Fails(f, isEmail, cs[0]) then [cs[0]] else []) + FailingAmong(f, isEmail, cs[1..])
  }

  /** A check is listed exactly when it is one of `cs` and it rejects the form. */
  lemma {:induction false} FailingAmongIsFailing(f: SignupForm, isEmail: JsString -> bool, cs: seq<SignupCheck>)
    ensures forall c :: c in FailingAmong(f, isEmail, cs) <==> c in cs && Fails(f, isEmail, c)
    decreases |cs|
  {
    if cs != [] {
      FailingAmongIsFailing(f, isEmail, cs[1..]);
      assert forall c :: c in cs <==> c == cs[0] || c in cs[1..];
    }
  }

  /** `validationResult(req).array()`: every failing check, in declaration order. */
  function Failures(f: SignupForm, isEmail: JsString -> bool): seq<SignupCheck> {
    FailingAmong(f, isEmail, Declared)
  }

  /** The error list holds exactly the checks that reject the form. */
  lemma FailuresAreFailingChecks(f: SignupForm, isEmail: JsString -> bool)
    ensures forall c :: c in Failures(f, isEmail) <==> Fails(f, isEmail, c)
  {
    FailingAmongIsFailing(f, isEmail, Declared);
    EveryCheckDeclared();
  }

  lemma EveryCheckDeclared()
    ensures forall c :: c in Declared
  {
    forall c ensures c in Declared {
      assert Declared[Rank(c)] == c;
    }
  }

  /** `errors.array()[0]` when there are errors. */
  function FirstFailure(f: SignupForm, isEmail: JsString -> bool): Option<SignupCheck> {
    var r := Failures(f, isEmail);
    if r == [] then None else Some(r[0])
  }

  /** The earliest failing check, read off the declaration order. */
  function Earliest(f: SignupForm, isEmail: JsString -> bool): Option<SignupCheck> {
    if Fails(f, isEmail, UsernameLength) then Some(UsernameLength)
    else if Fails(f, isEmail, EmailShape) then Some(EmailShape)
    else if Fails(f, isEmail, PasswordStrength) then Some(PasswordStrength)
    else if Fails(f, isEmail, PasswordsMatch) then Some(PasswordsMatch)
    else None
  }

  /** The first entry of the failure list is the earliest failing check. */
  lemma {:induction false} FirstFailureIsDeclaredFirst(f: SignupForm, isEmail: JsString -> bool)
    ensures FirstFailure(f, isEmail) == Earliest(f, isEmail)
  {
    var d1 := [EmailShape, PasswordStrength, PasswordsMatch];
    var d2 := [PasswordStrength, PasswordsMatch];
    var d3 := [PasswordsMatch];
    assert Declared[1..] == d1 && d1[1..] == d2 && d2[1..] == d3 && d3[1..] == [];
    if !Fails(f, isEmail, UsernameLength) {
      assert FailingAmong(f, isEmail, Declared) == FailingAmong(f, isEmail, d1);
      if !Fails(f, isEmail, EmailShape) {
        assert FailingAmong(f, isEmail, d1) == FailingAmong(f, isEmail, d2);
        if !Fails(f, isEmail, PasswordStrength) {
          assert FailingAmong(f, isEmail, d2) == FailingAmong(f, isEmail, d3);
          if !Fails(f, isEmail, PasswordsMatch) {
            assert FailingAmong(f, isEmail, d3) == FailingAmong(f, isEmail, []);
          }
        }
      }
    }
  }

  /** The shown failure is the earliest failing check; none is shown iff all pass. */
  lemma {:induction false} FirstFailureIsEarliest(f: SignupForm, isEmail: JsString -> bool, c: SignupCheck)
    ensures FirstFailure(f, isEmail).None? <==> forall d :: !Fails(f, isEmail, d)
    ensures FirstFailure(f, isEmail) == Some(c)
            <==> Fails(f, isEmail, c) && forall d :: Rank(d) < Rank(c) ==> !Fails(f, isEmail, d)
  {
    FirstFailureIsDeclaredFirst(f, isEmail);
    if Earliest(f, isEmail).None? {
      forall d ensures !Fails(f, isEmail, d) {
        assert d == UsernameLength || d == EmailShape || d == PasswordStrength || d == PasswordsMatch;
      }
    }
  }

  /** The express-validator `trim()` sanitizer writes the trimmed value back into the body. */
  function Sanitized(o: Option<JsString>): Option<JsString> {
    match o
    case Some(v) => Some(Trim(v))
    case None => None
  }

  /** `(req.body.username || "").trim()` after sanitizing is the trimmed field as sent. */
  lemma {:induction false} RetrimIsTrim(o: Option<JsString>)
    ensures Trim(OrEmpty(Sanitized(o))) == Trim(OrEmpty(o))
  {
    if o.Some? {
      TrimIdempotent(o.value);
    }
  }

  /** A form that passes every check carries a password, and that password is strong. */
  lemma PassingFormHasPassword(f: SignupForm, isEmail: JsString -> bool)
    requires FirstFailure(f, isEmail).None?
    ensures f.password.Some? && MeetsPolicy(f.password.value)
    ensures f.confirm == f.password
    ensures 5 <= |Trim(OrEmpty(f.username))| <= 20
  {
    FirstFailureIsEarliest(f, isEmail, PasswordStrength);
    assert !Fails(f, isEmail, PasswordStrength);
    assert !Fails(f, isEmail, UsernameLength);
    assert !Fails(f, isEmail, PasswordsMatch);
    StrongPwRefusesUndefined();
    StrongPwIffPolicy(Stringify(f.password));
  }

  // ---------------------------------------------------------------- every location

  /** A form none of whose four fields is present. */
  const NoFields := SignupForm(None, None, None, None)

  /**
   * The request as `check(field)` sees it. express-validator looks for the
   * field in the body, the cookies, the headers, the route params and the
   * query string; no cookie parser is mounted and the route has no params,
   * so the headers and the query are the other two places.
   */
  datatype SignupRequest = SignupRequest(body: SignupForm, headers: SignupForm, query: SignupForm)

  /**
   * Whether check `c` rejects the request as the chain is written: every
   * place that holds the field must pass, and when no place holds it the
   * missing value is tested.
   */
  predicate FailsAsWritten(req: SignupRequest, isEmail: JsString -> bool, c: SignupCheck) {
    var b, h, q := FieldOf(req.body, c), FieldOf(req.headers, c), FieldOf(req.query, c);
    var pw := req.body.password;
    if b.None? && h.None? && q.None? then Rejects(c, None, isEmail, pw)
    else (b.Some? && Rejects(c, b, isEmail, pw)) || (h.Some? && Rejects(c, h, isEmail, pw)) || (q.Some? && Rejects(c, q, isEmail, pw))
  }

  /** `errors.array()[0]` as the chain is written: the earliest check that fails in some place. */
  function FirstFailureAsWritten(req: SignupRequest, isEmail: JsString -> bool): Option<SignupCheck> {
    if FailsAsWritten(req, isEmail, UsernameLength) then Some(UsernameLength)
    else if FailsAsWritten(req, isEmail, EmailShape) then Some(EmailShape)
    else if FailsAsWritten(req, isEmail, PasswordStrength) then Some(PasswordStrength)
    else if FailsAsWritten(req, isEmail, PasswordsMatch) then Some(PasswordsMatch)
    else None
  }

  /** When only the body carries the fields, the chain as written shows the body-only check's first failure. */
  lemma FirstFailureAsWrittenOnBody(req: SignupRequest, isEmail: JsString -> bool)
    requires req.headers == NoFields && req.query == NoFields
    ensures FirstFailureAsWritten(req, isEmail) == FirstFailure(req.body, isEmail)
  {
    FailsAsWrittenOnBody(req, isEmail, UsernameLength);
    FailsAsWrittenOnBody(req, isEmail, EmailShape);
    FailsAsWrittenOnBody(req, isEmail, PasswordStrength);
    FailsAsWrittenOnBody(req, isEmail, PasswordsMatch);
    FirstFailureIsDeclaredFirst(req.body, isEmail);
  }

  lemma FailsAsWrittenOnBody(req: SignupRequest, isEmail: JsString -> bool, c: SignupCheck)
    requires req.headers == NoFields && req.query == NoFields
    ensures FailsAsWritten(req, isEmail, c) == Fails(req.body, isEmail, c)
  {
    assert FieldOf(req.headers, c).None? && FieldOf(req.query, c).None?;
  }
}
