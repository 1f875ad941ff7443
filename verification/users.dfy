/**
 * The auth router of routes/users.js: POST /login, POST /signup, GET /logout,
 * the /loggedin and /registered aliases and the `redirectLogin` guard. Each
 * handler is a method on the live session and table, specified by a function
 * of the session and table it starts from; the lemmas state what the
 * handlers promise.
 */
module Users {
  import opened Js
  import opened Sessions
  import opened Http
  import opened Bcrypt
  import opened UserStore
  import opened Validation

  /** The login request body; `None` is a field that was not sent. */
  datatype LoginForm = LoginForm(username: Option<JsString>, password: Option<JsString>)

  function InvalidCredentials(): JsString {
    Lit("Invalid ") + Lit("credentials")
  }

  // ---------------------------------------------------------------- guard

  /** What the guard does: call `next()`, or answer with a redirect. */
  datatype Gate = Proceed | Stop(resp: Response)

  /** `redirectLogin`: both `user` and `userId` must be falsy for the request to be turned away. */
  function RedirectLogin(st: SessionState): (g: Gate)
    ensures g.Stop? ==> g.resp == Redirect("/login")
  {
    if st.user.None? && !Truthy(st.userId) then Stop(Redirect("/login")) else Proceed
  }

  /** The guard turns a request away exactly when the session holds neither identity key. */
  lemma RedirectLoginIff(st: SessionState)
    ensures RedirectLogin(st) == Stop(Redirect("/login")) <==> st.user.None? && (st.userId.None? || st.userId == Some([]))
    ensures RedirectLogin(st) != Stop(Redirect("/login")) ==> RedirectLogin(st) == Proceed
  {
  }

  // ---------------------------------------------------------------- login

  /** POST /login as a function of the session, the table and the body. */
  function LoginSpec(st: SessionState, rows: map<JsString, UserRow>, form: LoginForm, env: Infra): Outcome {
    if env.lookupFails || form.username.None? then
      // a failed query, or an `undefined` bind parameter the driver rejects
      Outcome(Forward, st)
    else if form.username.value !in rows then
      Outcome(Render(LoginView(InvalidCredentials(), EchoUsername(form.username))), st)
    else if env.compareFails || form.password.None? then
      // `bcrypt.compare` rejects, or has no password to compare
      Outcome(Forward, st)
    else if !Compare(form.password.value, rows[form.username.value].passwordHash) then
      Outcome(Render(LoginView(InvalidCredentials(), EchoUsername(form.username))), st)
    else
      var name := form.username.value;
      Outcome(Redirect("/"), st.(userId := Some(name), user := Some(SessionUser(rows[name].id, name))))
  }

  /** Whether the stored hash accepts the password sent for the user sent. */
  predicate Authentic(rows: map<JsString, UserRow>, form: LoginForm) {
    && form.username.Some? && form.username.value in rows
    && form.password.Some? && Compare(form.password.value, rows[form.username.value].passwordHash)
  }

  /**
   * Login succeeds exactly when the queries work and the credentials are
   * authentic; it then binds the row's id and username to the session and
   * changes nothing else. Any other outcome leaves the session as it was.
   */
  lemma LoginSucceedsIff(st: SessionState, rows: map<JsString, UserRow>, form: LoginForm, env: Infra)
    ensures LoginSpec(st, rows, form, env).resp == Redirect("/")
            <==> !env.lookupFails && !env.compareFails && Authentic(rows, form)
    ensures LoginSpec(st, rows, form, env).resp == Redirect("/") ==>
              var name := form.username.value;
              LoginSpec(st, rows, form, env).session
                == st.(userId := Some(name), user := Some(SessionUser(rows[name].id, name)))
    ensures LoginSpec(st, rows, form, env).resp != Redirect("/") ==> LoginSpec(st, rows, form, env).session == st
  {
  }

  /**
   * An unknown username and a wrong password give the same page, echoing the
   * username, and leave the session alone. An unknown username gets it before
   * the password is looked at, so whether one was sent does not matter.
   */
  lemma LoginFailureIsUniform(st: SessionState, rows: map<JsString, UserRow>, form: LoginForm, env: Infra)
    ensures !env.lookupFails && form.username.Some? && form.username.value !in rows ==>
              LoginSpec(st, rows, form, env)
                == Outcome(Render(LoginView(InvalidCredentials(), EchoUsername(form.username))), st)
    ensures !env.lookupFails && !env.compareFails && form.username.Some? && form.password.Some?
            && !Authentic(rows, form) ==>
              LoginSpec(st, rows, form, env)
                == Outcome(Render(LoginView(InvalidCredentials(), EchoUsername(form.username))), st)
  {
  }

  /** A store or hasher error reaches `next(err)` and never touches the session. */
  lemma LoginErrorsForward(st: SessionState, rows: map<JsString, UserRow>, form: LoginForm, env: Infra)
    ensures LoginSpec(st, rows, form, env).resp == Forward ==> LoginSpec(st, rows, form, env).session == st
    ensures env.lookupFails ==> LoginSpec(st, rows, form, env) == Outcome(Forward, st)
    ensures !env.lookupFails && form.username.Some? && form.username.value in rows && env.compareFails ==>
              LoginSpec(st, rows, form, env) == Outcome(Forward, st)
  {
  }

  /** After a successful login the guard lets requests through. */
  lemma LoginOpensGuard(st: SessionState, rows: map<JsString, UserRow>, form: LoginForm, env: Infra)
    requires LoginSpec(st, rows, form, env).resp == Redirect("/")
    ensures RedirectLogin(LoginSpec(st, rows, form, env).session) == Proceed
  {
  }

  method Login(s: Session, db: UserDb, form: LoginForm, env: Infra) returns (resp: Response)
    modifies s
    ensures Outcome(resp, s.State()) == LoginSpec(old(s.State()), db.rows, form, env)
  {
    if env.lookupFails || form.username.None? {
      return Forward;
    }
    var name := form.username.value;
    if name !in db.rows {
      return Render(LoginView(InvalidCredentials(), EchoUsername(form.username)));
    }
    var row := db.rows[name];
    if env.compareFails || form.password.None? {
      return Forward;
    }
    var same := Compare(form.password.value, row.passwordHash);
    if !same {
      return Render(LoginView(InvalidCredentials(), EchoUsername(form.username)));
    }
    s.userId := Some(name);
    s.user := Some(SessionUser(row.id, name));
    resp := Redirect("/");
  }

  /** POST /loggedin: the same handler as POST /login, on the same body. */
  method LoggedIn(s: Session, db: UserDb, form: LoginForm, env: Infra) returns (resp: Response)
    modifies s
    ensures Outcome(resp, s.State()) == LoginSpec(old(s.State()), db.rows, form, env)
  {
    resp := Login(s, db, form, env);
  }

  // ---------------------------------------------------------------- signup

  /** What POST /signup leaves behind: the response, the session and the users table. */
  datatype SignupOutcome = SignupOutcome(resp: Response, session: SessionState, table: Table)

  /**
   * `(field || "").trim()` after the `trim()` sanitizer has rewritten the
   * field: the trimmed field as sent.
   */
  function Cleaned(field: Option<JsString>): (r: JsString)
    ensures r == Trim(OrEmpty(field))
  {
    RetrimIsTrim(field);
    Trim(OrEmpty(Sanitized(field)))
  }

  /** POST /signup as a function of the session, the table and the body. */
  function SignupSpec(st: SessionState, t: Table, form: SignupForm, isEmail: JsString -> bool, env: Infra): SignupOutcome {
    var first := FirstFailure(form, isEmail);
    if first.Some? then
      SignupOutcome(Render(SignupView(Message(first.value), Cleaned(form.username), Cleaned(form.email))), st, t)
    else
      EnrolSpec(st, t, Cleaned(form.username), Sanitized(form.email), Stringify(form.password), env)
  }

  /** The part of POST /signup after validation has passed: hash, insert, re-read, log in. */
  function EnrolSpec(st: SessionState, t: Table, name: JsString, email: Option<JsString>, password: JsString, env: Infra): SignupOutcome {
    if env.hashFails then
      SignupOutcome(Forward, st, t)
    else if email.None? then
      // `email.trim()` on a missing field throws
      SignupOutcome(Forward, st, t)
    else
      var inserted := Inserted(t, name, Trim(email.value), Hash(password, env.salt), env.insertFails);
      if inserted.None? then
        SignupOutcome(Forward, st, t)
      else if env.rereadFails then
        // the row is in, but the follow-up SELECT fails: no login
        SignupOutcome(Forward, st, inserted.value)
      else
        var row := inserted.value.rows[name];
        SignupOutcome(Redirect("/"),
                      st.(userId := Some(name), user := Some(SessionUser(row.id, name))),
                      inserted.value)
  }

  /**
   * A form that fails validation shows the earliest failing check's message
   * with the trimmed username and e-mail (never the password); nothing is
   * inserted and the session is unchanged.
   */
  lemma SignupRejectsInvalid(st: SessionState, t: Table, form: SignupForm, isEmail: JsString -> bool, env: Infra, c: SignupCheck)
    requires Fails(form, isEmail, c) && forall d :: Rank(d) < Rank(c) ==> !Fails(form, isEmail, d)
    ensures SignupSpec(st, t, form, isEmail, env)
            == SignupOutcome(Render(SignupView(Message(c), Trim(OrEmpty(form.username)), Trim(OrEmpty(form.email)))), st, t)
  {
    FirstFailureIsEarliest(form, isEmail, c);
  }

  /**
   * After validation: registration succeeds exactly when no call fails, the
   * e-mail is there and the name is free; it then stores the name, the
   * trimmed e-mail and a hash of the password under the next id and logs that
   * row in. Otherwise the session is untouched, and so is the table unless
   * only the re-read failed.
   */
  lemma EnrolOutcome(st: SessionState, t: Table, name: JsString, email: Option<JsString>, password: JsString, env: Infra)
    ensures EnrolSpec(st, t, name, email, password, env).resp == Redirect("/")
            <==> !env.hashFails && email.Some? && !env.insertFails && !env.rereadFails && name !in t.rows
    ensures var o := EnrolSpec(st, t, name, email, password, env);
            o.resp == Redirect("/") ==>
              && o.table == Table(t.rows[name := UserRow(t.nextId, Trim(email.value), Hash(password, env.salt))], t.nextId + 1)
              && o.session == st.(userId := Some(name), user := Some(SessionUser(t.nextId, name)))
    ensures var o := EnrolSpec(st, t, name, email, password, env);
            o.resp != Redirect("/") ==>
              && o.resp == Forward && o.session == st
              && (o.table == t || (env.rereadFails && name !in t.rows && name in o.table.rows))
    ensures !env.hashFails && email.Some? && !env.insertFails && name !in t.rows && env.rereadFails ==>
              EnrolSpec(st, t, name, email, password, env)
                == SignupOutcome(Forward, st, Inserted(t, name, Trim(email.value), Hash(password, env.salt), false).value)
  {
  }

  /**
   * Signup logs someone in exactly when validation passes, an e-mail was
   * sent, the trimmed username is free and no call fails.
   */
  lemma SignupSucceedsIff(st: SessionState, t: Table, form: SignupForm, isEmail: JsString -> bool, env: Infra)
    ensures SignupSpec(st, t, form, isEmail, env).resp == Redirect("/")
            <==> && FirstFailure(form, isEmail).None? && form.email.Some?
                 && !env.hashFails && !env.insertFails && !env.rereadFails
                 && Trim(OrEmpty(form.username)) !in t.rows
  {
    EnrolOutcome(st, t, Cleaned(form.username), Sanitized(form.email), Stringify(form.password), env);
  }

  /**
   * A successful signup stores the trimmed username and e-mail with a hash of
   * the password (never the password itself) under a new id, and binds that
   * row to the session.
   */
  lemma SignupStoresHash(st: SessionState, t: Table, form: SignupForm, isEmail: JsString -> bool, env: Infra)
    requires SignupSpec(st, t, form, isEmail, env).resp == Redirect("/")
    ensures form.password.Some? && form.email.Some?
    ensures var name := Trim(OrEmpty(form.username));
            var o := SignupSpec(st, t, form, isEmail, env);
            && o.table.rows == t.rows[name := UserRow(t.nextId, Trim(form.email.value), Hash(form.password.value, env.salt))]
            && o.table.nextId == t.nextId + 1
            && Compare(form.password.value, o.table.rows[name].passwordHash)
            && o.session == st.(userId := Some(name), user := Some(SessionUser(t.nextId, name)))
  {
    SignupSucceedsIff(st, t, form, isEmail, env);
    EnrolOutcome(st, t, Cleaned(form.username), Sanitized(form.email), Stringify(form.password), env);
    PassingFormHasPassword(form, isEmail);
    TrimIdempotent(form.email.value);
  }

  /**
   * On a consistent table the id a signup logs in with belongs to the new row
   * alone: no row present before holds it.
   */
  lemma SignupGivesFreshId(st: SessionState, t: Table, form: SignupForm, isEmail: JsString -> bool, env: Infra)
    requires Valid(t)
    requires SignupSpec(st, t, form, isEmail, env).resp == Redirect("/")
    ensures var o := SignupSpec(st, t, form, isEmail, env);
            && o.session.user.Some?
            && o.table.rows[o.session.user.value.username].id == o.session.user.value.id
            && forall u :: u in t.rows ==> t.rows[u].id != o.session.user.value.id
  {
    SignupStoresHash(st, t, form, isEmail, env);
  }

  /**
   * Every failure of the store or the hasher goes to `next(err)` with the
   * session untouched. The table is untouched too, except when the insert went
   * through and only the re-read failed: then the row exists but nobody is
   * logged in.
   */
  lemma SignupErrorsForward(st: SessionState, t: Table, form: SignupForm, isEmail: JsString -> bool, env: Infra)
    ensures var o := SignupSpec(st, t, form, isEmail, env);
            o.resp == Forward ==>
              && o.session == st
              && (o.table == t || (env.rereadFails && Trim(OrEmpty(form.username)) in o.table.rows
                                   && Trim(OrEmpty(form.username)) !in t.rows))
    ensures var o := SignupSpec(st, t, form, isEmail, env);
            o.resp != Redirect("/") ==> o.session == st
    ensures var name := Trim(OrEmpty(form.username));
            FirstFailure(form, isEmail).None? && form.email.Some? && form.password.Some? && !env.hashFails
            && !env.insertFails && name !in t.rows && env.rereadFails ==>
              SignupSpec(st, t, form, isEmail, env)
                == SignupOutcome(Forward, st, Inserted(t, name, Trim(form.email.value), Hash(form.password.value, env.salt), false).value)
  {
    if FirstFailure(form, isEmail).None? && form.email.Some? {
      PassingFormHasPassword(form, isEmail);
      TrimIdempotent(form.email.value);
    }
    EnrolOutcome(st, t, Cleaned(form.username), Sanitized(form.email), Stringify(form.password), env);
  }

  /** A second signup under a name already in the table changes nothing and logs nobody in. */
  lemma SignupTakenNameChangesNothing(st: SessionState, t: Table, form: SignupForm, isEmail: JsString -> bool, env: Infra)
    requires Trim(OrEmpty(form.username)) in t.rows
    ensures SignupSpec(st, t, form, isEmail, env).resp != Redirect("/")
    ensures SignupSpec(st, t, form, isEmail, env).session == st
    ensures SignupSpec(st, t, form, isEmail, env).table == t
  {
    EnrolOutcome(st, t, Cleaned(form.username), Sanitized(form.email), Stringify(form.password), env);
  }

  /** Signup keeps row ids unique and below the counter. */
  lemma SignupKeepsTableValid(st: SessionState, t: Table, form: SignupForm, isEmail: JsString -> bool, env: Infra)
    requires Valid(t)
    ensures Valid(SignupSpec(st, t, form, isEmail, env).table)
  {
    if FirstFailure(form, isEmail).None? {
      EnrolKeepsTableValid(st, t, Cleaned(form.username), Sanitized(form.email), Stringify(form.password), env);
    }
  }

  lemma EnrolKeepsTableValid(st: SessionState, t: Table, name: JsString, email: Option<JsString>, password: JsString, env: Infra)
    requires Valid(t)
    ensures Valid(EnrolSpec(st, t, name, email, password, env).table)
  {
    if !env.hashFails && email.Some? {
      InsertKeepsValid(t, name, Trim(email.value), Hash(password, env.salt), env.insertFails);
    }
  }

  /**
   * The username a successful signup logs in with is stored, has 5 to 20
   * code units and is its own trim: the value the username check accepted.
   */
  lemma SignupStoresValidUsername(st: SessionState, t: Table, form: SignupForm, isEmail: JsString -> bool, env: Infra)
    requires SignupSpec(st, t, form, isEmail, env).resp == Redirect("/")
    ensures var o := SignupSpec(st, t, form, isEmail, env);
            && o.session.userId.Some? && o.session.userId.value in o.table.rows
            && 5 <= |o.session.userId.value| <= 20
            && Trim(o.session.userId.value) == o.session.userId.value
  {
    SignupStoresHash(st, t, form, isEmail, env);
    SignupSucceedsIff(st, t, form, isEmail, env);
    PassingFormHasPassword(form, isEmail);
    TrimIdempotent(OrEmpty(form.username));
  }

  // ---------------------------------------------------------------- signup as written

  /**
   * POST /signup as written: the checks accept a field wherever it appears,
   * while the handler reads only the body. A body without a password makes
   * `bcrypt.hash(undefined, …)` reject.
   */
  function SignupSpecAsWritten(st: SessionState, t: Table, req: SignupRequest, isEmail: JsString -> bool, env: Infra): SignupOutcome {
    var first := FirstFailureAsWritten(req, isEmail);
    if first.Some? then
      SignupOutcome(Render(SignupView(Message(first.value), Cleaned(req.body.username), Cleaned(req.body.email))), st, t)
    else if req.body.password.None? then
      SignupOutcome(Forward, st, t)
    else
      EnrolSpec(st, t, Cleaned(req.body.username), Sanitized(req.body.email), req.body.password.value, env)
  }

  /** On a request that carries the fields in the body alone, the handler as written and `SignupSpec` agree. */
  lemma AsWrittenAgreesOnBody(st: SessionState, t: Table, req: SignupRequest, isEmail: JsString -> bool, env: Infra)
    requires req.headers == NoFields && req.query == NoFields
    ensures SignupSpecAsWritten(st, t, req, isEmail, env) == SignupSpec(st, t, req.body, isEmail, env)
  {
    FirstFailureAsWrittenOnBody(req, isEmail);
    if FirstFailure(req.body, isEmail).None? {
      PassingFormHasPassword(req.body, isEmail);
    }
  }

  /**
   * A username sent in the query string passes the username check for a
   * body that has none; the handler then stores and logs in the username "".
   * Checked on the body alone, the same body is refused.
   */
  lemma QueryUsernameSignsUpEmptyName(st: SessionState, t: Table, u: JsString, e: JsString, p: JsString,
                                      isEmail: JsString -> bool, env: Infra)
    requires 5 <= |Trim(u)| <= 20 && isEmail(Trim(e)) && StrongPw(p)
    requires [] !in t.rows && !env.hashFails && !env.insertFails && !env.rereadFails
    ensures var body := SignupForm(None, Some(e), Some(p), Some(p));
            var o := SignupSpecAsWritten(st, t, SignupRequest(body, NoFields, SignupForm(Some(u), None, None, None)), isEmail, env);
            && o.resp == Redirect("/")
            && [] in o.table.rows && o.session.userId == Some([])
    ensures var body := SignupForm(None, Some(e), Some(p), Some(p));
            SignupSpec(st, t, body, isEmail, env).resp == Render(SignupView(Message(UsernameLength), [], Trim(e)))
  {
    var body := SignupForm(None, Some(e), Some(p), Some(p));
    var req := SignupRequest(body, NoFields, SignupForm(Some(u), None, None, None));
    QueryUsernamePasses(req, u, e, p, isEmail);
    assert Cleaned(body.username) == [];
    EnrolOutcome(st, t, [], Sanitized(body.email), p, env);
    assert Fails(body, isEmail, UsernameLength);
    FirstFailureIsDeclaredFirst(body, isEmail);
  }

  /** The chain as written passes that request: the query username stands in for the missing one. */
  lemma QueryUsernamePasses(req: SignupRequest, u: JsString, e: JsString, p: JsString, isEmail: JsString -> bool)
    requires 5 <= |Trim(u)| <= 20 && isEmail(Trim(e)) && StrongPw(p)
    requires req == SignupRequest(SignupForm(None, Some(e), Some(p), Some(p)), NoFields, SignupForm(Some(u), None, None, None))
    ensures FirstFailureAsWritten(req, isEmail).None?
  {
    assert !FailsAsWritten(req, isEmail, UsernameLength) && !FailsAsWritten(req, isEmail, EmailShape);
    assert !FailsAsWritten(req, isEmail, PasswordStrength) && !FailsAsWritten(req, isEmail, PasswordsMatch);
  }

  /**
   * The other way round: a body that passes every check is refused when the
   * query string carries a username of the wrong length.
   */
  lemma QueryUsernameVetoes(st: SessionState, t: Table, body: SignupForm, u: JsString, isEmail: JsString -> bool, env: Infra)
    requires FirstFailure(body, isEmail).None? && !(5 <= |Trim(u)| <= 20)
    ensures SignupSpecAsWritten(st, t, SignupRequest(body, NoFields, SignupForm(Some(u), None, None, None)), isEmail, env)
            == SignupOutcome(Render(SignupView(Message(UsernameLength), Cleaned(body.username), Cleaned(body.email))), st, t)
  {
    var req := SignupRequest(body, NoFields, SignupForm(Some(u), None, None, None));
    assert Rejects(UsernameLength, Some(u), isEmail, body.password);
    assert FirstFailureAsWritten(req, isEmail) == Some(UsernameLength);
  }

  method Signup(s: Session, db: UserDb, form: SignupForm, isEmail: JsString -> bool, env: Infra) returns (resp: Response)
    modifies s, db
    ensures SignupOutcome(resp, s.State(), db.Value()) == SignupSpec(old(s.State()), old(db.Value()), form, isEmail, env)
  {
    var first := FirstFailure(form, isEmail);
    if first.Some? {
      return Render(SignupView(Message(first.value), Cleaned(form.username), Cleaned(form.email)));
    }
    resp := Enrol(s, db, Cleaned(form.username), Sanitized(form.email), Stringify(form.password), env);
  }

  /** The statements of the signup handler after validation has passed. */
  method Enrol(s: Session, db: UserDb, name: JsString, email: Option<JsString>, password: JsString, env: Infra) returns (resp: Response)
    modifies s, db
    ensures SignupOutcome(resp, s.State(), db.Value()) == EnrolSpec(old(s.State()), old(db.Value()), name, email, password, env)
  {
    if env.hashFails {
      return Forward;
    }
    var hashed := Hash(password, env.salt);
    if email.None? {
      return Forward;
    }
    var ok := db.Insert(name, Trim(email.value), hashed, env.insertFails);
    if !ok {
      return Forward;
    }
    if env.rereadFails {
      return Forward;
    }
    var row := db.rows[name];
    s.userId := Some(name);
    s.user := Some(SessionUser(row.id, name));
    resp := Redirect("/");
  }

  /** POST /registered: the same handler as POST /signup, on the same body. */
  method Registered(s: Session, db: UserDb, form: SignupForm, isEmail: JsString -> bool, env: Infra) returns (resp: Response)
    modifies s, db
    ensures SignupOutcome(resp, s.State(), db.Value()) == SignupSpec(old(s.State()), old(db.Value()), form, isEmail, env)
  {
    resp := Signup(s, db, form, isEmail, env);
  }

  // ---------------------------------------------------------------- logout

  /** GET /logout: the session is destroyed and the browser sent to the login page. */
  function LogoutSpec(st: SessionState): Outcome {
    Outcome(Redirect("/login"), Fresh)
  }

  /** Logging out twice is logging out once, and afterwards the guard always redirects. */
  lemma LogoutIdempotentAndLocks(st: SessionState)
    ensures LogoutSpec(LogoutSpec(st).session) == LogoutSpec(st)
    ensures LogoutSpec(st).session.user.None? && LogoutSpec(st).session.userId.None?
    ensures RedirectLogin(LogoutSpec(st).session) == Stop(Redirect("/login"))
  {
  }

  method Logout(s: Session) returns (resp: Response)
    modifies s
    ensures Outcome(resp, s.State()) == LogoutSpec(old(s.State()))
  {
    s.Destroy();
    resp := Redirect("/login");
  }
}
