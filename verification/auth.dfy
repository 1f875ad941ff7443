/**
 * The second auth router, routes/auth.js: a POST /login that records only
 * `session.user`, and GET /logout. It reads the same users table as
 * routes/users.js and is compared with that router's login below.
 */
module Auth {
  import opened Js
  import opened Sessions
  import opened Http
  import opened Bcrypt
  import opened UserStore
  import Users

  /** POST /login of this router as a function of the session, the table and the body. */
  function LoginSpec(st: SessionState, rows: map<JsString, UserRow>, form: Users.LoginForm, env: Infra): Outcome {
    if env.lookupFails || form.username.None? then
      Outcome(Forward, st)
    else if form.username.value !in rows then
      Outcome(Render(LoginView(Users.InvalidCredentials(), NoForm)), st)
    else if env.compareFails || form.password.None? then
      Outcome(Forward, st)
    else if !Compare(form.password.value, rows[form.username.value].passwordHash) then
      Outcome(Render(LoginView(Users.InvalidCredentials(), NoForm)), st)
    else
      var name := form.username.value;
      Outcome(Redirect("/"), st.(user := Some(SessionUser(rows[name].id, name))))
  }

  /**
   * This login succeeds exactly when the queries work and the credentials are
   * authentic; it then sets `user` alone, leaving `userId` and every other key
   * as they were. Any other outcome leaves the session as it was.
   */
  lemma LoginSucceedsIff(st: SessionState, rows: map<JsString, UserRow>, form: Users.LoginForm, env: Infra)
    ensures LoginSpec(st, rows, form, env).resp == Redirect("/")
            <==> !env.lookupFails && !env.compareFails && Users.Authentic(rows, form)
    ensures LoginSpec(st, rows, form, env).resp == Redirect("/") ==>
              var name := form.username.value;
              LoginSpec(st, rows, form, env).session == st.(user := Some(SessionUser(rows[name].id, name)))
              && LoginSpec(st, rows, form, env).session.userId == st.userId
    ensures LoginSpec(st, rows, form, env).resp != Redirect("/") ==> LoginSpec(st, rows, form, env).session == st
  {
  }

  /**
   * An unknown username and a wrong password give the same page (with no form
   * echo) and leave the session alone. An unknown username gets it before the
   * password is looked at, so whether one was sent does not matter.
   */
  lemma LoginFailureIsUniform(st: SessionState, rows: map<JsString, UserRow>, form: Users.LoginForm, env: Infra)
    ensures !env.lookupFails && form.username.Some? && form.username.value !in rows ==>
              LoginSpec(st, rows, form, env) == Outcome(Render(LoginView(Users.InvalidCredentials(), NoForm)), st)
    ensures !env.lookupFails && !env.compareFails && form.username.Some? && form.password.Some?
            && !Users.Authentic(rows, form) ==>
              LoginSpec(st, rows, form, env) == Outcome(Render(LoginView(Users.InvalidCredentials(), NoForm)), st)
  {
  }

  /** A query or compare error reaches `next(err)` and never touches the session. */
  lemma LoginErrorsForward(st: SessionState, rows: map<JsString, UserRow>, form: Users.LoginForm, env: Infra)
    ensures LoginSpec(st, rows, form, env).resp == Forward ==> LoginSpec(st, rows, form, env).session == st
    ensures env.lookupFails || env.compareFails ==> LoginSpec(st, rows, form, env).resp != Redirect("/")
    ensures env.lookupFails ==> LoginSpec(st, rows, form, env) == Outcome(Forward, st)
    ensures !env.lookupFails && form.username.Some? && form.username.value in rows && env.compareFails ==>
              LoginSpec(st, rows, form, env) == Outcome(Forward, st)
  {
  }

  /**
   * The two routers accept and refuse the same logins with the same kind of
   * response. On success they differ only in `userId`, which this router
   * never sets, and both leave a session the guard lets through.
   */
  lemma LoginVariantsAgree(st: SessionState, rows: map<JsString, UserRow>, form: Users.LoginForm, env: Infra)
    ensures (LoginSpec(st, rows, form, env).resp == Redirect("/"))
            == (Users.LoginSpec(st, rows, form, env).resp == Redirect("/"))
    ensures (LoginSpec(st, rows, form, env).resp == Forward)
            == (Users.LoginSpec(st, rows, form, env).resp == Forward)
    ensures LoginSpec(st, rows, form, env).resp == Redirect("/") ==>
              && Users.LoginSpec(st, rows, form, env).session
                 == LoginSpec(st, rows, form, env).session.(userId := Some(form.username.value))
              && Users.RedirectLogin(LoginSpec(st, rows, form, env).session) == Users.Proceed
  {
  }

  method Login(s: Session, db: UserDb, form: Users.LoginForm, env: Infra) returns (resp: Response)
    modifies s
    ensures Outcome(resp, s.State()) == LoginSpec(old(s.State()), db.rows, form, env)
  {
    if env.lookupFails || form.username.None? {
      return Forward;
    }
    var name := form.username.value;
    if name !in db.rows {
      return Render(LoginView(Users.InvalidCredentials(), NoForm));
    }
    var row := db.rows[name];
    if env.compareFails || form.password.None? {
      return Forward;
    }
    var ok := Compare(form.password.value, row.passwordHash);
    if !ok {
      return Render(LoginView(Users.InvalidCredentials(), NoForm));
    }
    s.user := Some(SessionUser(row.id, name));
    resp := Redirect("/");
  }

  /** GET /logout of this router: the same as that of routes/users.js. */
  method Logout(s: Session) returns (resp: Response)
    modifies s
    ensures Outcome(resp, s.State()) == Users.LogoutSpec(old(s.State()))
  {
    s.Destroy();
    resp := Redirect("/login");
  }
}
