/**
 * What a route handler does with the response: redirect, render a view with
 * its data object, or hand an error to `next(err)`.
 */
module Http {
  import opened Js
  import opened Sessions

  /** The `form` object passed to the login view. */
  datatype LoginEcho =
    | NoForm                                  // the view gets no `form` at all
    | EchoUsername(username: Option<JsString>) // `form: { username }`

  /** A row of the workouts table as the list and search views receive it. */
  datatype Workout = Workout(
    exercise: Option<JsString>,
    date: JsString,
    duration: Option<JsString>,
    notes: Option<JsString>)

  /** The data object of each view whose contents the model tracks. */
  datatype Page =
    | LoginView(message: JsString, form: LoginEcho)
    | SignupView(message: JsString, username: JsString, email: JsString)
    | WeatherView(user: Option<SessionUser>, weather: Option<WeatherReport>,
                  city: Option<JsString>, error: Option<JsString>)
    | SearchResultsView(user: Option<SessionUser>, workouts: seq<Workout>,
                        searchText: JsString, error: Option<JsString>)

  datatype Response =
    | Redirect(location: string)
    | Render(page: Page)
    | Forward  // `next(err)`: the error goes to the application's error handler

  /** What a handler leaves behind: its response and the session afterwards. */
  datatype Outcome = Outcome(resp: Response, session: SessionState)

  /** `req.session.user || null`, the `user` field every page of the main router receives. */
  function ViewUser(st: SessionState): Option<SessionUser> {
    match st.user
    case Some(v) => Some(v)
    case None => None
  }
}
