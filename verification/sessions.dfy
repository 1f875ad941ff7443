/**
 * The per-browser session object `req.session` that every router reads and
 * writes. Each key the routes use is a field; a key that is absent (never set,
 * or removed with `delete`) is `None`.
 */
module Sessions {
  import opened Js

  /** `req.session.user`: the identity written on login or signup. */
  datatype SessionUser = SessionUser(id: nat, username: JsString)

  /**
   * The formatted weather record the weather form stores for one display.
   * Its fields are the already formatted values (rounding is not modelled).
   */
  datatype WeatherReport = WeatherReport(
    location: JsString,
    temperature: int,
    condition: JsString,
    description: JsString,
    feelsLike: int,
    humidity: int,
    windSpeed: real)

  /** A snapshot of every session key the routes touch. */
  datatype SessionState = SessionState(
    user: Option<SessionUser>,
    userId: Option<JsString>,
    weatherData: Option<WeatherReport>,
    weatherCity: Option<JsString>,
    weatherError: Option<JsString>,
    workoutError: Option<JsString>)

  /** The session a browser has before anything is stored, and after `destroy`. */
  const Fresh := SessionState(None, None, None, None, None, None)

  class Session {
    var user: Option<SessionUser>
    var userId: Option<JsString>
    var weatherData: Option<WeatherReport>
    var weatherCity: Option<JsString>
    var weatherError: Option<JsString>
    var workoutError: Option<JsString>

    function State(): SessionState
      reads this
    {
      SessionState(user, userId, weatherData, weatherCity, weatherError, workoutError)
    }

    constructor ()
      ensures State() == Fresh
    {
      user, userId := None, None;
      weatherData, weatherCity, weatherError := None, None, None;
      workoutError := None;
    }

    /** `req.session.destroy()`: the next request sees a fresh, empty session. */
    method Destroy()
      modifies this
      ensures State() == Fresh
    {
      user, userId := None, None;
      weatherData, weatherCity, weatherError := None, None, None;
      workoutError := None;
    }
  }
}
