/**
 * The session-touching and input-guarding parts of routes/main.js: the
 * weather page's one-shot flash of three session keys, the search guard and
 * its LIKE parameters, and the outcome of logging a workout.
 */
module MainRoutes {
  import opened Js
  import opened Sessions
  import opened Http

  // ---------------------------------------------------------------- weather

  /** The `cod` field of the provider's JSON: the number 200 on success, anything else otherwise. */
  datatype Cod = CodNumber(n: int) | CodOther

  /**
   * How the outbound weather request ends. `Answered`: the body parsed as a
   * JSON object, with the HTTP status, its `cod`, its string `message` if any
   * and the formatted report (`None` when formatting it throws for lack of a
   * field). `Unparsable`: `JSON.parse` threw. `NetworkError`: the request
   * emitted 'error' with that message.
   */
  datatype FetchOutcome =
    | Answered(status: int, cod: Cod, message: Option<JsString>, report: Option<WeatherReport>)
    | Unparsable
    | NetworkError(reason: JsString)

  /** The request sent to the provider: the trimmed city and the API key. */
  datatype WeatherRequest = WeatherRequest(city: JsString, apiKey: JsString)

  /** What POST /weather leaves behind, and the request it sent if it sent one. */
  datatype WeatherPost = WeatherPost(resp: Response, session: SessionState, request: Option<WeatherRequest>)

  function NoCityMessage(): JsString { Lit("Please enter a ") + Lit("city name") }
  function NoKeyMessage(): JsString { Lit("Weather API key ") + Lit("not configured. ") + Lit("Please set ") + Lit("WEATHER_API_KEY ") + Lit("in .env file") }
  function CityNotFoundMessage(): JsString { Lit("City not found") }
  function ParseFailedMessage(): JsString { Lit("Failed to parse ") + Lit("weather data") }
  function FetchFailedPrefix(): JsString { Lit("Failed to fetch ") + Lit("weather data: ") }

  /** The three flash keys deleted, every other key kept. */
  function ClearWeather(st: SessionState): SessionState {
    st.(weatherData := None, weatherCity := None, weatherError := None)
  }

  /** `x || null` for a session key holding a string. */
  function OrNull(o: Option<JsString>): Option<JsString> {
    if Truthy(o) then o else None
  }

  /** What the response callbacks store for `city`, given how the request ended. */
  function Settle(st: SessionState, city: JsString, fetch: FetchOutcome): SessionState {
    match fetch
    case Answered(status, cod, message, report) =>
      if status == 200 && cod == CodNumber(200) then
        if report.Some? then st.(weatherData := report, weatherCity := Some(city))
        else st.(weatherError := Some(ParseFailedMessage()))
      else
        st.(weatherError := Some(if Truthy(message) then message.value else CityNotFoundMessage()))
    case Unparsable => st.(weatherError := Some(ParseFailedMessage()))
    case NetworkError(m) => st.(weatherError := Some(FetchFailedPrefix() + m))
  }

  /**
   * POST /weather as a function of the session, the `city` field, the API key
   * setting and the fetch. A city that `encodeURIComponent` refuses throws a
   * URIError while the URL is built, which Express hands to `next(err)`.
   */
  function SubmitWeatherSpec(st: SessionState, cityField: Option<JsString>, apiKey: Option<JsString>, fetch: FetchOutcome): WeatherPost {
    var cleared := ClearWeather(st);
    if cityField.None? || Trim(cityField.value) == [] then
      WeatherPost(Redirect("/weather"), cleared.(weatherError := Some(NoCityMessage())), None)
    else if !Truthy(apiKey) then
      WeatherPost(Redirect("/weather"), cleared.(weatherError := Some(NoKeyMessage())), None)
    else if !WellFormedUnicode(Trim(cityField.value)) then
      WeatherPost(Forward, cleared, None)
    else
      var city := Trim(cityField.value);
      WeatherPost(Redirect("/weather"), Settle(cleared, city, fetch), Some(WeatherRequest(city, apiKey.value)))
  }

  /** GET /weather as a function of the session. */
  function ShowWeatherSpec(st: SessionState): Outcome {
    Outcome(Render(WeatherView(ViewUser(st), st.weatherData, OrNull(st.weatherCity), OrNull(st.weatherError))),
            ClearWeather(st))
  }

  /** Whether a query or form field is missing or blank (`!x?.trim()`). */
  predicate Blank(field: Option<JsString>) {
    field.None? || forall i :: 0 <= i < |field.value| ==> IsTrimmable(field.value[i])
  }

  /**
   * A missing or blank city stores only "Please enter a city name"; a missing
   * API key stores only the "not configured" message; in both cases no
   * request is sent. A city with an unpaired surrogate is forwarded as an
   * error with the three keys deleted and nothing sent. Otherwise the request
   * goes out for the trimmed city, and the browser is sent back to /weather.
   */
  lemma SubmitWeatherGuards(st: SessionState, cityField: Option<JsString>, apiKey: Option<JsString>, fetch: FetchOutcome)
    ensures var p := SubmitWeatherSpec(st, cityField, apiKey, fetch);
            Blank(cityField) ==> p.request.None? && p.session == ClearWeather(st).(weatherError := Some(NoCityMessage()))
    ensures var p := SubmitWeatherSpec(st, cityField, apiKey, fetch);
            !Blank(cityField) && (apiKey.None? || apiKey == Some([])) ==>
              p.request.None? && p.session == ClearWeather(st).(weatherError := Some(NoKeyMessage()))
    ensures var p := SubmitWeatherSpec(st, cityField, apiKey, fetch);
            !Blank(cityField) && Truthy(apiKey) && !WellFormedUnicode(Trim(cityField.value)) ==>
              p == WeatherPost(Forward, ClearWeather(st), None)
    ensures var p := SubmitWeatherSpec(st, cityField, apiKey, fetch);
            p.request.Some? <==> !Blank(cityField) && Truthy(apiKey) && WellFormedUnicode(Trim(cityField.value))
    ensures var p := SubmitWeatherSpec(st, cityField, apiKey, fetch);
            p.request.Some? ==> p.request.value == WeatherRequest(Trim(cityField.value), apiKey.value)
    ensures var p := SubmitWeatherSpec(st, cityField, apiKey, fetch);
            p.resp == Redirect("/weather") || p.resp == Forward
    ensures var p := SubmitWeatherSpec(st, cityField, apiKey, fetch);
            p.resp == Forward <==> !Blank(cityField) && Truthy(apiKey) && !WellFormedUnicode(Trim(cityField.value))
  {
    if cityField.Some? {
      TrimEmptyIffBlank(cityField.value);
    }
  }

  /** A city of one lone high surrogate, as a JSON body can send it, is forwarded with nothing sent. */
  lemma LoneSurrogateCityForwards(st: SessionState, apiKey: Option<JsString>, fetch: FetchOutcome)
    requires Truthy(apiKey)
    ensures SubmitWeatherSpec(st, Some([0xD800 as CodeUnit]), apiKey, fetch) == WeatherPost(Forward, ClearWeather(st), None)
  {
    var city: JsString := [0xD800 as CodeUnit];
    assert Trim(city) == city;
  }

  /**
   * After any POST that redirects exactly one of two things is stored: the
   * report with the trimmed city and no error, or an error with neither
   * report nor city. A forwarded POST stores nothing. The report is stored
   * exactly when the request went out and came back with status 200, `cod`
   * 200 and a report that formats. No other key changes.
   */
  lemma SubmitWeatherExclusive(st: SessionState, cityField: Option<JsString>, apiKey: Option<JsString>, fetch: FetchOutcome)
    ensures var s := SubmitWeatherSpec(st, cityField, apiKey, fetch).session;
            || (fetch.Answered? && s.weatherData.Some? && s.weatherData == fetch.report
                && s.weatherCity == Some(Trim(cityField.value)) && s.weatherError.None?)
            || (s.weatherError.Some? && s.weatherData.None? && s.weatherCity.None?)
            || s == ClearWeather(st)
    ensures var p := SubmitWeatherSpec(st, cityField, apiKey, fetch);
            p.resp == Forward <==> p.session.weatherError.None? && p.session.weatherData.None?
    ensures var s := SubmitWeatherSpec(st, cityField, apiKey, fetch).session;
            !(s.weatherError.Some? && s.weatherData.Some?)
    ensures var p := SubmitWeatherSpec(st, cityField, apiKey, fetch);
            p.session.weatherData.Some?
            <==> p.request.Some? && fetch.Answered? && fetch.status == 200 && fetch.cod == CodNumber(200) && fetch.report.Some?
    ensures var s := SubmitWeatherSpec(st, cityField, apiKey, fetch).session;
            ClearWeather(s) == ClearWeather(st)
  {
    if !(cityField.None? || Trim(cityField.value) == []) && Truthy(apiKey) && WellFormedUnicode(Trim(cityField.value)) {
      SettleExclusive(ClearWeather(st), Trim(cityField.value), fetch);
    }
  }

  /** The response callbacks store either the report and the city, or an error alone. */
  lemma SettleExclusive(st: SessionState, city: JsString, fetch: FetchOutcome)
    requires st.weatherData.None? && st.weatherCity.None? && st.weatherError.None?
    ensures var s := Settle(st, city, fetch);
            || (fetch.Answered? && s.weatherData.Some? && s.weatherData == fetch.report
                && s.weatherCity == Some(city) && s.weatherError.None?)
            || (s.weatherError.Some? && s.weatherData.None? && s.weatherCity.None?)
    ensures Settle(st, city, fetch).weatherData.Some?
            <==> fetch.Answered? && fetch.status == 200 && fetch.cod == CodNumber(200) && fetch.report.Some?
    ensures ClearWeather(Settle(st, city, fetch)) == st
  {
  }

  /** The error stored for each way a sent request can fail. */
  lemma SubmitWeatherErrors(st: SessionState, cityField: Option<JsString>, apiKey: Option<JsString>, fetch: FetchOutcome)
    requires SubmitWeatherSpec(st, cityField, apiKey, fetch).request.Some?
    ensures var e := SubmitWeatherSpec(st, cityField, apiKey, fetch).session.weatherError;
            match fetch
            case Answered(status, cod, message, report) =>
              if status == 200 && cod == CodNumber(200) then
                e == (if report.Some? then None else Some(ParseFailedMessage()))
              else if message.Some? && message.value != [] then e == message
              else e == Some(CityNotFoundMessage())
            case Unparsable => e == Some(ParseFailedMessage())
            case NetworkError(m) => e == Some(FetchFailedPrefix() + m)
  {
  }

  /** Nothing stored by an earlier request survives a POST: its result does not depend on the old flash keys. */
  lemma SubmitWeatherForgetsEarlier(st1: SessionState, st2: SessionState, cityField: Option<JsString>, apiKey: Option<JsString>, fetch: FetchOutcome)
    requires ClearWeather(st1) == ClearWeather(st2)
    ensures SubmitWeatherSpec(st1, cityField, apiKey, fetch) == SubmitWeatherSpec(st2, cityField, apiKey, fetch)
  {
  }

  /**
   * GET /weather shows the stored keys and deletes them: right after, none of
   * the three is left and a second GET shows nothing.
   */
  lemma ShowWeatherConsumes(st: SessionState)
    ensures var o := ShowWeatherSpec(st);
            o.session.weatherData.None? && o.session.weatherCity.None? && o.session.weatherError.None?
            && o.session.user == st.user && o.session.userId == st.userId && o.session.workoutError == st.workoutError
    ensures ShowWeatherSpec(ShowWeatherSpec(st).session).resp == Render(WeatherView(st.user, None, None, None))
  {
  }

  /** The strings the response callbacks store for a non-empty city are non-empty. */
  lemma SettleStoresTruthy(st: SessionState, city: JsString, fetch: FetchOutcome)
    requires city != [] && st.weatherCity.None? && st.weatherError.None?
    ensures var s := Settle(st, city, fetch);
            OrNull(s.weatherCity) == s.weatherCity && OrNull(s.weatherError) == s.weatherError
  {
    match fetch
    case Answered(_, _, _, _) =>
      assert |ParseFailedMessage()| > 0 && |CityNotFoundMessage()| > 0;
    case Unparsable =>
      assert |ParseFailedMessage()| > 0;
    case NetworkError(m) =>
      assert |FetchFailedPrefix() + m| > 0;
  }

  /** Every string a POST stores in the flash keys is non-empty, so `|| null` keeps it. */
  lemma StoredFlashIsTruthy(st: SessionState, cityField: Option<JsString>, apiKey: Option<JsString>, fetch: FetchOutcome)
    ensures var s := SubmitWeatherSpec(st, cityField, apiKey, fetch).session;
            OrNull(s.weatherCity) == s.weatherCity && OrNull(s.weatherError) == s.weatherError
  {
    if cityField.None? || Trim(cityField.value) == [] {
      assert |NoCityMessage()| > 0;
    } else if !Truthy(apiKey) {
      assert |NoKeyMessage()| > 0;
    } else if WellFormedUnicode(Trim(cityField.value)) {
      SettleStoresTruthy(ClearWeather(st), Trim(cityField.value), fetch);
    }
  }

  /** The flash round trip: the GET after a POST shows exactly what the POST stored. */
  lemma WeatherFlashRoundTrip(st: SessionState, cityField: Option<JsString>, apiKey: Option<JsString>, fetch: FetchOutcome)
    ensures var s := SubmitWeatherSpec(st, cityField, apiKey, fetch).session;
            ShowWeatherSpec(s).resp == Render(WeatherView(st.user, s.weatherData, s.weatherCity, s.weatherError))
  {
    StoredFlashIsTruthy(st, cityField, apiKey, fetch);
  }

  method ShowWeather(s: Session) returns (resp: Response)
    modifies s
    ensures Outcome(resp, s.State()) == ShowWeatherSpec(old(s.State()))
  {
    var weatherData := s.weatherData;
    var city := OrNull(s.weatherCity);
    var error := OrNull(s.weatherError);
    s.weatherData := None;
    s.weatherCity := None;
    s.weatherError := None;
    resp := Render(WeatherView(ViewUser(s.State()), weatherData, city, error));
  }

  method SubmitWeather(s: Session, cityField: Option<JsString>, apiKey: Option<JsString>, fetch: FetchOutcome)
    returns (resp: Response, request: Option<WeatherRequest>)
    modifies s
    ensures WeatherPost(resp, s.State(), request) == SubmitWeatherSpec(old(s.State()), cityField, apiKey, fetch)
  {
    s.weatherData := None;
    s.weatherCity := None;
    s.weatherError := None;
    if cityField.None? || Trim(cityField.value) == [] {
      s.weatherError := Some(NoCityMessage());
      return Redirect("/weather"), None;
    }
    var city := Trim(cityField.value);
    if !Truthy(apiKey) {
      s.weatherError := Some(NoKeyMessage());
      return Redirect("/weather"), None;
    }
    if !WellFormedUnicode(city) {
      return Forward, None;
    }
    request := Some(WeatherRequest(city, apiKey.value));
    match fetch {
      case Answered(status, cod, message, report) =>
        if status == 200 && cod == CodNumber(200) {
          if report.Some? {
            s.weatherData := report;
            s.weatherCity := Some(city);
          } else {
            s.weatherError := Some(ParseFailedMessage());
          }
        } else {
          s.weatherError := Some(if Truthy(message) then message.value else CityNotFoundMessage());
        }
      case Unparsable =>
        s.weatherError := Some(ParseFailedMessage());
      case NetworkError(m) =>
        s.weatherError := Some(FetchFailedPrefix() + m);
    }
    resp := Redirect("/weather");
  }

  // ---------------------------------------------------------------- search

  /** What GET /search-results does with `search_text`: go back, or query with two LIKE patterns. */
  datatype SearchPlan =
    | BackToSearch
    | RunSearch(exercisePattern: JsString, notesPattern: JsString, searchText: JsString)

  /** The LIKE pattern `%text%`. */
  function Infix(text: JsString): (p: JsString)
    ensures |p| == |text| + 2 && p[0] == '%' as CodeUnit && p[|p| - 1] == '%' as CodeUnit
    ensures p[1..|p| - 1] == text
  {
    [('%' as int) as CodeUnit] + text + [('%' as int) as CodeUnit]
  }

  /**
   * A missing or blank `search_text` sends the browser back to /search without
   * a query; otherwise both patterns are the trimmed text wrapped in `%`, and
   * the trimmed text, which is not blank and has no white space at its ends,
   * is what the page echoes.
   */
  function PlanSearch(query: Option<JsString>): (p: SearchPlan)
    ensures p.BackToSearch? <==> Blank(query)
    ensures p.RunSearch? ==>
              && p.searchText == Trim(query.value) && p.searchText != []
              && Trim(p.searchText) == p.searchText
              && p.exercisePattern == p.notesPattern == Infix(p.searchText)
  {
    if query.None? then BackToSearch
    else
      TrimEmptyIffBlank(query.value);
      TrimIdempotent(query.value);
      var text := Trim(query.value);
      if text == [] then BackToSearch else RunSearch(Infix(text), Infix(text), text)
  }

  /**
   * GET /search-results, given the rows the query returned (`None` when it
   * failed): a redirect for a blank query, else the results page for the
   * trimmed text, empty and with an error message when the query failed.
   */
  function SearchResults(st: SessionState, query: Option<JsString>, found: Option<seq<Workout>>): (r: Response)
    ensures r == Redirect("/search") <==> Blank(query)
    ensures !Blank(query) ==> r.Render?
    ensures r.Render? ==>
              && r.page.SearchResultsView?
              && r.page.user == st.user
              && r.page.searchText == Trim(query.value)
              && (found.Some? ==> r.page.workouts == found.value && r.page.error.None?)
              && (found.None? ==> r.page.workouts == [] && r.page.error == Some(SearchFailedMessage()))
  {
    match PlanSearch(query)
    case BackToSearch => Redirect("/search")
    case RunSearch(_, _, text) =>
      Render(SearchResultsView(ViewUser(st), found.GetOr([]),
                               text, if found.None? then Some(SearchFailedMessage()) else None))
  }

  function SearchFailedMessage(): JsString { Lit("Failed to search ") + Lit("workouts") }

  // ---------------------------------------------------------------- add workout

  /** The POST /add-workout body. */
  datatype WorkoutForm = WorkoutForm(
    exercise: Option<JsString>,
    duration: Option<JsString>,
    date: Option<JsString>,
    notes: Option<JsString>)

  /**
   * The parameters of the INSERT: `date || today` and `notes || null`, the
   * exercise as sent and the duration as sent (its `parseInt` is not modelled).
   */
  function WorkoutParams(form: WorkoutForm, today: JsString): (w: Workout)
    ensures w.exercise == form.exercise && w.duration == form.duration
    ensures w.notes.None? <==> !Truthy(form.notes)
    ensures w.notes.Some? ==> w.notes == form.notes
    ensures w.notes != Some([])
    ensures Truthy(form.date) ==> w.date == form.date.value
    ensures !Truthy(form.date) ==> w.date == today
  {
    Workout(form.exercise, if Truthy(form.date) then form.date.value else today, form.duration, OrNull(form.notes))
  }

  datatype WorkoutPost = WorkoutPost(resp: Response, session: SessionState, row: Workout)

  function SaveFailedMessage(): JsString { Lit("Failed to save ") + Lit("workout. Please ") + Lit("try again.") }

  /**
   * POST /add-workout given whether the insert fails; an `undefined` exercise
   * is a bind parameter the driver rejects, so it fails too.
   */
  function AddWorkoutSpec(st: SessionState, form: WorkoutForm, today: JsString, insertFails: bool): WorkoutPost {
    var row := WorkoutParams(form, today);
    if insertFails || form.exercise.None? then
      WorkoutPost(Redirect("/add-workout"), st.(workoutError := Some(SaveFailedMessage())), row)
    else
      WorkoutPost(Redirect("/workouts"), st, row)
  }

  /**
   * A saved workout redirects to the list and leaves the session alone; a
   * failed one records the fixed message in `workoutError`, changes no other
   * key and sends the browser back to the form.
   */
  lemma AddWorkoutOutcome(st: SessionState, form: WorkoutForm, today: JsString, insertFails: bool)
    ensures var p := AddWorkoutSpec(st, form, today, insertFails);
            p.resp == Redirect("/workouts") <==> !insertFails && form.exercise.Some?
    ensures var p := AddWorkoutSpec(st, form, today, insertFails);
            p.resp == Redirect("/workouts") ==> p.session == st
    ensures var p := AddWorkoutSpec(st, form, today, insertFails);
            p.resp != Redirect("/workouts") ==>
              p.resp == Redirect("/add-workout")
              && p.session == st.(workoutError := Some(SaveFailedMessage()))
  {
  }

  method AddWorkout(s: Session, form: WorkoutForm, today: JsString, insertFails: bool) returns (resp: Response, row: Workout)
    modifies s
    ensures WorkoutPost(resp, s.State(), row) == AddWorkoutSpec(old(s.State()), form, today, insertFails)
  {
    row := WorkoutParams(form, today);
    if insertFails || form.exercise.None? {
      s.workoutError := Some(SaveFailedMessage());
      resp := Redirect("/add-workout");
    } else {
      resp := Redirect("/workouts");
    }
  }
}
