/** The page's state and what a finished holiday request does to it
    (`handleGetCalendar` with the `.then` / `.catch` of its `useEffect`
    caller), and the choice between the error message and the calendar. */
module CalendarPage {
  import opened HolidayIndex
  import opened CalendarGrid

  /** What `res.json()` gives: the holiday records, or a rejection. */
  datatype Body = Parsed(holidays: seq<PublicHoliday>) | Unparsable

  /** How a request ends: the `fetch` promise rejects, or a response arrives. */
  datatype FetchOutcome = NetworkFailure | Response(status: int, body: Body)

  /** `res.ok`: the status lies in the range 200-299, as the Fetch Standard defines it. */
  predicate Ok(status: int)
  {
    200 <= status <= 299
  }

  /** The two state cells a request can change. */
  datatype PageState = PageState(error: bool, publicHolidays: seq<PublicHoliday>)

  /** The state after a request ends. A rejected `fetch` and a response that
      is not ok both reach `.catch` before any update. An ok response sets the
      error flag to "status is not 200"; then its parsed body replaces the
      holiday list, whatever the flag, unless `res.json()` rejects. */
  function ApplyFetch(s: PageState, r: FetchOutcome): PageState
  {
    match r
    case NetworkFailure => s
    case Response(status, body) =>
      if !Ok(status) then s
      else
        var error := status != 200;
        match body
        case Parsed(hs) => PageState(error, hs)
        case Unparsable => PageState(error, s.publicHolidays)
  }

  /** A failed request changes nothing: neither the flag nor the list. */
  lemma FailedRequestKeepsState(s: PageState, r: FetchOutcome)
    requires r.NetworkFailure? || !Ok(r.status)
    ensures ApplyFetch(s, r) == s
  {
  }

  /** An ok response decides the error flag by its status alone, and its
      parsed body becomes the list even when the flag is set. */
  lemma OkResponseUpdates(s: PageState, status: int, body: Body)
    requires Ok(status)
    ensures ApplyFetch(s, Response(status, body)).error <==> status != 200
    ensures body.Parsed? ==> ApplyFetch(s, Response(status, body)).publicHolidays == body.holidays
    ensures body.Unparsable? ==> ApplyFetch(s, Response(status, body)).publicHolidays == s.publicHolidays
  {
  }

  /** The error flag is raised only by an ok response whose status is not
      200 (201-299), or kept from before. */
  lemma ErrorFlagSource(s: PageState, r: FetchOutcome)
    ensures ApplyFetch(s, r).error ==> s.error || (r.Response? && 201 <= r.status <= 299)
  {
  }

  /** An HTTP 404 is not ok, so it is thrown before the flag is set: the
      flag and the list stay as they were, and a page without an error keeps
      showing its calendar rather than the error message. */
  lemma NotFoundKeepsState(s: PageState, body: Body)
    ensures ApplyFetch(s, Response(404, body)) == s
  {
  }

  /** Receiving the same outcome twice leaves the state of receiving it once.
      React runs an effect twice on mount in development (Strict Mode), so the
      page sends the same request twice; when both end alike, the duplicate
      changes nothing. */
  lemma ApplyFetchIdempotent(s: PageState, r: FetchOutcome)
    ensures ApplyFetch(ApplyFetch(s, r), r) == ApplyFetch(s, r)
  {
  }

  /** What the page shows: the "Failed to fetch data" message in both panels,
      or the grid beside the flat list of the holiday records. */
  datatype View = FailedToFetch | Calendar(months: seq<MonthGroup>, list: seq<PublicHoliday>)

  class Page {
    var year: int
    var location: string
    var publicHolidays: seq<PublicHoliday>
    var error: bool

    /** The initial state: the current year (passed in, as the clock is not
        modelled), "US", no holidays, no error. */
    constructor (currentYear: int)
      ensures year == currentYear && location == "US"
      ensures publicHolidays == [] && !error
    {
      year := currentYear;
      location := "US";
      publicHolidays := [];
      error := false;
    }

    function State(): PageState
      reads this
    {
      PageState(error, publicHolidays)
    }

    /** The request for the current year and location has ended with `r`. */
    method ReceiveFetch(r: FetchOutcome)
      modifies this
      ensures State() == ApplyFetch(old(State()), r)
      ensures year == old(year) && location == old(location)
    {
      match r
      case NetworkFailure =>
      case Response(status, body) =>
        if !Ok(status) {
          return;
        }
        if status != 200 {
          error := true;
        } else {
          error := false;
        }
        match body
        case Parsed(hs) =>
          publicHolidays := hs;
        case Unparsable =>
    }

    /** The body of the page: the error message when the flag is set,
        otherwise the grid built from the current holidays. */
    method Render() returns (v: View)
      requires WellDated(publicHolidays)
      ensures error <==> v.FailedToFetch?
      ensures !error ==> IsCalendar(year, Index(publicHolidays), v.months) && v.list == publicHolidays
    {
      if error {
        v := FailedToFetch;
      } else {
        var publicHolidaysMap := FromPublicHolidaysToMap(publicHolidays);
        var months := GenerateCalendar(year, publicHolidaysMap);
        v := Calendar(months, publicHolidays);
      }
    }
  }
}
