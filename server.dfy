/** The request handler around the filter, the error response and the
    listening address of the calendar relay. */
module Server {
  import opened CalendarFilter

  datatype Option<T> = None | Some(value: T)

  // ---------------------------------------------------------------------
  // Error responses

  const InternalServerError: nat := 500
  const StatusOk: nat := 200

  /** The text every error body starts with. */
  const ErrorPrefix: string := "Something went wrong: "

  /** What a response carries: a calendar (printed by the calendar library
      when sent) or plain text. */
  datatype Body = Ics(calendar: Calendar) | Plain(text: string)

  datatype Header = Header(name: string, value: string)

  datatype Response = Response(status: nat, headers: seq<Header>, body: Body)

  /** An error turned into a response: status 500 and the error's
      description behind the fixed prefix. */
  function ErrorResponse(description: string): (r: Response)
    ensures r.status == InternalServerError && r.headers == [] && r.body.Plain?
    ensures |r.body.text| == |ErrorPrefix| + |description|
    ensures r.body.text[..|ErrorPrefix|] == ErrorPrefix
    ensures r.body.text[|ErrorPrefix|..] == description
  {
    Response(InternalServerError, [], Plain(ErrorPrefix + description))
  }

  /** Recovers the description from an error body, if it has the prefix. */
  function ErrorDescription(body: string): (d: Option<string>)
  {
    if |body| >= |ErrorPrefix| && body[..|ErrorPrefix|] == ErrorPrefix
    then Some(body[|ErrorPrefix|..])
    else None
  }

  /** The description of an error is recovered exactly from its response
      body, so distinct errors give distinct bodies. */
  lemma ErrorBodyRoundTrip(description: string)
    ensures ErrorDescription(ErrorResponse(description).body.text) == Some(description)
  {
    var r := ErrorResponse(description);
    assert r.body.text[..|ErrorPrefix|] == ErrorPrefix;
  }

  // ---------------------------------------------------------------------
  // The handler

  /** How retrieving and parsing the upstream calendar ended. The causes are
      the descriptions of the errors the HTTP client and the calendar parser
      report, which this model does not see. */
  datatype Upstream =
    | FetchFailed(cause: string)
    | ReadFailed(cause: string)
    | ParseFailed(cause: string)
    | Parsed(calendar: Calendar)

  /** The message each failing stage wraps its cause in. */
  function FailureMessage(u: Upstream): string
    requires !u.Parsed?
  {
    match u
    case FetchFailed(e) => "Failed to fetch upstream ICS: " + e
    case ReadFailed(e) => "Failed to read upstream body: " + e
    case ParseFailed(e) => "Failed to parse ICS: " + e
  }

  const CalendarContentType: Header := Header("content-type", "text/calendar")

  /** Answers one request given how the upstream stages ended: any failure
      short-circuits to the error response carrying that stage's message; a
      parsed calendar is filtered into a fresh calendar sent as
      `text/calendar`. */
  method Handle(upstream: Upstream) returns (response: Response)
    ensures upstream.Parsed? ==>
      && response.status == StatusOk
      && response.headers == [CalendarContentType]
      && response.body == Ics(Calendar([], Kept(upstream.calendar.components)))
    ensures !upstream.Parsed? ==>
      && response.status == InternalServerError
      && response.headers == []
      && response.body == Plain(ErrorPrefix + FailureMessage(upstream))
  {
    if !upstream.Parsed? {
      return ErrorResponse(FailureMessage(upstream));
    }
    var filtered := FilterCalendar(upstream.calendar);
    response := Response(StatusOk, [CalendarContentType], Ics(filtered));
  }

  /** Every failure, whatever the stage, is a 500 whose body starts with the
      uniform prefix and ends with the failing stage's cause. */
  lemma FailuresAreUniform(upstream: Upstream)
    requires !upstream.Parsed?
    ensures var body := ErrorResponse(FailureMessage(upstream)).body.text;
            ErrorDescription(body) == Some(FailureMessage(upstream))
            && body[|body| - |upstream.cause|..] == upstream.cause
  {
    ErrorBodyRoundTrip(FailureMessage(upstream));
    var m := FailureMessage(upstream);
    assert m[|m| - |upstream.cause|..] == upstream.cause;
    var body := ErrorPrefix + m;
    assert body[|body| - |upstream.cause|..] == m[|m| - |upstream.cause|..];
  }

  // ---------------------------------------------------------------------
  // Listening address

  /** How reading the PORT environment variable ended: set to a Unicode
      value, unset, or set to something that is not Unicode. */
  datatype PortVariable = Set(value: string) | Unset | NotUnicode

  const DefaultPort: string := "3000"
  const AllInterfaces: string := "0.0.0.0:"

  /** The port to listen on: the variable's value, or the default when the
      variable cannot be read for any reason. */
  function EffectivePort(v: PortVariable): (port: string)
    ensures v.Set? ==> port == v.value
    ensures !v.Set? ==> port == DefaultPort
  {
    match v
    case Set(p) => p
    case _ => DefaultPort
  }

  /** The address the server binds: all interfaces, then the port. */
  function ListenAddress(v: PortVariable): (addr: string)
    ensures |addr| >= |AllInterfaces| && addr[..|AllInterfaces|] == AllInterfaces
    ensures addr[|AllInterfaces|..] == EffectivePort(v)
  {
    AllInterfaces + EffectivePort(v)
  }

  /** The port part of a listening address, if it is one. */
  function PortOf(addr: string): Option<string>
  {
    if |addr| >= |AllInterfaces| && addr[..|AllInterfaces|] == AllInterfaces
    then Some(addr[|AllInterfaces|..])
    else None
  }

  /** The port chosen at start-up is recovered from the address, and the
      address is `0.0.0.0:3000` when the variable is unusable. */
  lemma ListenAddressRoundTrip(v: PortVariable)
    ensures PortOf(ListenAddress(v)) == Some(EffectivePort(v))
    ensures !v.Set? ==> ListenAddress(v) == "0.0.0.0:3000"
  {
    var addr := ListenAddress(v);
    assert addr[..|AllInterfaces|] == AllInterfaces;
  }
}
