# calendar-filter, modelled in Dafny

The calendar relay answers `GET /calendar.ics?url=...`. It fetches the
upstream iCalendar document, drops the events marked free, and returns
the rest as `text/calendar`. This project models the part of
`src/main.rs` that has real logic:

- **Transparency filter** (`CalendarFilter`, `calendar_filter.dfy`). The
  handler starts from an empty calendar. It walks the parsed calendar's
  top-level components in order and pushes every one that is not free. An
  event is free when its serialised text contains `TRANSP:TRANSPARENT`
  anywhere. The match is case-sensitive and exact. A component that is not
  an event is never free. `FilterCalendar` is that loop. `Kept` is the
  function it is proved against. The lemmas around `Kept` prove: the output
  is an order-preserving selection of exactly the non-free components; each
  component's multiplicity; length; identity when nothing is free; and
  idempotence.
- **Substring test** (`Substring`, `substring.dfy`). This is `str::contains`,
  written as a left-to-right scan. It is proved equivalent to "some slice
  equals the pattern".
- **Handler, error body and listen address** (`Server`, `server.dfy`). Each
  failure stage wraps its cause in its own message: fetch, body read, parse.
  The error response is status 500 with body
  `"Something went wrong: " + message`. The listen address is `"0.0.0.0:"`
  followed by the PORT variable. It falls back to `"3000"` when the variable
  is unset or is not Unicode, because `unwrap_or_else` catches every error
  `env::var` returns.

Components are `Event(text)` or `NonEvent(kind, payload)`. `text` stands for
what the calendar library prints for the event. The library's parser and
printer are not part of this model.

Three behaviours of the code are worth stating plainly:
- The filter does no structured TRANSP lookup. It runs a raw,
  case-sensitive substring test on the event's printed text. So printed
  texts `transp:transparent`, `TRANSP;X-A=B:TRANSPARENT`, and a marker with
  a line fold inside it (`TRANSP:TRANS` CRLF space `PARENT`) do not make an
  event free. These cases are about the text as the calendar library prints
  it. What the library does with upstream casing, parameters or folds
  before printing is not part of this model. A parameter does not defeat the test in
  general: `TRANSP;X-A=TRANSP:TRANSPARENT` is free
  (`ParameterEndingInTranspIsFree`). The marker inside any other
  property's value (a DESCRIPTION, say) does make the event free, even if
  the event also says `TRANSP:OPAQUE` (`MarkerInsideDescriptionIsFree`).
- A request without `url` is rejected by the query extractor (a 400)
  before the handler runs, so it never becomes an `AppError` 500.
- The HTTP client does not fail on a 4xx or 5xx upstream status
  (src/main.rs:30). An upstream error page goes on to the calendar parser
  and usually ends as `ParseFailed`. `FetchFailed` stands for every error
  the client's `get` reports: an unparseable URL, a failed connection or
  TLS set-up, an exhausted redirect limit. It never stands for an HTTP
  error status.

## Model

| member | source | states |
|---|---|---|
| `Substring.Contains` | src/main.rs:52 | the scan returns true exactly when some slice of the text equals the pattern |
| `Substring.ContainsEmbedded` | src/main.rs:52 | the pattern is found whatever text precedes and follows it |
| `Substring.NotContainsWithoutFirstChar` | src/main.rs:52 | a text that never holds the pattern's first character does not contain it |
| `CalendarFilter.IsFree` | src/main.rs:47-55 | a component is free exactly when it is an event whose text has the marker `TRANSP:TRANSPARENT` at some position; a non-event is never free |
| `CalendarFilter.FilterCalendar` | src/main.rs:41-60 | the loop builds a calendar with no calendar-level properties whose components are exactly the non-free components of the input, in input order |
| `CalendarFilter.KeptIsOrderedSelection` | src/main.rs:41-60 | the output is the input at strictly increasing positions, and a position is selected exactly when its component is not free: no reordering, duplication or invention |
| `CalendarFilter.KeptMultiplicity` | src/main.rs:47-58 | a non-free component occurs in the output as often as in the input; a free one never occurs |
| `CalendarFilter.KeptMembership` | src/main.rs:47-58 | a component is in the output exactly when it is in the input and not free |
| `CalendarFilter.NonEventsRetained` | src/main.rs:53-58 | every non-event component of the input is in the output, whatever its content |
| `CalendarFilter.FreeEventDropped` | src/main.rs:51-57 | an event whose text contains the marker anywhere is absent from the output |
| `CalendarFilter.OpaqueEventRetained` | src/main.rs:52-58 | an input event whose text lacks the exact marker is in the output, unchanged |
| `CalendarFilter.KeptLength` | src/main.rs:41-60 | the output length is the input length minus the number of free components |
| `CalendarFilter.NothingFreeIsIdentity` | src/main.rs:41-60 | with no free component the output equals the input |
| `CalendarFilter.NoEventsIsIdentity` | src/main.rs:41-60 | an input without events, the empty one included, comes out identical |
| `CalendarFilter.KeptIdempotent` | src/main.rs:47-58 | filtering the output again leaves it unchanged |
| `CalendarFilter.FilterStable` | src/main.rs:41-60 | any calendar meeting the filter loop's postconditions (no properties, kept components) is given back unchanged when filtered again |
| `CalendarFilter.OpaqueAndTransparentEvents` | src/main.rs:47-58 | of an opaque and a transparent event, only the opaque one is left |
| `CalendarFilter.LowerCaseMarkerIsNotFree` | src/main.rs:52 | the test is case-sensitive: a lower-case marker does not make an event free |
| `CalendarFilter.ParameterisedMarkerIsNotFree` | src/main.rs:52 | the printed line `TRANSP;X-A=B:TRANSPARENT` does not make an event free |
| `CalendarFilter.ParameterEndingInTranspIsFree` | src/main.rs:52 | a parameter value ending in `TRANSP` does not protect the event: `TRANSP;X-A=TRANSP:TRANSPARENT` is free |
| `CalendarFilter.FoldedPrintedMarkerIsNotFree` | src/main.rs:51-52 | a line fold inside the marker in the printed text defeats the test |
| `CalendarFilter.MarkerInsideDescriptionIsFree` | src/main.rs:46-52 | the marker inside another property's value makes the event free, even beside `TRANSP:OPAQUE` |
| `Server.ErrorResponse` | src/main.rs:77-82 | an error response has status 500, sets no header of its own, and has a body that is the prefix `Something went wrong: ` followed by exactly the description |
| `Server.ErrorBodyRoundTrip` | src/main.rs:80 | the description is recovered exactly from the error body, so distinct errors give distinct bodies |
| `Server.Handle` | src/main.rs:29-70 | a fetch, body-read or parse failure short-circuits to a 500 with that stage's message as `FailureMessage` spells it (src/main.rs:32, 35, 38); a parsed calendar gives a 200 `text/calendar` response holding the filtered fresh calendar |
| `Server.FailuresAreUniform` | src/main.rs:30-38 | every failure body carries the uniform prefix, then the stage message, and ends with the failure's cause |
| `Server.EffectivePort` | src/main.rs:16 | the port is the PORT variable's value when it is set and Unicode, otherwise `3000` |
| `Server.ListenAddress` | src/main.rs:16-17 | the address is `0.0.0.0:` followed by the effective port |
| `Server.ListenAddressRoundTrip` | src/main.rs:16-17 | the port is recovered from the address, and an unusable variable gives `0.0.0.0:3000` |

## Left out

- The router, the async runtime, binding and serving the TCP listener, and
  the start-up `println!` (src/main.rs:12-22, apart from the address string).
  These are process and I/O plumbing.
- The HTTP fetch and body read (src/main.rs:30-35). Their outcomes are an
  input to `Handle` (`Upstream`), and their error causes are opaque strings.
- Parsing the upstream text and printing components and calendars
  (src/main.rs:37-38, 51, 68). Both belong to the third-party calendar
  library. An event's printed text is the `text` field. A non-event's
  content is opaque. The model has no parser round-trip.
- The calendar-level properties (PRODID, VERSION, ...) the library supplies
  when it prints a fresh calendar. The model shows only that the fresh
  calendar carries none of the upstream's.
- Query-string extraction into `Params` (src/main.rs:24-29), and the
  framework's rejection of a request without `url`. This is library glue.
- The `anyhow` error wrapping and the `From` conversion
  (src/main.rs:73-74, 86-93). The model keeps only the message text each
  error displays.
- The content-type header the framework adds to a plain-text error body.
  `Handle`'s error responses list only the headers the handler sets, which
  is none.
