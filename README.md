# KeepDiving events service — a Dafny model

This project models the events service of the KeepDiving API
(`apps/api/src/events/events.service.ts`) in Dafny and proves properties
of that model. The service keeps two tables: the club's events (lake dives
and trips) and the reservations people make for them. It offers five
operations:

- `listByMonth("YYYY-MM")`: the events starting in that UTC month,
  ascending by start, each with its reservation count;
- `getById`: one event with its reservation count;
- `createAdmin`: validates and stores a new event;
- `reserve`: books a seat on a PUBLISHED event while seats are left;
- `listParticipants`: the RESERVED bookings of an event, in creation order.

The admin page's `toMonthStr` (`apps/admin/src/app/page.tsx`) produces the
month string the page sends to `listByMonth`. The model proves that the
service's parser reads that string back as the page's year and month.

Layout:

- `common.dfy` (`Common`): `Option`, `Result` and the two failures the
  service throws, `BadRequest(reason)` and `NotFound`.
- `js_string.dfy` (`JsString`): the JavaScript built-ins the service relies
  on. These are `trim` (with ECMAScript's white-space set), `parseInt(v, 10)`,
  `split` on one character, `String(n)` and `padStart`.
- `js_date.dfy` (`JsDate`): `Date.UTC(y, m, 1)` as ECMAScript's day
  arithmetic. It includes the month carry (month 12 is January of the next
  year) and the reading of years 0..99 as 1900 + year.
- `store_order.dfy` (`StoreOrder`): the database's `orderBy … asc`, as a
  sort proved to return an ascending permutation.
- `events_service.dfy` (`Events`): the tables, one pure function per
  operation and the lemmas about them. It also holds the class
  `EventsService`, whose fields are the two tables, the id counters and the
  clock. `CreateAdmin` and `Reserve` change those fields in place, run the
  checks in the source's order with early returns, are proved equal to the
  pure functions `NewEvent` and `Admit`, and keep the store invariant
  `Valid()`.
- `admin_page.dfy` (`AdminPage`): `toMonthStr` and its round trip through
  the service's parser.

Behaviour worth knowing, which the model follows:

- `createAdmin` never compares `endAt` with `startAt`
  (`events.service.ts:48-58`), so an event that ends before it starts is
  stored (`Events.EndBeforeStartIsStored`).
- `createAdmin` does not check the event type; the declared types are
  `LAKE_DIVE` and `TRAVEL` (`events.service.ts:35`), and the value is
  stored as given (`:62`).
- `listByMonth` accepts any year that `parseInt` reads as non-zero, with
  any number of digits (`events.service.ts:10-11`); years 0..99 are then
  read by `Date.UTC` as 1900 + year.
- The `_count` attached by `listByMonth` and `getById` counts every
  reservation of the event, whatever its status (`events.service.ts:21`,
  `:28`), while `reserve` compares only the RESERVED ones with the capacity
  (`:86-90`).

## Model

| member | source | states |
|---|---|---|
| Events.FindEvent | apps/api/src/events/events.service.ts:26-27 | `findUnique` by id finds a stored event with that id, and finds none exactly when no stored event has it |
| Events.ReservedForMember | apps/api/src/events/events.service.ts:86-88 | the `where: { eventId, status: "RESERVED" }` filter keeps a reservation exactly when it is in the ledger, belongs to the event and is RESERVED |
| Events.ReservationsOfMember | apps/api/src/events/events.service.ts:21 | the `_count.reservations` filter keeps a reservation exactly when it belongs to the event, whatever its status |
| Events.CountReservedAtMostCountAll | apps/api/src/events/events.service.ts:21 | the RESERVED count of an event never exceeds its total reservation count |
| Events.CountReservedAppend | apps/api/src/events/events.service.ts:86-94 | appending a reservation raises the RESERVED count of its own event by one if it is RESERVED, and changes no other event's count |
| Events.ParseMonthArg | apps/api/src/events/events.service.ts:10 | `split("-")` then `parseInt` never yields a negative year or month, because no piece holds a '-' |
| Events.MonthArgAccepted | apps/api/src/events/events.service.ts:10-13 | the guard accepts exactly when the parsed year is an integer ≥ 1 and the month an integer in 1..12 |
| Events.ParseYearMonth | apps/api/src/events/events.service.ts:10 | "Y-M" with two runs of digits is read as the two numbers they denote |
| Events.MonthWindow | apps/api/src/events/events.service.ts:15-16 | the window `[Date.UTC(y, m-1, 1), Date.UTC(y, m, 1))` is never empty |
| Events.StartingIn | apps/api/src/events/events.service.ts:19 | the `startAt: { gte, lt }` filter keeps every stored event whose start lies in the window, as often as it is stored, and nothing else; the end plays no part |
| Events.EnrichKeepsEvents | apps/api/src/events/events.service.ts:21 | attaching `_count` keeps the events and their order |
| Events.Listing | apps/api/src/events/events.service.ts:18-22 | the listing is ascending by start, holds exactly the window's events with their multiplicities, and each carries its total reservation count |
| Events.ListByMonth | apps/api/src/events/events.service.ts:8-23 | fails with BadRequest(InvalidMonth) exactly when the guard rejects the parsed numbers; otherwise returns the listing of the month's window |
| Events.ListByMonthRefusals | apps/api/src/events/events.service.ts:10-13 | "bad", "2026-13" and a missing argument are refused |
| Events.ListByMonthJanuary2026 | apps/api/src/events/events.service.ts:8-16 | "2026-01" is accepted and its window is [1 767 225 600 000, 1 769 904 000 000) ms, i.e. January 2026 UTC |
| Events.GetById | apps/api/src/events/events.service.ts:25-32 | NotFound exactly when no event has the id; otherwise a stored event with that id and its total reservation count |
| Events.ListParticipants | apps/api/src/events/events.service.ts:97-105 | NotFound exactly when the event is unknown; otherwise a permutation of its RESERVED reservations, ascending by createdAt, exactly the RESERVED ones of the event, as many as the count reserve compares with the capacity |
| Events.ParticipantsInBookingOrder | apps/api/src/events/events.service.ts:101-104 | in a consistent store the participants come back in ledger order, since the ledger is already ordered by creation time |
| Events.ReservedForIncreasing | apps/api/src/events/events.service.ts:103 | a ledger in increasing creation order gives its RESERVED reservations of an event in increasing creation order |
| Events.ParticipantsWithinCapacity | apps/api/src/events/events.service.ts:97-105 | in a consistent store an event never lists more participants than its capacity |
| Events.TrimmedOrAbsent | apps/api/src/events/events.service.ts:65-66 | `s?.trim() \|\| undefined` is absent exactly when the text is absent or all white space, and otherwise the trimmed, non-empty text |
| Events.NonEmptyOrAbsent | apps/api/src/events/events.service.ts:73 | `siteId \|\| undefined` drops only the empty string and keeps anything else verbatim |
| Events.NewEvent | apps/api/src/events/events.service.ts:34-76 | createAdmin only ever fails with BadRequest, and the stored row has the id given to it and the input's type |
| Events.CreateChecksInOrder | apps/api/src/events/events.service.ts:48-58 | the checks run in the order start, end, title, capacity, price; the first that fails decides the error; the call succeeds exactly when all five pass |
| Events.CreatedEventKeepsInput | apps/api/src/events/events.service.ts:62-72 | the stored row keeps the given status or DRAFT, the parsed start, the parsed end exactly when an end was given, and the depth as given |
| Events.CreatedEventIsNormalised | apps/api/src/events/events.service.ts:54-70 | the stored title is the given title trimmed, non-empty with no white space at either end; capacity and price are the floors of the given numbers and not negative; DRAFT when no status was given |
| Events.CreatedEventTextsNormalised | apps/api/src/events/events.service.ts:65-73 | description, meeting point and level are each the given text trimmed, absent exactly when none was given or it is all white space; the site id is the given one, absent exactly when none or "" was given |
| Events.CapacityExamples | apps/api/src/events/events.service.ts:55-56 | a capacity of 0.5 passes the check and is stored as 0, and 3.7 is stored as 3; 0 and -5 are refused |
| Events.EndBeforeStartIsStored | apps/api/src/events/events.service.ts:48-52 | an end before the start is accepted and stored as given |
| Events.Admit | apps/api/src/events/events.service.ts:78-95 | a successful reserve creates a RESERVED reservation of that event with the given id and time, the trimmed non-empty name and the trimmed phone |
| Events.ReserveChecksInOrder | apps/api/src/events/events.service.ts:79-90 | the checks run in the order event exists, PUBLISHED, name given, seat left; the first that fails decides the error; the call succeeds exactly when all four pass |
| Events.NoCapacityNoBooking | apps/api/src/events/events.service.ts:90 | an event with capacity 0 can never be booked |
| Events.OnlyPublishedBookable | apps/api/src/events/events.service.ts:81 | a DRAFT, CANCELLED or DONE event refuses every booking, whatever its seats |
| Events.BookingTakesOneSeat | apps/api/src/events/events.service.ts:86-94 | a successful booking takes one seat of its own event, stays within its capacity, and takes no seat of any other event |
| Events.FindEventUnique | apps/api/src/events/events.service.ts:79 | with unique ids, `findUnique` finds exactly the stored event with that id |
| Events.AdmitKeepsConsistent | apps/api/src/events/events.service.ts:78-95 | a successful reserve keeps the store consistent; in particular no event goes over its capacity |
| Events.NewEventKeepsConsistent | apps/api/src/events/events.service.ts:60-75 | a successful createAdmin keeps the store consistent: fresh id, capacity not negative, no reservations yet |
| Events.ScenarioFirstBooked | apps/api/src/events/events.service.ts:78-95 | on a PUBLISHED event of capacity 2, the first client gets a seat |
| Events.ScenarioSecondBooked | apps/api/src/events/events.service.ts:78-95 | then the second client gets the second seat |
| Events.ScenarioTwoReserved | apps/api/src/events/events.service.ts:86-88 | the two bookings are then the event's RESERVED reservations, in booking order |
| Events.ScenarioThirdRefused | apps/api/src/events/events.service.ts:90-105 | a third client is refused with NoSeatsLeft, and the participants are the first two clients in booking order |
| Events.EventsService.constructor | apps/api/src/events/events.service.ts:5-6 | the service is handed an existing database: any consistent pair of tables, kept as given, with the store invariant holding |
| Events.EmptyStoreConsistent | apps/api/src/events/events.service.ts:5-6 | a fresh, empty database is a consistent store to start the service from |
| Events.EventsService.CreateAdmin | apps/api/src/events/events.service.ts:34-76 | returns exactly `NewEvent` for the next id; on success it appends that row and advances the id; on failure it changes nothing; the store stays consistent |
| Events.EventsService.Reserve | apps/api/src/events/events.service.ts:78-95 | returns exactly `Admit` for the next id and the current time; on success it appends that reservation and advances the id and the clock; on failure it changes nothing; the store stays consistent |
| JsString.Trim | apps/api/src/events/events.service.ts:54 | `trim()` is empty exactly when the text is all white space, and otherwise neither starts nor ends with white space |
| JsString.TrimStartShape | apps/api/src/events/events.service.ts:10 | what `trimStart` removes is white space, and what it keeps does not start with white space |
| JsString.TrimEndShape | apps/api/src/events/events.service.ts:54 | what `trimEnd` removes is white space, and what it keeps does not end with white space |
| JsString.TrimIdempotent | apps/api/src/events/events.service.ts:64 | trimming twice is trimming once |
| JsString.ParseInt10 | apps/api/src/events/events.service.ts:10 | `parseInt(v, 10)` of a text without '-' is NaN or not negative |
| JsString.ParseDigits | apps/api/src/events/events.service.ts:10 | a non-empty run of digits parses to the number it denotes |
| JsString.ParseIgnoresSurroundings | apps/api/src/events/events.service.ts:10 | `parseInt` skips leading white space and ignores whatever follows the digits |
| JsString.JoinSplit | apps/api/src/events/events.service.ts:10 | joining the pieces of `split` gives back the text |
| JsString.SplitJoin | apps/api/src/events/events.service.ts:10 | splitting a join of separator-free pieces gives back the pieces |
| JsString.NatToDecimal | apps/admin/src/app/page.tsx:24 | `String(n)` is a non-empty run of digits without a leading zero that denotes n |
| JsString.PadStart | apps/admin/src/app/page.tsx:24 | `padStart` keeps the text as a suffix, fills in front with the fill character, and reaches the width |
| JsDate.MonthWindowLength | apps/api/src/events/events.service.ts:15-16 | the window of month m is exactly that month's number of days long, at least 28 days |
| JsDate.DecemberRollsOver | apps/api/src/events/events.service.ts:16 | for m = 12, `Date.UTC(y, 12, 1)` is the first instant of the next year |
| JsDate.MonthStartsIncrease | apps/api/src/events/events.service.ts:15-16 | month starts increase through the year, so the month windows are disjoint and in order |
| JsDate.EpochMonthStart | apps/api/src/events/events.service.ts:15 | anchor: `Date.UTC(1970, 0, 1)` is instant 0, the epoch |
| JsDate.January2026Window | apps/api/src/events/events.service.ts:15-16 | `Date.UTC(2026, 0, 1)` and `Date.UTC(2026, 1, 1)` are 1 767 225 600 000 and 1 769 904 000 000 ms |
| JsDate.December2026WindowEnd | apps/api/src/events/events.service.ts:16 | `Date.UTC(2026, 12, 1)` is 2027-01-01T00:00:00Z |
| StoreOrder.InsertBy | apps/api/src/events/events.service.ts:20 | inserting into an ascending sequence keeps it ascending and adds exactly that element |
| StoreOrder.SortBy | apps/api/src/events/events.service.ts:20 | `orderBy: { key: "asc" }` returns an ascending permutation of the rows |
| StoreOrder.SortBySorted | apps/api/src/events/events.service.ts:103 | rows already in key order come back unchanged |
| AdminPage.MonthDigits | apps/admin/src/app/page.tsx:24 | the zero-padded month is two digits denoting the month number |
| AdminPage.ToMonthStr | apps/admin/src/app/page.tsx:22-26 | the month string ends in '-' and two digits that denote month index + 1 |
| AdminPage.MonthStrRoundTrip | apps/admin/src/app/page.tsx:22-26 | for a year ≥ 1, the service's parser reads back the page's year and month number |
| AdminPage.MonthStrAccepted | apps/admin/src/app/page.tsx:22-26 | for a year ≥ 1, the service accepts the page's string and lists `[Date.UTC(year, monthIndex, 1), Date.UTC(year, monthIndex + 1, 1))` |
| AdminPage.MonthStrBeforeYearOneRefused | apps/admin/src/app/page.tsx:22-26 | for a year below 1 the page's string is refused: year 0 reads as the falsy 0, and a negative year leaves an empty first piece (NaN) |

## Left out

- Concurrency: `reserve` counts and then inserts without a transaction, so overlapping calls could overbook. The model runs calls one after another, so `Events.AdmitKeepsConsistent` holds only for calls that do not overlap.
- A JSON `null` or non-string `startAt` is not modelled. `None` in `CreateInput` stands for a missing key, which `new Date(undefined)` makes an Invalid Date. The controller passes the body untyped (`events.controller.ts:27`), so `"startAt": null` reaches the service, and `new Date(null)` is the valid instant 0 (1970-01-01T00:00:00Z). The source stores that event and the model refuses it. For the other fields, `null` behaves as a missing key.
- `new Date(s)` for ISO strings is not modelled. A map from the strings it accepts to their instants stands in for it, and any other string is an Invalid Date.
- ECMAScript's TimeClip: instants beyond ±8.64e15 ms become Invalid Date. The model's instants are unbounded integers.
- Database integer widths: the database schema is not part of this model. If its capacity and price columns are bounded integers, an out-of-range value would fail at the database. The model stores the unbounded floor, so no such error is modelled.
- The database's `include: { site: true }`: the site record attached to listed events is not modelled. Sites belong to another module.
- Database failures (connection, constraint errors) and the HTTP layer (controllers, authentication, the JSON body decoder) are not modelled.
- The exception messages are reduced to one `Reason` per distinct message.
- Ids are natural numbers handed out by counters instead of database-generated strings.
- `createdAt` is a clock that advances by one per reservation. The database's timestamps are not guaranteed to be strictly increasing.
- StoreOrder.SortBy: rows with equal keys keep their table order. The database promises no order among them, so this one order stands for all of them.
- `listByMonth` years 1..99: `Date.UTC` reads them as 1900 + year, so "0099-01" lists January 1999. The model reproduces this (`JsDate.FullYear`) but proves no lemma about it.
- Events.NewEvent: the value of `maxDepth` is passed through as given. Its check is left to the database, as in the source.
- Reservation status: `reserve` never sets a status (`events.service.ts:92-94`). The model assumes the schema gives new reservations the default status RESERVED, as the filters at `:86-88` and `:101-102` suggest. The schema is not part of this model.
- Reservation cancellation and check-in are not modelled. No operation of the service changes a reservation's status.
