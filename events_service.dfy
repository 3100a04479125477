/** The events service of the API (`EventsService`): dive events and the
    reservations made for them.

    The two database tables are sequences: `events` (looked up by id) and
    `reservations` (an append-only ledger, oldest first). The read-only
    operations (listByMonth, getById, listParticipants) are functions over
    the tables; the two writing operations (createAdmin, reserve) are methods
    of the class `EventsService`, each specified by a function that computes
    its outcome from the old tables. */
module Events {
  import opened Common
  import opened JsString
  import opened JsDate
  import opened StoreOrder

  /** Database ids are opaque; the model allocates them from counters. */
  type Id = nat

  datatype EventType = LakeDive | Travel
  datatype EventStatus = Draft | Published | Cancelled | Done
  datatype ReservationStatus = Reserved | Cancelled | CheckedIn

  /** A JavaScript value where the service expects a number: a finite number,
      or anything `Number.isFinite` rejects (NaN, an infinity, a non-number). */
  datatype JsNumber = Finite(value: real) | NonFinite

  /** A row of the event table. Instants are milliseconds since the epoch. */
  datatype Event = Event(
    id: Id,
    eventType: EventType,
    status: EventStatus,
    title: string,
    description: Option<string>,
    meetingPoint: Option<string>,
    startAt: int,
    endAt: Option<int>,
    capacity: int,
    priceArs: int,
    minLevel: Option<string>,
    maxDepth: Option<JsNumber>,
    siteId: Option<string>)

  /** A row of the reservation table. */
  datatype Reservation = Reservation(
    id: Id,
    eventId: Id,
    userName: string,
    phone: Option<string>,
    status: ReservationStatus,
    createdAt: int)

  /** An event as listByMonth and getById return it, with
      `_count.reservations`: the number of ALL its reservations. */
  datatype EventView = EventView(event: Event, reservationCount: nat)

  function StartAtOf(e: Event): int { e.startAt }
  function CreatedAtOf(x: Reservation): int { x.createdAt }

  // ------------------------------------------------------------ table queries

  predicate HasEvent(events: seq<Event>, id: Id) {
    exists e :: e in events && e.id == id
  }

  /** `event.findUnique({ where: { id } })`. */
  function FindEvent(events: seq<Event>, id: Id): (r: Option<Event>)
    ensures r.Some? ==> r.value in events && r.value.id == id
    ensures r.None? <==> !HasEvent(events, id)
  {
    if events == [] then None
    else if events[0].id == id then Some(events[0])
    else
      var r := FindEvent(events[1..], id);
      assert HasEvent(events, id) ==> HasEvent(events[1..], id) by {
        if HasEvent(events, id) {
          var e :| e in events && e.id == id;
          assert e != events[0];
        }
      }
      r
  }

  /** The reservations of one event, whatever their status, in ledger order
      (`where: { eventId }`). */
  function ReservationsOf(rs: seq<Reservation>, id: Id): (r: seq<Reservation>)
    ensures |r| <= |rs|
  {
    if rs == [] then []
    else
      var last := rs[|rs| - 1];
      ReservationsOf(rs[..|rs| - 1], id) + (if last.eventId == id then [last] else [])
  }

  /** The RESERVED reservations of one event, in ledger order
      (`where: { eventId, status: "RESERVED" }`). */
  function ReservedFor(rs: seq<Reservation>, id: Id): (r: seq<Reservation>)
    ensures |r| <= |rs|
  {
    if rs == [] then []
    else
      var last := rs[|rs| - 1];
      ReservedFor(rs[..|rs| - 1], id)
        + (if last.eventId == id && last.status == Reserved then [last] else [])
  }

  /** ReservationsOf keeps exactly the reservations of the event. */
  lemma {:induction false} ReservationsOfMember(rs: seq<Reservation>, id: Id, x: Reservation)
    ensures x in ReservationsOf(rs, id) <==> x in rs && x.eventId == id
    decreases |rs|
  {
    if rs != [] {
      ReservationsOfMember(rs[..|rs| - 1], id, x);
      assert rs == rs[..|rs| - 1] + [rs[|rs| - 1]];
    }
  }

  /** ReservedFor keeps exactly the RESERVED reservations of the event. */
  lemma {:induction false} ReservedForMember(rs: seq<Reservation>, id: Id, x: Reservation)
    ensures x in ReservedFor(rs, id) <==> x in rs && x.eventId == id && x.status == Reserved
    decreases |rs|
  {
    if rs != [] {
      ReservedForMember(rs[..|rs| - 1], id, x);
      assert rs == rs[..|rs| - 1] + [rs[|rs| - 1]];
    }
  }

  /** `_count: { select: { reservations: true } }`. */
  function CountAll(rs: seq<Reservation>, id: Id): nat {
    |ReservationsOf(rs, id)|
  }

  /** `eventReservation.count({ where: { eventId, status: "RESERVED" } })`. */
  function CountReserved(rs: seq<Reservation>, id: Id): nat {
    |ReservedFor(rs, id)|
  }

  /** The enrichment count is not the admission count: it also counts
      reservations that are not RESERVED, so it is never smaller. */
  lemma {:induction false} CountReservedAtMostCountAll(rs: seq<Reservation>, id: Id)
    ensures CountReserved(rs, id) <= CountAll(rs, id)
    decreases |rs|
  {
    if rs != [] {
      CountReservedAtMostCountAll(rs[..|rs| - 1], id);
    }
  }

  lemma ReservedForAppend(rs: seq<Reservation>, x: Reservation, id: Id)
    ensures ReservedFor(rs + [x], id)
            == ReservedFor(rs, id) + (if x.eventId == id && x.status == Reserved then [x] else [])
  {
    assert (rs + [x])[..|rs + [x]| - 1] == rs;
  }

  /** A new reservation adds one to the RESERVED count of its own event when
      it is RESERVED, and leaves every other event's count as it was. */
  lemma CountReservedAppend(rs: seq<Reservation>, x: Reservation, id: Id)
    ensures CountReserved(rs + [x], id)
            == CountReserved(rs, id) + (if x.eventId == id && x.status == Reserved then 1 else 0)
  {
    ReservedForAppend(rs, x, id);
  }

  // ------------------------------------------------------------ listByMonth

  /** The two numbers `listByMonth` reads from its argument. */
  datatype MonthArg = MonthArg(year: IntOrNaN, month: IntOrNaN)

  /** `(month ?? "").split("-").map((v) => parseInt(v, 10))`, destructured as
      `[y, m]`; a missing second piece (`undefined`) is read as NaN, which is
      just as falsy. Pieces never hold a '-', so neither number is negative. */
  function ParseMonthArg(month: Option<string>): (a: MonthArg)
    ensures a.year.NaN? || a.year.value >= 0
    ensures a.month.NaN? || a.month.value >= 0
  {
    var pieces := Split(if month.Some? then month.value else "", '-');
    MonthArg(ParseInt10(pieces[0]), if |pieces| >= 2 then ParseInt10(pieces[1]) else NaN)
  }

  /** The guard `!y || !m || m < 1 || m > 12`. */
  predicate MonthArgRejected(a: MonthArg) {
    Falsy(a.year) || Falsy(a.month) || a.month.value < 1 || a.month.value > 12
  }

  /** What the guard means once parsing is taken into account: an argument
      is accepted exactly when it names a year of at least 1 and a month
      between 1 and 12. */
  lemma MonthArgAccepted(month: Option<string>)
    ensures var a := ParseMonthArg(month);
      !MonthArgRejected(a)
      <==> a.year.Int? && a.year.value >= 1 && a.month.Int? && 1 <= a.month.value <= 12
  {
  }

  /** `[Date.UTC(y, m - 1, 1), Date.UTC(y, m, 1))`: the month's half-open
      window of start instants. */
  function MonthWindow(a: MonthArg): (w: (int, int))
    requires !MonthArgRejected(a)
    ensures w.0 < w.1
  {
    MonthWindowLength(a.year.value, a.month.value);
    (UtcMonthStart(a.year.value, a.month.value - 1), UtcMonthStart(a.year.value, a.month.value))
  }

  /** The events whose start lies in [lo, hi), in table order: every stored
      event is kept as often as it is stored when its start lies in the
      window, and dropped otherwise (the end instant plays no part). */
  function StartingIn(events: seq<Event>, lo: int, hi: int): (r: seq<Event>)
    ensures forall e :: multiset(r)[e] == if lo <= e.startAt < hi then multiset(events)[e] else 0
  {
    if events == [] then []
    else
      assert events == [events[0]] + events[1..];
      (if lo <= events[0].startAt < hi then [events[0]] else []) + StartingIn(events[1..], lo, hi)
  }

  /** Attaches `_count.reservations` to each event. */
  function Enrich(es: seq<Event>, rs: seq<Reservation>): (r: seq<EventView>)
    ensures |r| == |es|
    ensures forall i :: 0 <= i < |es| ==> r[i].event == es[i]
    ensures forall v :: v in r ==> v.reservationCount == CountAll(rs, v.event.id)
  {
    seq(|es|, i requires 0 <= i < |es| => EventView(es[i], CountAll(rs, es[i].id)))
  }

  function EventsOf(vs: seq<EventView>): (r: seq<Event>)
    ensures |r| == |vs|
    ensures forall i :: 0 <= i < |vs| ==> r[i] == vs[i].event
  {
    seq(|vs|, i requires 0 <= i < |vs| => vs[i].event)
  }

  /** Enriching keeps the events and their order. */
  lemma EnrichKeepsEvents(es: seq<Event>, rs: seq<Reservation>)
    ensures EventsOf(Enrich(es, rs)) == es
  {
    var vs := Enrich(es, rs);
    assert forall i :: 0 <= i < |es| ==> EventsOf(vs)[i] == es[i];
  }

  /** The listing of one window: exactly the stored events whose start lies
      in [lo, hi), each as often as it is stored, ascending by start, each
      with its reservation count. */
  function Listing(events: seq<Event>, rs: seq<Reservation>, lo: int, hi: int): (r: seq<EventView>)
    ensures SortedBy(EventsOf(r), StartAtOf)
    ensures forall e :: multiset(EventsOf(r))[e] == if lo <= e.startAt < hi then multiset(events)[e] else 0
    ensures forall v :: v in r ==> v.reservationCount == CountAll(rs, v.event.id)
  {
    var sorted := SortBy(StartingIn(events, lo, hi), StartAtOf);
    EnrichKeepsEvents(sorted, rs);
    Enrich(sorted, rs)
  }

  /** `listByMonth(month)`. Fails with BadRequest exactly when the guard
      rejects the parsed numbers; otherwise lists exactly the stored events
      whose start lies in the month's UTC window, each as often as it is
      stored, ascending by start, each with its reservation count. */
  function ListByMonth(events: seq<Event>, rs: seq<Reservation>, month: Option<string>)
    : (r: Result<seq<EventView>>)
    ensures r.Err? <==> MonthArgRejected(ParseMonthArg(month))
    ensures r.Err? ==> r.error == BadRequest(InvalidMonth)
    ensures r.Ok? ==> r.value == Listing(events, rs, MonthWindow(ParseMonthArg(month)).0,
                                         MonthWindow(ParseMonthArg(month)).1)
  {
    var a := ParseMonthArg(month);
    if MonthArgRejected(a) then Err(BadRequest(InvalidMonth))
    else Ok(Listing(events, rs, MonthWindow(a).0, MonthWindow(a).1))
  }

  /** "Y-M" with two runs of digits reads as the two numbers they denote. */
  lemma ParseYearMonth(y: string, m: string)
    requires y != [] && AllDigits(y) && m != [] && AllDigits(m)
    ensures ParseMonthArg(Some(y + "-" + m)) == MonthArg(Int(DecimalValue(y)), Int(DecimalValue(m)))
  {
    assert '-' !in y && '-' !in m by {
      assert !IsDigit('-');
    }
    SplitJoin([y, m], '-');
    assert Join([y, m], '-') == y + "-" + m by {
      assert Join([y, m][1..], '-') == m;
    }
    ParseDigits(y);
    ParseDigits(m);
  }

  lemma ParseBad()
    ensures ParseMonthArg(Some("bad")).year == NaN
  {
  }

  lemma Parse2026Month13()
    ensures ParseMonthArg(Some("2026-13")) == MonthArg(Int(2026), Int(13))
  {
    Value2026();
    assert DecimalValue("13") == 13 by {
      assert "13"[..1] == "1";
    }
    ParseYearMonth("2026", "13");
    assert "2026" + "-" + "13" == "2026-13";
  }

  lemma Parse2026Month01()
    ensures ParseMonthArg(Some("2026-01")) == MonthArg(Int(2026), Int(1))
  {
    Value2026();
    assert DecimalValue("01") == 1 by {
      assert "01"[..1] == "0";
    }
    ParseYearMonth("2026", "01");
    assert "2026" + "-" + "01" == "2026-01";
  }

  lemma Value2026()
    ensures AllDigits("2026") && DecimalValue("2026") == 2026
  {
    assert "2026"[..3] == "202" && "202"[..2] == "20" && "20"[..1] == "2";
  }

  /** An argument that parses to a year of at least 1 and a month 1..12 is
      accepted. */
  lemma ParsedAs(month: Option<string>, y: int, m: int)
    requires ParseMonthArg(month) == MonthArg(Int(y), Int(m))
    requires y >= 1 && 1 <= m <= 12
    ensures !MonthArgRejected(ParseMonthArg(month))
  {
  }

  /** ... and its window is that of month `monthIndex` (0 = January). */
  lemma ParsedAsWindow(month: Option<string>, y: int, monthIndex: int)
    requires ParseMonthArg(month) == MonthArg(Int(y), Int(monthIndex + 1))
    requires y >= 1 && 0 <= monthIndex < 12
    ensures MonthWindow(ParseMonthArg(month)) == (UtcMonthStart(y, monthIndex), UtcMonthStart(y, monthIndex + 1))
  {
    WindowOf(y, monthIndex);
  }

  lemma WindowOf(y: int, monthIndex: int)
    requires y >= 1 && 0 <= monthIndex < 12
    ensures MonthWindow(MonthArg(Int(y), Int(monthIndex + 1)))
            == (UtcMonthStart(y, monthIndex), UtcMonthStart(y, monthIndex + 1))
  {
  }

  /** "bad", "2026-13" and a missing argument are refused. */
  lemma ListByMonthRefusals(events: seq<Event>, rs: seq<Reservation>)
    ensures ListByMonth(events, rs, Some("bad")) == Err(BadRequest(InvalidMonth))
    ensures ListByMonth(events, rs, Some("2026-13")) == Err(BadRequest(InvalidMonth))
    ensures ListByMonth(events, rs, None) == Err(BadRequest(InvalidMonth))
  {
    ParseBad();
    Parse2026Month13();
  }

  /** "2026-01" lists the events that start in
      [2026-01-01T00:00:00Z, 2026-02-01T00:00:00Z). */
  lemma ListByMonthJanuary2026(events: seq<Event>, rs: seq<Reservation>)
    ensures ListByMonth(events, rs, Some("2026-01")).Ok?
    ensures MonthWindow(ParseMonthArg(Some("2026-01"))) == (1_767_225_600_000, 1_769_904_000_000)
  {
    Parse2026Month01();
    ParsedAs(Some("2026-01"), 2026, 1);
    WindowJanuary2026();
  }

  lemma WindowJanuary2026()
    ensures MonthWindow(MonthArg(Int(2026), Int(1))) == (1_767_225_600_000, 1_769_904_000_000)
  {
    January2026Window();
  }

  // ------------------------------------------------------------ getById

  /** `getById(id)`: the event with that id and its reservation count, or
      NotFound when there is none. */
  function GetById(events: seq<Event>, rs: seq<Reservation>, id: Id): (r: Result<EventView>)
    ensures r.Err? <==> !HasEvent(events, id)
    ensures r.Err? ==> r.error == NotFound
    ensures r.Ok? ==> r.value.event in events && r.value.event.id == id
    ensures r.Ok? ==> r.value.reservationCount == CountAll(rs, id)
  {
    var ev := FindEvent(events, id);
    if ev.None? then Err(NotFound) else Ok(EventView(ev.value, CountAll(rs, id)))
  }

  // ------------------------------------------------------------ listParticipants

  /** `listParticipants(eventId)`: NotFound for an unknown event, otherwise
      exactly its RESERVED reservations, ascending by creation time, as many
      as the count that reserve compares with the capacity. */
  function ListParticipants(events: seq<Event>, rs: seq<Reservation>, id: Id)
    : (r: Result<seq<Reservation>>)
    ensures r.Err? <==> !HasEvent(events, id)
    ensures r.Err? ==> r.error == NotFound
    ensures r.Ok? ==> SortedBy(r.value, CreatedAtOf)
    ensures r.Ok? ==> forall x :: x in r.value <==> x in rs && x.eventId == id && x.status == Reserved
    ensures r.Ok? ==> multiset(r.value) == multiset(ReservedFor(rs, id))
    ensures r.Ok? ==> |r.value| == CountReserved(rs, id)
  {
    if FindEvent(events, id).None? then Err(NotFound)
    else
      var reserved := ReservedFor(rs, id);
      var ps := SortBy(reserved, CreatedAtOf);
      assert forall x :: x in ps <==> x in rs && x.eventId == id && x.status == Reserved by {
        forall x ensures x in ps <==> x in rs && x.eventId == id && x.status == Reserved {
          ReservedForMember(rs, id, x);
          assert x in ps <==> x in multiset(ps);
          assert x in reserved <==> x in multiset(reserved);
        }
      }
      assert |ps| == |multiset(ps)| == |multiset(reserved)|;
      Ok(ps)
  }

  // ------------------------------------------------------------ createAdmin

  /** The body of `createAdmin`, as the JSON decoder hands it over; a key
      that is missing from the body (`undefined`) is None. */
  datatype CreateInput = CreateInput(
    eventType: EventType,
    status: Option<EventStatus>,
    title: Option<string>,
    description: Option<string>,
    meetingPoint: Option<string>,
    startAt: Option<string>,
    endAt: Option<string>,
    capacity: JsNumber,
    priceArs: JsNumber,
    minLevel: Option<string>,
    maxDepth: Option<JsNumber>,
    siteId: Option<string>)

  /** `s?.trim() || undefined`: the trimmed text, or absent when that is empty. */
  function TrimmedOrAbsent(s: Option<string>): (r: Option<string>)
    ensures r.None? <==> s.None? || AllWhiteSpace(s.value)
    ensures r.Some? ==> r.value == Trim(s.value) && r.value != []
  {
    if s.None? || Trim(s.value) == [] then None else Some(Trim(s.value))
  }

  /** `s || undefined`: an empty string becomes absent, anything else is kept
      verbatim (not trimmed). */
  function NonEmptyOrAbsent(s: Option<string>): (r: Option<string>)
    ensures r.Some? <==> s.Some? && s.value != []
    ensures r.Some? ==> r == s
  {
    if s.Some? && s.value == [] then None else s
  }

  /** `new Date(s)`: the instant the JavaScript date parser gives for `s`;
      `dates` holds every string it accepts, and any other string is an
      Invalid Date. */
  function DateOf(dates: map<string, int>, s: string): Option<int> {
    if s in dates then Some(dates[s]) else None
  }

  /** `new Date(data.startAt)`, with `undefined` an invalid date. */
  function StartInstant(d: CreateInput, dates: map<string, int>): Option<int> {
    if d.startAt.Some? then DateOf(dates, d.startAt.value) else None
  }

  /** `data.endAt` is truthy: present and not the empty string. */
  predicate EndGiven(d: CreateInput) {
    d.endAt.Some? && d.endAt.value != []
  }

  /** The five checks of createAdmin, each on its own. */
  predicate StartValid(d: CreateInput, dates: map<string, int>) {
    StartInstant(d, dates).Some?
  }
  predicate EndValid(d: CreateInput, dates: map<string, int>) {
    EndGiven(d) ==> DateOf(dates, d.endAt.value).Some?
  }
  predicate TitleValid(d: CreateInput) {
    d.title.Some? && Trim(d.title.value) != []
  }
  predicate CapacityValid(d: CreateInput) {
    d.capacity.Finite? && d.capacity.value > 0.0
  }
  predicate PriceValid(d: CreateInput) {
    d.priceArs.Finite? && d.priceArs.value >= 0.0
  }

  /** The outcome of `createAdmin(data)` when the database assigns `id`:
      the checks run in order and the first that fails decides the error
      (CreateChecksInOrder); when all pass, the row holds the normalised
      data. No other check is made: neither the end against the start nor
      the event type. createAdmin only ever answers BadRequest. */
  function NewEvent(d: CreateInput, dates: map<string, int>, id: Id): (r: Result<Event>)
    ensures r.Err? ==> r.error.BadRequest?
    ensures r.Ok? ==> r.value.id == id && r.value.eventType == d.eventType
  {
    if !StartValid(d, dates) then Err(BadRequest(InvalidStartAt))
    else if !EndValid(d, dates) then Err(BadRequest(InvalidEndAt))
    else if !TitleValid(d) then Err(BadRequest(TitleRequired))
    else if !CapacityValid(d) then Err(BadRequest(InvalidCapacity))
    else if !PriceValid(d) then Err(BadRequest(InvalidPrice))
    else
      Ok(Event(
        id, d.eventType,
        if d.status.Some? then d.status.value else Draft,
        Trim(d.title.value),
        TrimmedOrAbsent(d.description), TrimmedOrAbsent(d.meetingPoint),
        StartInstant(d, dates).value,
        if EndGiven(d) then DateOf(dates, d.endAt.value) else None,
        d.capacity.value.Floor, d.priceArs.value.Floor,
        TrimmedOrAbsent(d.minLevel), d.maxDepth, NonEmptyOrAbsent(d.siteId)))
  }

  /** The order of createAdmin's checks: start, end, title, capacity,
      price; the first that fails decides the error, and the call succeeds
      exactly when all five pass. */
  lemma CreateChecksInOrder(d: CreateInput, dates: map<string, int>, id: Id)
    ensures var r := NewEvent(d, dates, id);
      && (!StartValid(d, dates) ==> r == Err(BadRequest(InvalidStartAt)))
      && (StartValid(d, dates) && !EndValid(d, dates) ==> r == Err(BadRequest(InvalidEndAt)))
      && (StartValid(d, dates) && EndValid(d, dates) && !TitleValid(d)
          ==> r == Err(BadRequest(TitleRequired)))
      && (StartValid(d, dates) && EndValid(d, dates) && TitleValid(d) && !CapacityValid(d)
          ==> r == Err(BadRequest(InvalidCapacity)))
      && (StartValid(d, dates) && EndValid(d, dates) && TitleValid(d) && CapacityValid(d) && !PriceValid(d)
          ==> r == Err(BadRequest(InvalidPrice)))
      && (r.Ok? <==> StartValid(d, dates) && EndValid(d, dates) && TitleValid(d)
                     && CapacityValid(d) && PriceValid(d))
  {
  }

  /** What a stored event carries over from the input: the type, the given
      status or DRAFT, the parsed start, the parsed end when one was given,
      and the depth as given. */
  lemma CreatedEventKeepsInput(d: CreateInput, dates: map<string, int>, id: Id, e: Event)
    requires NewEvent(d, dates, id) == Ok(e)
    ensures e.status == if d.status.Some? then d.status.value else Draft
    ensures d.startAt.Some? && DateOf(dates, d.startAt.value) == Some(e.startAt)
    ensures e.endAt == if EndGiven(d) then DateOf(dates, d.endAt.value) else None
    ensures EndGiven(d) ==> e.endAt.Some?
    ensures e.maxDepth == d.maxDepth
  {
  }

  /** What a stored event looks like, first part: the given title trimmed,
      which is non-empty and has no surrounding white space; capacity and
      price the floors of the given numbers and hence not negative; DRAFT
      when no status was given. */
  lemma CreatedEventIsNormalised(d: CreateInput, dates: map<string, int>, id: Id, e: Event)
    requires NewEvent(d, dates, id) == Ok(e)
    ensures d.title.Some? && e.title == Trim(d.title.value)
    ensures e.title != [] && !IsWhiteSpace(e.title[0]) && !IsWhiteSpace(e.title[|e.title| - 1])
    ensures e.capacity >= 0 && e.capacity as real <= d.capacity.value < e.capacity as real + 1.0
    ensures e.priceArs >= 0 && e.priceArs as real <= d.priceArs.value < e.priceArs as real + 1.0
    ensures d.status.None? ==> e.status == Draft
  {
    FloorBounds(d.capacity.value);
    FloorBounds(d.priceArs.value);
  }

  /** What a stored event looks like, second part: each optional text is the
      given text trimmed, absent exactly when none was given or it is all
      white space, and so non-empty and already trimmed when present; the
      site id is the given one, absent only when none or "" was given. */
  lemma CreatedEventTextsNormalised(d: CreateInput, dates: map<string, int>, id: Id, e: Event)
    requires NewEvent(d, dates, id) == Ok(e)
    ensures e.description.None? <==> d.description.None? || AllWhiteSpace(d.description.value)
    ensures e.description.Some? ==> e.description.value == Trim(d.description.value)
    ensures e.meetingPoint.None? <==> d.meetingPoint.None? || AllWhiteSpace(d.meetingPoint.value)
    ensures e.meetingPoint.Some? ==> e.meetingPoint.value == Trim(d.meetingPoint.value)
    ensures e.minLevel.None? <==> d.minLevel.None? || AllWhiteSpace(d.minLevel.value)
    ensures e.minLevel.Some? ==> e.minLevel.value == Trim(d.minLevel.value)
    ensures e.siteId.Some? <==> d.siteId.Some? && d.siteId.value != []
    ensures e.siteId.Some? ==> e.siteId == d.siteId
    ensures e.description.Some? ==> e.description.value != [] && Trim(e.description.value) == e.description.value
    ensures e.meetingPoint.Some? ==> e.meetingPoint.value != [] && Trim(e.meetingPoint.value) == e.meetingPoint.value
    ensures e.minLevel.Some? ==> e.minLevel.value != [] && Trim(e.minLevel.value) == e.minLevel.value
    ensures e.siteId.Some? ==> e.siteId.value != []
  {
    NormalisedText(d.description);
    NormalisedText(d.meetingPoint);
    NormalisedText(d.minLevel);
  }

  lemma FloorBounds(x: real)
    ensures x.Floor as real <= x < x.Floor as real + 1.0
    ensures x >= 0.0 ==> x.Floor >= 0
  {
  }

  lemma NormalisedText(s: Option<string>)
    ensures var t := TrimmedOrAbsent(s); t.Some? ==> t.value != [] && Trim(t.value) == t.value
  {
    if s.Some? {
      TrimIdempotent(s.value);
    }
  }

  /** A capacity of 0.5 passes the `> 0` check and is stored as 0; 3.7 is
      stored as 3; 0 and -5 are refused. */
  lemma CapacityExamples(d: CreateInput, dates: map<string, int>, id: Id)
    requires StartValid(d, dates) && EndValid(d, dates) && TitleValid(d) && PriceValid(d)
    ensures NewEvent(d.(capacity := Finite(0.5)), dates, id).Ok?
    ensures NewEvent(d.(capacity := Finite(0.5)), dates, id).value.capacity == 0
    ensures NewEvent(d.(capacity := Finite(3.7)), dates, id).value.capacity == 3
    ensures NewEvent(d.(capacity := Finite(0.0)), dates, id) == Err(BadRequest(InvalidCapacity))
    ensures NewEvent(d.(capacity := Finite(-5.0)), dates, id) == Err(BadRequest(InvalidCapacity))
  {
  }

  /** The end is never compared with the start: an event that ends before it
      starts is stored as given. */
  lemma EndBeforeStartIsStored(d: CreateInput, dates: map<string, int>, id: Id)
    requires TitleValid(d) && CapacityValid(d) && PriceValid(d)
    requires d.startAt == Some("2026-03-10T10:00") && d.endAt == Some("2026-03-10T09:00")
    requires dates == map["2026-03-10T10:00" := 1_773_136_800_000, "2026-03-10T09:00" := 1_773_133_200_000]
    ensures NewEvent(d, dates, id).Ok?
    ensures NewEvent(d, dates, id).value.endAt.value < NewEvent(d, dates, id).value.startAt
  {
  }

  // ------------------------------------------------------------ reserve

  /** The body of `reserve`. */
  datatype ReserveBody = ReserveBody(userName: Option<string>, phone: Option<string>)

  predicate NameGiven(body: ReserveBody) {
    body.userName.Some? && Trim(body.userName.value) != []
  }

  /** The outcome of `reserve(eventId, body)` against the given tables, when
      the database assigns `id` and the clock reads `now`: the four checks run
      in order and the first that fails decides the error (ReserveChecksInOrder);
      when all pass, the new row is a RESERVED reservation (the schema
      default) of that event, with the given id and time and the trimmed,
      non-empty name and the trimmed phone. */
  function Admit(events: seq<Event>, rs: seq<Reservation>, eventId: Id, body: ReserveBody,
                 id: Id, now: int): (r: Result<Reservation>)
    ensures r.Ok? ==> && r.value.id == id && r.value.eventId == eventId
                      && r.value.status == Reserved && r.value.createdAt == now
                      && body.userName.Some? && r.value.userName == Trim(body.userName.value)
                      && r.value.userName != [] && r.value.phone == TrimmedOrAbsent(body.phone)
  {
    var ev := FindEvent(events, eventId);
    if ev.None? then Err(NotFound)
    else if ev.value.status != Published then Err(BadRequest(EventUnavailable))
    else if !NameGiven(body) then Err(BadRequest(UserNameRequired))
    else if CountReserved(rs, eventId) >= ev.value.capacity then Err(BadRequest(NoSeatsLeft))
    else Ok(Reservation(id, eventId, Trim(body.userName.value), TrimmedOrAbsent(body.phone), Reserved, now))
  }

  /** The order of reserve's checks: the event exists, is PUBLISHED, the
      name is given, a seat is left; the first that fails decides the error,
      and the call succeeds exactly when all four pass. */
  lemma ReserveChecksInOrder(events: seq<Event>, rs: seq<Reservation>, eventId: Id,
                             body: ReserveBody, id: Id, now: int)
    ensures var r := Admit(events, rs, eventId, body, id, now);
      var found := FindEvent(events, eventId);
      && (!HasEvent(events, eventId) ==> r == Err(NotFound))
      && (found.Some? && found.value.status != Published ==> r == Err(BadRequest(EventUnavailable)))
      && (found.Some? && found.value.status == Published && !NameGiven(body)
          ==> r == Err(BadRequest(UserNameRequired)))
      && (found.Some? && found.value.status == Published && NameGiven(body)
          && CountReserved(rs, eventId) >= found.value.capacity
          ==> r == Err(BadRequest(NoSeatsLeft)))
      && (r.Ok? <==> found.Some? && found.value.status == Published && NameGiven(body)
                     && CountReserved(rs, eventId) < found.value.capacity)
  {
  }

  /** An event whose stored capacity is 0 (or less) can never be booked. */
  lemma NoCapacityNoBooking(events: seq<Event>, rs: seq<Reservation>, eventId: Id,
                            body: ReserveBody, id: Id, now: int)
    requires FindEvent(events, eventId).Some? && FindEvent(events, eventId).value.capacity <= 0
    ensures Admit(events, rs, eventId, body, id, now).Err?
  {
  }

  /** A non-PUBLISHED event (DRAFT, CANCELLED, DONE) refuses every booking,
      however many seats are free. */
  lemma OnlyPublishedBookable(events: seq<Event>, rs: seq<Reservation>, eventId: Id,
                              body: ReserveBody, id: Id, now: int)
    requires FindEvent(events, eventId).Some? && FindEvent(events, eventId).value.status != Published
    ensures Admit(events, rs, eventId, body, id, now) == Err(BadRequest(EventUnavailable))
  {
  }

  /** A successful booking takes one seat of its own event and no seat of
      any other event. */
  lemma BookingTakesOneSeat(events: seq<Event>, rs: seq<Reservation>, eventId: Id,
                            body: ReserveBody, id: Id, now: int, other: Id)
    requires Admit(events, rs, eventId, body, id, now).Ok?
    ensures var x := Admit(events, rs, eventId, body, id, now).value;
      && CountReserved(rs + [x], eventId) == CountReserved(rs, eventId) + 1
      && CountReserved(rs + [x], eventId) <= FindEvent(events, eventId).value.capacity
      && (other != eventId ==> CountReserved(rs + [x], other) == CountReserved(rs, other))
  {
    var x := Admit(events, rs, eventId, body, id, now).value;
    CountReservedAppend(rs, x, eventId);
    CountReservedAppend(rs, x, other);
  }

  // ------------------------------------------------------------ store invariant

  predicate UniqueEventIds(events: seq<Event>) {
    forall i, j :: 0 <= i < j < |events| ==> events[i].id != events[j].id
  }

  /** No event has more RESERVED reservations than its capacity. */
  predicate WithinCapacity(events: seq<Event>, rs: seq<Reservation>) {
    forall e :: e in events ==> CountReserved(rs, e.id) <= e.capacity
  }

  /** What holds of the tables between calls, when calls do not overlap:
      ids are unique and below the next id to hand out, the ledger is in
      strictly increasing order of id and of creation time, every
      reservation belongs to a stored event, stored capacities and prices are
      not negative, and no event is overbooked. */
  predicate Consistent(events: seq<Event>, rs: seq<Reservation>,
                       nextEventId: nat, nextReservationId: nat, clock: int) {
    && UniqueEventIds(events)
    && (forall e :: e in events ==> e.id < nextEventId && e.capacity >= 0 && e.priceArs >= 0)
    && (forall i, j :: 0 <= i < j < |rs| ==> rs[i].id < rs[j].id && rs[i].createdAt < rs[j].createdAt)
    && (forall x :: x in rs ==> x.id < nextReservationId && x.createdAt < clock)
    && (forall x :: x in rs ==> HasEvent(events, x.eventId))
    && WithinCapacity(events, rs)
  }

  /** A fresh, empty database is consistent, so the service can start from it. */
  lemma EmptyStoreConsistent()
    ensures Consistent([], [], 0, 0, 0)
  {
  }

  /** With unique ids the event found is the only one with that id. */
  lemma FindEventUnique(events: seq<Event>, e: Event)
    requires UniqueEventIds(events) && e in events
    ensures FindEvent(events, e.id) == Some(e)
  {
    var f := FindEvent(events, e.id).value;
    var i :| 0 <= i < |events| && events[i] == e;
    var j :| 0 <= j < |events| && events[j] == f;
    assert i == j;
  }

  /** A successful reserve keeps the tables consistent; in particular the
      RESERVED count of every event stays within its capacity. */
  lemma AdmitKeepsConsistent(events: seq<Event>, rs: seq<Reservation>, nextEventId: nat,
                             nextReservationId: nat, clock: int, eventId: Id, body: ReserveBody)
    requires Consistent(events, rs, nextEventId, nextReservationId, clock)
    requires Admit(events, rs, eventId, body, nextReservationId, clock).Ok?
    ensures Consistent(events, rs + [Admit(events, rs, eventId, body, nextReservationId, clock).value],
                       nextEventId, nextReservationId + 1, clock + 1)
  {
    var x := Admit(events, rs, eventId, body, nextReservationId, clock).value;
    var rs' := rs + [x];
    forall e | e in events ensures CountReserved(rs', e.id) <= e.capacity {
      CountReservedAppend(rs, x, e.id);
      if e.id == eventId {
        FindEventUnique(events, e);
      }
    }
    forall i, j | 0 <= i < j < |rs'|
      ensures rs'[i].id < rs'[j].id && rs'[i].createdAt < rs'[j].createdAt
    {
      if j == |rs| {
        assert rs[i] in rs;
      }
    }
  }

  /** A successful createAdmin keeps the tables consistent: the new event has
      a fresh id, a capacity that is not negative and no reservations yet. */
  lemma NewEventKeepsConsistent(events: seq<Event>, rs: seq<Reservation>, nextEventId: nat,
                                nextReservationId: nat, clock: int, d: CreateInput,
                                dates: map<string, int>)
    requires Consistent(events, rs, nextEventId, nextReservationId, clock)
    requires NewEvent(d, dates, nextEventId).Ok?
    ensures Consistent(events + [NewEvent(d, dates, nextEventId).value], rs,
                       nextEventId + 1, nextReservationId, clock)
  {
    var ev := NewEvent(d, dates, nextEventId).value;
    var events' := events + [ev];
    CreatedEventIsNormalised(d, dates, nextEventId, ev);
    assert CountReserved(rs, ev.id) == 0 by {
      var ps := ReservedFor(rs, ev.id);
      if ps != [] {
        ReservedForMember(rs, ev.id, ps[0]);
        assert false;
      }
    }
    forall x | x in rs ensures HasEvent(events', x.eventId) {
      var e :| e in events && e.id == x.eventId;
      assert e in events';
    }
    forall i, j | 0 <= i < j < |events'| ensures events'[i].id != events'[j].id {
      if j == |events| {
        assert events[i] in events;
      }
    }
  }

  /** In a consistent store the participants come back in booking order: the
      ledger is already ordered by creation time, so the sort keeps it. */
  lemma ParticipantsInBookingOrder(events: seq<Event>, rs: seq<Reservation>, nextEventId: nat,
                                   nextReservationId: nat, clock: int, id: Id)
    requires Consistent(events, rs, nextEventId, nextReservationId, clock)
    requires HasEvent(events, id)
    ensures ListParticipants(events, rs, id) == Ok(ReservedFor(rs, id))
  {
    ReservedForIncreasing(rs, id);
    SortBySorted(ReservedFor(rs, id), CreatedAtOf);
  }

  lemma {:induction false} ReservedForIncreasing(rs: seq<Reservation>, id: Id)
    requires forall i, j :: 0 <= i < j < |rs| ==> rs[i].createdAt < rs[j].createdAt
    ensures SortedBy(ReservedFor(rs, id), CreatedAtOf)
    decreases |rs|
  {
    if rs != [] {
      var init := rs[..|rs| - 1];
      var last := rs[|rs| - 1];
      ReservedForIncreasing(init, id);
      var p := ReservedFor(init, id);
      forall k | 0 <= k < |p| ensures p[k].createdAt < last.createdAt {
        ReservedForMember(init, id, p[k]);
        assert p[k] in init;
      }
    }
  }

  /** In a consistent store no event lists more participants than its
      capacity. */
  lemma ParticipantsWithinCapacity(events: seq<Event>, rs: seq<Reservation>, nextEventId: nat,
                                   nextReservationId: nat, clock: int, e: Event)
    requires Consistent(events, rs, nextEventId, nextReservationId, clock)
    requires e in events
    ensures ListParticipants(events, rs, e.id).Ok?
    ensures |ListParticipants(events, rs, e.id).value| <= e.capacity
  {
  }

  /** A table holding one event finds it by its id. */
  lemma FindOnlyEvent(ev: Event)
    ensures HasEvent([ev], ev.id) && FindEvent([ev], ev.id) == Some(ev)
  {
    assert ev in [ev];
  }

  /** A name as a client would type it: not empty and without white space
      around it, so that trimming keeps it. */
  predicate PlainName(name: string) {
    name != [] && Trim(name) == name
  }

  /** The RESERVED booking `reserve` creates for `name` without a phone. */
  function Booking(id: Id, eventId: Id, name: string, at: int): Reservation {
    Reservation(id, eventId, name, None, Reserved, at)
  }

  /** The booking scenario of a PUBLISHED event with capacity 2: the first
      client books and gets a seat. */
  lemma ScenarioFirstBooked(ev: Event, a: string)
    requires ev.status == Published && ev.capacity == 2 && PlainName(a)
    ensures Admit([ev], [], ev.id, ReserveBody(Some(a), None), 0, 0) == Ok(Booking(0, ev.id, a, 0))
  {
    FindOnlyEvent(ev);
    var r := Admit([ev], [], ev.id, ReserveBody(Some(a), None), 0, 0);
    assert r == Ok(Reservation(0, ev.id, Trim(a), TrimmedOrAbsent(None), Reserved, 0));
  }

  /** Then a second client gets the second seat. */
  lemma ScenarioSecondBooked(ev: Event, a: string, b: string)
    requires ev.status == Published && ev.capacity == 2 && PlainName(b)
    ensures Admit([ev], [Booking(0, ev.id, a, 0)], ev.id, ReserveBody(Some(b), None), 1, 1)
            == Ok(Booking(1, ev.id, b, 1))
  {
    FindOnlyEvent(ev);
    var first := Booking(0, ev.id, a, 0);
    ReservedForAppend([], first, ev.id);
    assert [] + [first] == [first];
    assert CountReserved([first], ev.id) == 1;
    var r := Admit([ev], [first], ev.id, ReserveBody(Some(b), None), 1, 1);
    assert r == Ok(Reservation(1, ev.id, Trim(b), TrimmedOrAbsent(None), Reserved, 1));
  }

  /** With both booked, the RESERVED reservations are the two bookings in
      order. */
  lemma ScenarioTwoReserved(ev: Event, a: string, b: string)
    ensures ReservedFor([Booking(0, ev.id, a, 0), Booking(1, ev.id, b, 1)], ev.id)
            == [Booking(0, ev.id, a, 0), Booking(1, ev.id, b, 1)]
  {
    var first := Booking(0, ev.id, a, 0);
    var second := Booking(1, ev.id, b, 1);
    ReservedForAppend([], first, ev.id);
    ReservedForAppend([first], second, ev.id);
    assert [] + [first] == [first];
    assert [first] + [second] == [first, second];
  }

  /** Then a third client is refused for want of seats, and the participants
      are the first two clients, in booking order. */
  lemma ScenarioThirdRefused(ev: Event, a: string, b: string, c: string)
    requires ev.status == Published && ev.capacity == 2 && PlainName(c)
    ensures var booked := [Booking(0, ev.id, a, 0), Booking(1, ev.id, b, 1)];
      && Admit([ev], booked, ev.id, ReserveBody(Some(c), None), 2, 2) == Err(BadRequest(NoSeatsLeft))
      && ListParticipants([ev], booked, ev.id) == Ok(booked)
  {
    FindOnlyEvent(ev);
    ScenarioTwoReserved(ev, a, b);
    SortBySorted([Booking(0, ev.id, a, 0), Booking(1, ev.id, b, 1)], CreatedAtOf);
  }

  // ------------------------------------------------------------ the service

  /** The service with its two tables. Calls run one after another. */
  class EventsService {
    var events: seq<Event>
    var reservations: seq<Reservation>
    var nextEventId: nat
    var nextReservationId: nat
    var clock: nat

    ghost predicate Valid()
      reads this
    {
      Consistent(events, reservations, nextEventId, nextReservationId, clock)
    }

    /** The service over the database it is handed: any consistent pair of
        tables, with the counters beyond every id and instant in use. */
    constructor (events0: seq<Event>, reservations0: seq<Reservation>,
                 nextEventId0: nat, nextReservationId0: nat, clock0: nat)
      requires Consistent(events0, reservations0, nextEventId0, nextReservationId0, clock0)
      ensures Valid()
      ensures events == events0 && reservations == reservations0
      ensures nextEventId == nextEventId0 && nextReservationId == nextReservationId0 && clock == clock0
    {
      events, reservations := events0, reservations0;
      nextEventId, nextReservationId, clock := nextEventId0, nextReservationId0, clock0;
    }

    /** `createAdmin(data)`: validates in order, then stores one normalised
        event; a refused call changes nothing. */
    method CreateAdmin(data: CreateInput, dates: map<string, int>) returns (r: Result<Event>)
      requires Valid()
      modifies this
      ensures Valid()
      ensures r == NewEvent(data, dates, old(nextEventId))
      ensures r.Ok? ==> events == old(events) + [r.value] && nextEventId == old(nextEventId) + 1
      ensures r.Err? ==> events == old(events) && nextEventId == old(nextEventId)
      ensures reservations == old(reservations)
      ensures nextReservationId == old(nextReservationId) && clock == old(clock)
    {
      ghost var outcome := NewEvent(data, dates, nextEventId);
      var start := if data.startAt.Some? then DateOf(dates, data.startAt.value) else None;
      if start.None? {
        assert outcome == Err(BadRequest(InvalidStartAt));
        return Err(BadRequest(InvalidStartAt));
      }
      var end := if data.endAt.Some? && data.endAt.value != [] then DateOf(dates, data.endAt.value) else None;
      if data.endAt.Some? && data.endAt.value != [] && end.None? {
        assert outcome == Err(BadRequest(InvalidEndAt));
        return Err(BadRequest(InvalidEndAt));
      }
      if data.title.None? || Trim(data.title.value) == [] {
        assert outcome == Err(BadRequest(TitleRequired));
        return Err(BadRequest(TitleRequired));
      }
      if data.capacity.NonFinite? || data.capacity.value <= 0.0 {
        assert outcome == Err(BadRequest(InvalidCapacity));
        return Err(BadRequest(InvalidCapacity));
      }
      if data.priceArs.NonFinite? || data.priceArs.value < 0.0 {
        assert outcome == Err(BadRequest(InvalidPrice));
        return Err(BadRequest(InvalidPrice));
      }
      var ev := Event(
        nextEventId, data.eventType,
        if data.status.Some? then data.status.value else Draft,
        Trim(data.title.value),
        TrimmedOrAbsent(data.description), TrimmedOrAbsent(data.meetingPoint),
        start.value, end,
        data.capacity.value.Floor, data.priceArs.value.Floor,
        TrimmedOrAbsent(data.minLevel), data.maxDepth, NonEmptyOrAbsent(data.siteId));
      assert outcome == Ok(ev);
      NewEventKeepsConsistent(events, reservations, nextEventId, nextReservationId, clock, data, dates);
      events := events + [ev];
      nextEventId := nextEventId + 1;
      r := Ok(ev);
    }

    /** `reserve(eventId, body)`: four checks in order, then one RESERVED
        reservation appended to the ledger; a refused call changes nothing.
        The check and the insert are not atomic in the source: only calls
        that do not overlap are modelled. */
    method Reserve(eventId: Id, body: ReserveBody) returns (r: Result<Reservation>)
      requires Valid()
      modifies this
      ensures Valid()
      ensures r == Admit(old(events), old(reservations), eventId, body,
                         old(nextReservationId), old(clock))
      ensures r.Ok? ==> reservations == old(reservations) + [r.value]
                        && nextReservationId == old(nextReservationId) + 1
                        && clock == old(clock) + 1
      ensures r.Err? ==> reservations == old(reservations)
                         && nextReservationId == old(nextReservationId) && clock == old(clock)
      ensures events == old(events) && nextEventId == old(nextEventId)
    {
      ghost var outcome := Admit(events, reservations, eventId, body, nextReservationId, clock);
      var ev := FindEvent(events, eventId);
      if ev.None? {
        assert outcome == Err(NotFound);
        return Err(NotFound);
      }
      if ev.value.status != Published {
        assert outcome == Err(BadRequest(EventUnavailable));
        return Err(BadRequest(EventUnavailable));
      }
      if body.userName.None? || Trim(body.userName.value) == [] {
        assert outcome == Err(BadRequest(UserNameRequired));
        return Err(BadRequest(UserNameRequired));
      }
      var name := Trim(body.userName.value);
      var count := CountReserved(reservations, eventId);
      if count >= ev.value.capacity {
        assert outcome == Err(BadRequest(NoSeatsLeft));
        return Err(BadRequest(NoSeatsLeft));
      }
      var x := Reservation(nextReservationId, eventId, name, TrimmedOrAbsent(body.phone), Reserved, clock);
      assert outcome == Ok(x);
      AdmitKeepsConsistent(events, reservations, nextEventId, nextReservationId, clock, eventId, body);
      reservations := reservations + [x];
      nextReservationId := nextReservationId + 1;
      clock := clock + 1;
      r := Ok(x);
    }
  }
}
