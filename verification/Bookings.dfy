/** Slots: when two appointments of a stylist overlap, what the conflict check sees of that, and what it misses. */
module Bookings {
  import opened Basics
  import opened Schema
  import opened Clock
  import opened Ledger
  import opened Frames

  // ----- Time as it passes. A `calendar` numbers the days; the theorems hold for every such numbering.

  predicate Meet(from: int, to: int, from': int, to': int) {
    from < to' && from' < to
  }

  function From(a: Appointment, calendar: Date -> int): int {
    calendar(a.date) * DAY + a.start
  }

  /** A stored end that is not after the start is one of the day after. */
  function To(a: Appointment, calendar: Date -> int): int {
    calendar(a.date) * DAY + if a.start < a.end then a.end else DAY + a.end
  }

  /** Two appointments of one stylist, neither cancelled. */
  predicate SameChair(a: Appointment, b: Appointment) {
    a.staff == b.staff && !a.status.Cancelled? && !b.status.Cancelled?
  }

  predicate Overlap(a: Appointment, b: Appointment, calendar: Date -> int) {
    SameChair(a, b) && Meet(From(a, calendar), To(a, calendar), From(b, calendar), To(b, calendar))
  }

  predicate NoDoubleBooking(rows: seq<Appointment>, calendar: Date -> int) {
    forall i, j :: 0 <= i < j < |rows| ==> !Overlap(rows[i], rows[j], calendar)
  }

  predicate TakesPlaceAt(a: Appointment, moment: int, calendar: Date -> int) {
    From(a, calendar) <= moment < To(a, calendar)
  }

  /** Nobody is double booked exactly when no moment belongs to two appointments of one stylist. */
  lemma NoDoubleBookingIff(rows: seq<Appointment>, calendar: Date -> int)
    ensures NoDoubleBooking(rows, calendar) <==>
      forall i, j, moment :: 0 <= i < j < |rows| && SameChair(rows[i], rows[j]) ==>
        !(TakesPlaceAt(rows[i], moment, calendar) && TakesPlaceAt(rows[j], moment, calendar))
  {
    forall i, j | 0 <= i < j < |rows|
      ensures Overlap(rows[i], rows[j], calendar) <==>
        && SameChair(rows[i], rows[j])
        && exists moment :: TakesPlaceAt(rows[i], moment, calendar) && TakesPlaceAt(rows[j], moment, calendar)
    {
      ShareAMomentIff(rows[i], rows[j], calendar);
    }
  }

  lemma ShareAMomentIff(a: Appointment, b: Appointment, calendar: Date -> int)
    ensures Meet(From(a, calendar), To(a, calendar), From(b, calendar), To(b, calendar))
       <==> exists moment :: TakesPlaceAt(a, moment, calendar) && TakesPlaceAt(b, moment, calendar)
  {
    var later := if From(a, calendar) < From(b, calendar) then From(b, calendar) else From(a, calendar);
    if Meet(From(a, calendar), To(a, calendar), From(b, calendar), To(b, calendar)) {
      assert TakesPlaceAt(a, later, calendar) && TakesPlaceAt(b, later, calendar);
    }
  }

  // ----- The check against one row

  /** What is asked for: so many minutes of a stylist from a second of a date on. */
  datatype Slot = Slot(staff: int, date: Date, start: Second, minutes: int)

  function Asked(t: Tables, staff: int, service: int, date: Date, start: Second): Slot
    requires Exists(service, t.services)
  {
    Slot(staff, date, start, t.services[service - 1].minutes)
  }

  /** The row takes a moment of the slot from the same stylist. */
  predicate InTheWay(a: Appointment, slot: Slot, calendar: Date -> int) {
    var from := calendar(slot.date) * DAY + slot.start;
    && a.staff == slot.staff && !a.status.Cancelled?
    && Meet(From(a, calendar), To(a, calendar), from, from + 60 * slot.minutes)
  }

  lemma InTheWayIff(a: Appointment, slot: Slot, calendar: Date -> int)
    requires slot.minutes > 0
    ensures var from := calendar(slot.date) * DAY + slot.start;
      InTheWay(a, slot, calendar) <==>
        && a.staff == slot.staff && !a.status.Cancelled?
        && exists moment :: from <= moment < from + 60 * slot.minutes && TakesPlaceAt(a, moment, calendar)
  {
    var from := calendar(slot.date) * DAY + slot.start;
    var later := if From(a, calendar) < from then from else From(a, calendar);
    if Meet(From(a, calendar), To(a, calendar), from, from + 60 * slot.minutes) {
      assert TakesPlaceAt(a, later, calendar);
    }
  }

  /** The conflict query finds the row. */
  predicate Seen(a: Appointment, slot: Slot) {
    Clashes(slot.staff, slot.date, slot.start, EndOf(slot.start, slot.minutes))(a)
  }

  /**
   * The rows in the way that the query cannot see. It compares rows of the same date only, so it misses a row of the
   * day before that runs into the slot, and a row of a later day that the slot runs into. Of the same date it misses a
   * row past midnight if the slot starts at or after the row's wrapped end, or itself wraps to an end that is not
   * after the row's start; and a row that ends on its day if the slot so wraps and starts before that end.
   */
  predicate Unseen(a: Appointment, slot: Slot, calendar: Date -> int) {
    var end, days := slot.start + 60 * slot.minutes, calendar(a.date) - calendar(slot.date);
    && a.staff == slot.staff && !a.status.Cancelled?
    && if days < 0 then
         days == -1 && a.end <= a.start && slot.start < a.end
       else if days > 0 then
         days * DAY + a.start < end
       else if a.date != slot.date then
         a.start < end && (a.end <= a.start || slot.start < a.end)
       else if a.end <= a.start then
         a.start < end && (slot.start >= a.end || (end >= DAY && end % DAY <= a.start))
       else
         end >= DAY && slot.start < a.end && end % DAY <= a.start
  }

  /** The check never finds a row that is not in the way, and misses one that is exactly when it cannot see it. */
  lemma CheckOfRow(a: Appointment, slot: Slot, calendar: Date -> int)
    requires slot.minutes > 0
    ensures Seen(a, slot) ==> InTheWay(a, slot, calendar)
    ensures InTheWay(a, slot, calendar) && !Seen(a, slot) <==> Unseen(a, slot, calendar)
  {
  }

  /** Some row is hidden from the check of this slot. */
  predicate Hides(rows: seq<Appointment>, slot: Slot, calendar: Date -> int) {
    exists i :: 0 <= i < |rows| && Unseen(rows[i], slot, calendar)
  }

  /** Over any table the check refuses a slot exactly when some row is in its way that it can see. */
  lemma CheckIsExact(rows: seq<Appointment>, slot: Slot, calendar: Date -> int)
    requires slot.minutes > 0
    ensures Find(rows, Clashes(slot.staff, slot.date, slot.start, EndOf(slot.start, slot.minutes))).Some? <==>
      exists i :: 0 <= i < |rows| && InTheWay(rows[i], slot, calendar) && !Unseen(rows[i], slot, calendar)
  {
    hide InTheWay, Unseen;
    forall i | 0 <= i < |rows|
      ensures Seen(rows[i], slot) <==> InTheWay(rows[i], slot, calendar) && !Unseen(rows[i], slot, calendar)
    {
      CheckOfRow(rows[i], slot, calendar);
    }
    assert forall i :: 0 <= i < |rows| ==>
      (Seen(rows[i], slot) <==> Clashes(slot.staff, slot.date, slot.start, EndOf(slot.start, slot.minutes))(rows[i]));
  }

  // ----- Booking

  predicate DurationsPositive(services: seq<Service>) {
    forall i :: 0 <= i < |services| ==> services[i].minutes > 0
  }

  /** The row that a booking adds. */
  function Booked(client: int, service: int, slot: Slot): Appointment {
    Appointment(client, slot.staff, service, slot.date, slot.start, EndOf(slot.start, slot.minutes), Upcoming)
  }

  /**
   * A booking is accepted exactly when the service, with some duration, the client and the stylist are known and every
   * row that is in its way is one the check cannot see. It adds one row.
   */
  lemma BookingAcceptedIff(t: Tables, calendar: Date -> int, client: int, staff: int, service: int, date: Date,
                           start: Second)
    requires DurationsPositive(t.services)
    ensures Reserve(t, client, staff, service, date, start).reply.Ok? <==>
      && Exists(service, t.services) && Exists(client, t.clients) && Exists(staff, t.staff)
      && var slot := Asked(t, staff, service, date, start);
      forall i :: 0 <= i < |t.appointments| && InTheWay(t.appointments[i], slot, calendar) ==>
        Unseen(t.appointments[i], slot, calendar)
    ensures Reserve(t, client, staff, service, date, start).reply.Ok? ==>
      Reserve(t, client, staff, service, date, start).tables.appointments
        == t.appointments + [Booked(client, service, Asked(t, staff, service, date, start))]
  {
    hide InTheWay, Unseen;
    if Exists(service, t.services) {
      CheckIsExact(t.appointments, Asked(t, staff, service, date, start), calendar);
    }
  }

  /** The row says how long the appointment takes exactly if that is not more than a day. */
  lemma TrueEndStoredIff(client: int, service: int, slot: Slot, calendar: Date -> int)
    requires slot.minutes > 0
    ensures var row := Booked(client, service, slot);
      To(row, calendar) == From(row, calendar) + 60 * slot.minutes <==> 60 * slot.minutes <= DAY
  {
  }

  /** An accepted booking overlaps another appointment of the stylist exactly when some row is hidden from the check. */
  lemma BookingKeepsApartIff(t: Tables, calendar: Date -> int, client: int, staff: int, service: int, date: Date,
                             start: Second)
    requires NoDoubleBooking(t.appointments, calendar) && DurationsPositive(t.services)
    requires Reserve(t, client, staff, service, date, start).reply.Ok?
    ensures var slot := Asked(t, staff, service, date, start);
      var after := Reserve(t, client, staff, service, date, start).tables.appointments;
      && ((exists i :: 0 <= i < |t.appointments| && InTheWay(t.appointments[i], slot, calendar))
         <==> Hides(t.appointments, slot, calendar))
      && (60 * slot.minutes <= DAY ==> (NoDoubleBooking(after, calendar) <==> !Hides(t.appointments, slot, calendar)))
  {
    hide Unseen, From, To, Meet;
    var slot := Asked(t, staff, service, date, start);
    var row := Booked(client, service, slot);
    BookingAcceptedIff(t, calendar, client, staff, service, date, start);
    forall i | 0 <= i < |t.appointments|
      ensures InTheWay(t.appointments[i], slot, calendar) <==> Unseen(t.appointments[i], slot, calendar)
      ensures 60 * slot.minutes <= DAY ==>
        (Overlap(t.appointments[i], row, calendar) <==> Unseen(t.appointments[i], slot, calendar))
    {
      CheckOfRow(t.appointments[i], slot, calendar);
      OverlapsNewRowIff(t.appointments[i], client, service, slot, calendar);
    }
    OneMoreRow(t.appointments, row, calendar);
  }

  lemma OverlapsNewRowIff(a: Appointment, client: int, service: int, slot: Slot, calendar: Date -> int)
    requires 0 < slot.minutes
    ensures 60 * slot.minutes <= DAY ==>
      (Overlap(a, Booked(client, service, slot), calendar) <==> InTheWay(a, slot, calendar))
  {
    TrueEndStoredIff(client, service, slot, calendar);
  }

  lemma OneMoreRow(rows: seq<Appointment>, row: Appointment, calendar: Date -> int)
    requires NoDoubleBooking(rows, calendar)
    ensures NoDoubleBooking(rows + [row], calendar)
       <==> forall i :: 0 <= i < |rows| ==> !Overlap(rows[i], row, calendar)
  {
    hide Overlap;
    var after := rows + [row];
    if NoDoubleBooking(after, calendar) {
      forall i | 0 <= i < |rows|
        ensures !Overlap(rows[i], row, calendar)
      {
        assert !Overlap(after[i], after[|rows|], calendar);
      }
    }
  }

  /** A slot that ends before midnight hides no row that ends on its day, if different dates are different days. */
  lemma DaytimeHidesNothing(a: Appointment, slot: Slot, calendar: Date -> int)
    requires slot.minutes > 0 && slot.start + 60 * slot.minutes < DAY && a.start < a.end
    requires a.date != slot.date ==> calendar(a.date) != calendar(slot.date)
    ensures !Unseen(a, slot, calendar)
  {
  }

  // ----- Changing the status

  /** Setting this status brings a cancelled appointment back on top of another one of its stylist. */
  predicate RevivesInto(rows: seq<Appointment>, appointment: int, status: AppointmentStatus, calendar: Date -> int)
    requires Exists(appointment, rows)
  {
    var a := rows[appointment - 1];
    && a.status.Cancelled? && !status.Cancelled?
    && exists j :: 0 <= j < |rows| && j != appointment - 1 && Overlap(a.(status := status), rows[j], calendar)
  }

  /**
   * A status change keeps the rows apart exactly when it does not bring a cancelled appointment back into a slot
   * that was given away since. The conflict check is not repeated there.
   */
  lemma StatusKeepsApartIff(rows: seq<Appointment>, appointment: int, status: AppointmentStatus, calendar: Date -> int)
    requires NoDoubleBooking(rows, calendar) && Exists(appointment, rows)
    ensures NoDoubleBooking(UpdateKey(rows, appointment, WithStatus(status)), calendar)
       <==> !RevivesInto(rows, appointment, status, calendar)
  {
    hide Overlap;
    var k, after := appointment - 1, UpdateKey(rows, appointment, WithStatus(status));
    var a := rows[k].(status := status);
    assert after == rows[k := a];
    forall j | 0 <= j < |rows| && j != k
      ensures Overlap(a, rows[j], calendar) <==> Overlap(rows[j], a, calendar)
      ensures Overlap(a, rows[j], calendar) ==> rows[k].status.Cancelled? && !status.Cancelled?
    {
      OverlapAfter(rows[k], status, rows[j], calendar);
      assert j < k ==> !Overlap(rows[j], rows[k], calendar);
    }
    if RevivesInto(rows, appointment, status, calendar) {
      var j :| 0 <= j < |rows| && j != k && Overlap(a, rows[j], calendar);
      assert j < k ==> Overlap(after[j], after[k], calendar);
      assert k < j ==> Overlap(after[k], after[j], calendar);
    } else {
      forall i, j | 0 <= i < j < |after|
        ensures !Overlap(after[i], after[j], calendar)
      {
        assert !Overlap(rows[i], rows[j], calendar);
      }
    }
  }

  lemma OverlapAfter(a: Appointment, status: AppointmentStatus, b: Appointment, calendar: Date -> int)
    ensures Overlap(a, b, calendar) <==> Overlap(b, a, calendar)
    ensures Overlap(a.(status := status), b, calendar) <==> Overlap(b, a.(status := status), calendar)
    ensures Overlap(a.(status := status), b, calendar) ==> !status.Cancelled?
    ensures Overlap(a.(status := status), b, calendar) ==> a.status.Cancelled? || Overlap(a, b, calendar)
  {
  }

  // ----- Runs

  /** The controller and the model will accept this booking. */
  predicate WillBook(t: Tables, call: Call) {
    match call.request
    case Book(name, _, _, staff, service, date, start) =>
      && Given(name) && Exists(staff, t.staff) && Exists(service, t.services)
      && t.services[service - 1].minutes != 0
      && Find(t.appointments, Clashes(staff, date, start, EndOf(start, t.services[service - 1].minutes))).None?
    case _ =>
      false
  }

  function AskedBy(t: Tables, call: Call): Slot
    requires WillBook(t, call)
  {
    Asked(t, call.request.staff, call.request.service, call.request.date, call.request.start)
  }

  /** The client that the booking is for. */
  function ClientOf(t: Tables, call: Call): int
    requires call.request.Book?
  {
    FindOrCreate(t, call.request.name, call.request.email, call.request.phone).1
  }

  lemma WillBookIff(t: Tables, call: Call)
    requires call.request.Book?
    ensures Respond(t, call).reply.Ok? <==> WillBook(t, call)
    ensures !WillBook(t, call) ==> Step(t, call).appointments == t.appointments
    ensures WillBook(t, call) ==>
      Step(t, call).appointments
        == t.appointments + [Booked(ClientOf(t, call), call.request.service, AskedBy(t, call))]
  {
  }

  /**
   * What the desk has to see to, since the check does not: that an accepted booking lasts at most a day and hides no
   * row from the check, and that a cancelled appointment is not brought back into a taken slot.
   */
  predicate Orderly(t: Tables, calendar: Date -> int, call: Call) {
    match call.request
    case Book(_, _, _, _, _, _, _) =>
      WillBook(t, call) ==>
        60 * AskedBy(t, call).minutes <= DAY && !Hides(t.appointments, AskedBy(t, call), calendar)
    case SetStatus(appointment, status) =>
      Exists(appointment, t.appointments) && t.appointments[appointment - 1].staff != 0 ==>
        !RevivesInto(t.appointments, appointment, status, calendar)
    case _ =>
      true
  }

  /** A row that the call adds says how long the appointment takes. */
  predicate StoresTrueEnd(t: Tables, calendar: Date -> int, call: Call) {
    WillBook(t, call) ==>
      var after := Step(t, call).appointments;
      |after| > 0 && To(after[|after| - 1], calendar)
        == From(after[|after| - 1], calendar) + 60 * AskedBy(t, call).minutes
  }

  /** A request leaves nobody double booked, with the true times stored, exactly when it is orderly. */
  lemma StepKeepsApartIff(t: Tables, calendar: Date -> int, call: Call)
    requires NoDoubleBooking(t.appointments, calendar) && DurationsPositive(t.services)
    ensures NoDoubleBooking(Step(t, call).appointments, calendar) && StoresTrueEnd(t, calendar, call)
       <==> Orderly(t, calendar, call)
  {
    hide NoDoubleBooking, RevivesInto, Hides, RingUp, Spend, Enroll, Amend, From, To;
    OtherTablesStay(t, call);
    match call.request
    case Book(_, _, _, _, _, _, _) =>
      BookKeepsApartIff(t, calendar, call);
    case SetStatus(appointment, status) =>
      CompletionKeepsApartIff(t, calendar, call.today, appointment, status, call.user);
    case _ =>
  }

  lemma BookKeepsApartIff(t: Tables, calendar: Date -> int, call: Call)
    requires NoDoubleBooking(t.appointments, calendar) && DurationsPositive(t.services) && call.request.Book?
    ensures NoDoubleBooking(Step(t, call).appointments, calendar) && StoresTrueEnd(t, calendar, call)
       <==> Orderly(t, calendar, call)
  {
    hide NoDoubleBooking, Hides, From, To;
    WillBookIff(t, call);
    if WillBook(t, call) {
      var r, slot := call.request, AskedBy(t, call);
      var (known, client) := FindOrCreate(t, r.name, r.email, r.phone);
      BookingKeepsApartIff(known, calendar, client, r.staff, r.service, r.date, r.start);
      TrueEndStoredIff(client, r.service, slot, calendar);
      var after := Step(t, call).appointments;
      assert after == t.appointments + [Booked(client, r.service, slot)];
      assert after[|after| - 1] == Booked(client, r.service, slot);
    }
  }

  lemma CompletionKeepsApartIff(t: Tables, calendar: Date -> int, today: Date, appointment: int,
                                status: AppointmentStatus, user: int)
    requires NoDoubleBooking(t.appointments, calendar)
    ensures NoDoubleBooking(ChangeStatus(t, today, appointment, status, user).tables.appointments, calendar)
       <==> (Exists(appointment, t.appointments) && t.appointments[appointment - 1].staff != 0 ==>
               !RevivesInto(t.appointments, appointment, status, calendar))
  {
    hide NoDoubleBooking, RevivesInto;
    if Exists(appointment, t.appointments) {
      StatusKeepsApartIff(t.appointments, appointment, status, calendar);
    }
  }

  lemma StepKeepsDurations(t: Tables, call: Call)
    requires DurationsPositive(t.services)
    ensures DurationsPositive(Step(t, call).services)
  {
  }

  predicate OrderlyRun(t: Tables, calendar: Date -> int, calls: seq<Call>)
    decreases |calls|
  {
    calls == [] || (Orderly(t, calendar, calls[0]) && OrderlyRun(Step(t, calls[0]), calendar, calls[1..]))
  }

  /** In every state of the run nobody is double booked and every booking is stored with its true times. */
  predicate ApartThroughout(t: Tables, calendar: Date -> int, calls: seq<Call>)
    decreases |calls|
  {
    && NoDoubleBooking(t.appointments, calendar)
    && (calls == [] || (StoresTrueEnd(t, calendar, calls[0])
                        && ApartThroughout(Step(t, calls[0]), calendar, calls[1..])))
  }

  lemma {:induction false} NeverDoubleBookedIff(t: Tables, calendar: Date -> int, calls: seq<Call>)
    requires NoDoubleBooking(t.appointments, calendar) && DurationsPositive(t.services)
    ensures ApartThroughout(t, calendar, calls) <==> OrderlyRun(t, calendar, calls)
    ensures OrderlyRun(t, calendar, calls) ==> NoDoubleBooking(Run(t, calls).appointments, calendar)
    decreases |calls|
  {
    hide NoDoubleBooking, StoresTrueEnd, Orderly, Step;
    if calls != [] {
      StepKeepsApartIff(t, calendar, calls[0]);
      StepKeepsDurations(t, calls[0]);
      if NoDoubleBooking(Step(t, calls[0]).appointments, calendar) {
        NeverDoubleBookedIff(Step(t, calls[0]), calendar, calls[1..]);
      }
    }
  }

  // ----- The plain rule: no booking past midnight, no revival

  predicate EndOnTheirDay(rows: seq<Appointment>) {
    forall i :: 0 <= i < |rows| ==> rows[i].start < rows[i].end
  }

  predicate Plain(t: Tables, call: Call) {
    match call.request
    case Book(_, _, _, _, service, _, start) =>
      WillBook(t, call) ==> start + 60 * t.services[service - 1].minutes < DAY
    case SetStatus(appointment, status) =>
      Exists(appointment, t.appointments) && t.appointments[appointment - 1].status.Cancelled? ==> status.Cancelled?
    case _ =>
      true
  }

  predicate PlainRun(t: Tables, calls: seq<Call>)
    decreases |calls|
  {
    calls == [] || (Plain(t, calls[0]) && PlainRun(Step(t, calls[0]), calls[1..]))
  }

  lemma PlainIsOrderly(t: Tables, calendar: Date -> int, call: Call)
    requires EndOnTheirDay(t.appointments) && DurationsPositive(t.services) && Plain(t, call)
    requires forall d, e :: d != e ==> calendar(d) != calendar(e)
    ensures Orderly(t, calendar, call) && EndOnTheirDay(Step(t, call).appointments)
  {
    hide Unseen, Overlap, RingUp, Spend, Enroll, Amend, Reserve;
    OtherTablesStay(t, call);
    match call.request
    case Book(_, _, _, _, _, _, _) =>
      WillBookIff(t, call);
      if WillBook(t, call) {
        forall i | 0 <= i < |t.appointments|
          ensures !Unseen(t.appointments[i], AskedBy(t, call), calendar)
        {
          DaytimeHidesNothing(t.appointments[i], AskedBy(t, call), calendar);
        }
      }
    case SetStatus(appointment, status) =>
      CompletionKeepsTimes(t, call.today, appointment, status, call.user);
    case _ =>
  }

  lemma CompletionKeepsTimes(t: Tables, today: Date, appointment: int, status: AppointmentStatus, user: int)
    requires EndOnTheirDay(t.appointments)
    ensures EndOnTheirDay(ChangeStatus(t, today, appointment, status, user).tables.appointments)
  {
  }

  /** Where different dates are different days, runs that keep to the plain rule never double book. */
  lemma {:induction false} PlainRunIsOrderly(t: Tables, calendar: Date -> int, calls: seq<Call>)
    requires EndOnTheirDay(t.appointments) && DurationsPositive(t.services) && PlainRun(t, calls)
    requires forall d, e :: d != e ==> calendar(d) != calendar(e)
    ensures OrderlyRun(t, calendar, calls)
    decreases |calls|
  {
    hide EndOnTheirDay, Orderly, Plain, Step;
    if calls != [] {
      PlainIsOrderly(t, calendar, calls[0]);
      StepKeepsDurations(t, calls[0]);
      PlainRunIsOrderly(Step(t, calls[0]), calendar, calls[1..]);
    }
  }

  // ----- Every way of failing does happen, from a new database on

  /** Booked at the desk for stylist 1 by a client who leaves no contact data. */
  function Desk(today: Date, service: int, date: Date, start: Second): Call {
    Call(today, 2, Book("Walk-in", "", "", 1, service, date, start))
  }

  lemma DeskBooks(t: Tables, today: Date, service: int, date: Date, start: Second)
    requires WillBook(t, Desk(today, service, date, start))
    ensures var call := Desk(today, service, date, start);
      && Step(t, call).appointments == t.appointments + [Booked(ClientOf(t, call), service, AskedBy(t, call))]
      && Step(t, call).services == t.services && Step(t, call).staff == t.staff
  {
    WillBookIff(t, Desk(today, service, date, start));
    OtherTablesStay(t, Desk(today, service, date, start));
  }

  lemma RunOfTwo(t: Tables, a: Call, b: Call)
    ensures Run(t, [a, b]) == Step(Step(t, a), b)
  {
    hide Step;
    assert [a, b][1..] == [b];
    assert Run(Step(t, a), [b]) == Run(Step(Step(t, a), b), [b][1..]);
  }

  lemma RunOnwards(t: Tables, a: Call, calls: seq<Call>)
    ensures Run(t, [a] + calls) == Run(Step(t, a), calls)
  {
    hide Step;
    assert ([a] + calls)[1..] == calls;
  }

  /** A service of an hour booked at 23:30 is stored as ending at 00:30, so 23:45 seems free. */
  lemma MidnightDoubleBooking(today: Date, date: Date, calendar: Date -> int)
    requires date != today
    ensures var rows := Run(Seed(today), [Desk(today, 1, date, 84600), Desk(today, 2, date, 85500)]).appointments;
      |rows| == 4 && Overlap(rows[2], rows[3], calendar)
  {
    hide Step, Run, ClientOf;
    var t, a, b := Seed(today), Desk(today, 1, date, 84600), Desk(today, 2, date, 85500);
    RunOfTwo(t, a, b);
    DeskBooks(t, today, 1, date, 84600);
    DeskBooks(Step(t, a), today, 2, date, 85500);
  }

  /** All stored rows end on their day, but the slot does not: its end, 00:30, is not after 23:45. */
  lemma LateSlotDoubleBooking(today: Date, date: Date, calendar: Date -> int)
    requires date != today
    ensures var short := Call(today, 1, AddService(10, 20.0));
      var before := Run(Seed(today), [short, Desk(today, 7, date, 85500)]).appointments;
      var rows := Run(Seed(today), [short, Desk(today, 7, date, 85500), Desk(today, 1, date, 84600)]).appointments;
      && EndOnTheirDay(before) && |rows| == 4 && Overlap(rows[2], rows[3], calendar)
  {
    hide Step, Run, ClientOf;
    var t, short, a, b :=
      Seed(today), Call(today, 1, AddService(10, 20.0)), Desk(today, 7, date, 85500), Desk(today, 1, date, 84600);
    assert [short] + [a, b] == [short, a, b];
    RunOnwards(t, short, [a, b]);
    RunOfTwo(t, short, a);
    RunOfTwo(Step(t, short), a, b);
    ServiceAdded(t, short);
    DeskBooks(Step(t, short), today, 7, date, 85500);
    DeskBooks(Step(Step(t, short), a), today, 1, date, 84600);
  }

  lemma ServiceAdded(t: Tables, call: Call)
    requires call.request == AddService(10, 20.0)
    ensures Step(t, call).services == t.services + [Service(10, 20.0)]
    ensures Step(t, call).appointments == t.appointments && Step(t, call).staff == t.staff
  {
  }

  /** Rows of another date are not looked at: an hour from 23:30 and a booking at midnight overlap. */
  lemma NextDayDoubleBooking(today: Date, date: Date, next: Date, calendar: Date -> int)
    requires date != today && next != today && date != next && calendar(next) == calendar(date) + 1
    ensures var rows := Run(Seed(today), [Desk(today, 1, date, 84600), Desk(today, 2, next, 0)]).appointments;
      |rows| == 4 && Overlap(rows[2], rows[3], calendar)
  {
    hide Step, Run, ClientOf;
    var t, a, b := Seed(today), Desk(today, 1, date, 84600), Desk(today, 2, next, 0);
    RunOfTwo(t, a, b);
    DeskBooks(t, today, 1, date, 84600);
    DeskBooks(Step(t, a), today, 2, next, 0);
  }

  lemma OnlyStatusChanges(t: Tables, today: Date, appointment: int, status: AppointmentStatus)
    requires Exists(appointment, t.appointments) && t.appointments[appointment - 1].staff != 0 && !status.Completed?
    ensures var after := Step(t, Call(today, 2, SetStatus(appointment, status)));
      && after.appointments == UpdateKey(t.appointments, appointment, WithStatus(status))
      && after.services == t.services && |after.staff| == |t.staff|
  {
  }

  /** An appointment is cancelled, its slot is booked again, and setting the first back to upcoming is accepted. */
  lemma RevivedDoubleBooking(today: Date, date: Date, calendar: Date -> int)
    requires date != today
    ensures var book := Desk(today, 1, date, 36000);
      var cancel, revive := Call(today, 2, SetStatus(3, Cancelled)), Call(today, 2, SetStatus(3, Upcoming));
      var rows := Run(Seed(today), [book, cancel, book, revive]).appointments;
      |rows| == 4 && Overlap(rows[2], rows[3], calendar)
  {
    hide Step, Run, ClientOf;
    var t, book := Seed(today), Desk(today, 1, date, 36000);
    var cancel, revive := Call(today, 2, SetStatus(3, Cancelled)), Call(today, 2, SetStatus(3, Upcoming));
    assert [book, cancel, book, revive] == [book] + ([cancel] + [book, revive]);
    RunOnwards(t, book, [cancel] + [book, revive]);
    RunOnwards(Step(t, book), cancel, [book, revive]);
    var one, two := Step(t, book), Step(Step(t, book), cancel);
    RunOfTwo(two, book, revive);
    DeskBooks(t, today, 1, date, 36000);
    OnlyStatusChanges(one, today, 3, Cancelled);
    DeskBooks(two, today, 1, date, 36000);
    OnlyStatusChanges(Step(two, book), today, 3, Upcoming);
  }
}
