/** Foreign keys: every reference in every reachable state names a row. */
module References {
  import opened Basics
  import opened Schema
  import opened Ledger
  import opened Frames
  import Clock

  predicate AppointmentRefers(a: Appointment, t: Tables) {
    Exists(a.client, t.clients) && Exists(a.staff, t.staff) && Exists(a.service, t.services)
  }

  predicate ItemRefers(item: Item, t: Tables) {
    Exists(item.invoice, t.invoices) && (item.stylist.Some? ==> Exists(item.stylist.value, t.staff))
  }

  predicate InvoiceRefers(i: Invoice, t: Tables) {
    && (i.client.Some? ==> Exists(i.client.value, t.clients))
    && Exists(i.loggedBy, t.users)
    && (i.appointment.Some? ==> Exists(i.appointment.value, t.appointments))
  }

  predicate Intact(t: Tables) {
    && (forall i :: 0 <= i < |t.appointments| ==> AppointmentRefers(t.appointments[i], t))
    && (forall i :: 0 <= i < |t.invoices| ==> InvoiceRefers(t.invoices[i], t))
    && (forall i :: 0 <= i < |t.items| ==> ItemRefers(t.items[i], t))
    && (forall i :: 0 <= i < |t.expenses| ==> Exists(t.expenses[i].loggedBy, t.users))
    && (forall i :: 0 <= i < |t.drawers| && t.drawers[i].closedBy.Some? ==>
          Exists(t.drawers[i].closedBy.value, t.users))
    && (forall i :: 0 <= i < |t.staff| && t.staff[i].user.Some? ==> Exists(t.staff[i].user.value, t.users))
  }

  lemma RingUpKeepsIntact(t: Tables, today: Date, client: Option<int>, user: int, payment: Payment, lines: seq<Line>,
                          appointment: Option<int>)
    requires Intact(t)
    ensures Intact(RingUp(t, today, client, user, payment, lines, appointment).tables)
  {
    var sale := RingUp(t, today, client, user, payment, lines, appointment);
    if sale.reply.Ok? {
      forall i | 0 <= i < |sale.tables.items|
        ensures ItemRefers(sale.tables.items[i], sale.tables)
      {
        assert i < |t.items| ==> ItemRefers(t.items[i], t);
        assert i >= |t.items| ==> StylistKnown(t.staff, lines[i - |t.items|]);
      }
      forall i | 0 <= i < |sale.tables.appointments|
        ensures AppointmentRefers(sale.tables.appointments[i], sale.tables)
      {
        assert AppointmentRefers(t.appointments[i], t);
      }
    }
  }

  lemma CompletionKeepsIntact(t: Tables, today: Date, appointment: int, status: AppointmentStatus, user: int)
    requires Intact(t)
    ensures Intact(ChangeStatus(t, today, appointment, status, user).tables)
  {
    hide RingUp;
    if Exists(appointment, t.appointments) {
      assert AppointmentRefers(t.appointments[appointment - 1], t);
      var changed := StatusSet(t, appointment, status);
      StatusKeepsIntact(t, appointment, status);
      var apt := changed.appointments[appointment - 1];
      var line := Line(ServiceItem, apt.service, Some(apt.staff), 1, changed.services[apt.service - 1].price);
      RingUpKeepsIntact(changed, today, Some(apt.client), Recorder(user), Cash, [line], Some(appointment));
    }
  }

  lemma StatusKeepsIntact(t: Tables, appointment: int, status: AppointmentStatus)
    requires Intact(t) && Exists(appointment, t.appointments)
    ensures Intact(StatusSet(t, appointment, status))
  {
  }

  /** Rows that refer still do when the tables they refer to have grown. */
  lemma IntactWhenGrown(t: Tables, after: Tables)
    requires Intact(t) && Grows(t, after)
    requires after.appointments == t.appointments && after.invoices == t.invoices && after.items == t.items
    requires after.expenses == t.expenses
    requires forall i :: 0 <= i < |after.drawers| && after.drawers[i].closedBy.Some? ==>
      Exists(after.drawers[i].closedBy.value, after.users)
    requires forall i :: 0 <= i < |after.staff| && after.staff[i].user.Some? ==>
      Exists(after.staff[i].user.value, after.users)
    ensures Intact(after)
  {
  }

  lemma BookingKeepsIntact(t: Tables, client: int, staff: int, service: int, date: Date, start: Clock.Second)
    requires Intact(t)
    ensures Intact(Reserve(t, client, staff, service, date, start).tables)
  {
  }

  lemma StepKeepsIntact(t: Tables, call: Call)
    requires Intact(t)
    ensures Intact(Step(t, call))
  {
    hide RingUp, ChangeStatus, Spend, FindOrCreate, Reserve, Intact, OpenToday, CloseDay, Enroll, Amend;
    match call.request
    case Checkout(client, payment, lines) =>
      RingUpKeepsIntact(t, call.today, client, call.user, payment, lines, None);
    case SetStatus(appointment, status) =>
      CompletionKeepsIntact(t, call.today, appointment, status, call.user);
    case LogExpense(category, amount, day) =>
      ExpenseKeepsIntact(t, category, amount, day, call.user);
    case Book(name, email, phone, staff, service, date, start) =>
      var (known, client) := FindOrCreate(t, name, email, phone);
      LookUpKeepsIntact(t, name, email, phone);
      BookingKeepsIntact(known, client, staff, service, date, start);
    case _ =>
      UpkeepKeepsIntact(t, call);
  }

  lemma LookUpKeepsIntact(t: Tables, name: string, email: string, phone: string)
    requires Intact(t)
    ensures Intact(FindOrCreate(t, name, email, phone).0)
  {
    IntactWhenGrown(t, FindOrCreate(t, name, email, phone).0);
  }

  /** The requests that add no row of appointments, invoices, items or expenses. */
  lemma UpkeepKeepsIntact(t: Tables, call: Call)
    requires Intact(t)
    requires !call.request.Checkout? && !call.request.SetStatus? && !call.request.LogExpense? && !call.request.Book?
    ensures Intact(Step(t, call))
  {
    hide RingUp, ChangeStatus, Spend, Reserve;
    OtherTablesStay(t, call);
    StepGrows(t, call);
    IntactWhenGrown(t, Step(t, call));
  }

  lemma ExpenseKeepsIntact(t: Tables, category: string, amount: Money, day: Date, user: int)
    requires Intact(t)
    ensures Intact(Spend(t, category, amount, day, user).tables)
  {
  }

  lemma {:induction false} RunKeepsIntact(t: Tables, calls: seq<Call>)
    requires Intact(t)
    ensures Intact(Run(t, calls))
    decreases |calls|
  {
    if calls != [] {
      StepKeepsIntact(t, calls[0]);
      RunKeepsIntact(Step(t, calls[0]), calls[1..]);
    }
  }
}
