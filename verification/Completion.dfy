/** Completing an appointment: two commits, at most one invoice. */
module Completion {
  import opened Basics
  import opened Schema
  import opened Ledger
  import opened Frames
  import opened References
  import opened CashBook
  import opened Sales

  /** No two invoices name the same appointment. */
  predicate AtMostOneInvoice(invoices: seq<Invoice>) {
    forall i, j :: 0 <= i < j < |invoices| && invoices[i].appointment.Some? ==>
      invoices[i].appointment != invoices[j].appointment
  }

  predicate Invoiced(t: Tables, appointment: int) {
    exists i :: 0 <= i < |t.invoices| && t.invoices[i].appointment == Some(appointment)
  }

  predicate InvoicedOnce(t: Tables, appointment: int) {
    exists i :: 0 <= i < |t.invoices| && t.invoices[i].appointment == Some(appointment)
      && forall j :: 0 <= j < |t.invoices| && j != i ==> t.invoices[j].appointment != Some(appointment)
  }

  lemma InvoicedIff(t: Tables, appointment: int)
    ensures Invoiced(t, appointment) <==> Find(t.invoices, Names(appointment)).Some?
  {
    assert forall i :: 0 <= i < |t.invoices| ==>
      (Names(appointment)(t.invoices[i]) <==> t.invoices[i].appointment == Some(appointment));
  }

  lemma StepKeepsAtMostOne(t: Tables, call: Call)
    requires AtMostOneInvoice(t.invoices)
    ensures AtMostOneInvoice(Step(t, call).invoices)
  {
  }

  lemma {:induction false} RunKeepsAtMostOne(t: Tables, calls: seq<Call>)
    requires AtMostOneInvoice(t.invoices)
    ensures AtMostOneInvoice(Run(t, calls).invoices)
    decreases |calls|
  {
    if calls != [] {
      StepKeepsAtMostOne(t, calls[0]);
      RunKeepsAtMostOne(Step(t, calls[0]), calls[1..]);
    }
  }

  lemma InvoicedIsOnce(t: Tables, appointment: int)
    requires AtMostOneInvoice(t.invoices)
    ensures Invoiced(t, appointment) <==> InvoicedOnce(t, appointment)
  {
  }

  /** The second commit can only be refused because the day is shut or the recording user is unknown. */
  predicate Invoiceable(t: Tables, today: Date, user: int) {
    DayIsOpen(t.drawers, today) && 1 <= (if user == 0 then 1 else user) <= |t.users|
  }

  /**
   * Completing an existing appointment always commits the new status. It is answered with success exactly when
   * the appointment was invoiced before or can be now; after success it has exactly one invoice, and after a
   * failure none, with invoices, items, clients, stock and drawers as they were.
   */
  lemma CompletedIffInvoiced(t: Tables, call: Call)
    requires Intact(t) && AtMostOneInvoice(t.invoices)
    requires call.request.SetStatus? && call.request.status.Completed?
    requires Exists(call.request.appointment, t.appointments)
    ensures var a, after := call.request.appointment, Step(t, call);
      && after.appointments == t.appointments[a - 1 := t.appointments[a - 1].(status := Completed)]
      && (Respond(t, call).reply.Ok? <==> Invoiced(t, a) || Invoiceable(t, call.today, call.user))
      && (Respond(t, call).reply.Ok? ==> InvoicedOnce(after, a))
      && (Respond(t, call).reply.Err? ==> !Invoiced(after, a))
      && (Respond(t, call).reply.Err? || Invoiced(t, a) ==>
            && after.invoices == t.invoices && after.items == t.items && after.clients == t.clients
            && after.products == t.products && after.drawers == t.drawers)
  {
    var a, after := call.request.appointment, Step(t, call);
    var (changed, apt, line) := Completing(t, a, Completed);
    assert AppointmentRefers(t.appointments[a - 1], t);
    assert InvoiceReferences(changed, Some(apt.client), Recorder(call.user), Some(a))
      <==> Exists(Recorder(call.user), t.users);
    assert StylistsKnown(changed.staff, [line]);
    StepKeepsAtMostOne(t, call);
    if Respond(t, call).reply.Ok? && !Invoiced(t, a) {
      assert Names(a)(after.invoices[|t.invoices|]);
    }
    InvoicedIsOnce(after, a);
  }

  /**
   * A completion that invoices adds one invoice, today's, in cash, at the service's current price, and one item: one
   * unit of the appointment's service, by the appointment's stylist, with what that earns the stylist.
   */
  lemma CompletionInvoice(t: Tables, call: Call)
    requires Intact(t)
    requires call.request.SetStatus? && call.request.status.Completed?
    requires Exists(call.request.appointment, t.appointments)
    requires !Invoiced(t, call.request.appointment) && Invoiceable(t, call.today, call.user)
    ensures var a, after := call.request.appointment, Step(t, call);
      var apt := t.appointments[a - 1];
      && Exists(apt.service, t.services) && Exists(apt.staff, t.staff)
      && var price := t.services[apt.service - 1].price;
      && after.invoices == t.invoices + [Invoice(
           Some(apt.client), if call.user == 0 then 1 else call.user, Cash, price, Some(a), call.today)]
      && after.items == t.items + [Item(
           |t.invoices| + 1, ServiceItem, apt.service, Some(apt.staff), 1, price, Earns(t, Some(apt.staff), price, 1))]
  {
    hide DrawersAfterSale, AfterSale, DayIsOpen, ShutOn, ItemRows, Sum, Earns, Commission;
    var a := call.request.appointment;
    var (changed, apt, line) := Completing(t, a, Completed);
    InvoicedIff(t, a);
    ShutIff(t.drawers, call.today);
    assert AppointmentRefers(t.appointments[a - 1], t);
    assert StylistsKnown(changed.staff, [line]);
    OneLineSale(t, a, Completed, line);
  }

  /** The total, the item row and the commission of the single line. */
  lemma OneLineSale(t: Tables, a: int, status: AppointmentStatus, line: Line)
    requires Intact(t) && Exists(a, t.appointments) && line == Completing(t, a, status).2
    ensures var changed, apt := StatusSet(t, a, status), t.appointments[a - 1];
      && Exists(apt.service, t.services) && Exists(apt.staff, t.staff)
      && var price := t.services[apt.service - 1].price;
      && Sum([line], LineTotal) == price
      && ItemRows(t.users, changed.staff, |t.invoices| + 1, [line]) == [Item(
           |t.invoices| + 1, ServiceItem, apt.service, Some(apt.staff), 1, price, Earns(t, Some(apt.staff), price, 1))]
  {
    var changed, apt := StatusSet(t, a, status), t.appointments[a - 1];
    assert AppointmentRefers(apt, t);
    assert [line] == [] + [line];
    SumAppend([], line, LineTotal);
    var price := t.services[apt.service - 1].price;
    assert line == Line(ServiceItem, apt.service, Some(apt.staff), 1, price);
    assert LineTotal(line) == price;
    assert Sum([], LineTotal) == 0.0;
    assert changed.staff[apt.staff - 1].user == t.staff[apt.staff - 1].user;
    assert Commission(t.users, changed.staff, line) == Earns(t, Some(apt.staff), price, 1);
    assert ItemRows(t.users, changed.staff, |t.invoices| + 1, [line])
        == [ItemRow(t.users, changed.staff, |t.invoices| + 1, line)];
  }

  /** An accepted status puts the appointment's stylist in service exactly when it is 'active', and moves no other. */
  lemma StatusMovesStylist(t: Tables, call: Call, k: nat)
    requires Intact(t) && call.request.SetStatus? && Exists(call.request.appointment, t.appointments)
    requires k < |t.staff|
    ensures var mine := k + 1 == t.appointments[call.request.appointment - 1].staff;
      && |Step(t, call).staff| == |t.staff|
      && Step(t, call).staff[k].status ==
           if mine then (if call.request.status.Active? then InService else Available) else t.staff[k].status
  {
    assert AppointmentRefers(t.appointments[call.request.appointment - 1], t);
  }

  /** Completing again: whatever the day, no invoice, item, client total, stock or drawer changes. */
  lemma CompletingTwice(t: Tables, first: Call, between: seq<Call>, second: Call)
    requires Intact(t) && AtMostOneInvoice(t.invoices)
    requires first.request.SetStatus? && first.request.status.Completed?
    requires Exists(first.request.appointment, t.appointments)
    requires second.request == first.request && Respond(t, first).reply.Ok?
    ensures var before := Run(Step(t, first), between);
      var after := Step(before, second);
      && Respond(before, second).reply.Ok? && InvoicedOnce(after, first.request.appointment)
      && after.invoices == before.invoices && after.items == before.items && after.clients == before.clients
      && after.products == before.products && after.drawers == before.drawers
  {
    CompletedIffInvoiced(t, first);
    var mid := Step(t, first);
    StepKeepsIntact(t, first);
    StepKeepsAtMostOne(t, first);
    RunKeepsIntact(mid, between);
    RunKeepsAtMostOne(mid, between);
    RunGrows(mid, between);
    StepGrows(t, first);
    var before := Run(mid, between);
    InvoicedIsOnce(mid, first.request.appointment);
    var i := Find(mid.invoices, Names(first.request.appointment)).value;
    assert before.invoices[i] == mid.invoices[i];
    assert Names(first.request.appointment)(before.invoices[i]);
    CompletedIffInvoiced(before, second);
  }

  /**
   * On a closed day the status is committed and the invoice is not. A retry on a day that is not shut, by a known
   * user, succeeds whatever was called in between, and leaves the appointment with exactly one invoice.
   */
  lemma RetryAfterClosedDay(t: Tables, first: Call, between: seq<Call>, retry: Call)
    requires Intact(t) && AtMostOneInvoice(t.invoices)
    requires first.request.SetStatus? && first.request.status.Completed?
    requires Exists(first.request.appointment, t.appointments)
    requires !Invoiced(t, first.request.appointment) && !DayIsOpen(t.drawers, first.today)
    requires retry.request == first.request
    ensures var a, mid, before := first.request.appointment, Step(t, first), Run(Step(t, first), between);
      && Respond(t, first).reply == Err(NoActiveTransaction)
      && mid.appointments[a - 1].status.Completed? && !Invoiced(mid, a)
      && (Invoiceable(before, retry.today, retry.user) ==>
            Respond(before, retry).reply.Ok? && InvoicedOnce(Step(before, retry), a))
  {
    CompletedIffInvoiced(t, first);
    var mid := Step(t, first);
    StepKeepsIntact(t, first);
    StepKeepsAtMostOne(t, first);
    RunKeepsIntact(mid, between);
    RunKeepsAtMostOne(mid, between);
    RunGrows(mid, between);
    CompletedIffInvoiced(Run(mid, between), retry);
  }
}
