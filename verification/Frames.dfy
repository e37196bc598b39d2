/** Which tables each request can change, and what no request ever does to a table. */
module Frames {
  import opened Schema
  import opened Ledger

  /** The tables a request has no write statement for are left as they are. */
  lemma OtherTablesStay(t: Tables, call: Call)
    ensures OtherLogsStay(t, call) && OtherGoodsStay(t, call)
    ensures OtherBookingsStay(t, call) && OtherAccountsStay(t, call)
  {
    hide *;
    OtherLogs(t, call);
    OtherGoods(t, call);
    OtherBookings(t, call);
    OtherAccounts(t, call);
  }

  predicate OtherLogsStay(t: Tables, call: Call) {
    var r, after := call.request, Step(t, call);
    && (!r.Checkout? && !r.SetStatus? ==> after.invoices == t.invoices && after.items == t.items)
    && (!r.LogExpense? ==> after.expenses == t.expenses)
    && (!r.Checkout? && !r.SetStatus? && !r.LogExpense? && !r.ReadDrawer? && !r.CloseDrawer? ==>
          after.drawers == t.drawers)
  }

  predicate OtherGoodsStay(t: Tables, call: Call) {
    var r, after := call.request, Step(t, call);
    && (!r.Checkout? && !r.SetStatus? && !r.Book? && !r.AddClient? ==> after.clients == t.clients)
    && (!r.Checkout? && !r.SetStatus? && !r.AddProduct? && !r.Restock? ==> after.products == t.products)
  }

  predicate OtherBookingsStay(t: Tables, call: Call) {
    var r, after := call.request, Step(t, call);
    && (!r.Book? && !r.SetStatus? ==> after.appointments == t.appointments)
    && (!r.AddService? && !r.UpdateService? ==> after.services == t.services)
  }

  predicate OtherAccountsStay(t: Tables, call: Call) {
    var r, after := call.request, Step(t, call);
    && (!r.Register? && !r.UpdateStaff? ==> after.users == t.users)
    && (!r.Register? && !r.UpdateStaff? && !r.SetStatus? && !r.SetAvailability? ==> after.staff == t.staff)
  }

  lemma OtherLogs(t: Tables, call: Call)
    ensures OtherLogsStay(t, call)
  {
  }

  lemma OtherGoods(t: Tables, call: Call)
    ensures OtherGoodsStay(t, call)
  {
  }

  lemma OtherBookings(t: Tables, call: Call)
    ensures OtherBookingsStay(t, call)
  {
  }

  lemma OtherAccounts(t: Tables, call: Call)
    ensures OtherAccountsStay(t, call)
  {
  }

  /** No row is ever deleted, and the log of invoices, items and expenses is only appended to. */
  predicate Grows(before: Tables, after: Tables) {
    && |before.users| <= |after.users| && |before.services| <= |after.services|
    && |before.staff| <= |after.staff| && |before.clients| <= |after.clients|
    && |before.appointments| <= |after.appointments| && |before.products| <= |after.products|
    && |before.drawers| <= |after.drawers|
    && before.invoices <= after.invoices && before.items <= after.items && before.expenses <= after.expenses
  }

  lemma StepGrows(t: Tables, call: Call)
    ensures Grows(t, Step(t, call))
  {
    OtherTablesStay(t, call);
    match call.request
    case Checkout(client, payment, lines) =>
    case SetStatus(appointment, status) =>
      CompletionGrows(t, call.today, appointment, status, call.user);
    case _ =>
  }

  lemma CompletionGrows(t: Tables, today: Date, appointment: int, status: AppointmentStatus, user: int)
    ensures Grows(t, ChangeStatus(t, today, appointment, status, user).tables)
  {
  }

  lemma {:induction false} RunGrows(t: Tables, calls: seq<Call>)
    ensures Grows(t, Run(t, calls))
    decreases |calls|
  {
    if calls != [] {
      StepGrows(t, calls[0]);
      RunGrows(Step(t, calls[0]), calls[1..]);
    }
  }
}
