/** What each request is answered: accepted with which key, or refused for which reason. */
module Answers {
  import opened Basics
  import opened Schema
  import opened Ledger
  import opened Bookings
  import opened CashBook
  import opened Completion
  import opened Records

  // ----- Conditions on the rows

  /** The automatic invoice of a completed appointment can be written. */
  predicate CanBeInvoiced(t: Tables, today: Date, user: int, a: Appointment) {
    && 1 <= a.client <= |t.clients| && 1 <= a.staff <= |t.staff|
    && 1 <= (if user == 0 then 1 else user) <= |t.users|
    && DayIsOpen(t.drawers, today)
  }

  // ----- Answers that are refusals

  function RefusesCheckout(t: Tables, call: Call): Option<Error>
    requires call.request.Checkout?
  {
    var r := call.request;
    if r.lines == [] || (r.payment.OtherPayment? && !Given(r.payment.text)) then Some(BadRequest)
    else if !SaleRefers(t, r.client, call.user, r.lines) then Some(ForeignKeyViolation)
    else if !DayIsOpen(t.drawers, call.today) then Some(UniqueViolation)
    else None
  }

  function RefusesStatus(t: Tables, call: Call): Option<Error>
    requires call.request.SetStatus?
  {
    var r := call.request;
    if r.appointment == 0 then Some(BadRequest)
    else if !(1 <= r.appointment <= |t.appointments|) || t.appointments[r.appointment - 1].staff == 0 then
      Some(NotFound)
    else
      var a := t.appointments[r.appointment - 1];
      if r.status == Completed && !Invoiced(t, r.appointment) && 1 <= a.service <= |t.services|
         && !CanBeInvoiced(t, call.today, call.user, a) then
        Some(NoActiveTransaction)
      else
        None
  }

  function RefusesExpense(t: Tables, call: Call): Option<Error>
    requires call.request.LogExpense?
  {
    var r := call.request;
    if !Given(r.category) || r.amount <= 0.0 then Some(BadRequest)
    else if !(1 <= call.user <= |t.users|) then Some(ForeignKeyViolation)
    else if !DayIsOpen(t.drawers, r.day) then Some(UniqueViolation)
    else None
  }

  function RefusesClose(t: Tables, call: Call): Option<Error>
    requires call.request.CloseDrawer?
  {
    if !(1 <= call.user <= |t.users|)
       && exists i :: 0 <= i < |t.drawers| && t.drawers[i].date == call.request.day && t.drawers[i].status == Open then
      Some(ForeignKeyViolation)
    else
      None
  }

  /** The conflict check finds a row; what that means for the times of the rows is the subject of Bookings. */
  predicate Conflict(t: Tables, slot: Slot) {
    exists i :: 0 <= i < |t.appointments| && Seen(t.appointments[i], slot)
  }

  function RefusesBooking(t: Tables, call: Call): Option<Error>
    requires call.request.Book?
  {
    var r := call.request;
    if !Given(r.name) || r.staff == 0 || r.service == 0 then Some(BadRequest)
    else if !(1 <= r.service <= |t.services|) || t.services[r.service - 1].minutes == 0 then Some(NotFound)
    else if Conflict(t, Slot(r.staff, r.date, r.start, t.services[r.service - 1].minutes)) then Some(SlotTaken)
    else if !(1 <= r.staff <= |t.staff|) then Some(ForeignKeyViolation)
    else None
  }

  function RefusesAccount(t: Tables, call: Call): Option<Error>
    requires call.request.Register? || call.request.UpdateStaff?
  {
    match call.request
    case Register(name, username, _, _, _, _, _) =>
      if !Given(name) || !Given(username) then Some(BadRequest)
      else if !NameFree(t.users, username, 0) then Some(UsernameTaken)
      else None
    case UpdateStaff(user, name, username, _, _, _, _) =>
      if user == 0 || !Given(name) || !Given(username) then Some(BadRequest)
      else if 1 <= user <= |t.users| && !NameFree(t.users, username, user) then Some(UniqueViolation)
      else None
  }

  /** Why a request is refused, if it is. */
  function Refusal(t: Tables, call: Call): Option<Error> {
    var bad := Some(BadRequest);
    match call.request
    case Checkout(_, _, _) => RefusesCheckout(t, call)
    case SetStatus(_, _) => RefusesStatus(t, call)
    case LogExpense(_, _, _) => RefusesExpense(t, call)
    case ReadDrawer => None
    case CloseDrawer(_, _) => RefusesClose(t, call)
    case Book(_, _, _, _, _, _, _) => RefusesBooking(t, call)
    case AddClient(name, _, _) => if Given(name) then None else bad
    case AddService(minutes, price) => if minutes > 0 && price >= 0.0 then None else bad
    case UpdateService(service, minutes, price) =>
      if service != 0 && minutes > 0 && price >= 0.0 then None else bad
    case AddProduct(_) => None
    case Restock(product, _) => if product != 0 then None else bad
    case Register(_, _, _, _, _, _, _) => RefusesAccount(t, call)
    case UpdateStaff(_, _, _, _, _, _, _) => RefusesAccount(t, call)
    case SetAvailability(availability) => if availability != InService then None else bad
  }

  /** The key an accepted request is answered with is that of the row it has added, or of today's drawer row. */
  predicate AnswersKey(t: Tables, call: Call, key: int) {
    var after := Step(t, call);
    match call.request
    case Checkout(_, _, _) => key == |t.invoices| + 1 == |after.invoices|
    case LogExpense(_, _, _) => key == |t.expenses| + 1 == |after.expenses|
    case Book(_, _, _, _, _, _, _) => key == |t.appointments| + 1 == |after.appointments|
    case AddClient(_, _, _) => key == |t.clients| + 1 == |after.clients|
    case AddService(_, _) => key == |t.services| + 1 == |after.services|
    case AddProduct(_) => key == |t.products| + 1 == |after.products|
    case Register(_, _, _, _, _, _, _) => key == |t.users| + 1 == |after.users|
    case ReadDrawer =>
      && 1 <= key <= |after.drawers| && after.drawers[key - 1].date == call.today
      && (|after.drawers| == |t.drawers| || (key == |after.drawers| && |after.drawers| == |t.drawers| + 1))
    case _ => true
  }

  /** A refused request changes nothing, but for the client row that a booking has found missing. */
  predicate RefusedLeaves(t: Tables, call: Call) {
    match call.request
    case SetStatus(a, _) =>
      Refusal(t, call) != Some(NoActiveTransaction) ==> Step(t, call) == t
    case Book(_, _, _, _, _, _, _) =>
      Step(t, call) == t.(clients := Step(t, call).clients)
    case _ =>
      Step(t, call) == t
  }

  /** The request is answered as it should be. */
  predicate Answered(t: Tables, call: Call) {
    match Respond(t, call).reply
    case Ok(key) => Refusal(t, call) == None && AnswersKey(t, call, key)
    case Err(error) => Refusal(t, call) == Some(error) && RefusedLeaves(t, call)
  }

  // ----- Every request gets that answer

  lemma CheckoutAnswered(t: Tables, call: Call)
    requires call.request.Checkout?
    ensures Answered(t, call)
  {
    hide AfterSale, ItemRows, DrawersAfterSale, UpdateKey, Sum, ShutOn, DayIsOpen, SaleRefers, StylistsKnown;
    ShutIff(t.drawers, call.today);
    RefersIff(t, call.request.client, call.user, call.request.lines, None);
  }

  lemma StatusAnswered(t: Tables, call: Call)
    requires call.request.SetStatus?
    ensures Answered(t, call)
  {
    hide Posted, ShutOn, DayIsOpen;
    var a := call.request.appointment;
    if Exists(a, t.appointments) {
      var changed := StatusSet(t, a, call.request.status);
      var apt := t.appointments[a - 1];
      ShutIff(t.drawers, call.today);
      assert Find(changed.invoices, Names(a)).Some? <==> Invoiced(t, a) by {
        assert forall i :: 0 <= i < |t.invoices| ==>
          (Names(a)(t.invoices[i]) <==> t.invoices[i].appointment == Some(a));
      }
      if Exists(apt.service, t.services) {
        var line := Line(ServiceItem, apt.service, Some(apt.staff), 1, t.services[apt.service - 1].price);
        RefersIff(changed, Some(apt.client), Recorder(call.user), [line], Some(a));
      }
    }
  }

  lemma ExpenseAnswered(t: Tables, call: Call)
    requires call.request.LogExpense?
    ensures Answered(t, call)
  {
    hide DrawersAfterExpense, ShutOn, DayIsOpen;
    ShutIff(t.drawers, call.request.day);
  }

  lemma DrawerAnswered(t: Tables, call: Call)
    requires call.request.ReadDrawer? || call.request.CloseDrawer?
    ensures Answered(t, call)
  {
    if call.request.CloseDrawer? {
      assert forall i :: 0 <= i < |t.drawers| ==>
        (OpenOn(call.request.day)(t.drawers[i])
         <==> t.drawers[i].date == call.request.day && t.drawers[i].status == Open);
    }
  }

  lemma BookingAnswered(t: Tables, call: Call)
    requires call.request.Book?
    ensures Answered(t, call)
  {
    var r := call.request;
    if Exists(r.service, t.services) {
      var slot := Slot(r.staff, r.date, r.start, t.services[r.service - 1].minutes);
      assert Find(t.appointments, Clashes(r.staff, r.date, r.start, EndOf(r.start, slot.minutes))).Some?
          <==> Conflict(t, slot) by {
        assert forall i :: 0 <= i < |t.appointments| ==>
          (Seen(t.appointments[i], slot)
           <==> Clashes(r.staff, r.date, r.start, EndOf(r.start, slot.minutes))(t.appointments[i]));
      }
    }
  }

  lemma AccountAnswered(t: Tables, call: Call)
    requires call.request.Register? || call.request.UpdateStaff?
    ensures Answered(t, call)
  {
    hide StaffAfterAmend;
    if call.request.Register? {
      assert forall i :: 0 <= i < |t.users| ==>
        (Called(call.request.username)(t.users[i]) <==> t.users[i].username == call.request.username);
    }
  }

  lemma UpkeepAnswered(t: Tables, call: Call)
    requires !call.request.Checkout? && !call.request.SetStatus? && !call.request.LogExpense?
    requires !call.request.ReadDrawer? && !call.request.CloseDrawer? && !call.request.Book?
    requires !call.request.Register? && !call.request.UpdateStaff?
    ensures Answered(t, call)
  {
    hide RingUp, ChangeStatus, Spend, OpenToday, CloseDay, FindOrCreate, Reserve, Enroll, Amend;
  }

  /** Every request is accepted or refused for exactly the reason that `Refusal` reads off the tables before it. */
  lemma AnswerIsRight(t: Tables, call: Call)
    ensures Answered(t, call)
  {
    hide Answered;
    match call.request
    case Checkout(_, _, _) => CheckoutAnswered(t, call);
    case SetStatus(_, _) => StatusAnswered(t, call);
    case LogExpense(_, _, _) => ExpenseAnswered(t, call);
    case ReadDrawer => DrawerAnswered(t, call);
    case CloseDrawer(_, _) => DrawerAnswered(t, call);
    case Book(_, _, _, _, _, _, _) => BookingAnswered(t, call);
    case Register(_, _, _, _, _, _, _) => AccountAnswered(t, call);
    case UpdateStaff(_, _, _, _, _, _, _) => AccountAnswered(t, call);
    case _ => UpkeepAnswered(t, call);
  }

  /** A checkout with lines and a method is accepted exactly if all it refers to exists and the day is not shut. */
  lemma CheckoutAcceptedIff(t: Tables, call: Call)
    requires call.request.Checkout?
    ensures Respond(t, call).reply.Ok? <==>
      && call.request.lines != []
      && (call.request.payment.OtherPayment? ==> Given(call.request.payment.text))
      && SaleRefers(t, call.request.client, call.user, call.request.lines)
      && DayIsOpen(t.drawers, call.today)
    ensures Respond(t, call).reply.Ok? ==>
      Respond(t, call).reply.value == |t.invoices| + 1 == |Step(t, call).invoices|
  {
    hide Respond;
    AnswerIsRight(t, call);
  }
}
