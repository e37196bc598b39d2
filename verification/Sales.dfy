/** Totals, client spending and stock against the items they are computed from. */
module Sales {
  import opened Basics
  import opened Schema
  import opened Ledger
  import opened Frames
  import opened References
  import opened Histories

  // ----- Invoice totals

  function LineOf(invoice: int): Item -> Money {
    (i: Item) => if i.invoice == invoice then i.price * i.quantity as real else 0.0
  }

  /** Each invoice's total is the sum of price times quantity over its own stored items. */
  predicate TotalsHold(t: Tables) {
    forall k :: 0 <= k < |t.invoices| ==> t.invoices[k].total == Sum(t.items, LineOf(k + 1))
  }

  lemma RingUpKeepsTotals(t: Tables, today: Date, client: Option<int>, user: int, payment: Payment, lines: seq<Line>,
                          appointment: Option<int>)
    requires Intact(t) && TotalsHold(t)
    ensures TotalsHold(RingUp(t, today, client, user, payment, lines, appointment).tables)
  {
    hide Sum, ItemRows;
    var sale := RingUp(t, today, client, user, payment, lines, appointment);
    if sale.reply.Ok? {
      forall k | 0 <= k < |sale.tables.invoices|
        ensures sale.tables.invoices[k].total == Sum(sale.tables.items, LineOf(k + 1))
      {
        NewRowsBelongToTheNewInvoice(t, lines, k);
      }
    }
  }

  lemma NewRowsBelongToTheNewInvoice(t: Tables, lines: seq<Line>, k: nat)
    requires Intact(t) && k <= |t.invoices|
    ensures Sum(t.items + ItemRows(t.users, t.staff, |t.invoices| + 1, lines), LineOf(k + 1))
         == if k < |t.invoices| then Sum(t.items, LineOf(k + 1)) else Sum(lines, LineTotal)
  {
    hide Sum;
    var rows := ItemRows(t.users, t.staff, |t.invoices| + 1, lines);
    SumConcat(t.items, rows, LineOf(k + 1));
    if k < |t.invoices| {
      SumZero(rows, LineOf(k + 1));
    } else {
      assert forall i :: 0 <= i < |t.items| ==> ItemRefers(t.items[i], t);
      SumZero(t.items, LineOf(k + 1));
      SumAgree(rows, LineOf(k + 1), lines, LineTotal);
    }
  }

  lemma StepKeepsTotals(t: Tables, call: Call)
    requires Intact(t) && TotalsHold(t)
    ensures TotalsHold(Step(t, call))
  {
    hide RingUp, Spend, Enroll, Amend;
    OtherTablesStay(t, call);
    match call.request
    case Checkout(client, payment, lines) =>
      RingUpKeepsTotals(t, call.today, client, call.user, payment, lines, None);
    case SetStatus(appointment, status) =>
      if appointment != 0 && Exists(appointment, t.appointments) {
        var (changed, apt, line) := Completing(t, appointment, status);
        StatusKeepsIntact(t, appointment, status);
        RingUpKeepsTotals(changed, call.today, Some(apt.client), Recorder(call.user), Cash, [line], Some(appointment));
      }
    case _ =>
  }

  /** The tables, appointment and cart line with which a completed appointment is invoiced. */
  function Completing(t: Tables, appointment: int, status: AppointmentStatus): (Tables, Appointment, Line)
    requires Intact(t) && Exists(appointment, t.appointments)
  {
    assert AppointmentRefers(t.appointments[appointment - 1], t);
    var changed := StatusSet(t, appointment, status);
    var apt := changed.appointments[appointment - 1];
    (changed, apt, Line(ServiceItem, apt.service, Some(apt.staff), 1, changed.services[apt.service - 1].price))
  }

  lemma {:induction false} RunKeepsTotals(t: Tables, calls: seq<Call>)
    requires Intact(t) && TotalsHold(t)
    ensures TotalsHold(Run(t, calls))
    decreases |calls|
  {
    if calls != [] {
      StepKeepsIntact(t, calls[0]);
      StepKeepsTotals(t, calls[0]);
      RunKeepsTotals(Step(t, calls[0]), calls[1..]);
    }
  }

  // ----- Client spending

  function PaidBy(client: int): Invoice -> Money {
    (i: Invoice) => if i.client == Some(client) then i.total else 0.0
  }

  /** What a client's `total_spent` holds beyond the invoices that name the client. */
  function Carried(t: Tables, client: int): Money
    requires Exists(client, t.clients)
  {
    t.clients[client - 1].totalSpent - Sum(t.invoices, PaidBy(client))
  }

  lemma RingUpKeepsCarried(t: Tables, today: Date, client: Option<int>, user: int, payment: Payment, lines: seq<Line>,
                           appointment: Option<int>, c: int)
    ensures var after := RingUp(t, today, client, user, payment, lines, appointment).tables;
      |after.clients| == |t.clients| && (Exists(c, t.clients) ==> Carried(after, c) == Carried(t, c))
  {
  }

  lemma CompletionKeepsCarried(t: Tables, today: Date, appointment: int, status: AppointmentStatus, user: int, c: int)
    requires Intact(t)
    ensures var after := ChangeStatus(t, today, appointment, status, user).tables;
      |after.clients| == |t.clients| && (Exists(c, t.clients) ==> Carried(after, c) == Carried(t, c))
  {
    hide RingUp;
    if Exists(appointment, t.appointments) {
      var (changed, apt, line) := Completing(t, appointment, status);
      RingUpKeepsCarried(changed, today, Some(apt.client), Recorder(user), Cash, [line], Some(appointment), c);
    }
  }

  /** A step leaves what a client carries, and a client it adds carries nothing. */
  lemma StepKeepsCarried(t: Tables, call: Call, c: int)
    requires Intact(t) && Exists(c, Step(t, call).clients)
    ensures Carried(Step(t, call), c) == if Exists(c, t.clients) then Carried(t, c) else 0.0
  {
    hide RingUp, ChangeStatus, Spend, Enroll, Amend, Carried;
    OtherTablesStay(t, call);
    match call.request
    case Checkout(client, payment, lines) =>
      RingUpKeepsCarried(t, call.today, client, call.user, payment, lines, None, c);
    case SetStatus(appointment, status) =>
      CompletionKeepsCarried(t, call.today, appointment, status, call.user, c);
    case _ =>
      ArrivalsKeepCarried(t, Step(t, call), c);
  }

  /** Clients that only arrive carry nothing, and the others keep what they carry. */
  lemma ArrivalsKeepCarried(t: Tables, after: Tables, c: int)
    requires Intact(t) && Exists(c, after.clients) && after.invoices == t.invoices
    requires t.clients <= after.clients
    requires forall k :: |t.clients| <= k < |after.clients| ==> after.clients[k].totalSpent == 0.0
    ensures Carried(after, c) == if Exists(c, t.clients) then Carried(t, c) else 0.0
  {
    if !Exists(c, t.clients) {
      NobodyPaidYet(t, c);
    }
  }

  lemma NobodyPaidYet(t: Tables, c: int)
    requires Intact(t) && !Exists(c, t.clients)
    ensures Sum(t.invoices, PaidBy(c)) == 0.0
  {
    forall k | 0 <= k < |t.invoices|
      ensures PaidBy(c)(t.invoices[k]) == 0.0
    {
      assert InvoiceRefers(t.invoices[k], t);
    }
    SumZero(t.invoices, PaidBy(c));
  }

  /** Over a run, spending moves with the invoices that name the client, from any start and to the cent. */
  lemma {:induction false} RunKeepsCarried(t: Tables, calls: seq<Call>, c: int)
    requires Intact(t) && Exists(c, Run(t, calls).clients)
    ensures Carried(Run(t, calls), c) == if Exists(c, t.clients) then Carried(t, c) else 0.0
    decreases |calls|
  {
    if calls != [] {
      var next := Step(t, calls[0]);
      StepKeepsIntact(t, calls[0]);
      StepGrows(t, calls[0]);
      RunKeepsCarried(next, calls[1..], c);
      if Exists(c, next.clients) {
        StepKeepsCarried(t, calls[0], c);
      }
    }
  }

  // ----- Last visits

  /** The day of the last invoice that names a client. */
  function LastInvoiceDay(invoices: seq<Invoice>, client: int): Option<Date> {
    if invoices == [] then None
    else
      var last := invoices[|invoices| - 1];
      if last.client == Some(client) then Some(last.day) else LastInvoiceDay(invoices[..|invoices| - 1], client)
  }

  predicate VisitRecorded(c: Client, invoices: seq<Invoice>, client: int) {
    LastInvoiceDay(invoices, client).Some? ==> c.lastVisit == LastInvoiceDay(invoices, client)
  }

  /** A client's `last_visit` is the day of the last invoice that names the client, once there is one. */
  predicate VisitsHold(t: Tables) {
    forall k :: 0 <= k < |t.clients| ==> VisitRecorded(t.clients[k], t.invoices, k + 1)
  }

  lemma RingUpKeepsVisits(t: Tables, today: Date, client: Option<int>, user: int, payment: Payment, lines: seq<Line>,
                          appointment: Option<int>)
    requires VisitsHold(t)
    ensures VisitsHold(RingUp(t, today, client, user, payment, lines, appointment).tables)
  {
  }

  lemma NobodyInvoicedYet(t: Tables, c: int)
    requires Intact(t) && !Exists(c, t.clients)
    ensures LastInvoiceDay(t.invoices, c).None?
  {
    NeverNamed(t.invoices, c, |t.clients|);
  }

  lemma {:induction false} NeverNamed(invoices: seq<Invoice>, c: int, n: nat)
    requires !(1 <= c <= n)
    requires forall i :: 0 <= i < |invoices| && invoices[i].client.Some? ==> 1 <= invoices[i].client.value <= n
    ensures LastInvoiceDay(invoices, c).None?
  {
    if invoices != [] {
      NeverNamed(invoices[..|invoices| - 1], c, n);
    }
  }

  lemma StepKeepsVisits(t: Tables, call: Call)
    requires Intact(t) && VisitsHold(t)
    ensures VisitsHold(Step(t, call))
  {
    hide RingUp, ChangeStatus, Spend, Enroll, Amend, VisitsHold;
    OtherTablesStay(t, call);
    match call.request
    case Checkout(client, payment, lines) =>
      RingUpKeepsVisits(t, call.today, client, call.user, payment, lines, None);
    case SetStatus(appointment, status) =>
      CompletionKeepsVisits(t, call.today, appointment, status, call.user);
    case _ =>
      ArrivalsKeepVisits(t, Step(t, call));
  }

  lemma CompletionKeepsVisits(t: Tables, today: Date, appointment: int, status: AppointmentStatus, user: int)
    requires Intact(t) && VisitsHold(t)
    ensures VisitsHold(ChangeStatus(t, today, appointment, status, user).tables)
  {
    hide RingUp;
    if Exists(appointment, t.appointments) {
      var (changed, apt, line) := Completing(t, appointment, status);
      RingUpKeepsVisits(changed, today, Some(apt.client), Recorder(user), Cash, [line], Some(appointment));
    }
  }

  lemma ArrivalsKeepVisits(t: Tables, after: Tables)
    requires Intact(t) && VisitsHold(t) && after.invoices == t.invoices && t.clients <= after.clients
    ensures VisitsHold(after)
  {
    forall k | 0 <= k < |after.clients|
      ensures VisitRecorded(after.clients[k], after.invoices, k + 1)
    {
      if k < |t.clients| {
        assert VisitRecorded(t.clients[k], t.invoices, k + 1);
      } else {
        NobodyInvoicedYet(t, k + 1);
      }
    }
  }

  lemma {:induction false} RunKeepsVisits(t: Tables, calls: seq<Call>)
    requires Intact(t) && VisitsHold(t)
    ensures VisitsHold(Run(t, calls))
    decreases |calls|
  {
    if calls != [] {
      StepKeepsIntact(t, calls[0]);
      StepKeepsVisits(t, calls[0]);
      RunKeepsVisits(Step(t, calls[0]), calls[1..]);
    }
  }

  // ----- What an item earns

  /**
   * What a sale of `quantity` units at a price earns its stylist: the share of the amount, or the rate for each unit,
   * of the user that the stylist's staff row is tied to; nothing without a stylist or a user.
   */
  function Earns(t: Tables, stylist: Option<int>, price: Money, quantity: int): Money {
    if stylist.Some? && 1 <= stylist.value <= |t.staff| && t.staff[stylist.value - 1].user.Some?
       && 1 <= t.staff[stylist.value - 1].user.value <= |t.users| then
      var user := t.users[t.staff[stylist.value - 1].user.value - 1];
      if user.commission == Percentage then price * quantity as real * (user.rate / 100.0)
      else user.rate * quantity as real
    else
      0.0
  }

  /** The items from position `from` on carry what they earn by the rates in `t`. */
  predicate AllEarned(t: Tables, items: seq<Item>, from: nat) {
    forall i :: from <= i < |items| ==>
      items[i].commission == Earns(t, items[i].stylist, items[i].price, items[i].quantity)
  }

  lemma RingUpEarns(t: Tables, today: Date, client: Option<int>, user: int, payment: Payment, lines: seq<Line>,
                    appointment: Option<int>)
    ensures AllEarned(t, RingUp(t, today, client, user, payment, lines, appointment).tables.items, |t.items|)
  {
    hide AfterSale, DrawersAfterSale, UpdateKey, InvoiceReferences, ShutOn, StylistsKnown, Sum;
  }

  lemma CompletionEarns(t: Tables, today: Date, appointment: int, status: AppointmentStatus, user: int)
    ensures AllEarned(t, ChangeStatus(t, today, appointment, status, user).tables.items, |t.items|)
  {
    hide RingUp;
    if Exists(appointment, t.appointments) {
      var changed := StatusSet(t, appointment, status);
      var apt := changed.appointments[appointment - 1];
      if Exists(apt.service, changed.services) {
        var line := Line(ServiceItem, apt.service, Some(apt.staff), 1, changed.services[apt.service - 1].price);
        RingUpEarns(changed, today, Some(apt.client), Recorder(user), Cash, [line], Some(appointment));
        assert forall i: Item ::
          Earns(changed, i.stylist, i.price, i.quantity) == Earns(t, i.stylist, i.price, i.quantity);
      }
    }
  }

  lemma StepEarns(t: Tables, call: Call)
    ensures AllEarned(t, Step(t, call).items, |t.items|)
  {
    hide RingUp, ChangeStatus;
    OtherTablesStay(t, call);
    match call.request
    case Checkout(client, payment, lines) =>
      RingUpEarns(t, call.today, client, call.user, payment, lines, None);
    case SetStatus(appointment, status) =>
      CompletionEarns(t, call.today, appointment, status, call.user);
    case _ =>
  }

  /** Call `k` of the run has sold the item `i`, which carries what it earned by the rates of that moment. */
  predicate SoldBy(t: Tables, calls: seq<Call>, k: nat, i: nat) {
    && k < |calls|
    && |Before(t, calls, k).items| <= i < |Before(t, calls, k + 1).items|
    && i < |Run(t, calls).items|
    && var item := Run(t, calls).items[i];
      item.commission == Earns(Before(t, calls, k), item.stylist, item.price, item.quantity)
  }

  /** Over every run each item sold carries the commission by the rates in force when it was sold. */
  lemma {:induction false} EveryItemEarned(t: Tables, calls: seq<Call>, i: nat)
    requires |t.items| <= i < |Run(t, calls).items|
    ensures exists k: nat :: SoldBy(t, calls, k, i)
    decreases |calls|
  {
    hide Step, Run, Earns;
    if calls == [] {
      assert Run(t, calls) == t by {
        RunOfNone(t);
      }
    } else {
      var n := |calls| - 1;
      var init := calls[..n];
      LastCall(t, calls);
      assert calls[..|calls|] == calls;
      StepGrows(Run(t, init), calls[n]);
      if i < |Run(t, init).items| {
        EveryItemEarned(t, init, i);
        var k: nat :| SoldBy(t, init, k, i);
        assert init[..k] == calls[..k] && init[..k + 1] == calls[..k + 1];
        assert SoldBy(t, calls, k, i);
      } else {
        StepEarns(Run(t, init), calls[n]);
        assert SoldBy(t, calls, n, i);
      }
    }
  }

  lemma RunOfNone(t: Tables)
    ensures Run(t, []) == t
  {
  }

  // ----- Stock

  function SoldOf(product: int): Item -> real {
    (i: Item) => if i.kind.ProductItem? && i.item == product then i.quantity as real else 0.0
  }

  function RestockOf(product: int): Call -> real {
    (c: Call) => if c.request.Restock? && c.request.product == product then c.request.delta else 0.0
  }

  /** The shelf plus everything sold from it. */
  function Received(t: Tables, product: int): real
    requires Exists(product, t.products)
  {
    t.products[product - 1].stock + Sum(t.items, SoldOf(product))
  }

  lemma RingUpKeepsReceived(t: Tables, today: Date, client: Option<int>, user: int, payment: Payment, lines: seq<Line>,
                            appointment: Option<int>, p: int)
    requires Exists(p, t.products)
    ensures var after := RingUp(t, today, client, user, payment, lines, appointment).tables;
      |after.products| == |t.products| && Received(after, p) == Received(t, p)
  {
    var rows := ItemRows(t.users, t.staff, |t.invoices| + 1, lines);
    SumConcat(t.items, rows, SoldOf(p));
    SumAgree(rows, SoldOf(p), lines, Takes(p));
  }

  lemma StepMovesReceived(t: Tables, call: Call, p: int)
    requires Exists(p, t.products)
    ensures Exists(p, Step(t, call).products)
    ensures Received(Step(t, call), p) == Received(t, p) + RestockOf(p)(call)
  {
    hide RingUp, ChangeStatus, Spend, Enroll, Amend, Reserve;
    OtherTablesStay(t, call);
    match call.request
    case Checkout(client, payment, lines) =>
      RingUpKeepsReceived(t, call.today, client, call.user, payment, lines, None, p);
    case SetStatus(appointment, status) =>
      CompletionKeepsReceived(t, call.today, appointment, status, call.user, p);
    case _ =>
  }

  lemma CompletionKeepsReceived(t: Tables, today: Date, appointment: int, status: AppointmentStatus, user: int, p: int)
    requires Exists(p, t.products)
    ensures var after := ChangeStatus(t, today, appointment, status, user).tables;
      |after.products| == |t.products| && Received(after, p) == Received(t, p)
  {
    hide RingUp;
    if Exists(appointment, t.appointments) {
      var changed := StatusSet(t, appointment, status);
      var apt := changed.appointments[appointment - 1];
      if Exists(apt.service, changed.services) {
        var line := Line(ServiceItem, apt.service, Some(apt.staff), 1, changed.services[apt.service - 1].price);
        RingUpKeepsReceived(changed, today, Some(apt.client), Recorder(user), Cash, [line], Some(appointment), p);
      }
    }
  }

  /**
   * Over any run, a product on the shelf ends with what it had, plus all restocks, less all quantities sold in
   * committed invoices, whatever else the carts of the run name and however often one cart names the product.
   */
  lemma {:induction false} RunMovesReceived(t: Tables, calls: seq<Call>, p: int)
    requires Exists(p, t.products)
    ensures Exists(p, Run(t, calls).products)
    ensures Received(Run(t, calls), p) == Received(t, p) + Sum(calls, RestockOf(p))
    decreases |calls|
  {
    if calls != [] {
      StepMovesReceived(t, calls[0], p);
      RunMovesReceived(Step(t, calls[0]), calls[1..], p);
      assert calls == [calls[0]] + calls[1..];
      SumConcat([calls[0]], calls[1..], RestockOf(p));
      SumAppend([], calls[0], RestockOf(p));
      assert [] + [calls[0]] == [calls[0]];
    }
  }

  /**
   * Item ids have no foreign key, so a cart may name a product before it is added. The stock of an added product
   * equals its first quantity plus restocks less sales exactly when the earlier sales under its id cancel out.
   */
  lemma AddedProductAddsUpIff(t: Tables, call: Call, calls: seq<Call>)
    requires call.request.AddProduct?
    ensures var p, last := |t.products| + 1, Run(Step(t, call), calls);
      && Exists(p, last.products)
      && (last.products[p - 1].stock
            == call.request.stock + Sum(calls, RestockOf(p)) - Sum(last.items, SoldOf(p))
          <==> Sum(t.items, SoldOf(p)) == 0.0)
  {
    RunMovesReceived(Step(t, call), calls, |t.products| + 1);
  }

  /** Three units of a product that does not exist yet are sold, and the product is then added with ten. */
  lemma SoldBeforeAdded(t: Tables, today: Date)
    requires Exists(1, t.users) && !ShutOn(t.drawers, today)
    requires Sum(t.items, SoldOf(|t.products| + 1)) == 0.0
    ensures var p := |t.products| + 1;
      var sell := Call(today, 1, Checkout(None, Cash, [Line(ProductItem, p, None, 3, 1.0)]));
      var last := Step(Step(t, sell), Call(today, 1, AddProduct(10.0)));
      && Respond(t, sell).reply.Ok?
      && last.products[p - 1].stock == 10.0
      && Sum(last.items, SoldOf(p)) == 3.0
  {
  }
}
