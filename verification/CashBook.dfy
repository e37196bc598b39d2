/** The drawer rows against the invoices and expenses they summarise. */
module CashBook {
  import opened Basics
  import opened Schema
  import opened Ledger
  import opened Frames

  function CashOn(date: Date): Invoice -> Money {
    (i: Invoice) => if i.day == date && i.payment.Cash? then i.total else 0.0
  }

  function NonCashOn(date: Date): Invoice -> Money {
    (i: Invoice) => if i.day == date && !i.payment.Cash? then i.total else 0.0
  }

  function SpentOn(date: Date): Expense -> Money {
    (e: Expense) => if e.day == date then e.amount else 0.0
  }

  predicate OneRowPerDate(drawers: seq<Drawer>) {
    forall i, j :: 0 <= i < j < |drawers| ==> drawers[i].date != drawers[j].date
  }

  predicate RowAgrees(row: Drawer, invoices: seq<Invoice>, expenses: seq<Expense>) {
    && row.opening == OPENING_CASH
    && row.cash == Sum(invoices, CashOn(row.date))
    && row.expenses == Sum(expenses, SpentOn(row.date))
    && (row.status.Open? ==> row.closing == row.opening + row.cash - row.expenses)
  }

  /** Every row agrees with the log, and nothing is logged on a date without a row. */
  predicate Balanced(drawers: seq<Drawer>, invoices: seq<Invoice>, expenses: seq<Expense>) {
    && OneRowPerDate(drawers)
    && (forall i :: 0 <= i < |drawers| ==> RowAgrees(drawers[i], invoices, expenses))
    && (forall i :: 0 <= i < |invoices| ==> HasDrawer(drawers, invoices[i].day))
    && (forall i :: 0 <= i < |expenses| ==> HasDrawer(drawers, expenses[i].day))
  }

  predicate DigitalAgrees(drawers: seq<Drawer>, invoices: seq<Invoice>) {
    forall i :: 0 <= i < |drawers| ==> drawers[i].digital == Sum(invoices, NonCashOn(drawers[i].date))
  }

  predicate BooksBalance(t: Tables) {
    Balanced(t.drawers, t.invoices, t.expenses)
  }

  /** The day has no drawer row yet, or an open one. */
  predicate DayIsOpen(drawers: seq<Drawer>, date: Date) {
    || (forall i :: 0 <= i < |drawers| ==> drawers[i].date != date)
    || (exists i :: 0 <= i < |drawers| && drawers[i].date == date && drawers[i].status == Open)
  }

  lemma ShutIff(drawers: seq<Drawer>, date: Date)
    ensures ShutOn(drawers, date) <==> !DayIsOpen(drawers, date)
  {
    assert forall i :: 0 <= i < |drawers| ==> (OnDate(date)(drawers[i]) <==> drawers[i].date == date);
    assert forall i :: 0 <= i < |drawers| ==>
      (OpenOn(date)(drawers[i]) <==> drawers[i].date == date && drawers[i].status == Open);
  }

  /** Everything that the lines and the head of a sale refer to exists. */
  predicate SaleRefers(t: Tables, client: Option<int>, user: int, lines: seq<Line>) {
    && (client.Some? ==> 1 <= client.value <= |t.clients|)
    && 1 <= user <= |t.users|
    && (forall i :: 0 <= i < |lines| && lines[i].stylist.Some? ==> 1 <= lines[i].stylist.value <= |t.staff|)
  }

  lemma RefersIff(t: Tables, client: Option<int>, user: int, lines: seq<Line>, appointment: Option<int>)
    requires appointment.Some? ==> Exists(appointment.value, t.appointments)
    ensures InvoiceReferences(t, client, user, appointment) && StylistsKnown(t.staff, lines)
       <==> SaleRefers(t, client, user, lines)
  {
    assert forall i :: 0 <= i < |lines| ==>
      (StylistKnown(t.staff, lines[i])
       <==> (lines[i].stylist.Some? ==> 1 <= lines[i].stylist.value <= |t.staff|));
  }

  // ----- Sales

  lemma SaleKeepsDates(drawers: seq<Drawer>, today: Date, payment: Payment, total: Money)
    requires OneRowPerDate(drawers) && !ShutOn(drawers, today)
    ensures var after := DrawersAfterSale(drawers, today, payment, total);
      && OneRowPerDate(after)
      && HasDrawer(after, today)
      && (forall d :: HasDrawer(drawers, d) ==> HasDrawer(after, d))
  {
    var after := DrawersAfterSale(drawers, today, payment, total);
    var open := Find(drawers, OpenOn(today));
    if open.None? {
      assert forall i :: 0 <= i < |drawers| ==> !OnDate(today)(drawers[i]);
    }
    assert OnDate(today)(after[if open.None? then |drawers| else open.value]);
    forall d | HasDrawer(drawers, d)
      ensures HasDrawer(after, d)
    {
      assert OnDate(d)(after[Find(drawers, OnDate(d)).value]);
    }
  }

  /** Columns of the log that only look at other dates do not see a new row. */
  lemma ColumnsAfterSale(drawers: seq<Drawer>, invoices: seq<Invoice>, expenses: seq<Expense>, sale: Invoice, k: nat)
    requires Balanced(drawers, invoices, expenses) && !ShutOn(drawers, sale.day)
    requires k < |DrawersAfterSale(drawers, sale.day, sale.payment, sale.total)|
    ensures RowAgrees(DrawersAfterSale(drawers, sale.day, sale.payment, sale.total)[k], invoices + [sale], expenses)
  {
    var after := DrawersAfterSale(drawers, sale.day, sale.payment, sale.total);
    SumAppend(invoices, sale, CashOn(after[k].date));
    if k == |drawers| {
      NothingLoggedWithoutARow(drawers, invoices, expenses, sale.day);
    } else {
      assert RowAgrees(drawers[k], invoices, expenses);
      assert !OpenOn(sale.day)(drawers[k]) ==> drawers[k].date != sale.day || drawers[k].status.Closed?;
      OnlyTheOpenRowIsOnTheDay(drawers, sale.day, k);
    }
  }

  lemma OnlyTheOpenRowIsOnTheDay(drawers: seq<Drawer>, date: Date, k: nat)
    requires OneRowPerDate(drawers) && !ShutOn(drawers, date) && k < |drawers|
    ensures drawers[k].date == date ==> Find(drawers, OpenOn(date)) == Some(k)
  {
  }

  lemma NothingLoggedWithoutARow(drawers: seq<Drawer>, invoices: seq<Invoice>, expenses: seq<Expense>, date: Date)
    requires Balanced(drawers, invoices, expenses) && !HasDrawer(drawers, date)
    ensures Sum(invoices, CashOn(date)) == Sum(invoices, NonCashOn(date)) == 0.0
    ensures Sum(expenses, SpentOn(date)) == 0.0
  {
    SumZero(invoices, CashOn(date));
    SumZero(invoices, NonCashOn(date));
    SumZero(expenses, SpentOn(date));
  }

  lemma SaleKeepsBalance(drawers: seq<Drawer>, invoices: seq<Invoice>, expenses: seq<Expense>, sale: Invoice)
    requires Balanced(drawers, invoices, expenses) && !ShutOn(drawers, sale.day)
    ensures Balanced(DrawersAfterSale(drawers, sale.day, sale.payment, sale.total), invoices + [sale], expenses)
  {
    SaleKeepsDates(drawers, sale.day, sale.payment, sale.total);
    forall k | 0 <= k < |DrawersAfterSale(drawers, sale.day, sale.payment, sale.total)|
      ensures RowAgrees(DrawersAfterSale(drawers, sale.day, sale.payment, sale.total)[k], invoices + [sale], expenses)
    {
      ColumnsAfterSale(drawers, invoices, expenses, sale, k);
    }
  }

  /** The sale whose amount no column records: the first of its day, paid neither in cash nor digitally. */
  predicate Unrecorded(drawers: seq<Drawer>, sale: Invoice) {
    !HasDrawer(drawers, sale.day) && sale.payment.OtherPayment? && sale.total != 0.0
  }

  lemma DigitalColumnAfterSale(drawers: seq<Drawer>, invoices: seq<Invoice>, expenses: seq<Expense>, sale: Invoice,
                               k: nat)
    requires Balanced(drawers, invoices, expenses) && !ShutOn(drawers, sale.day)
    requires DigitalAgrees(drawers, invoices)
    requires k < |DrawersAfterSale(drawers, sale.day, sale.payment, sale.total)|
    ensures var row := DrawersAfterSale(drawers, sale.day, sale.payment, sale.total)[k];
      row.digital == Sum(invoices + [sale], NonCashOn(row.date)) <==> k < |drawers| || !Unrecorded(drawers, sale)
  {
    var after := DrawersAfterSale(drawers, sale.day, sale.payment, sale.total);
    SumAppend(invoices, sale, NonCashOn(after[k].date));
    if k == |drawers| {
      NothingLoggedWithoutARow(drawers, invoices, expenses, sale.day);
    } else {
      OnlyTheOpenRowIsOnTheDay(drawers, sale.day, k);
    }
  }

  /** The digital column survives a sale exactly when the sale is not such a one. */
  lemma DigitalAgreesAfterSaleIff(drawers: seq<Drawer>, invoices: seq<Invoice>, expenses: seq<Expense>, sale: Invoice)
    requires Balanced(drawers, invoices, expenses) && !ShutOn(drawers, sale.day)
    requires DigitalAgrees(drawers, invoices)
    ensures DigitalAgrees(DrawersAfterSale(drawers, sale.day, sale.payment, sale.total), invoices + [sale])
       <==> !Unrecorded(drawers, sale)
  {
    var after := DrawersAfterSale(drawers, sale.day, sale.payment, sale.total);
    forall k | 0 <= k < |after|
      ensures after[k].digital == Sum(invoices + [sale], NonCashOn(after[k].date))
         <==> k < |drawers| || !Unrecorded(drawers, sale)
    {
      DigitalColumnAfterSale(drawers, invoices, expenses, sale, k);
    }
    if Unrecorded(drawers, sale) {
      assert after[|drawers|].digital != Sum(invoices + [sale], NonCashOn(after[|drawers|].date));
    }
  }

  // ----- Expenses

  lemma ExpenseKeepsDates(drawers: seq<Drawer>, day: Date, amount: Money)
    requires OneRowPerDate(drawers) && !ShutOn(drawers, day)
    ensures var after := DrawersAfterExpense(drawers, day, amount);
      && OneRowPerDate(after)
      && HasDrawer(after, day)
      && (forall d :: HasDrawer(drawers, d) ==> HasDrawer(after, d))
  {
    var after := DrawersAfterExpense(drawers, day, amount);
    var open := Find(drawers, OpenOn(day));
    if open.None? {
      assert forall i :: 0 <= i < |drawers| ==> !OnDate(day)(drawers[i]);
    }
    assert OnDate(day)(after[if open.None? then |drawers| else open.value]);
    forall d | HasDrawer(drawers, d)
      ensures HasDrawer(after, d)
    {
      assert OnDate(d)(after[Find(drawers, OnDate(d)).value]);
    }
  }

  lemma ExpenseKeepsBalance(drawers: seq<Drawer>, invoices: seq<Invoice>, expenses: seq<Expense>, expense: Expense)
    requires Balanced(drawers, invoices, expenses) && !ShutOn(drawers, expense.day)
    ensures Balanced(DrawersAfterExpense(drawers, expense.day, expense.amount), invoices, expenses + [expense])
    ensures DigitalAgrees(drawers, invoices) ==>
      DigitalAgrees(DrawersAfterExpense(drawers, expense.day, expense.amount), invoices)
  {
    hide Sum;
    var after := DrawersAfterExpense(drawers, expense.day, expense.amount);
    ExpenseKeepsDates(drawers, expense.day, expense.amount);
    forall k | 0 <= k < |after|
      ensures RowAgrees(after[k], invoices, expenses + [expense])
      ensures DigitalAgrees(drawers, invoices) ==> after[k].digital == Sum(invoices, NonCashOn(after[k].date))
    {
      SumAppend(expenses, expense, SpentOn(after[k].date));
      if k == |drawers| {
        NothingLoggedWithoutARow(drawers, invoices, expenses, expense.day);
      } else {
        assert RowAgrees(drawers[k], invoices, expenses);
        OnlyTheOpenRowIsOnTheDay(drawers, expense.day, k);
      }
    }
  }

  /** An expense is logged, in the caller's name, exactly if it is positive, has a category, and its day is not shut. */
  lemma ExpenseLoggedIff(t: Tables, call: Call)
    requires call.request.LogExpense? && Exists(call.user, t.users)
    ensures var e := Expense(call.request.category, call.request.amount, call.request.day, call.user);
      && (Respond(t, call).reply.Ok? <==> !Blank(e.category) && e.amount > 0.0 && !ShutOn(t.drawers, e.day))
      && Step(t, call).expenses == (if Respond(t, call).reply.Ok? then t.expenses + [e] else t.expenses)
      && (Respond(t, call).reply.Err? ==> Step(t, call) == t)
  {
  }

  // ----- Opening and closing

  lemma OpeningKeepsBalance(t: Tables, today: Date)
    requires BooksBalance(t)
    ensures BooksBalance(OpenToday(t, today).tables)
    ensures DigitalAgrees(t.drawers, t.invoices) ==> DigitalAgrees(OpenToday(t, today).tables.drawers, t.invoices)
  {
    if !HasDrawer(t.drawers, today) {
      ExpenseKeepsDates(t.drawers, today, 0.0);
      NothingLoggedWithoutARow(t.drawers, t.invoices, t.expenses, today);
      assert Find(t.drawers, OpenOn(today)).None?;
    }
  }

  lemma ClosingKeepsBalance(t: Tables, day: Date, counted: Money, user: int)
    requires BooksBalance(t)
    ensures BooksBalance(CloseDay(t, day, counted, user).tables)
    ensures DigitalAgrees(t.drawers, t.invoices) ==>
      DigitalAgrees(CloseDay(t, day, counted, user).tables.drawers, t.invoices)
  {
    var after := CloseDay(t, day, counted, user).tables.drawers;
    forall k | 0 <= k < |after|
      ensures RowAgrees(after[k], t.invoices, t.expenses)
      ensures after[k].digital == t.drawers[k].digital && after[k].date == t.drawers[k].date
    {
      assert RowAgrees(t.drawers[k], t.invoices, t.expenses);
    }
    forall d | HasDrawer(t.drawers, d)
      ensures HasDrawer(after, d)
    {
      assert OnDate(d)(after[Find(t.drawers, OnDate(d)).value]);
    }
  }

  // ----- Runs

  lemma RingUpKeepsBalance(t: Tables, today: Date, client: Option<int>, user: int, payment: Payment, lines: seq<Line>,
                           appointment: Option<int>)
    requires BooksBalance(t)
    ensures BooksBalance(RingUp(t, today, client, user, payment, lines, appointment).tables)
    ensures DigitalAgrees(t.drawers, t.invoices) && !payment.OtherPayment? ==>
      var after := RingUp(t, today, client, user, payment, lines, appointment).tables;
      DigitalAgrees(after.drawers, after.invoices)
  {
    if RingUp(t, today, client, user, payment, lines, appointment).reply.Ok? {
      var sale := Invoice(client, user, payment, Sum(lines, LineTotal), appointment, today);
      SaleKeepsBalance(t.drawers, t.invoices, t.expenses, sale);
      if DigitalAgrees(t.drawers, t.invoices) {
        DigitalAgreesAfterSaleIff(t.drawers, t.invoices, t.expenses, sale);
      }
    }
  }

  lemma StepKeepsBalance(t: Tables, call: Call)
    requires BooksBalance(t)
    ensures BooksBalance(Step(t, call))
  {
    hide RingUp, OpenToday, CloseDay, Reserve, Enroll, Amend;
    OtherTablesStay(t, call);
    match call.request
    case Checkout(client, payment, lines) =>
      RingUpKeepsBalance(t, call.today, client, call.user, payment, lines, None);
    case SetStatus(appointment, status) =>
      CompletionKeepsBalance(t, call.today, appointment, status, call.user);
    case LogExpense(category, amount, day) =>
      SpendKeepsBalance(t, category, amount, day, call.user);
    case ReadDrawer =>
      OpeningKeepsBalance(t, call.today);
    case CloseDrawer(day, counted) =>
      ClosingKeepsBalance(t, day, counted, call.user);
    case _ =>
  }

  lemma CompletionKeepsBalance(t: Tables, today: Date, appointment: int, status: AppointmentStatus, user: int)
    requires BooksBalance(t)
    ensures var after := ChangeStatus(t, today, appointment, status, user).tables;
      && BooksBalance(after)
      && (DigitalAgrees(t.drawers, t.invoices) ==> DigitalAgrees(after.drawers, after.invoices))
  {
    hide RingUp;
    if Exists(appointment, t.appointments) {
      var changed := StatusSet(t, appointment, status);
      var apt := changed.appointments[appointment - 1];
      if Exists(apt.service, changed.services) {
        var line := Line(ServiceItem, apt.service, Some(apt.staff), 1, changed.services[apt.service - 1].price);
        RingUpKeepsBalance(changed, today, Some(apt.client), Recorder(user), Cash, [line], Some(appointment));
      }
    }
  }

  /**
   * A checkout that will be accepted and whose payment the digital column will never show: the first sale of its day,
   * by a method other than 'cash' and 'digital', over a total that is not 0.
   */
  predicate DropsPayment(t: Tables, call: Call) {
    match call.request
    case Checkout(client, payment, lines) =>
      && payment.OtherPayment? && Given(payment.text)
      && lines != [] && Sum(lines, LineTotal) != 0.0
      && !HasDrawer(t.drawers, call.today)
      && SaleRefers(t, client, call.user, lines)
    case _ =>
      false
  }

  lemma StepKeepsDigitalIff(t: Tables, call: Call)
    requires BooksBalance(t) && DigitalAgrees(t.drawers, t.invoices)
    ensures DigitalAgrees(Step(t, call).drawers, Step(t, call).invoices) <==> !DropsPayment(t, call)
  {
    hide DigitalAgrees, RingUp, ChangeStatus, Spend, OpenToday, CloseDay, Reserve, Enroll, Amend;
    OtherTablesStay(t, call);
    match call.request
    case Checkout(client, payment, lines) =>
      CheckoutKeepsDigitalIff(t, call);
    case SetStatus(appointment, status) =>
      CompletionKeepsBalance(t, call.today, appointment, status, call.user);
    case LogExpense(category, amount, day) =>
      SpendKeepsBalance(t, category, amount, day, call.user);
    case ReadDrawer =>
      OpeningKeepsBalance(t, call.today);
    case CloseDrawer(day, counted) =>
      ClosingKeepsBalance(t, day, counted, call.user);
    case _ =>
  }

  lemma CheckoutKeepsDigitalIff(t: Tables, call: Call)
    requires BooksBalance(t) && DigitalAgrees(t.drawers, t.invoices)
    requires call.request.Checkout?
    ensures DigitalAgrees(Step(t, call).drawers, Step(t, call).invoices) <==> !DropsPayment(t, call)
  {
    hide DigitalAgrees;
    RefersIff(t, call.request.client, call.user, call.request.lines, None);
    if Respond(t, call).reply.Ok? {
      var sale := Invoice(call.request.client, call.user, call.request.payment, Sum(call.request.lines, LineTotal),
                          None, call.today);
      DigitalAgreesAfterSaleIff(t.drawers, t.invoices, t.expenses, sale);
    }
  }

  lemma SpendKeepsBalance(t: Tables, category: string, amount: Money, day: Date, user: int)
    requires BooksBalance(t)
    ensures var after := Spend(t, category, amount, day, user).tables;
      && after.invoices == t.invoices
      && BooksBalance(after)
      && (DigitalAgrees(t.drawers, t.invoices) ==> DigitalAgrees(after.drawers, after.invoices))
  {
    if Spend(t, category, amount, day, user).reply.Ok? {
      ExpenseKeepsBalance(t.drawers, t.invoices, t.expenses, Expense(category, amount, day, user));
    }
  }

  lemma {:induction false} RunKeepsBalance(t: Tables, calls: seq<Call>)
    requires BooksBalance(t)
    ensures BooksBalance(Run(t, calls))
    decreases |calls|
  {
    if calls != [] {
      StepKeepsBalance(t, calls[0]);
      RunKeepsBalance(Step(t, calls[0]), calls[1..]);
    }
  }

  /** No call of the run drops a payment. */
  predicate RecordsPayments(t: Tables, calls: seq<Call>)
    decreases |calls|
  {
    calls == [] || (!DropsPayment(t, calls[0]) && RecordsPayments(Step(t, calls[0]), calls[1..]))
  }

  /** The digital column is right in every state of the run. */
  predicate DigitalThroughout(t: Tables, calls: seq<Call>)
    decreases |calls|
  {
    && DigitalAgrees(t.drawers, t.invoices)
    && (calls == [] || DigitalThroughout(Step(t, calls[0]), calls[1..]))
  }

  lemma {:induction false} RunKeepsDigitalIff(t: Tables, calls: seq<Call>)
    requires BooksBalance(t) && DigitalAgrees(t.drawers, t.invoices)
    ensures DigitalThroughout(t, calls) <==> RecordsPayments(t, calls)
    ensures RecordsPayments(t, calls) ==> DigitalAgrees(Run(t, calls).drawers, Run(t, calls).invoices)
    decreases |calls|
  {
    hide BooksBalance, DigitalAgrees, DropsPayment, Step;
    if calls != [] {
      StepKeepsBalance(t, calls[0]);
      StepKeepsDigitalIff(t, calls[0]);
      if !DropsPayment(t, calls[0]) {
        RunKeepsDigitalIff(Step(t, calls[0]), calls[1..]);
      }
    }
  }

  /** Runs that only use the two payment methods of the checkout page drop nothing. */
  lemma {:induction false} KnownMethodsRecord(t: Tables, calls: seq<Call>)
    requires forall i :: 0 <= i < |calls| && calls[i].request.Checkout? ==> !calls[i].request.payment.OtherPayment?
    ensures RecordsPayments(t, calls)
    decreases |calls|
  {
    if calls != [] {
      assert forall i :: 0 <= i < |calls[1..]| ==> calls[1..][i] == calls[i + 1];
      KnownMethodsRecord(Step(t, calls[0]), calls[1..]);
    }
  }

  /** A first sale of the day paid by 'cheque': 50 are invoiced, and the new drawer shows 0. */
  lemma ChequeIsDropped(t: Tables, today: Date)
    requires Exists(1, t.users) && !HasDrawer(t.drawers, today)
    ensures var call := Call(today, 1, Checkout(None, OtherPayment("cheque"), [Line(ServiceItem, 1, None, 1, 50.0)]));
      && DropsPayment(t, call)
      && Step(t, call).invoices[|t.invoices|].total == 50.0
      && Step(t, call).drawers[|t.drawers|].digital == 0.0
  {
  }

  // ----- The dashboard

  function TakenOn(date: Date): Invoice -> Money {
    (i: Invoice) => if i.day == date then i.total else 0.0
  }

  /** The revenue the dashboard sums from the invoices is what the day's drawer took in. */
  lemma DashboardShowsTheDrawer(t: Tables, date: Date)
    requires BooksBalance(t) && DigitalAgrees(t.drawers, t.invoices)
    ensures Sum(t.invoices, TakenOn(date)) ==
      match Find(t.drawers, OnDate(date))
      case Some(k) => t.drawers[k].cash + t.drawers[k].digital
      case None => 0.0
  {
    SumPlus(t.invoices, TakenOn(date), CashOn(date), NonCashOn(date));
    var row := Find(t.drawers, OnDate(date));
    if row.None? {
      NothingLoggedWithoutARow(t.drawers, t.invoices, t.expenses, date);
    } else {
      assert RowAgrees(t.drawers[row.value], t.invoices, t.expenses);
    }
  }
}
