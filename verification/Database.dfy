/**
 * The connection of api/core/Database.php and the models that write through it. Every method runs the
 * statements of its PHP original in order; a failing statement returns its error at once, as an exception
 * leaves a `try` block, and the caller's `catch` rolls back. Each is proved equal to its function in Ledger.
 */
module SalonDatabase {
  import opened Basics
  import opened Schema
  import opened Clock
  import opened Ledger

  class Database {
    var users: seq<User>
    var services: seq<Service>
    var staff: seq<Staff>
    var clients: seq<Client>
    var appointments: seq<Appointment>
    var products: seq<Product>
    var invoices: seq<Invoice>
    var items: seq<Item>
    var expenses: seq<Expense>
    var drawers: seq<Drawer>

    /** The tables as they were when the active transaction began. */
    var saved: Option<Tables>

    constructor (today: Date)
      ensures Snapshot() == Seed(today) && saved.None?
    {
      var t := Seed(today);
      users, services, staff, clients := t.users, t.services, t.staff, t.clients;
      appointments, products, invoices, items := t.appointments, t.products, t.invoices, t.items;
      expenses, drawers, saved := t.expenses, t.drawers, None;
    }

    function Snapshot(): Tables
      reads this
    {
      Tables(users, services, staff, clients, appointments, products, invoices, items, expenses, drawers)
    }

    // ----- Transactions

    method BeginTransaction()
      requires saved.None?
      modifies `saved
      ensures saved == Some(Snapshot())
    {
      saved := Some(Snapshot());
    }

    method Commit()
      requires saved.Some?
      modifies `saved
      ensures saved.None?
    {
      saved := None;
    }

    /** PDO throws when there is nothing to roll back. */
    method RollBack() returns (r: Reply)
      modifies this
      ensures saved.None?
      ensures old(saved.None?) ==> r == Err(NoActiveTransaction) && Snapshot() == old(Snapshot())
      ensures old(saved.Some?) ==> r.Ok? && Snapshot() == old(saved.value)
    {
      if saved.None? {
        return Err(NoActiveTransaction);
      }
      var t := saved.value;
      users, services, staff, clients := t.users, t.services, t.staff, t.clients;
      appointments, products, invoices, items := t.appointments, t.products, t.invoices, t.items;
      expenses, drawers, saved := t.expenses, t.drawers, None;
      r := Ok(1);
    }

    // ----- Inserts that a constraint can refuse

    method InsertInvoice(row: Invoice) returns (r: Reply)
      modifies `invoices
      ensures r == if InvoiceReferences(old(Snapshot()), row.client, row.loggedBy, row.appointment)
                   then Ok(|invoices|) else Err(ForeignKeyViolation)
      ensures invoices == if r.Ok? then old(invoices) + [row] else old(invoices)
    {
      if !InvoiceReferences(Snapshot(), row.client, row.loggedBy, row.appointment) {
        return Err(ForeignKeyViolation);
      }
      invoices := invoices + [row];
      r := Ok(|invoices|);
    }

    method InsertItem(row: Item) returns (r: Reply)
      modifies `items
      ensures r == if Exists(row.invoice, invoices) && (row.stylist.Some? ==> Exists(row.stylist.value, staff))
                   then Ok(|items|) else Err(ForeignKeyViolation)
      ensures items == if r.Ok? then old(items) + [row] else old(items)
    {
      if !Exists(row.invoice, invoices) || (row.stylist.Some? && !Exists(row.stylist.value, staff)) {
        return Err(ForeignKeyViolation);
      }
      items := items + [row];
      r := Ok(|items|);
    }

    method InsertDrawer(row: Drawer) returns (r: Reply)
      modifies `drawers
      ensures r == if HasDrawer(old(drawers), row.date) then Err(UniqueViolation) else Ok(|drawers|)
      ensures drawers == if r.Ok? then old(drawers) + [row] else old(drawers)
    {
      if HasDrawer(drawers, row.date) {
        return Err(UniqueViolation);
      }
      drawers := drawers + [row];
      r := Ok(|drawers|);
    }

    // ----- Invoice

    method CreateCheckout(today: Date, client: Option<int>, user: int, payment: Payment, lines: seq<Line>,
                          appointment: Option<int>) returns (r: Reply)
      requires saved.None?
      modifies this
      ensures saved.None?
      ensures Outcome(Snapshot(), r) == RingUp(old(Snapshot()), today, client, user, payment, lines, appointment)
      ensures r.Err? ==> Snapshot() == old(Snapshot())
    {
      BeginTransaction();
      r := CheckoutStatements(today, client, user, payment, lines, appointment);
      if r.Ok? {
        Commit();
      } else {
        var _ := RollBack();
      }
    }

    /** The `try` block. When the drawer's insert is refused, every other write has been made. */
    method CheckoutStatements(today: Date, client: Option<int>, user: int, payment: Payment, lines: seq<Line>,
                              appointment: Option<int>) returns (r: Reply)
      modifies this
      ensures saved == old(saved)
      ensures var sale := RingUp(old(Snapshot()), today, client, user, payment, lines, appointment);
        && r == sale.reply
        && (r.Ok? ==> Snapshot() == sale.tables)
      ensures r == Err(UniqueViolation) ==>
        Snapshot() == Posted(old(Snapshot()), today, client, user, payment, lines, appointment)
    {
      ghost var start := Snapshot();
      var total := CartTotal(lines);
      var invoiceId :- InsertInvoice(Invoice(client, user, payment, total, appointment, today));
      var _ :- AddItems(invoiceId, lines);
      if client.Some? && client.value != 0 {
        clients := UpdateKey(clients, client.value, CreditClient(total, today));
      }
      assert Snapshot() == Posted(start, today, client, user, payment, lines, appointment);
      var _ :- RingDrawer(today, payment, total);
      r := Ok(invoiceId);
    }

    /** The last write: the open row of the day is updated, or a first row is inserted. */
    method RingDrawer(today: Date, payment: Payment, total: Money) returns (r: Reply)
      modifies `drawers
      ensures r.Err? <==> ShutOn(old(drawers), today)
      ensures r.Err? ==> r == Err(UniqueViolation) && drawers == old(drawers)
      ensures r.Ok? ==> drawers == DrawersAfterSale(old(drawers), today, payment, total)
    {
      var recon := Find(drawers, OpenOn(today));
      if recon.Some? {
        drawers := drawers[recon.value := TakeIn(drawers[recon.value], payment, total)];
        r := Ok(1);
      } else {
        var cashSales := if payment.Cash? then total else 0.0;
        var digitalSales := if payment.Digital? then total else 0.0;
        r := InsertDrawer(
          Drawer(today, OPENING_CASH, cashSales, digitalSales, 0.0, OPENING_CASH + cashSales, Open, None));
      }
    }

    static method CartTotal(lines: seq<Line>) returns (total: Money)
      ensures total == Sum(lines, LineTotal)
    {
      total := 0.0;
      for k := 0 to |lines|
        invariant total == Sum(lines[..k], LineTotal)
      {
        SumAppend(lines[..k], lines[k], LineTotal);
        assert lines[..k + 1] == lines[..k] + [lines[k]];
        total := total + LineTotal(lines[k]);
      }
      assert lines[..|lines|] == lines;
    }

    /** The second loop: commission, item row, stock, line by line. */
    method AddItems(invoiceId: int, lines: seq<Line>) returns (r: Reply)
      requires Exists(invoiceId, invoices)
      modifies `items, `products
      ensures r == if StylistsKnown(staff, lines) then Ok(invoiceId) else Err(ForeignKeyViolation)
      ensures r.Ok? ==>
        && items == old(items) + ItemRows(users, staff, invoiceId, lines)
        && products == AfterSale(old(products), lines)
    {
      for k := 0 to |lines|
        invariant StylistsKnown(staff, lines[..k])
        invariant items == old(items) + ItemRows(users, staff, invoiceId, lines[..k])
        invariant products == AfterSale(old(products), lines[..k])
      {
        var line := lines[k];
        var commissionPaid := 0.0;
        if line.stylist.Some? && line.stylist.value != 0 {
          var profile := Profile(users, staff, line.stylist.value);
          if profile.Some? {
            commissionPaid := Earned(profile.value, line);
          }
        }
        assert !StylistKnown(staff, line) ==> !StylistsKnown(staff, lines);
        var _ :- InsertItem(
          Item(invoiceId, line.kind, line.item, line.stylist, line.quantity, line.price, commissionPaid));
        if line.kind.ProductItem? {
          products := UpdateKey(products, line.item, Replenish(-(line.quantity as real)));
        }
        assert lines[..k + 1] == lines[..k] + [line];
        StockAfterOneMore(old(products), lines[..k], line);
        assert ItemRows(users, staff, invoiceId, lines[..k + 1])
            == ItemRows(users, staff, invoiceId, lines[..k]) + [ItemRow(users, staff, invoiceId, line)];
      }
      assert lines[..|lines|] == lines;
      r := Ok(invoiceId);
    }

    method CreateFromCompletedAppointment(today: Date, appointment: int, user: int) returns (r: Reply)
      requires saved.None?
      modifies this
      ensures saved.None?
      ensures var invoiced := AutoInvoice(old(Snapshot()), today, appointment, user);
        && Snapshot() == invoiced.tables
        && r == invoiced.reply
    {
      if Find(invoices, Names(appointment)).Some? {
        return Ok(0);
      }
      if !Exists(appointment, appointments) || !Exists(appointments[appointment - 1].service, services) {
        return Ok(0);
      }
      var apt := appointments[appointment - 1];
      var line := Line(ServiceItem, apt.service, Some(apt.staff), 1, services[apt.service - 1].price);
      r := CreateCheckout(today, Some(apt.client), user, Cash, [line], Some(appointment));
    }

    // ----- Appointment

    method UpdateStatus(today: Date, id: int, status: AppointmentStatus, user: int) returns (r: Reply)
      requires saved.None?
      modifies this
      ensures saved.None?
      ensures Outcome(Snapshot(), r) == ChangeStatus(old(Snapshot()), today, id, status, user)
    {
      BeginTransaction();
      if !Exists(id, appointments) || appointments[id - 1].staff == 0 {
        var _ := RollBack();
        return Err(NotFound);
      }
      var staffId := appointments[id - 1].staff;
      appointments := UpdateKey(appointments, id, WithStatus(status));
      var staffStatus := Available;
      if status.Active? {
        staffStatus := InService;
      }
      staff := UpdateKey(staff, staffId, WithAvailability(staffStatus));
      Commit();
      assert Snapshot() == StatusSet(old(Snapshot()), id, status);
      if status.Completed? {
        var invoiced := CreateFromCompletedAppointment(today, id, Recorder(user));
        if invoiced.Err? {
          // The rollback in the handler finds no transaction, and its exception replaces the first one.
          r := RollBack();
          return;
        }
      }
      r := Ok(1);
    }

    method CreateAppointment(client: int, staffId: int, service: int, date: Date, start: Second) returns (r: Reply)
      requires saved.None?
      modifies this
      ensures saved.None?
      ensures Outcome(Snapshot(), r) == Reserve(old(Snapshot()), client, staffId, service, date, start)
    {
      BeginTransaction();
      if !Exists(service, services) || services[service - 1].minutes == 0 {
        var _ := RollBack();
        return Err(NotFound);
      }
      var end := EndOf(start, services[service - 1].minutes);
      var taken := SlotIsTaken(staffId, date, start, end);
      if taken {
        var _ := RollBack();
        return Err(SlotTaken);
      }
      if !Exists(client, clients) || !Exists(staffId, staff) {
        var _ := RollBack();
        return Err(ForeignKeyViolation);
      }
      appointments := appointments + [Appointment(client, staffId, service, date, start, end, Upcoming)];
      Commit();
      r := Ok(|appointments|);
    }

    /** The conflict query compares the texts of the times. */
    method SlotIsTaken(staffId: int, date: Date, start: Second, end: Second) returns (taken: bool)
      ensures taken <==> Find(appointments, Clashes(staffId, date, start, end)).Some?
    {
      TextClashesAreClashes(appointments, staffId, date, start, end);
      taken := Count(appointments, TextClashes(staffId, date, ClockText(start), ClockText(end))) > 0;
    }

    // ----- Client

    method FindOrCreateClient(name: string, email: string, phone: string) returns (id: int)
      modifies `clients
      ensures (Snapshot(), id) == FindOrCreate(old(Snapshot()), name, email, phone)
    {
      var found := Find(clients, Contact(email, phone));
      if found.Some? {
        return found.value + 1;
      }
      clients := clients + [Client(name, email, phone, 0.0, None)];
      id := |clients|;
    }

    // ----- Expense

    method CreateExpense(category: string, amount: Money, day: Date, user: int) returns (r: Reply)
      requires saved.None?
      modifies this
      ensures saved.None?
      ensures Outcome(Snapshot(), r) == Spend(old(Snapshot()), category, amount, day, user)
    {
      BeginTransaction();
      r := ExpenseStatements(category, amount, day, user);
      if r.Ok? {
        Commit();
      } else {
        var _ := RollBack();
      }
    }

    method ExpenseStatements(category: string, amount: Money, day: Date, user: int) returns (r: Reply)
      modifies `expenses, `drawers
      ensures var spent := Spend(old(Snapshot()), category, amount, day, user);
        && r == spent.reply
        && (r.Ok? ==> Snapshot() == spent.tables)
    {
      if !Exists(user, users) {
        return Err(ForeignKeyViolation);
      }
      expenses := expenses + [Expense(category, amount, day, user)];
      var recon := Find(drawers, OpenOn(day));
      if recon.Some? {
        drawers := drawers[recon.value := PayOut(drawers[recon.value], amount)];
      } else {
        var _ :- InsertDrawer(Drawer(day, OPENING_CASH, 0.0, 0.0, amount, OPENING_CASH - amount, Open, None));
      }
      r := Ok(|expenses|);
    }

    // ----- Reconciliation

    method GetTodayStatus(today: Date) returns (row: Drawer)
      modifies `drawers
      ensures Snapshot() == OpenToday(old(Snapshot()), today).tables
      ensures Find(drawers, OnDate(today)).Some? && row == drawers[Find(drawers, OnDate(today)).value]
    {
      var recon := Find(drawers, OnDate(today));
      if recon.None? {
        drawers := drawers + [Drawer(today, OPENING_CASH, 0.0, 0.0, 0.0, OPENING_CASH, Open, None)];
        assert OnDate(today)(drawers[|drawers| - 1]);
        recon := Find(drawers, OnDate(today));
      }
      row := drawers[recon.value];
    }

    method CloseDrawer(day: Date, counted: Money, user: int) returns (r: Reply)
      modifies `drawers
      ensures Outcome(Snapshot(), r) == CloseDay(old(Snapshot()), day, counted, user)
    {
      if Find(drawers, OpenOn(day)).Some? && !Exists(user, users) {
        return Err(ForeignKeyViolation);
      }
      drawers := UpdateWhere(drawers, OpenOn(day), ClosedWith(counted, user));
      r := Ok(1);
    }

    // ----- User

    method RegisterUser(name: string, username: string, hash: string, role: Role, rate: real,
                        commission: CommissionType, specializations: string) returns (r: Reply)
      requires saved.None?
      modifies this
      ensures saved.None?
      ensures Outcome(Snapshot(), r)
           == Enroll(old(Snapshot()), name, username, hash, role, rate, commission, specializations)
    {
      BeginTransaction();
      if Find(users, Called(username)).Some? {
        var _ := RollBack();
        return Err(UsernameTaken);
      }
      users := users + [User(name, username, hash, role, rate, commission)];
      var userId := |users|;
      if role.Stylist? {
        staff := staff + [Staff(Some(userId), name, specializations, Available)];
      }
      Commit();
      r := Ok(userId);
    }

    method UpdateStaffDetails(userId: int, name: string, username: string, hash: Option<string>, rate: real,
                              commission: CommissionType, specializations: string) returns (r: Reply)
      requires saved.None?
      modifies this
      ensures saved.None?
      ensures Outcome(Snapshot(), r)
           == Amend(old(Snapshot()), userId, name, username, hash, rate, commission, specializations)
    {
      BeginTransaction();
      if Exists(userId, users) && NameHeldByOther(users, userId, username) {
        var _ := RollBack();
        return Err(UniqueViolation);
      }
      users := UpdateKey(users, userId, Amended(name, username, hash, rate, commission));
      if Exists(userId, users) && users[userId - 1].role.Stylist? {
        if Find(staff, TiedTo(userId)).Some? {
          staff := UpdateWhere(staff, TiedTo(userId), WithDetails(name, specializations));
        } else {
          staff := staff + [Staff(Some(userId), name, specializations, Available)];
        }
      }
      Commit();
      r := Ok(1);
    }

    // ----- The front controller

    method Handle(call: Call) returns (r: Reply)
      requires saved.None?
      modifies this
      ensures saved.None?
      ensures Outcome(Snapshot(), r) == Respond(old(Snapshot()), call)
    {
      hide RingUp, ChangeStatus, Spend, CloseDay, FindOrCreate, Reserve, Enroll, Amend;
      match call.request
      case Checkout(client, payment, lines) =>
        if lines == [] || (payment.OtherPayment? && Blank(payment.text)) {
          return Err(BadRequest);
        }
        r := CreateCheckout(call.today, client, call.user, payment, lines, None);
      case SetStatus(appointment, status) =>
        if appointment == 0 {
          return Err(BadRequest);
        }
        r := UpdateStatus(call.today, appointment, status, call.user);
      case LogExpense(category, amount, day) =>
        if Blank(category) || amount <= 0.0 {
          return Err(BadRequest);
        }
        r := CreateExpense(category, amount, day, call.user);
      case ReadDrawer =>
        var row := GetTodayStatus(call.today);
        r := Ok(Find(drawers, OnDate(call.today)).value + 1);
      case CloseDrawer(day, counted) =>
        r := CloseDrawer(day, counted, call.user);
      case Book(name, email, phone, staffId, service, date, start) =>
        if Blank(name) || staffId == 0 || service == 0 {
          return Err(BadRequest);
        }
        var clientId := FindOrCreateClient(name, email, phone);
        r := CreateAppointment(clientId, staffId, service, date, start);
      case AddClient(name, email, phone) =>
        if Blank(name) {
          return Err(BadRequest);
        }
        clients := clients + [Client(name, email, phone, 0.0, None)];
        r := Ok(|clients|);
      case AddService(minutes, price) =>
        if minutes <= 0 || price < 0.0 {
          return Err(BadRequest);
        }
        services := services + [Service(minutes, price)];
        r := Ok(|services|);
      case UpdateService(service, minutes, price) =>
        if service == 0 || minutes <= 0 || price < 0.0 {
          return Err(BadRequest);
        }
        services := UpdateKey(services, service, Redefined(minutes, price));
        r := Ok(1);
      case AddProduct(stock) =>
        products := products + [Product(stock)];
        r := Ok(|products|);
      case Restock(product, delta) =>
        if product == 0 {
          return Err(BadRequest);
        }
        products := UpdateKey(products, product, Replenish(delta));
        r := Ok(1);
      case Register(name, username, hash, role, rate, commission, specializations) =>
        if Blank(name) || Blank(username) {
          return Err(BadRequest);
        }
        r := RegisterUser(name, username, hash, role, rate, commission, specializations);
      case UpdateStaff(user, name, username, hash, rate, commission, specializations) =>
        if user == 0 || Blank(name) || Blank(username) {
          return Err(BadRequest);
        }
        r := UpdateStaffDetails(user, name, username, hash, rate, commission, specializations);
      case SetAvailability(availability) =>
        if availability.InService? {
          return Err(BadRequest);
        }
        staff := UpdateWhere(staff, TiedTo(call.user), WithAvailability(availability));
        r := Ok(1);
    }
  }

  /** The UPDATE of one line takes the stock from that of the lines before it to that of one line more. */
  lemma StockAfterOneMore(products: seq<Product>, lines: seq<Line>, line: Line)
    ensures AfterSale(products, lines + [line])
         == if line.kind.ProductItem?
            then UpdateKey(AfterSale(products, lines), line.item, Replenish(-(line.quantity as real)))
            else AfterSale(products, lines)
  {
  }

  /** The WHERE clause of the conflict query, on the stored texts. */
  function TextClashes(staff: int, date: Date, start: string, end: string): Appointment -> bool {
    (a: Appointment) =>
      && a.staff == staff && a.date == date && !a.status.Cancelled?
      && TextLess(start, ClockText(a.end)) && TextLess(ClockText(a.start), end)
  }

  lemma TextClashesAreClashes(rows: seq<Appointment>, staff: int, date: Date, start: Second, end: Second)
    ensures Count(rows, TextClashes(staff, date, ClockText(start), ClockText(end))) > 0
       <==> Find(rows, Clashes(staff, date, start, end)).Some?
  {
    forall i | 0 <= i < |rows|
      ensures TextClashes(staff, date, ClockText(start), ClockText(end))(rows[i])
         <==> Clashes(staff, date, start, end)(rows[i])
    {
      TextOrderIsTimeOrder(start, rows[i].end);
      TextOrderIsTimeOrder(rows[i].start, end);
    }
  }
}
