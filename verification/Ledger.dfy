/**
 * What each request does to the tables, as a function. The class Database executes the statements
 * one by one and is proved equal to these functions; the theorems about runs are about them.
 */
module Ledger {
  import opened Basics
  import opened Schema
  import opened Clock

  /** One line of a cart as the server receives it. */
  datatype Line = Line(kind: ItemType, item: int, stylist: Option<int>, quantity: int, price: Money)

  datatype Request =
    | Checkout(client: Option<int>, payment: Payment, lines: seq<Line>)
    | SetStatus(appointment: int, status: AppointmentStatus)
    | LogExpense(category: string, amount: Money, day: Date)
    | ReadDrawer
    | CloseDrawer(day: Date, counted: Money)
    | Book(name: string, email: string, phone: string, staff: int, service: int, date: Date, start: Second)
    | AddClient(name: string, email: string, phone: string)
    | AddService(minutes: int, price: Money)
    | UpdateService(service: int, minutes: int, price: Money)
    | AddProduct(stock: real)
    | Restock(product: int, delta: real)
    | Register(name: string, username: string, passwordHash: string, role: Role, rate: real,
               commission: CommissionType, specializations: string)
    | UpdateStaff(user: int, name: string, username: string, newHash: Option<string>, rate: real,
                  commission: CommissionType, specializations: string)
    | SetAvailability(availability: Availability)

  /** A request with the clock's date and the user id of its token. */
  datatype Call = Call(today: Date, user: int, request: Request)

  type Reply = Result<int, Error>

  datatype Outcome = Outcome(tables: Tables, reply: Reply)

  /** PHP's `empty` on a text. */
  predicate Blank(s: string) {
    s == "" || s == "0"
  }

  // ----- Invoice::createCheckout

  function LineTotal(line: Line): Money {
    line.price * line.quantity as real
  }

  /** The user whose commission profile the join of users and staff finds for a stylist. */
  function Profile(users: seq<User>, staff: seq<Staff>, stylist: int): Option<User> {
    if Exists(stylist, staff) && staff[stylist - 1].user.Some? && Exists(staff[stylist - 1].user.value, users) then
      Some(users[staff[stylist - 1].user.value - 1])
    else
      None
  }

  function Earned(profile: User, line: Line): Money {
    if profile.commission.Percentage? then
      line.price * line.quantity as real * (profile.rate / 100.0)
    else
      profile.rate * line.quantity as real
  }

  function Commission(users: seq<User>, staff: seq<Staff>, line: Line): Money {
    if line.stylist.None? || Profile(users, staff, line.stylist.value).None? then
      0.0
    else
      Earned(Profile(users, staff, line.stylist.value).value, line)
  }

  function ItemRow(users: seq<User>, staff: seq<Staff>, invoice: int, line: Line): Item {
    Item(invoice, line.kind, line.item, line.stylist, line.quantity, line.price, Commission(users, staff, line))
  }

  function ItemRows(users: seq<User>, staff: seq<Staff>, invoice: int, lines: seq<Line>): (rows: seq<Item>)
    ensures |rows| == |lines|
  {
    seq(|lines|, i requires 0 <= i < |lines| => ItemRow(users, staff, invoice, lines[i]))
  }

  /** How many of product `product` a line takes from the shelf. */
  function Takes(product: int): Line -> real {
    (line: Line) => if line.kind.ProductItem? && line.item == product then line.quantity as real else 0.0
  }

  function AfterSale(products: seq<Product>, lines: seq<Line>): (r: seq<Product>)
    ensures |r| == |products|
  {
    seq(|products|, i requires 0 <= i < |products| => Product(products[i].stock - Sum(lines, Takes(i + 1))))
  }

  predicate StylistKnown(staff: seq<Staff>, line: Line) {
    line.stylist.Some? ==> Exists(line.stylist.value, staff)
  }

  predicate StylistsKnown(staff: seq<Staff>, lines: seq<Line>) {
    forall i :: 0 <= i < |lines| ==> StylistKnown(staff, lines[i])
  }

  predicate InvoiceReferences(t: Tables, client: Option<int>, user: int, appointment: Option<int>) {
    && (client.Some? ==> Exists(client.value, t.clients))
    && Exists(user, t.users)
    && (appointment.Some? ==> Exists(appointment.value, t.appointments))
  }

  function CreditClient(amount: Money, today: Date): Client -> Client {
    (c: Client) => c.(totalSpent := c.totalSpent + amount, lastVisit := Some(today))
  }

  function OnDate(date: Date): Drawer -> bool {
    (d: Drawer) => d.date == date
  }

  function OpenOn(date: Date): Drawer -> bool {
    (d: Drawer) => d.date == date && d.status.Open?
  }

  predicate HasDrawer(drawers: seq<Drawer>, date: Date) {
    Find(drawers, OnDate(date)).Some?
  }

  /** The date has a row, but no open one: the look-up misses and the insert violates UNIQUE. */
  predicate ShutOn(drawers: seq<Drawer>, date: Date) {
    HasDrawer(drawers, date) && Find(drawers, OpenOn(date)).None?
  }

  function TakeIn(drawer: Drawer, payment: Payment, total: Money): Drawer {
    if payment.Cash? then
      drawer.(cash := drawer.cash + total, closing := drawer.closing + total)
    else
      drawer.(digital := drawer.digital + total)
  }

  const OPENING_CASH: Money := 200.0

  function NewDrawer(date: Date, cash: Money, digital: Money, expenses: Money): Drawer {
    Drawer(date, OPENING_CASH, cash, digital, expenses, OPENING_CASH + cash - expenses, Open, None)
  }

  function DrawersAfterSale(drawers: seq<Drawer>, today: Date, payment: Payment, total: Money): seq<Drawer> {
    match Find(drawers, OpenOn(today))
    case Some(i) =>
      drawers[i := TakeIn(drawers[i], payment, total)]
    case None =>
      drawers + [NewDrawer(today, if payment.Cash? then total else 0.0, if payment.Digital? then total else 0.0, 0.0)]
  }

  /** All the writes of a checkout except the drawer's, which comes last and may fail. */
  function Posted(t: Tables, today: Date, client: Option<int>, user: int, payment: Payment, lines: seq<Line>,
                  appointment: Option<int>): Tables {
    var total := Sum(lines, LineTotal);
    t.(invoices := t.invoices + [Invoice(client, user, payment, total, appointment, today)],
       items := t.items + ItemRows(t.users, t.staff, |t.invoices| + 1, lines),
       products := AfterSale(t.products, lines),
       clients := if client.None? then t.clients else UpdateKey(t.clients, client.value, CreditClient(total, today)))
  }

  function RingUp(t: Tables, today: Date, client: Option<int>, user: int, payment: Payment, lines: seq<Line>,
                  appointment: Option<int>): Outcome {
    if !InvoiceReferences(t, client, user, appointment) || !StylistsKnown(t.staff, lines) then
      Outcome(t, Err(ForeignKeyViolation))
    else if ShutOn(t.drawers, today) then
      Outcome(t, Err(UniqueViolation))
    else
      var drawers := DrawersAfterSale(t.drawers, today, payment, Sum(lines, LineTotal));
      Outcome(Posted(t, today, client, user, payment, lines, appointment).(drawers := drawers), Ok(|t.invoices| + 1))
  }

  // ----- Invoice::createFromCompletedAppointment and Appointment::updateStatus

  function Names(appointment: int): Invoice -> bool {
    (i: Invoice) => i.appointment == Some(appointment)
  }

  function AutoInvoice(t: Tables, today: Date, appointment: int, user: int): Outcome {
    if Find(t.invoices, Names(appointment)).Some? || !Exists(appointment, t.appointments) then
      Outcome(t, Ok(0))
    else
      var apt := t.appointments[appointment - 1];
      if !Exists(apt.service, t.services) then
        Outcome(t, Ok(0))
      else
        var line := Line(ServiceItem, apt.service, Some(apt.staff), 1, t.services[apt.service - 1].price);
        RingUp(t, today, Some(apt.client), user, Cash, [line], Some(appointment))
  }

  function WithStatus(status: AppointmentStatus): Appointment -> Appointment {
    (a: Appointment) => a.(status := status)
  }

  function WithAvailability(status: Availability): Staff -> Staff {
    (s: Staff) => s.(status := status)
  }

  /** The first of the two commits of a status change. */
  function StatusSet(t: Tables, appointment: int, status: AppointmentStatus): Tables
    requires Exists(appointment, t.appointments)
  {
    t.(appointments := UpdateKey(t.appointments, appointment, WithStatus(status)),
       staff := UpdateKey(t.staff, t.appointments[appointment - 1].staff,
                          WithAvailability(if status.Active? then InService else Available)))
  }

  /** The user id recorded when a request carries none. */
  function Recorder(user: int): int {
    if user == 0 then 1 else user
  }

  function ChangeStatus(t: Tables, today: Date, appointment: int, status: AppointmentStatus, user: int): Outcome {
    if !Exists(appointment, t.appointments) || t.appointments[appointment - 1].staff == 0 then
      Outcome(t, Err(NotFound))
    else
      var changed := StatusSet(t, appointment, status);
      if !status.Completed? then
        Outcome(changed, Ok(1))
      else
        var invoiced := AutoInvoice(changed, today, appointment, Recorder(user));
        // The handler rolls back again, but the status change is already committed.
        Outcome(invoiced.tables, if invoiced.reply.Ok? then Ok(1) else Err(NoActiveTransaction))
  }

  // ----- Expense::create

  function PayOut(drawer: Drawer, amount: Money): Drawer {
    drawer.(expenses := drawer.expenses + amount, closing := drawer.closing - amount)
  }

  function DrawersAfterExpense(drawers: seq<Drawer>, day: Date, amount: Money): seq<Drawer> {
    match Find(drawers, OpenOn(day))
    case Some(i) => drawers[i := PayOut(drawers[i], amount)]
    case None => drawers + [NewDrawer(day, 0.0, 0.0, amount)]
  }

  function Spend(t: Tables, category: string, amount: Money, day: Date, user: int): Outcome {
    if !Exists(user, t.users) then
      Outcome(t, Err(ForeignKeyViolation))
    else if ShutOn(t.drawers, day) then
      Outcome(t, Err(UniqueViolation))
    else
      Outcome(t.(expenses := t.expenses + [Expense(category, amount, day, user)],
                 drawers := DrawersAfterExpense(t.drawers, day, amount)),
              Ok(|t.expenses| + 1))
  }

  // ----- Reconciliation::getTodayStatus and closeDrawer

  function OpenToday(t: Tables, today: Date): Outcome {
    match Find(t.drawers, OnDate(today))
    case Some(i) => Outcome(t, Ok(i + 1))
    case None => Outcome(t.(drawers := t.drawers + [NewDrawer(today, 0.0, 0.0, 0.0)]), Ok(|t.drawers| + 1))
  }

  function ClosedWith(counted: Money, user: int): Drawer -> Drawer {
    (d: Drawer) => d.(closing := counted, status := Closed, closedBy := Some(user))
  }

  function CloseDay(t: Tables, day: Date, counted: Money, user: int): Outcome {
    if Find(t.drawers, OpenOn(day)).Some? && !Exists(user, t.users) then
      Outcome(t, Err(ForeignKeyViolation))
    else
      Outcome(t.(drawers := UpdateWhere(t.drawers, OpenOn(day), ClosedWith(counted, user))), Ok(1))
  }

  // ----- Client::findOrCreate and Appointment::create

  function Contact(email: string, phone: string): Client -> bool {
    (c: Client) => (c.email == email && email != "") || (c.phone == phone && phone != "")
  }

  function FindOrCreate(t: Tables, name: string, email: string, phone: string): (Tables, int) {
    match Find(t.clients, Contact(email, phone))
    case Some(i) => (t, i + 1)
    case None => (t.(clients := t.clients + [Client(name, email, phone, 0.0, None)]), |t.clients| + 1)
  }

  /** `date('H:i:s', start + minutes * 60)` */
  function EndOf(start: Second, minutes: int): Second {
    (start + minutes * 60) % DAY
  }

  /** A row that the conflict query counts. */
  function Clashes(staff: int, date: Date, start: Second, end: Second): Appointment -> bool {
    (a: Appointment) =>
      a.staff == staff && a.date == date && !a.status.Cancelled? && start < a.end && end > a.start
  }

  function Reserve(t: Tables, client: int, staff: int, service: int, date: Date, start: Second): Outcome {
    if !Exists(service, t.services) || t.services[service - 1].minutes == 0 then
      Outcome(t, Err(NotFound))
    else
      var end := EndOf(start, t.services[service - 1].minutes);
      if Find(t.appointments, Clashes(staff, date, start, end)).Some? then
        Outcome(t, Err(SlotTaken))
      else if !Exists(client, t.clients) || !Exists(staff, t.staff) then
        Outcome(t, Err(ForeignKeyViolation))
      else
        Outcome(
          t.(appointments := t.appointments + [Appointment(client, staff, service, date, start, end, Upcoming)]),
          Ok(|t.appointments| + 1))
  }

  // ----- User::register and updateStaffDetails

  function Called(username: string): User -> bool {
    (u: User) => u.username == username
  }

  function TiedTo(user: int): Staff -> bool {
    (s: Staff) => s.user == Some(user)
  }

  function Enroll(t: Tables, name: string, username: string, hash: string, role: Role, rate: real,
                  commission: CommissionType, specializations: string): Outcome {
    if Find(t.users, Called(username)).Some? then
      Outcome(t, Err(UsernameTaken))
    else
      var id := |t.users| + 1;
      Outcome(
        t.(users := t.users + [User(name, username, hash, role, rate, commission)],
           staff := if role.Stylist? then t.staff + [Staff(Some(id), name, specializations, Available)] else t.staff),
        Ok(id))
  }

  function Amended(name: string, username: string, hash: Option<string>, rate: real,
                   commission: CommissionType): User -> User {
    (u: User) => User(name, username, if hash.None? then u.passwordHash else hash.value, u.role, rate, commission)
  }

  function WithDetails(name: string, specializations: string): Staff -> Staff {
    (s: Staff) => s.(name := name, specializations := specializations)
  }

  function StaffAfterAmend(staff: seq<Staff>, user: int, name: string, specializations: string): seq<Staff> {
    if Find(staff, TiedTo(user)).Some? then
      UpdateWhere(staff, TiedTo(user), WithDetails(name, specializations))
    else
      staff + [Staff(Some(user), name, specializations, Available)]
  }

  /** Another user than `user` already has the name: the UPDATE violates UNIQUE. */
  predicate NameHeldByOther(users: seq<User>, user: int, username: string) {
    exists i :: 0 <= i < |users| && i + 1 != user && users[i].username == username
  }

  function Amend(t: Tables, user: int, name: string, username: string, hash: Option<string>, rate: real,
                 commission: CommissionType, specializations: string): Outcome {
    if !Exists(user, t.users) then
      Outcome(t, Ok(1))
    else if NameHeldByOther(t.users, user, username) then
      Outcome(t, Err(UniqueViolation))
    else
      Outcome(
        t.(users := UpdateKey(t.users, user, Amended(name, username, hash, rate, commission)),
           staff := if t.users[user - 1].role.Stylist? then StaffAfterAmend(t.staff, user, name, specializations)
                    else t.staff),
        Ok(1))
  }

  // ----- The remaining writers

  function Replenish(delta: real): Product -> Product {
    (p: Product) => Product(p.stock + delta)
  }

  function Redefined(minutes: int, price: Money): Service -> Service {
    (s: Service) => Service(minutes, price)
  }

  // ----- The front controller

  function Respond(t: Tables, call: Call): Outcome {
    match call.request
    case Checkout(client, payment, lines) =>
      if lines == [] || (payment.OtherPayment? && Blank(payment.text)) then Outcome(t, Err(BadRequest))
      else RingUp(t, call.today, client, call.user, payment, lines, None)
    case SetStatus(appointment, status) =>
      if appointment == 0 then Outcome(t, Err(BadRequest))
      else ChangeStatus(t, call.today, appointment, status, call.user)
    case LogExpense(category, amount, day) =>
      if Blank(category) || amount <= 0.0 then Outcome(t, Err(BadRequest))
      else Spend(t, category, amount, day, call.user)
    case ReadDrawer =>
      OpenToday(t, call.today)
    case CloseDrawer(day, counted) =>
      CloseDay(t, day, counted, call.user)
    case Book(name, email, phone, staff, service, date, start) =>
      if Blank(name) || staff == 0 || service == 0 then Outcome(t, Err(BadRequest))
      else
        var (known, client) := FindOrCreate(t, name, email, phone);
        Reserve(known, client, staff, service, date, start)
    case AddClient(name, email, phone) =>
      if Blank(name) then Outcome(t, Err(BadRequest))
      else Outcome(t.(clients := t.clients + [Client(name, email, phone, 0.0, None)]), Ok(|t.clients| + 1))
    case AddService(minutes, price) =>
      if minutes <= 0 || price < 0.0 then Outcome(t, Err(BadRequest))
      else Outcome(t.(services := t.services + [Service(minutes, price)]), Ok(|t.services| + 1))
    case UpdateService(service, minutes, price) =>
      if service == 0 || minutes <= 0 || price < 0.0 then Outcome(t, Err(BadRequest))
      else Outcome(t.(services := UpdateKey(t.services, service, Redefined(minutes, price))), Ok(1))
    case AddProduct(stock) =>
      Outcome(t.(products := t.products + [Product(stock)]), Ok(|t.products| + 1))
    case Restock(product, delta) =>
      if product == 0 then Outcome(t, Err(BadRequest))
      else Outcome(t.(products := UpdateKey(t.products, product, Replenish(delta))), Ok(1))
    case Register(name, username, hash, role, rate, commission, specializations) =>
      if Blank(name) || Blank(username) then Outcome(t, Err(BadRequest))
      else Enroll(t, name, username, hash, role, rate, commission, specializations)
    case UpdateStaff(user, name, username, hash, rate, commission, specializations) =>
      if user == 0 || Blank(name) || Blank(username) then Outcome(t, Err(BadRequest))
      else Amend(t, user, name, username, hash, rate, commission, specializations)
    case SetAvailability(availability) =>
      if availability.InService? then Outcome(t, Err(BadRequest))
      else Outcome(t.(staff := UpdateWhere(t.staff, TiedTo(call.user), WithAvailability(availability))), Ok(1))
  }

  function Step(t: Tables, call: Call): Tables {
    Respond(t, call).tables
  }

  /** The tables after the calls of a run, in order. */
  function Run(t: Tables, calls: seq<Call>): Tables
    decreases |calls|
  {
    if calls == [] then t else Run(Step(t, calls[0]), calls[1..])
  }
}
