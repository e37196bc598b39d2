/**
 * The tables of api/core/Database.php. A row's primary key is its position plus one.
 * Columns that no modelled statement reads or computes (descriptions, addresses of pictures,
 * creation times) are left out. Money is exact. A date is the number yyyymmdd, of which only equality is used;
 * a time is a second of the day.
 */
module Schema {
  import opened Basics
  import opened Clock

  type Money = real
  type Date = int

  datatype Role = Admin | Receptionist | Stylist

  /** `commission_type`: the text 'percentage', or any other text. */
  datatype CommissionType = Percentage | PerUnit

  datatype User = User(
    name: string, username: string, passwordHash: string, role: Role, rate: real, commission: CommissionType)

  datatype Service = Service(minutes: int, price: Money)

  datatype Availability = Available | InService | Off

  datatype Staff = Staff(user: Option<int>, name: string, specializations: string, status: Availability)

  datatype Client = Client(name: string, email: string, phone: string, totalSpent: Money, lastVisit: Option<Date>)

  datatype AppointmentStatus = Upcoming | Active | Completed | Cancelled

  datatype Appointment = Appointment(
    client: int, staff: int, service: int, date: Date, start: Second, end: Second, status: AppointmentStatus)

  datatype Product = Product(stock: real)

  /** `payment_method`: the texts 'cash' and 'digital', or any other text. */
  datatype Payment = Cash | Digital | OtherPayment(text: string)

  /** `day` is the date part of `created_at`. */
  datatype Invoice = Invoice(
    client: Option<int>, loggedBy: int, payment: Payment, total: Money, appointment: Option<int>, day: Date)

  /** `item_type`: the texts 'service' and 'product', or any other text. */
  datatype ItemType = ServiceItem | ProductItem | OtherItem(text: string)

  datatype Item = Item(
    invoice: int, kind: ItemType, item: int, stylist: Option<int>, quantity: int, price: Money, commission: Money)

  datatype Expense = Expense(category: string, amount: Money, day: Date, loggedBy: int)

  datatype DrawerStatus = Open | Closed

  datatype Drawer = Drawer(
    date: Date, opening: Money, cash: Money, digital: Money, expenses: Money, closing: Money,
    status: DrawerStatus, closedBy: Option<int>)

  datatype Tables = Tables(
    users: seq<User>, services: seq<Service>, staff: seq<Staff>, clients: seq<Client>,
    appointments: seq<Appointment>, products: seq<Product>, invoices: seq<Invoice>, items: seq<Item>,
    expenses: seq<Expense>, drawers: seq<Drawer>)

  /** What a failing statement throws, and what the controllers answer with status 400. */
  datatype Error =
    | BadRequest
    | NotFound
    | SlotTaken
    | UsernameTaken
    | ForeignKeyViolation
    | UniqueViolation
    | NoActiveTransaction

  /** The rows a new database starts with, on the day it is created. */
  function Seed(today: Date): Tables {
    Tables(
      [User("System Administrator", "admin", "adminpass", Admin, 0.0, Percentage),
       User("Sarah Receptionist", "recep", "receppass", Receptionist, 0.0, Percentage),
       User("Emma Watson", "emma", "emmapass", Stylist, 40.0, Percentage),
       User("David Lee", "david", "davidpass", Stylist, 30.0, Percentage)],
      [Service(60, 85.0), Service(45, 45.0), Service(45, 55.0),
       Service(90, 120.0), Service(120, 145.0), Service(180, 210.0)],
      [Staff(Some(3), "Emma Watson", "Colorist, Balayage", Available),
       Staff(Some(4), "David Lee", "Men's Cuts, Fades", Available)],
      [Client("Amanda Smith", "amanda.s@example.com", "+1 (555) 234-5678", 850.0, Some(20260610)),
       Client("John Doe", "john.doe@example.com", "+1 (555) 345-6789", 210.0, Some(20260612))],
      [Appointment(1, 1, 6, today, 36000, 46800, Active),
       Appointment(2, 2, 2, today, 48600, 51300, Upcoming)],
      [Product(50.0), Product(30.0), Product(150.0), Product(12.5)],
      [], [], [],
      [Drawer(today, 200.0, 0.0, 0.0, 0.0, 200.0, Open, None)])
  }
}
