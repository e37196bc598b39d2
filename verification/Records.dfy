/** What stands in the records of services, users, staff and appointments: what was last said about them. */
module Records {
  import opened Basics
  import opened Schema
  import opened Ledger
  import opened Frames
  import opened References
  import opened Accounts
  import opened Bookings
  import opened Clients
  import opened Histories

  function Always(): Tables -> bool {
    (t: Tables) => true
  }

  // ----- Services

  function ServiceRow(s: int): Tables -> Option<Service> {
    (t: Tables) => if Exists(s, t.services) then Some(t.services[s - 1]) else None
  }

  function SetsService(s: int): (Tables, Call) -> Option<Service> {
    (t: Tables, call: Call) =>
      match call.request
      case AddService(minutes, price) =>
        if minutes > 0 && price >= 0.0 && s == |t.services| + 1 then Some(Service(minutes, price)) else None
      case UpdateService(service, minutes, price) =>
        if minutes > 0 && price >= 0.0 && s == service && 1 <= s <= |t.services| then Some(Service(minutes, price))
        else None
      case _ => None
  }

  lemma StepSetsService(t: Tables, call: Call, s: int)
    ensures ServiceRow(s)(Step(t, call)) ==
      if SetsService(s)(t, call).Some? then SetsService(s)(t, call) else ServiceRow(s)(t)
  {
    hide RingUp, ChangeStatus, Spend, OpenToday, CloseDay, FindOrCreate, Reserve, Enroll, Amend;
    OtherTablesStay(t, call);
  }

  /** A service has the duration and price of the last valid request that named it. */
  lemma ServiceIsAsLastSet(t: Tables, calls: seq<Call>, s: int)
    ensures LastWord(t, calls, SetsService(s), ServiceRow(s)(t), ServiceRow(s)(Run(t, calls)))
  {
    hide Step, Run, LastWord;
    forall before: Tables, call: Call
      ensures ServiceRow(s)(Step(before, call)) ==
        if SetsService(s)(before, call).Some? then SetsService(s)(before, call) else ServiceRow(s)(before)
    {
      StepSetsService(before, call, s);
    }
    ColumnHoldsLastWord(t, calls, Always(), ServiceRow(s), SetsService(s));
  }

  // ----- Clients

  type ContactData = (string, string, string)

  function ContactOf(c: int): Tables -> Option<ContactData> {
    (t: Tables) =>
      if Exists(c, t.clients) then Some((t.clients[c - 1].name, t.clients[c - 1].email, t.clients[c - 1].phone))
      else None
  }

  /** No client has this nonblank email or this nonblank phone. */
  predicate Unknown(clients: seq<Client>, email: string, phone: string) {
    forall i :: 0 <= i < |clients| ==> !HasContact(clients[i], email, phone)
  }

  function SetsContact(c: int): (Tables, Call) -> Option<ContactData> {
    (t: Tables, call: Call) =>
      if c != |t.clients| + 1 then None
      else match call.request
        case AddClient(name, email, phone) =>
          if Given(name) then Some((name, email, phone)) else None
        case Book(name, email, phone, staff, service, _, _) =>
          if Given(name) && staff != 0 && service != 0 && Unknown(t.clients, email, phone) then
            Some((name, email, phone))
          else
            None
        case _ => None
  }

  lemma StepSetsContact(t: Tables, call: Call, c: int)
    ensures ContactOf(c)(Step(t, call)) ==
      if SetsContact(c)(t, call).Some? then SetsContact(c)(t, call) else ContactOf(c)(t)
  {
    hide RingUp, ChangeStatus, Spend, OpenToday, CloseDay, Enroll, Amend;
    OtherTablesStay(t, call);
    StepLeaves(t, call);
    match call.request
    case Checkout(_, _, _) =>
      SaleAddsNoClient(t, call);
    case SetStatus(_, _) =>
      SaleAddsNoClient(t, call);
    case Book(name, email, phone, _, _, _, _) =>
      ClientFoundOrAdded(t, name, email, phone);
    case _ =>
  }

  lemma SaleAddsNoClient(t: Tables, call: Call)
    requires call.request.Checkout? || call.request.SetStatus?
    ensures |Step(t, call).clients| == |t.clients|
  {
  }

  /** A client has the name, email and phone of the request that made the row: a registration or a booking. */
  lemma ContactIsAsGiven(t: Tables, calls: seq<Call>, c: int)
    ensures LastWord(t, calls, SetsContact(c), ContactOf(c)(t), ContactOf(c)(Run(t, calls)))
  {
    hide Step, Run, LastWord, Unknown;
    forall before: Tables, call: Call
      ensures ContactOf(c)(Step(before, call)) ==
        if SetsContact(c)(before, call).Some? then SetsContact(c)(before, call) else ContactOf(c)(before)
    {
      StepSetsContact(before, call, c);
    }
    ColumnHoldsLastWord(t, calls, Always(), ContactOf(c), SetsContact(c));
  }

  // ----- Users

  /** No user, or none but `except`, has the name. */
  predicate NameFree(users: seq<User>, username: string, except: int) {
    forall i :: 0 <= i < |users| && i + 1 != except ==> users[i].username != username
  }

  /** The call registers a user under key `u`. */
  predicate Registers(t: Tables, call: Call, u: int) {
    match call.request
    case Register(name, username, _, _, _, _, _) =>
      Given(name) && Given(username) && NameFree(t.users, username, 0) && u == |t.users| + 1
    case _ => false
  }

  /** The call updates the user `u`. */
  predicate Updates(t: Tables, call: Call, u: int) {
    match call.request
    case UpdateStaff(user, name, username, _, _, _, _) =>
      u == user && 1 <= u <= |t.users| && Given(name) && Given(username) && NameFree(t.users, username, u)
    case _ => false
  }

  type Profile = (string, string, real, CommissionType)

  function ProfileOf(u: int): Tables -> Option<Profile> {
    (t: Tables) =>
      if Exists(u, t.users) then
        Some((t.users[u - 1].name, t.users[u - 1].username, t.users[u - 1].rate, t.users[u - 1].commission))
      else
        None
  }

  function SetsProfile(u: int): (Tables, Call) -> Option<Profile> {
    (t: Tables, call: Call) =>
      if Registers(t, call, u) || Updates(t, call, u) then
        var r := call.request;
        Some((r.name, r.username, r.rate, r.commission))
      else
        None
  }

  function HashOf(u: int): Tables -> Option<string> {
    (t: Tables) => if Exists(u, t.users) then Some(t.users[u - 1].passwordHash) else None
  }

  function SetsHash(u: int): (Tables, Call) -> Option<string> {
    (t: Tables, call: Call) =>
      if Registers(t, call, u) then Some(call.request.passwordHash)
      else if Updates(t, call, u) then call.request.newHash
      else None
  }

  function RoleOf(u: int): Tables -> Option<Role> {
    (t: Tables) => if Exists(u, t.users) then Some(t.users[u - 1].role) else None
  }

  function SetsRole(u: int): (Tables, Call) -> Option<Role> {
    (t: Tables, call: Call) => if Registers(t, call, u) then Some(call.request.role) else None
  }

  lemma StepSetsUser(t: Tables, call: Call, u: int)
    ensures ProfileOf(u)(Step(t, call)) ==
      if SetsProfile(u)(t, call).Some? then SetsProfile(u)(t, call) else ProfileOf(u)(t)
    ensures HashOf(u)(Step(t, call)) == if SetsHash(u)(t, call).Some? then SetsHash(u)(t, call) else HashOf(u)(t)
    ensures RoleOf(u)(Step(t, call)) == if SetsRole(u)(t, call).Some? then SetsRole(u)(t, call) else RoleOf(u)(t)
  {
    hide RingUp, ChangeStatus, Spend, OpenToday, CloseDay, FindOrCreate, Reserve, StaffAfterAmend;
    OtherTablesStay(t, call);
  }

  /**
   * A user has the name, username, rate and commission type of the last accepted registration or update, the hash of
   * the last of them that carried a password, and the role of the registration.
   */
  lemma UserIsAsLastSet(t: Tables, calls: seq<Call>, u: int)
    ensures LastWord(t, calls, SetsProfile(u), ProfileOf(u)(t), ProfileOf(u)(Run(t, calls)))
    ensures LastWord(t, calls, SetsHash(u), HashOf(u)(t), HashOf(u)(Run(t, calls)))
    ensures LastWord(t, calls, SetsRole(u), RoleOf(u)(t), RoleOf(u)(Run(t, calls)))
  {
    hide Step, Run, LastWord;
    forall before: Tables, call: Call
      ensures ProfileOf(u)(Step(before, call)) ==
        if SetsProfile(u)(before, call).Some? then SetsProfile(u)(before, call) else ProfileOf(u)(before)
      ensures HashOf(u)(Step(before, call)) ==
        if SetsHash(u)(before, call).Some? then SetsHash(u)(before, call) else HashOf(u)(before)
      ensures RoleOf(u)(Step(before, call)) ==
        if SetsRole(u)(before, call).Some? then SetsRole(u)(before, call) else RoleOf(u)(before)
    {
      StepSetsUser(before, call, u);
    }
    ColumnHoldsLastWord(t, calls, Always(), ProfileOf(u), SetsProfile(u));
    ColumnHoldsLastWord(t, calls, Always(), HashOf(u), SetsHash(u));
    ColumnHoldsLastWord(t, calls, Always(), RoleOf(u), SetsRole(u));
  }

  // ----- Staff

  function AccountsInOrder(): Tables -> bool {
    (t: Tables) => AccountsMatch(t.users, t.staff)
  }

  /** The call registers a stylist with the staff row `k`. */
  predicate Hires(t: Tables, call: Call, k: int) {
    Registers(t, call, |t.users| + 1) && call.request.role.Stylist? && k == |t.staff| + 1
  }

  function TieOf(k: int): Tables -> Option<Option<int>> {
    (t: Tables) => if Exists(k, t.staff) then Some(t.staff[k - 1].user) else None
  }

  function SetsTie(k: int): (Tables, Call) -> Option<Option<int>> {
    (t: Tables, call: Call) => if Hires(t, call, k) then Some(Some(|t.users| + 1)) else None
  }

  function DetailsOf(k: int): Tables -> Option<(string, string)> {
    (t: Tables) => if Exists(k, t.staff) then Some((t.staff[k - 1].name, t.staff[k - 1].specializations)) else None
  }

  function SetsDetails(k: int): (Tables, Call) -> Option<(string, string)> {
    (t: Tables, call: Call) =>
      if Hires(t, call, k) then
        Some((call.request.name, call.request.specializations))
      else if Exists(k, t.staff) && t.staff[k - 1].user.Some? && Updates(t, call, t.staff[k - 1].user.value) then
        Some((call.request.name, call.request.specializations))
      else
        None
  }

  function AvailabilityOf(k: int): Tables -> Option<Availability> {
    (t: Tables) => if Exists(k, t.staff) then Some(t.staff[k - 1].status) else None
  }

  function SetsAvailability(k: int): (Tables, Call) -> Option<Availability> {
    (t: Tables, call: Call) =>
      if Hires(t, call, k) then Some(Available)
      else if !Exists(k, t.staff) then None
      else match call.request
        case SetStatus(a, status) =>
          if 1 <= a <= |t.appointments| && t.appointments[a - 1].staff == k then
            Some(if status == Active then InService else Available)
          else
            None
        case SetAvailability(availability) =>
          if availability != InService && t.staff[k - 1].user == Some(call.user) then Some(availability) else None
        case _ => None
  }

  predicate StaffSet(t: Tables, call: Call, k: int) {
    && TieOf(k)(Step(t, call)) == (if SetsTie(k)(t, call).Some? then SetsTie(k)(t, call) else TieOf(k)(t))
    && DetailsOf(k)(Step(t, call)) ==
         (if SetsDetails(k)(t, call).Some? then SetsDetails(k)(t, call) else DetailsOf(k)(t))
    && AvailabilityOf(k)(Step(t, call)) ==
         (if SetsAvailability(k)(t, call).Some? then SetsAvailability(k)(t, call) else AvailabilityOf(k)(t))
  }

  lemma StepSetsStaff(t: Tables, call: Call, k: int)
    requires AccountsMatch(t.users, t.staff)
    ensures StaffSet(t, call, k)
  {
    hide StaffSet, AccountsMatch;
    match call.request
    case UpdateStaff(_, _, _, _, _, _, _) => UpdateSetsStaff(t, call, k);
    case SetStatus(_, _) => StatusSetsStaff(t, call, k);
    case _ => OtherSetsStaff(t, call, k);
  }

  lemma OtherSetsStaff(t: Tables, call: Call, k: int)
    requires !call.request.UpdateStaff? && !call.request.SetStatus?
    ensures StaffSet(t, call, k)
  {
    hide RingUp, ChangeStatus, Spend, OpenToday, CloseDay, FindOrCreate, Reserve, Amend;
    OtherTablesStay(t, call);
  }

  lemma StatusSetsStaff(t: Tables, call: Call, k: int)
    requires call.request.SetStatus?
    ensures StaffSet(t, call, k)
  {
    hide RingUp, ChangeStatus;
    OtherTablesStay(t, call);
    CompletionSetsStaff(t, call.today, call.request.appointment, call.request.status, call.user);
  }

  lemma UpdateSetsStaff(t: Tables, call: Call, k: int)
    requires AccountsMatch(t.users, t.staff) && call.request.UpdateStaff?
    ensures StaffSet(t, call, k)
  {
    hide StaffAfterAmend;
    var r := call.request;
    if Exists(r.user, t.users) && t.users[r.user - 1].role.Stylist? {
      AmendSetsStaff(t, r.user, r.name, r.specializations, k);
    }
    if Exists(k, t.staff) {
      assert TiedToStylist(t.staff[k - 1], t.users);
    }
  }

  lemma AmendSetsStaff(t: Tables, user: int, name: string, specializations: string, k: int)
    requires AccountsMatch(t.users, t.staff) && Exists(user, t.users) && t.users[user - 1].role.Stylist?
    ensures var after := StaffAfterAmend(t.staff, user, name, specializations);
      && |after| == |t.staff|
      && (Exists(k, t.staff) ==>
            after[k - 1] == if t.staff[k - 1].user == Some(user)
                            then t.staff[k - 1].(name := name, specializations := specializations)
                            else t.staff[k - 1])
  {
  }

  lemma CompletionSetsStaff(t: Tables, today: Date, appointment: int, status: AppointmentStatus, user: int)
    ensures ChangeStatus(t, today, appointment, status, user).tables.staff ==
      if Exists(appointment, t.appointments) && t.appointments[appointment - 1].staff != 0
      then StatusSet(t, appointment, status).staff
      else t.staff
  {
  }

  /**
   * A staff row has the name and specializations of the registration or of the last accepted update of its user, the
   * availability that the last accepted status of one of its appointments or its own user's choice gave it, and the
   * user of the registration.
   */
  lemma StaffIsAsLastSet(t: Tables, calls: seq<Call>, k: int)
    requires AccountsMatch(t.users, t.staff)
    ensures LastWord(t, calls, SetsTie(k), TieOf(k)(t), TieOf(k)(Run(t, calls)))
    ensures LastWord(t, calls, SetsDetails(k), DetailsOf(k)(t), DetailsOf(k)(Run(t, calls)))
    ensures LastWord(t, calls, SetsAvailability(k), AvailabilityOf(k)(t), AvailabilityOf(k)(Run(t, calls)))
  {
    hide Step, Run, LastWord, AccountsMatch, Hires;
    forall before: Tables, call: Call | AccountsMatch(before.users, before.staff)
      ensures AccountsInOrder()(Step(before, call))
      ensures TieOf(k)(Step(before, call)) ==
        if SetsTie(k)(before, call).Some? then SetsTie(k)(before, call) else TieOf(k)(before)
      ensures DetailsOf(k)(Step(before, call)) ==
        if SetsDetails(k)(before, call).Some? then SetsDetails(k)(before, call) else DetailsOf(k)(before)
      ensures AvailabilityOf(k)(Step(before, call)) ==
        if SetsAvailability(k)(before, call).Some? then SetsAvailability(k)(before, call) else AvailabilityOf(k)(before)
    {
      StepSetsStaff(before, call, k);
      StepKeepsAccounts(before, call);
    }
    ColumnHoldsLastWord(t, calls, AccountsInOrder(), TieOf(k), SetsTie(k));
    ColumnHoldsLastWord(t, calls, AccountsInOrder(), DetailsOf(k), SetsDetails(k));
    ColumnHoldsLastWord(t, calls, AccountsInOrder(), AvailabilityOf(k), SetsAvailability(k));
  }

  // ----- Appointments

  function ReferencesInOrder(): Tables -> bool {
    (t: Tables) => Intact(t)
  }

  function StatusOf(a: int): Tables -> Option<AppointmentStatus> {
    (t: Tables) => if Exists(a, t.appointments) then Some(t.appointments[a - 1].status) else None
  }

  function SetsStatus(a: int): (Tables, Call) -> Option<AppointmentStatus> {
    (t: Tables, call: Call) =>
      if WillBook(t, call) && a == |t.appointments| + 1 then Some(Upcoming)
      else match call.request
        case SetStatus(appointment, status) =>
          if appointment == a && 1 <= a <= |t.appointments| then Some(status) else None
        case _ => None
  }

  lemma StepSetsStatus(t: Tables, call: Call, a: int)
    requires Intact(t)
    ensures StatusOf(a)(Step(t, call)) ==
      if SetsStatus(a)(t, call).Some? then SetsStatus(a)(t, call) else StatusOf(a)(t)
  {
    hide RingUp, Spend, OpenToday, CloseDay, FindOrCreate, Reserve, Enroll, Amend, WillBook;
    OtherTablesStay(t, call);
    match call.request
    case Book(_, _, _, _, _, _, _) =>
      WillBookIff(t, call);
    case SetStatus(appointment, status) =>
      if Exists(appointment, t.appointments) {
        assert AppointmentRefers(t.appointments[appointment - 1], t);
      }
      CompletionSetsStatus(t, call.today, appointment, status, call.user);
      NoBooking(t, call);
    case _ =>
      NoBooking(t, call);
  }

  lemma NoBooking(t: Tables, call: Call)
    requires !call.request.Book?
    ensures !WillBook(t, call)
  {
  }

  lemma CompletionSetsStatus(t: Tables, today: Date, appointment: int, status: AppointmentStatus, user: int)
    ensures ChangeStatus(t, today, appointment, status, user).tables.appointments ==
      if Exists(appointment, t.appointments) && t.appointments[appointment - 1].staff != 0
      then UpdateKey(t.appointments, appointment, WithStatus(status))
      else t.appointments
  {
  }

  /** An appointment has the status of the last request that named it, and is upcoming from its booking until then. */
  lemma StatusIsAsLastSet(t: Tables, calls: seq<Call>, a: int)
    requires Intact(t)
    ensures LastWord(t, calls, SetsStatus(a), StatusOf(a)(t), StatusOf(a)(Run(t, calls)))
  {
    hide Step, Run, LastWord, Intact;
    forall before: Tables, call: Call | Intact(before)
      ensures ReferencesInOrder()(Step(before, call))
      ensures StatusOf(a)(Step(before, call)) ==
        if SetsStatus(a)(before, call).Some? then SetsStatus(a)(before, call) else StatusOf(a)(before)
    {
      StepSetsStatus(before, call, a);
      StepKeepsIntact(before, call);
    }
    ColumnHoldsLastWord(t, calls, ReferencesInOrder(), StatusOf(a), SetsStatus(a));
  }

  // ----- What no request ever changes

  /** Booked appointments keep all but the status, clients all but spending and last visit, drawer rows their date. */
  predicate Lasting(before: Tables, after: Tables) {
    && |before.appointments| <= |after.appointments| && |before.clients| <= |after.clients|
    && |before.drawers| <= |after.drawers|
    && (forall i :: 0 <= i < |before.appointments| ==>
          after.appointments[i] == before.appointments[i].(status := after.appointments[i].status))
    && (forall i :: 0 <= i < |before.clients| ==>
          after.clients[i] == before.clients[i].(
            totalSpent := after.clients[i].totalSpent, lastVisit := after.clients[i].lastVisit))
    && (forall i :: 0 <= i < |before.drawers| ==>
          after.drawers[i].date == before.drawers[i].date && after.drawers[i].opening == before.drawers[i].opening)
  }

  lemma RingUpLeaves(t: Tables, today: Date, client: Option<int>, user: int, payment: Payment, lines: seq<Line>,
                     appointment: Option<int>)
    ensures Lasting(t, RingUp(t, today, client, user, payment, lines, appointment).tables)
  {
  }

  lemma CompletionLeaves(t: Tables, today: Date, appointment: int, status: AppointmentStatus, user: int)
    ensures Lasting(t, ChangeStatus(t, today, appointment, status, user).tables)
  {
    hide RingUp;
    if Exists(appointment, t.appointments) {
      var changed := StatusSet(t, appointment, status);
      var apt := changed.appointments[appointment - 1];
      if Exists(apt.service, changed.services) {
        var line := Line(ServiceItem, apt.service, Some(apt.staff), 1, changed.services[apt.service - 1].price);
        RingUpLeaves(changed, today, Some(apt.client), Recorder(user), Cash, [line], Some(appointment));
      }
    }
  }

  lemma StepLeaves(t: Tables, call: Call)
    ensures Lasting(t, Step(t, call))
  {
    hide RingUp, ChangeStatus, Enroll, Amend;
    OtherTablesStay(t, call);
    match call.request
    case Checkout(client, payment, lines) =>
      RingUpLeaves(t, call.today, client, call.user, payment, lines, None);
    case SetStatus(appointment, status) =>
      CompletionLeaves(t, call.today, appointment, status, call.user);
    case _ =>
  }

  lemma {:induction false} RunLeaves(t: Tables, calls: seq<Call>)
    ensures Lasting(t, Run(t, calls))
    decreases |calls|
  {
    hide Step;
    if calls != [] {
      StepLeaves(t, calls[0]);
      RunLeaves(Step(t, calls[0]), calls[1..]);
    }
  }
}
