/** The commission report and the stylists' payouts: two joins over the same items. */
module Commissions {
  import opened Basics
  import opened Schema
  import opened Ledger
  import opened Frames
  import opened References
  import opened Accounts
  import opened SalonDatabase

  // ----- Joins on primary keys

  function Filter<T>(rows: seq<T>, p: T -> bool): seq<T> {
    if rows == [] then []
    else
      var rest := Filter(rows[..|rows| - 1], p);
      if p(rows[|rows| - 1]) then rest + [rows[|rows| - 1]] else rest
  }

  /** `f` on the rows that satisfy `p`, and 0 elsewhere. */
  function Where<T>(p: T -> bool, f: T -> real): T -> real {
    (row: T) => if p(row) then f(row) else 0.0
  }

  lemma {:induction false} SumOfFilter<T>(rows: seq<T>, p: T -> bool, f: T -> real)
    ensures Sum(Filter(rows, p), f) == Sum(rows, Where(p, f))
  {
    if rows != [] {
      var init, last := rows[..|rows| - 1], rows[|rows| - 1];
      SumOfFilter(init, p, f);
      SumAppend(Filter(init, p), last, f);
    }
  }

  /** The keys 1 to `n` of a table of `n` rows. */
  function Keys(n: nat): (keys: seq<int>)
    ensures |keys| == n && forall i :: 0 <= i < n ==> keys[i] == i + 1
  {
    seq(n, i => i + 1)
  }

  function Equals(key: int): int -> bool {
    (k: int) => k == key
  }

  /** The rows of a table of `n` rows that a join on the primary key finds. */
  function Join(n: nat, key: int): seq<int> {
    Filter(Keys(n), Equals(key))
  }

  /** How many rows a left join on the primary key yields: the matches, or one row of nulls. */
  function LeftJoinCount(n: nat, key: Option<int>): nat {
    var matches := if key.None? then 0 else |Join(n, key.value)|;
    if matches == 0 then 1 else matches
  }

  lemma {:induction false} JoinOnKey(n: nat, key: int)
    ensures Join(n, key) == if 1 <= key <= n then [key] else []
  {
    if n > 0 {
      assert Keys(n)[..n - 1] == Keys(n - 1);
      JoinOnKey(n - 1, key);
    }
  }

  // ----- Invoice::getCommissionReport

  datatype ReportRow = ReportRow(staff: int, name: string, earned: Money)

  /** One row of the left join of staff and items: the group's key, and the item unless it is null. */
  datatype Joined = Joined(staff: int, item: Option<Item>)

  function ServedBy(staff: int): Item -> bool {
    (i: Item) => i.stylist == Some(staff)
  }

  /** The group of a staff member in the left join. */
  function Group(items: seq<Item>, staff: int): seq<Joined> {
    var own := Filter(items, ServedBy(staff));
    if own == [] then [Joined(staff, None)]
    else seq(|own|, i requires 0 <= i < |own| => Joined(staff, Some(own[i])))
  }

  function JoinedCommission(row: Joined): Money {
    if row.item.None? then 0.0 else row.item.value.commission
  }

  function CommissionPaid(item: Item): Money {
    item.commission
  }

  function CommissionReport(t: Tables): (report: seq<ReportRow>)
    ensures |report| == |t.staff|
  {
    seq(|t.staff|, i requires 0 <= i < |t.staff| =>
      ReportRow(i + 1, t.staff[i].name, Sum(Group(t.items, i + 1), JoinedCommission)))
  }

  function RowEarned(row: ReportRow): Money {
    row.earned
  }

  lemma GroupSum(items: seq<Item>, staff: int)
    ensures Sum(Group(items, staff), JoinedCommission) == Sum(items, Where(ServedBy(staff), CommissionPaid))
  {
    var own := Filter(items, ServedBy(staff));
    SumOfFilter(items, ServedBy(staff), CommissionPaid);
    if own == [] {
      SumZero(Group(items, staff), JoinedCommission);
    } else {
      SumAgree(Group(items, staff), JoinedCommission, own, CommissionPaid);
    }
  }

  /** Served by one of the first `n` staff members among those selected. */
  function ServedByFirst(n: nat, selected: int -> bool): Item -> bool {
    (i: Item) => i.stylist.Some? && 1 <= i.stylist.value <= n && selected(i.stylist.value)
  }

  function Selected(selected: int -> bool): ReportRow -> bool {
    (row: ReportRow) => selected(row.staff)
  }

  lemma {:induction false} ReportOverFirst(t: Tables, n: nat, selected: int -> bool)
    requires n <= |t.staff|
    ensures Sum(CommissionReport(t)[..n], Where(Selected(selected), RowEarned))
         == Sum(t.items, Where(ServedByFirst(n, selected), CommissionPaid))
  {
    hide Sum;
    var report := CommissionReport(t);
    if n == 0 {
      SumZero(report[..0], Where(Selected(selected), RowEarned));
      SumZero(t.items, Where(ServedByFirst(0, selected), CommissionPaid));
    } else {
      assert report[..n] == report[..n - 1] + [report[n - 1]];
      SumAppend(report[..n - 1], report[n - 1], Where(Selected(selected), RowEarned));
      ReportOverFirst(t, n - 1, selected);
      GroupSum(t.items, n);
      var own := if selected(n) then Where(ServedBy(n), CommissionPaid) else Nothing;
      if !selected(n) {
        SumZero(t.items, Nothing);
      }
      SumPlus(t.items, Where(ServedByFirst(n, selected), CommissionPaid),
              Where(ServedByFirst(n - 1, selected), CommissionPaid), own);
    }
  }

  function Nothing(item: Item): Money {
    0.0
  }

  function Everyone(): int -> bool {
    (staff: int) => true
  }

  function HasStylist(item: Item): bool {
    item.stylist.Some?
  }

  /** The report accounts for every commission: summed over all staff it is the sum over all items with a stylist. */
  lemma ReportIsComplete(t: Tables)
    requires Intact(t)
    ensures Sum(CommissionReport(t), RowEarned) == Sum(t.items, Where(HasStylist, CommissionPaid))
  {
    var report := CommissionReport(t);
    ReportOverFirst(t, |t.staff|, Everyone());
    assert report[..|t.staff|] == report;
    forall i | 0 <= i < |report|
      ensures RowEarned(report[i]) == Where(Selected(Everyone()), RowEarned)(report[i])
    {
    }
    SumAgree(report, RowEarned, report, Where(Selected(Everyone()), RowEarned));
    forall i | 0 <= i < |t.items|
      ensures HasStylist(t.items[i]) <==> ServedByFirst(|t.staff|, Everyone())(t.items[i])
    {
      assert ItemRefers(t.items[i], t);
    }
    SumAgree(t.items, Where(HasStylist, CommissionPaid),
             t.items, Where(ServedByFirst(|t.staff|, Everyone()), CommissionPaid));
  }

  /** The report has one row for each member of the staff, with the key, the name and what the member's items earned. */
  lemma ReportRows(t: Tables, k: nat)
    requires k < |t.staff|
    ensures |CommissionReport(t)| == |t.staff|
    ensures CommissionReport(t)[k].staff == k + 1 && CommissionReport(t)[k].name == t.staff[k].name
    ensures CommissionReport(t)[k].earned == Sum(t.items, EarnedBy(k + 1))
  {
    GroupSum(t.items, k + 1);
    SumAgree(t.items, Where(ServedBy(k + 1), CommissionPaid), t.items, EarnedBy(k + 1));
  }

  function EarnedBy(staff: int): Item -> Money {
    (i: Item) => if i.stylist == Some(staff) then i.commission else 0.0
  }

  // ----- What a commission is

  function Units(line: Line): real {
    line.quantity as real
  }

  function LineAmount(line: Line): Money {
    line.price * line.quantity as real
  }

  /**
   * For a cart that one stylist served, the commissions on the new items add up to the stylist's share of the
   * invoice total, or to the stylist's rate for each unit sold.
   */
  lemma {:induction false} CommissionIsTheShare(users: seq<User>, staff: seq<Staff>, invoice: int,
                                                lines: seq<Line>, stylist: int)
    requires forall i :: 0 <= i < |lines| ==> lines[i].stylist == Some(stylist)
    ensures Sum(ItemRows(users, staff, invoice, lines), CommissionPaid) ==
      if 1 <= stylist <= |staff| && staff[stylist - 1].user.Some? && 1 <= staff[stylist - 1].user.value <= |users| then
        var user := users[staff[stylist - 1].user.value - 1];
        if user.commission == Percentage then Sum(lines, LineAmount) * (user.rate / 100.0)
        else Sum(lines, Units) * user.rate
      else
        0.0
  {
    hide Sum;
    var rows := ItemRows(users, staff, invoice, lines);
    match Profile(users, staff, stylist)
    case None =>
      SumZero(rows, CommissionPaid);
    case Some(user) =>
      var earned := (line: Line) => Earned(user, line);
      SumAgree(rows, CommissionPaid, lines, earned);
      if user.commission.Percentage? {
        SumScale(lines, earned, user.rate / 100.0, LineAmount);
      } else {
        SumScale(lines, earned, user.rate, Units);
      }
  }

  /** Sales that no stylist served earn no commission. */
  lemma NoStylistNoCommission(users: seq<User>, staff: seq<Staff>, invoice: int, lines: seq<Line>)
    requires forall i :: 0 <= i < |lines| ==> lines[i].stylist == None
    ensures Sum(ItemRows(users, staff, invoice, lines), CommissionPaid) == 0.0
  {
    SumZero(ItemRows(users, staff, invoice, lines), CommissionPaid);
  }

  /** The staff row `k` is tied to `user`, who has this rate. */
  predicate HasRate(t: Tables, k: nat, user: int, rate: real, commission: CommissionType) {
    && k < |t.staff| && t.staff[k].user == Some(user)
    && Exists(user, t.users) && t.users[user - 1].rate == rate && t.users[user - 1].commission == commission
  }

  /** The item earned the share of its price, or the amount per unit. */
  predicate EarnsAt(item: Item, rate: real, commission: CommissionType) {
    item.commission == if commission.Percentage? then item.price * item.quantity as real * (rate / 100.0)
                       else rate * item.quantity as real
  }

  /** All of a staff row's items from position `from` on earn at this rate. */
  predicate EarnAt(items: seq<Item>, from: nat, k: nat, rate: real, commission: CommissionType) {
    forall i :: from <= i < |items| && items[i].stylist == Some(k + 1) ==> EarnsAt(items[i], rate, commission)
  }

  lemma RingUpEarnsAt(t: Tables, today: Date, client: Option<int>, user: int, payment: Payment, lines: seq<Line>,
                      appointment: Option<int>, k: nat, of: int, rate: real, commission: CommissionType)
    requires HasRate(t, k, of, rate, commission)
    ensures var after := RingUp(t, today, client, user, payment, lines, appointment).tables;
      HasRate(after, k, of, rate, commission) && EarnAt(after.items, |t.items|, k, rate, commission)
  {
    hide AfterSale, DrawersAfterSale, UpdateKey, InvoiceReferences, ShutOn, StylistsKnown, Sum;
    assert Profile(t.users, t.staff, k + 1) == Some(t.users[of - 1]);
  }

  lemma CompletionEarnsAt(t: Tables, today: Date, appointment: int, status: AppointmentStatus, user: int, k: nat,
                          of: int, rate: real, commission: CommissionType)
    requires HasRate(t, k, of, rate, commission)
    ensures var after := ChangeStatus(t, today, appointment, status, user).tables;
      HasRate(after, k, of, rate, commission) && EarnAt(after.items, |t.items|, k, rate, commission)
  {
    hide RingUp;
    if Exists(appointment, t.appointments) {
      var changed := StatusSet(t, appointment, status);
      var apt := changed.appointments[appointment - 1];
      if Exists(apt.service, changed.services) {
        var line := Line(ServiceItem, apt.service, Some(apt.staff), 1, changed.services[apt.service - 1].price);
        RingUpEarnsAt(changed, today, Some(apt.client), Recorder(user), Cash, [line], Some(appointment),
                      k, of, rate, commission);
      }
    }
  }

  lemma StepEarnsAt(t: Tables, call: Call, k: nat, of: int, rate: real, commission: CommissionType)
    requires HasRate(t, k, of, rate, commission)
    requires call.request.UpdateStaff? ==> call.request.user != of
    ensures HasRate(Step(t, call), k, of, rate, commission)
    ensures EarnAt(Step(t, call).items, |t.items|, k, rate, commission)
  {
    hide RingUp, ChangeStatus;
    OtherTablesStay(t, call);
    match call.request
    case Checkout(client, payment, lines) =>
      RingUpEarnsAt(t, call.today, client, call.user, payment, lines, None, k, of, rate, commission);
    case SetStatus(appointment, status) =>
      CompletionEarnsAt(t, call.today, appointment, status, call.user, k, of, rate, commission);
    case _ =>
  }

  predicate LeavesAlone(calls: seq<Call>, user: int) {
    forall i :: 0 <= i < |calls| && calls[i].request.UpdateStaff? ==> calls[i].request.user != user
  }

  lemma {:induction false} RunEarnsAt(t: Tables, calls: seq<Call>, k: nat, of: int, rate: real,
                                      commission: CommissionType)
    requires HasRate(t, k, of, rate, commission) && LeavesAlone(calls, of)
    ensures HasRate(Run(t, calls), k, of, rate, commission)
    ensures t.items <= Run(t, calls).items && EarnAt(Run(t, calls).items, |t.items|, k, rate, commission)
    decreases |calls|
  {
    hide HasRate, Step;
    if calls != [] {
      var next := Step(t, calls[0]);
      assert LeavesAlone(calls[1..], of) by {
        assert forall i :: 0 <= i < |calls[1..]| ==> calls[1..][i] == calls[i + 1];
      }
      StepEarnsAt(t, calls[0], k, of, rate, commission);
      StepGrows(t, calls[0]);
      RunEarnsAt(next, calls[1..], k, of, rate, commission);
      var last := Run(next, calls[1..]).items;
      assert forall i :: |t.items| <= i < |next.items| ==> last[i] == next.items[i];
    }
  }

  /**
   * A new rate for a stylist counts for every sale of the stylist's staff row in any run that follows, up to the next
   * change for the same user, and for no earlier one: the items already stored stay as they are. Nobody else's
   * profile changes.
   */
  lemma NewRateCountsFromNow(t: Tables, call: Call, k: nat, calls: seq<Call>)
    requires AccountsMatch(t.users, t.staff)
    requires call.request.UpdateStaff? && Respond(t, call).reply.Ok?
    requires k < |t.staff| && t.staff[k].user == Some(call.request.user)
    requires LeavesAlone(calls, call.request.user)
    ensures var last := Run(Step(t, call), calls);
      && t.items <= last.items
      && EarnAt(last.items, |t.items|, k, call.request.rate, call.request.commission)
    ensures forall other :: other != k + 1 ==>
      Profile(Step(t, call).users, Step(t, call).staff, other) == Profile(t.users, t.staff, other)
  {
    hide Run;
    NewRateStored(t, call, k);
    RunEarnsAt(Step(t, call), calls, k, call.request.user, call.request.rate, call.request.commission);
  }

  lemma NewRateStored(t: Tables, call: Call, k: nat)
    requires AccountsMatch(t.users, t.staff)
    requires call.request.UpdateStaff? && Respond(t, call).reply.Ok?
    requires k < |t.staff| && t.staff[k].user == Some(call.request.user)
    ensures Step(t, call).items == t.items
    ensures HasRate(Step(t, call), k, call.request.user, call.request.rate, call.request.commission)
    ensures forall other :: other != k + 1 ==>
      Profile(Step(t, call).users, Step(t, call).staff, other) == Profile(t.users, t.staff, other)
  {
    assert TiedToStylist(t.staff[k], t.users);
    assert TiedTo(call.request.user)(t.staff[k]);
    forall j | 0 <= j < |t.staff| && j != k
      ensures t.staff[j].user != Some(call.request.user)
    {
    }
  }

  // ----- Invoice::getStylistPayouts

  function Tied(staff: seq<Staff>, user: int): int -> bool {
    (k: int) => Exists(k, staff) && staff[k - 1].user == Some(user)
  }

  /** How many result rows the five-table join makes of one item. */
  function Copies(t: Tables, user: int, item: Item): nat {
    |Join(|t.invoices|, item.invoice)|
    * (if item.stylist.None? then 0 else |Filter(Join(|t.staff|, item.stylist.value), Tied(t.staff, user))|)
    * LeftJoinCount(|t.services|, if item.kind.ServiceItem? then Some(item.item) else None)
    * LeftJoinCount(|t.products|, if item.kind.ProductItem? then Some(item.item) else None)
  }

  function PayoutRows(t: Tables, user: int, items: seq<Item>): seq<Item> {
    if items == [] then []
    else
      var last := items[|items| - 1];
      PayoutRows(t, user, items[..|items| - 1]) + seq(Copies(t, user, last), _ => last)
  }

  /** The joins neither drop nor repeat an item: it appears once if its stylist is tied to the user, else never. */
  lemma JoinsKeepRows(t: Tables, user: int, item: Item)
    requires ItemRefers(item, t)
    ensures Copies(t, user, item) == if ServedByFirst(|t.staff|, Tied(t.staff, user))(item) then 1 else 0
  {
    JoinOnKey(|t.invoices|, item.invoice);
    JoinOnKey(|t.services|, item.item);
    JoinOnKey(|t.products|, item.item);
    if item.stylist.Some? {
      JoinOnKey(|t.staff|, item.stylist.value);
      var one := [item.stylist.value];
      assert one[..|one| - 1] == [];
      assert Filter(one, Tied(t.staff, user)) == if Tied(t.staff, user)(one[0]) then one else [];
    }
  }

  lemma {:induction false} PayoutRowsAreTheUsersItems(t: Tables, user: int, items: seq<Item>)
    requires forall i :: 0 <= i < |items| ==> ItemRefers(items[i], t)
    ensures PayoutRows(t, user, items) == Filter(items, ServedByFirst(|t.staff|, Tied(t.staff, user)))
  {
    if items != [] {
      var init, last := items[..|items| - 1], items[|items| - 1];
      PayoutRowsAreTheUsersItems(t, user, init);
      JoinsKeepRows(t, user, last);
    }
  }

  /** A stylist's payouts total what the report shows for the staff rows tied to that user. */
  lemma PayoutsMatchReport(t: Tables, user: int)
    requires Intact(t)
    ensures Sum(PayoutRows(t, user, t.items), CommissionPaid)
         == Sum(CommissionReport(t), Where(Selected(Tied(t.staff, user)), RowEarned))
  {
    forall i | 0 <= i < |t.items|
      ensures ItemRefers(t.items[i], t)
    {
    }
    PayoutRowsAreTheUsersItems(t, user, t.items);
    SumOfFilter(t.items, ServedByFirst(|t.staff|, Tied(t.staff, user)), CommissionPaid);
    ReportOverFirst(t, |t.staff|, Tied(t.staff, user));
    assert CommissionReport(t)[..|t.staff|] == CommissionReport(t);
  }

  /** A registered stylist has one staff row, so the payout page and one report row show the same figure. */
  lemma PayoutIsOneReportRow(t: Tables, user: int, k: nat)
    requires Intact(t) && AccountsMatch(t.users, t.staff)
    requires k < |t.staff| && t.staff[k].user == Some(user)
    ensures Sum(PayoutRows(t, user, t.items), CommissionPaid) == CommissionReport(t)[k].earned
  {
    hide Sum, PayoutRows, Group;
    PayoutsMatchReport(t, user);
    TiedOnce(t, user, k);
    SumOfOne(CommissionReport(t), Where(Selected(Tied(t.staff, user)), RowEarned), k);
  }

  lemma TiedOnce(t: Tables, user: int, k: nat)
    requires AccountsMatch(t.users, t.staff)
    requires k < |t.staff| && t.staff[k].user == Some(user)
    ensures var report, column := CommissionReport(t), Where(Selected(Tied(t.staff, user)), RowEarned);
      && (forall i :: 0 <= i < |report| && i != k ==> column(report[i]) == 0.0)
      && column(report[k]) == report[k].earned
  {
    hide Sum, Group, Find;
    forall i | 0 <= i < |t.staff| && i != k
      ensures t.staff[i].user != Some(user)
    {
    }
  }

  /** POSController::getStylistPayouts */
  method GetStylistPayouts(db: Database, user: int) returns (totalEarned: Money, payouts: seq<Item>)
    ensures payouts == PayoutRows(db.Snapshot(), user, db.items)
    ensures Intact(db.Snapshot()) ==>
      payouts == Filter(db.items, ServedByFirst(|db.staff|, Tied(db.staff, user)))
    ensures Intact(db.Snapshot()) ==>
      totalEarned == Sum(CommissionReport(db.Snapshot()), Where(Selected(Tied(db.staff, user)), RowEarned))
  {
    payouts := PayoutRows(db.Snapshot(), user, db.items);
    totalEarned := 0.0;
    for k := 0 to |payouts|
      invariant totalEarned == Sum(payouts[..k], CommissionPaid)
    {
      SumAppend(payouts[..k], payouts[k], CommissionPaid);
      assert payouts[..k + 1] == payouts[..k] + [payouts[k]];
      totalEarned := totalEarned + payouts[k].commission;
    }
    assert payouts[..|payouts|] == payouts;
    if Intact(db.Snapshot()) {
      PayoutRowsAreTheUsersItems(db.Snapshot(), user, db.items);
      PayoutsMatchReport(db.Snapshot(), user);
    }
  }
}
