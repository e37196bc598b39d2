/** What holds in every state that the application can reach from a new database. */
module Runs {
  import opened Basics
  import opened Schema
  import opened Ledger
  import opened References
  import opened CashBook
  import opened ClosedDays
  import opened Sales
  import opened Completion
  import opened Accounts
  import opened Bookings

  /** Everything that holds after any run whatever the callers send. */
  predicate Sound(t: Tables) {
    && Intact(t)
    && BooksBalance(t)
    && TotalsHold(t)
    && VisitsHold(t)
    && AtMostOneInvoice(t.invoices)
    && AccountsMatch(t.users, t.staff)
    && DurationsPositive(t.services)
    && AllSigned(t.drawers)
  }

  lemma SeedUsers(today: Date)
    ensures AccountsMatch(Seed(today).users, Seed(today).staff)
  {
    var staff := Seed(today).staff;
    assert staff[0].user == Some(3) && staff[1].user == Some(4);
  }

  lemma SeedIsSound(today: Date)
    ensures Sound(Seed(today)) && DigitalAgrees(Seed(today).drawers, Seed(today).invoices)
    ensures forall calendar: Date -> int :: NoDoubleBooking(Seed(today).appointments, calendar)
  {
    var t := Seed(today);
    SeedUsers(today);
    assert RowAgrees(t.drawers[0], t.invoices, t.expenses);
    assert forall i :: 0 <= i < |t.appointments| ==> AppointmentRefers(t.appointments[i], t);
  }

  lemma StepKeepsSound(t: Tables, call: Call)
    requires Sound(t)
    ensures Sound(Step(t, call))
  {
    StepKeepsIntact(t, call);
    StepKeepsBalance(t, call);
    StepKeepsTotals(t, call);
    StepKeepsVisits(t, call);
    StepKeepsAtMostOne(t, call);
    StepKeepsAccounts(t, call);
    StepKeepsDurations(t, call);
    assert OneRowPerDate(t.drawers);
    StepKeepsSigned(t, call);
  }

  lemma {:induction false} RunKeepsSound(t: Tables, calls: seq<Call>)
    requires Sound(t)
    ensures Sound(Run(t, calls))
    decreases |calls|
  {
    if calls != [] {
      StepKeepsSound(t, calls[0]);
      RunKeepsSound(Step(t, calls[0]), calls[1..]);
    }
  }

  /**
   * Every run of a new database, by any callers on any dates. Seeded clients start with 850 and 210 spent
   * before the first invoice; the ledger accounts for every cent after that. The calendar is any numbering of the days.
   */
  lemma EveryReachableState(today: Date, calls: seq<Call>, calendar: Date -> int)
    ensures var last := Run(Seed(today), calls);
      && Sound(last)
      && (forall c :: Exists(c, last.clients) ==>
            Carried(last, c) == if c == 1 then 850.0 else if c == 2 then 210.0 else 0.0)
      && (forall p :: Exists(p, Seed(today).products) ==>
            (Exists(p, last.products) && last.products[p - 1].stock
               == Seed(today).products[p - 1].stock + Sum(calls, RestockOf(p)) - Sum(last.items, SoldOf(p))))
      && (RecordsPayments(Seed(today), calls) ==> DigitalAgrees(last.drawers, last.invoices))
      && (OrderlyRun(Seed(today), calendar, calls) ==> NoDoubleBooking(last.appointments, calendar))
  {
    SeedIsSound(today);
    RunKeepsSound(Seed(today), calls);
    forall c | Exists(c, Run(Seed(today), calls).clients)
      ensures Carried(Run(Seed(today), calls), c) == if c == 1 then 850.0 else if c == 2 then 210.0 else 0.0
    {
      RunKeepsCarried(Seed(today), calls, c);
    }
    forall p | Exists(p, Seed(today).products)
      ensures Exists(p, Run(Seed(today), calls).products)
      ensures Received(Run(Seed(today), calls), p) == Seed(today).products[p - 1].stock + Sum(calls, RestockOf(p))
    {
      RunMovesReceived(Seed(today), calls, p);
      SumZero(Seed(today).items, SoldOf(p));
    }
    RunKeepsDigitalIff(Seed(today), calls);
    NeverDoubleBookedIff(Seed(today), calendar, calls);
  }
}
