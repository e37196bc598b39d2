/** The three records of the same money: invoices, drawer rows and client spending. */
module GrandTotals {
  import opened Basics
  import opened Schema
  import opened Ledger
  import opened References
  import Frames
  import opened CashBook
  import opened Sales
  import opened Runs

  function Amount(i: Invoice): Money {
    i.total
  }

  function TakenIn(row: Drawer): Money {
    row.cash + row.digital
  }

  function Spent(c: Client): Money {
    c.totalSpent
  }

  // ----- Drawers

  /** The amounts of the invoices on the dates of the first `n` drawer rows. */
  function OnFirst(drawers: seq<Drawer>, n: nat): Invoice -> Money
    requires n <= |drawers|
  {
    (i: Invoice) => if HasDrawer(drawers[..n], i.day) then i.total else 0.0
  }

  lemma NoRowsNoDates(drawers: seq<Drawer>)
    ensures forall day :: !HasDrawer(drawers[..0], day)
  {
  }

  lemma OneMoreInvoice(drawers: seq<Drawer>, n: nat, i: Invoice)
    requires OneRowPerDate(drawers) && n < |drawers|
    ensures OnFirst(drawers, n + 1)(i) == OnFirst(drawers, n)(i) + TakenOn(drawers[n].date)(i)
  {
  }

  lemma {:induction false} RowsCoverDates(t: Tables, n: nat)
    requires BooksBalance(t) && DigitalAgrees(t.drawers, t.invoices) && n <= |t.drawers|
    ensures Sum(t.drawers[..n], TakenIn) == Sum(t.invoices, OnFirst(t.drawers, n))
  {
    hide Sum, HasDrawer;
    if n == 0 {
      SumZero(t.drawers[..0], TakenIn);
      assert forall i :: 0 <= i < |t.invoices| ==> !HasDrawer(t.drawers[..0], t.invoices[i].day) by {
        NoRowsNoDates(t.drawers);
      }
      SumZero(t.invoices, OnFirst(t.drawers, 0));
    } else {
      RowsCoverDates(t, n - 1);
      var row := t.drawers[n - 1];
      assert t.drawers[..n] == t.drawers[..n - 1] + [row];
      SumAppend(t.drawers[..n - 1], row, TakenIn);
      assert RowAgrees(row, t.invoices, t.expenses);
      SumPlus(t.invoices, TakenOn(row.date), CashOn(row.date), NonCashOn(row.date));
      forall i | 0 <= i < |t.invoices|
        ensures OnFirst(t.drawers, n)(t.invoices[i])
             == OnFirst(t.drawers, n - 1)(t.invoices[i]) + TakenOn(row.date)(t.invoices[i])
      {
        OneMoreInvoice(t.drawers, n - 1, t.invoices[i]);
      }
      SumPlus(t.invoices, OnFirst(t.drawers, n), OnFirst(t.drawers, n - 1), TakenOn(row.date));
    }
  }

  /** All drawers together took in what all invoices together billed. */
  lemma DrawersTookInWhatWasBilled(t: Tables)
    requires BooksBalance(t) && DigitalAgrees(t.drawers, t.invoices)
    ensures Sum(t.drawers, TakenIn) == Sum(t.invoices, Amount)
  {
    RowsCoverDates(t, |t.drawers|);
    assert t.drawers[..|t.drawers|] == t.drawers;
    SumAgree(t.invoices, Amount, t.invoices, OnFirst(t.drawers, |t.drawers|));
  }

  // ----- Clients

  /** The amounts of the invoices that name one of the first `n` clients. */
  function ToFirst(n: nat): Invoice -> Money {
    (i: Invoice) => if i.client.Some? && 1 <= i.client.value <= n then i.total else 0.0
  }

  function ToSomeone(i: Invoice): Money {
    if i.client.Some? then i.total else 0.0
  }

  /** What the first `n` clients had spent before the first invoice of a new database. */
  function Brought(n: nat): Money {
    if n == 0 then 0.0 else if n == 1 then 850.0 else 1060.0
  }

  lemma {:induction false} ClientsCoverInvoices(t: Tables, n: nat)
    requires n <= |t.clients|
    requires forall c :: Exists(c, t.clients) ==>
      Carried(t, c) == if c == 1 then 850.0 else if c == 2 then 210.0 else 0.0
    ensures Sum(t.clients[..n], Spent) == Brought(n) + Sum(t.invoices, ToFirst(n))
  {
    if n == 0 {
      SumZero(t.invoices, ToFirst(0));
    } else {
      ClientsCoverInvoices(t, n - 1);
      assert t.clients[..n] == t.clients[..n - 1] + [t.clients[n - 1]];
      SumAppend(t.clients[..n - 1], t.clients[n - 1], Spent);
      assert Carried(t, n) == t.clients[n - 1].totalSpent - Sum(t.invoices, PaidBy(n));
      SumPlus(t.invoices, ToFirst(n), ToFirst(n - 1), PaidBy(n));
    }
  }

  /**
   * In every reachable state all clients together have spent 1060 more than the invoices that name a client; with
   * every payment recorded, the drawers hold exactly what was billed.
   */
  lemma MoneyIsConserved(today: Date, calls: seq<Call>)
    ensures var last := Run(Seed(today), calls);
      && Sum(last.clients, Spent) == 1060.0 + Sum(last.invoices, ToSomeone)
      && (RecordsPayments(Seed(today), calls) ==> Sum(last.drawers, TakenIn) == Sum(last.invoices, Amount))
  {
    hide Seed, Run, Step;
    var last := Run(Seed(today), calls);
    EveryReachableState(today, calls, date => date);
    TwoClientsStay(today, calls);
    ClientsCoverInvoices(last, |last.clients|);
    assert last.clients[..|last.clients|] == last.clients;
    forall i | 0 <= i < |last.invoices|
      ensures ToSomeone(last.invoices[i]) == ToFirst(|last.clients|)(last.invoices[i])
    {
      assert InvoiceRefers(last.invoices[i], last);
    }
    SumAgree(last.invoices, ToSomeone, last.invoices, ToFirst(|last.clients|));
    if RecordsPayments(Seed(today), calls) {
      DrawersTookInWhatWasBilled(last);
    }
  }

  lemma TwoClientsStay(today: Date, calls: seq<Call>)
    ensures |Run(Seed(today), calls).clients| >= 2
  {
    Frames.RunGrows(Seed(today), calls);
  }
}
