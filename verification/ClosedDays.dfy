/** Closing a drawer is final: the row and the day's log never change again. */
module ClosedDays {
  import opened Basics
  import opened Schema
  import opened Ledger
  import opened Frames
  import opened CashBook
  import opened Histories

  predicate ClosedRow(t: Tables, k: nat) {
    k < |t.drawers| && t.drawers[k].status.Closed?
  }

  /** Between the two states, no invoice and no expense of `date` was added. */
  predicate NothingNewOn(before: Tables, after: Tables, date: Date) {
    && Grows(before, after)
    && (forall i :: |before.invoices| <= i < |after.invoices| ==> after.invoices[i].day != date)
    && (forall i :: |before.expenses| <= i < |after.expenses| ==> after.expenses[i].day != date)
  }

  lemma ClosedMeansShut(t: Tables, k: nat)
    requires OneRowPerDate(t.drawers) && ClosedRow(t, k)
    ensures ShutOn(t.drawers, t.drawers[k].date)
  {
  }

  lemma RingUpKeepsClosed(t: Tables, today: Date, client: Option<int>, user: int, payment: Payment, lines: seq<Line>,
                          appointment: Option<int>, k: nat)
    requires OneRowPerDate(t.drawers) && ClosedRow(t, k)
    ensures var after := RingUp(t, today, client, user, payment, lines, appointment).tables;
      && ClosedRow(after, k) && after.drawers[k] == t.drawers[k]
      && NothingNewOn(t, after, t.drawers[k].date)
  {
  }

  lemma CompletionKeepsClosed(t: Tables, today: Date, appointment: int, status: AppointmentStatus, user: int, k: nat)
    requires OneRowPerDate(t.drawers) && ClosedRow(t, k)
    ensures var after := ChangeStatus(t, today, appointment, status, user).tables;
      && ClosedRow(after, k) && after.drawers[k] == t.drawers[k]
      && NothingNewOn(t, after, t.drawers[k].date)
  {
    hide RingUp;
    if Exists(appointment, t.appointments) {
      var changed := StatusSet(t, appointment, status);
      var apt := changed.appointments[appointment - 1];
      if Exists(apt.service, changed.services) {
        var line := Line(ServiceItem, apt.service, Some(apt.staff), 1, changed.services[apt.service - 1].price);
        RingUpKeepsClosed(changed, today, Some(apt.client), Recorder(user), Cash, [line], Some(appointment), k);
      }
    }
  }

  lemma StepKeepsClosed(t: Tables, call: Call, k: nat)
    requires OneRowPerDate(t.drawers) && ClosedRow(t, k)
    ensures ClosedRow(Step(t, call), k) && Step(t, call).drawers[k] == t.drawers[k]
    ensures NothingNewOn(t, Step(t, call), t.drawers[k].date)
  {
    hide RingUp, ChangeStatus, Reserve, Enroll, Amend;
    OtherTablesStay(t, call);
    StepGrows(t, call);
    match call.request
    case Checkout(client, payment, lines) =>
      RingUpKeepsClosed(t, call.today, client, call.user, payment, lines, None, k);
    case SetStatus(appointment, status) =>
      CompletionKeepsClosed(t, call.today, appointment, status, call.user, k);
    case LogExpense(category, amount, day) =>
      ClosedMeansShut(t, k);
    case _ =>
  }

  /**
   * Whatever is called after the close, and whatever date the clock shows then: the row keeps its columns and
   * counted balance, and no invoice or expense of its date is ever committed.
   */
  lemma {:induction false} ClosedForGood(t: Tables, calls: seq<Call>, k: nat)
    requires BooksBalance(t) && ClosedRow(t, k)
    ensures ClosedRow(Run(t, calls), k) && Run(t, calls).drawers[k] == t.drawers[k]
    ensures NothingNewOn(t, Run(t, calls), t.drawers[k].date)
    decreases |calls|
  {
    if calls != [] {
      var next := Step(t, calls[0]);
      StepKeepsBalance(t, calls[0]);
      StepKeepsClosed(t, calls[0], k);
      ClosedForGood(next, calls[1..], k);
      var last := Run(next, calls[1..]);
      forall i | |t.invoices| <= i < |last.invoices|
        ensures last.invoices[i].day != t.drawers[k].date
      {
        assert i < |next.invoices| ==> last.invoices[i] == next.invoices[i];
      }
      forall i | |t.expenses| <= i < |last.expenses|
        ensures last.expenses[i].day != t.drawers[k].date
      {
        assert i < |next.expenses| ==> last.expenses[i] == next.expenses[i];
      }
    }
  }

  /**
   * Closing answers success also when there was no open row to close. It closes the day's row exactly when
   * the day has an open one and the closing user is known; then the counted balance is what stays.
   */
  lemma CloseIsEffectiveIff(t: Tables, day: Date, counted: Money, user: int)
    requires OneRowPerDate(t.drawers)
    ensures var closed := CloseDay(t, day, counted, user);
      && (closed.tables != t <==> Find(t.drawers, OpenOn(day)).Some? && Exists(user, t.users))
      && (closed.tables != t ==>
            var k := Find(t.drawers, OpenOn(day)).value;
            && closed.tables == t.(drawers := closed.tables.drawers)
            && closed.tables.drawers == t.drawers[k := t.drawers[k].(
                 closing := counted, status := Closed, closedBy := Some(user))]
            && ClosedRow(closed.tables, k) && t.drawers[k].date == day && t.drawers[k].status.Open?)
      && (closed.reply.Ok? <==> Find(t.drawers, OpenOn(day)).None? || Exists(user, t.users))
  {
  }

  // ----- Which request closes a row

  /** A row is signed by whoever closed it, and not before. */
  predicate Signed(row: Drawer) {
    row.status == Open <==> row.closedBy == None
  }

  predicate AllSigned(drawers: seq<Drawer>) {
    forall k :: 0 <= k < |drawers| ==> Signed(drawers[k])
  }

  /** The call closes the row `k`: it names the row's date, its user is known, and the row is open. */
  predicate Closes(t: Tables, call: Call, k: nat) {
    && call.request.CloseDrawer?
    && k < |t.drawers| && t.drawers[k].status == Open && t.drawers[k].date == call.request.day
    && 1 <= call.user <= |t.users|
  }

  /** A row that is new, or was open, is open and not signed. */
  predicate StaysOpen(before: seq<Drawer>, after: seq<Drawer>, k: nat) {
    k < |after| && (k < |before| ==> before[k].status == Open) ==> after[k].status == Open && after[k].closedBy == None
  }

  lemma RingUpLeavesOpen(t: Tables, today: Date, client: Option<int>, user: int, payment: Payment, lines: seq<Line>,
                         appointment: Option<int>, k: nat)
    requires AllSigned(t.drawers)
    ensures var after := RingUp(t, today, client, user, payment, lines, appointment).tables;
      |t.drawers| <= |after.drawers| && StaysOpen(t.drawers, after.drawers, k)
  {
    hide AfterSale, ItemRows, UpdateKey, Sum, InvoiceReferences, StylistsKnown;
    assert k < |t.drawers| ==> Signed(t.drawers[k]);
  }

  lemma CompletionLeavesOpen(t: Tables, today: Date, appointment: int, status: AppointmentStatus, user: int, k: nat)
    requires AllSigned(t.drawers)
    ensures var after := ChangeStatus(t, today, appointment, status, user).tables;
      |t.drawers| <= |after.drawers| && StaysOpen(t.drawers, after.drawers, k)
  {
    hide RingUp;
    assert k < |t.drawers| ==> Signed(t.drawers[k]);
    if Exists(appointment, t.appointments) {
      var changed := StatusSet(t, appointment, status);
      var apt := changed.appointments[appointment - 1];
      if Exists(apt.service, changed.services) {
        var line := Line(ServiceItem, apt.service, Some(apt.staff), 1, changed.services[apt.service - 1].price);
        RingUpLeavesOpen(changed, today, Some(apt.client), Recorder(user), Cash, [line], Some(appointment), k);
      }
    }
  }

  /** Only a close closes: whatever else is requested, rows that are new or were open are open. */
  lemma OnlyCloseCloses(t: Tables, call: Call, k: nat)
    requires AllSigned(t.drawers) && !call.request.CloseDrawer?
    ensures StaysOpen(t.drawers, Step(t, call).drawers, k)
  {
    hide RingUp, ChangeStatus, FindOrCreate, Reserve, Enroll, Amend;
    OtherTablesStay(t, call);
    assert k < |t.drawers| ==> Signed(t.drawers[k]);
    match call.request
    case Checkout(client, payment, lines) =>
      RingUpLeavesOpen(t, call.today, client, call.user, payment, lines, None, k);
    case SetStatus(appointment, status) =>
      CompletionLeavesOpen(t, call.today, appointment, status, call.user, k);
    case _ =>
  }

  /** A close closes its own row only, with the counted balance and the caller's name. */
  lemma CloseClosesItsRow(t: Tables, call: Call, k: nat)
    requires call.request.CloseDrawer? && k < |t.drawers|
    ensures |Step(t, call).drawers| == |t.drawers|
    ensures Step(t, call).drawers[k] ==
      if Closes(t, call, k)
      then t.drawers[k].(closing := call.request.counted, status := Closed, closedBy := Some(call.user))
      else t.drawers[k]
  {
    if Find(t.drawers, OpenOn(call.request.day)).None? {
      assert !OpenOn(call.request.day)(t.drawers[k]);
    }
  }

  lemma StepKeepsSigned(t: Tables, call: Call)
    requires AllSigned(t.drawers) && OneRowPerDate(t.drawers)
    ensures AllSigned(Step(t, call).drawers)
  {
    hide Step, OneRowPerDate;
    var after := Step(t, call).drawers;
    StepGrows(t, call);
    forall k | 0 <= k < |after|
      ensures Signed(after[k])
    {
      if call.request.CloseDrawer? {
        CloseKeepsLength(t, call);
        CloseClosesItsRow(t, call, k);
        assert Signed(t.drawers[k]);
      } else if ClosedRow(t, k) {
        StepKeepsClosed(t, call, k);
        assert Signed(t.drawers[k]);
      } else {
        OnlyCloseCloses(t, call, k);
      }
    }
  }

  lemma CloseKeepsLength(t: Tables, call: Call)
    requires call.request.CloseDrawer?
    ensures |Step(t, call).drawers| == |t.drawers|
  {
  }

  // ----- Runs: the last word on a row's closing

  /** The balance and the name that a closed row carries. */
  function ClosingOf(k: nat): Tables -> Option<(Money, Option<int>)> {
    (t: Tables) => if ClosedRow(t, k) then Some((t.drawers[k].closing, t.drawers[k].closedBy)) else None
  }

  function SetsClosing(k: nat): (Tables, Call) -> Option<(Money, Option<int>)> {
    (t: Tables, call: Call) => if Closes(t, call, k) then Some((call.request.counted, Some(call.user))) else None
  }

  function BooksInOrder(): Tables -> bool {
    (t: Tables) => BooksBalance(t) && AllSigned(t.drawers)
  }

  lemma StepSetsClosing(t: Tables, call: Call, k: nat)
    requires AllSigned(t.drawers) && OneRowPerDate(t.drawers)
    ensures ClosingOf(k)(Step(t, call)) ==
      if SetsClosing(k)(t, call).Some? then SetsClosing(k)(t, call) else ClosingOf(k)(t)
  {
    hide Step, OneRowPerDate;
    if ClosedRow(t, k) {
      StepKeepsClosed(t, call, k);
    } else if call.request.CloseDrawer? {
      CloseKeepsLength(t, call);
      if k < |t.drawers| {
        CloseClosesItsRow(t, call, k);
      }
    } else {
      OnlyCloseCloses(t, call, k);
    }
  }

  /**
   * Over every run the closings are the work of `CloseDrawer` alone: a row is closed exactly if it was at the start or
   * a close of its date, by a known user, came while it was open, and it carries that call's balance and user.
   */
  lemma ClosedOnlyByClose(t: Tables, calls: seq<Call>, k: nat)
    requires BooksBalance(t) && AllSigned(t.drawers)
    ensures LastWord(t, calls, SetsClosing(k), ClosingOf(k)(t), ClosingOf(k)(Run(t, calls)))
    ensures AllSigned(Run(t, calls).drawers)
    ensures ClosedRow(Run(t, calls), k) <==>
      ClosedRow(t, k) || exists j :: 0 <= j < |calls| && Closes(Before(t, calls, j), calls[j], k)
  {
    hide Step, Run, BooksBalance, Closes, Before;
    forall before: Tables, call: Call | BooksInOrder()(before)
      ensures BooksInOrder()(Step(before, call))
      ensures ClosingOf(k)(Step(before, call)) ==
        if SetsClosing(k)(before, call).Some? then SetsClosing(k)(before, call) else ClosingOf(k)(before)
    {
      BalanceIsOneRow(before);
      StepKeepsBalance(before, call);
      StepKeepsSigned(before, call);
      StepSetsClosing(before, call, k);
    }
    ColumnHoldsLastWord(t, calls, BooksInOrder(), ClosingOf(k), SetsClosing(k));
    assert forall j :: 0 <= j < |calls| ==>
      (Said(t, calls, SetsClosing(k), j).Some? <==> Closes(Before(t, calls, j), calls[j], k));
  }

  lemma BalanceIsOneRow(t: Tables)
    requires BooksBalance(t)
    ensures OneRowPerDate(t.drawers)
  {
  }
}
