# A verified model of the salon management system

The project models the parts of Hair-Saloon-Management-System that keep books, and proves what they keep. It has
three cores.

**The salon ledger** (`api/models`, `api/controllers`, `api/core/Database.php`).
`Schema.dfy` holds the tables and the seed. `Database.dfy` is the connection: a class whose fields are the tables
and whose methods run the statements of the PHP methods in order, with the same loops, the same transactions and the
same rollback. A statement that throws returns its error at once, and the `catch` is the caller that rolls back.
`Ledger.dfy` says what each request does to the tables as a function, `Respond`; every method of the class is proved
equal to its function, and `Database.Handle`, the front controller, to `Respond`. The theorems are about `Run`, the
tables after any sequence of requests. Each request carries the date that the clock shows and the user id of its
token, and nothing is assumed about either.

- `CashBook.dfy`, `ClosedDays.dfy`: drawer rows against invoices and expenses; what closing freezes.
- `Sales.dfy`, `GrandTotals.dfy`: invoice totals, client spending, last visits, stock; the money as a whole.
- `Commissions.dfy`: what a commission is, the commission report and the payouts.
- `Completion.dfy`: the two commits of completing an appointment.
- `Bookings.dfy`, `Clock.dfy`: the conflict check on `H:i:s` texts, and double booking.
- `Accounts.dfy`, `Clients.dfy`, `References.dfy`, `Frames.dfy`: users and staff rows; who a booking is for; foreign
  keys; what a request leaves alone.
- `Answers.dfy`: which requests are accepted, why the others are refused, and the keys they are answered with.
- `Histories.dfy`, `Records.dfy`: the last word on services, users, staff and appointments over a run.
- `Runs.dfy`: everything together, from the seed.
- `Cart.dfy`: the cart of `js/app.js`, up to the invoice that submitting it makes.

**The embedded runtime** (`mobile/canvaskit/canvaskit.js`). `Codec.dfy` models the UTF-16 to UTF-8 length counter
`qa`, the bounded encoder `ra` and the hand-written decoder `db` with their bit operations; `Flattening.dfy` has the
part that does not depend on the code. `StdStrings.dfy` is how a std::string crosses the boundary with them.
`Handles.dfy` models the reference-counted handle table.

**The token code** (`api/core/JWT.php`). `Base64Url.dfy` and `Jwt.dfy`.

Some properties that one would expect fail in corner cases. The model keeps the code as it is, shows each failure on
concrete data, and proves exactly when the property holds:

- The digital column of a drawer misses a sale exactly when it is the first of its day, is paid by something other
  than 'cash' and 'digital', and is not of amount 0 (`StepKeepsDigitalIff`, `ChequeIsDropped`).
- Bookings of one stylist can overlap exactly through midnight, in one of the ways that `Unseen` lists by the dates and
  times of the row and the slot, or through a cancelled appointment brought back into a taken slot
  (`BookingKeepsApartIff`, `StatusKeepsApartIff`). Each way is shown by a run of a new database
  (`MidnightDoubleBooking`, `LateSlotDoubleBooking`, `NextDayDoubleBooking`, `RevivedDoubleBooking`), and
  `NeverDoubleBookedIff` says which runs are free of them.
- A product's stock differs from first quantity plus restocks less sales exactly when carts had named its id before it
  was added (`AddedProductAddsUpIff`, `SoldBeforeAdded`).
- A string comes back from the heap exactly when its surrogates are paired, it has no NUL, and it is not a text of more
  than 16 bytes from which a native decoder takes a byte order mark (`WriteAndRead`, `MarkAndEuros`). As a std::string
  it keeps its NULs (`WriteAndReadStd`).
- The handle table survives counting a handle exactly when the handle is in use (`OnlyLiveHandlesMayBeCounted`,
  `FreedTwiceSharedTwice`).

Where the code and its comments disagree, the code is modelled: `payment_method` is any text, although the schema
comments list two; quantities sold are whole, although the schema comment on stock speaks of fractions; closing a
drawer always reports success, although the controller has a message for a drawer that is already closed; and when
invoicing a completed appointment fails, the error that reaches the client is that of a second rollback without a
transaction.

## Model

| member | source | states |
|---|---|---|
| Runs.EveryReachableState | api/core/Database.php:35-202 | After any run from the seed: foreign keys, drawer books, invoice totals, last visits, one invoice per appointment and accounts are in order; every client's spending and every seeded product's stock is accounted for; with no dropped payment the digital column agrees; with orderly bookings nobody is double booked |
| Runs.RunKeepsSound | api/models/Invoice.php:6-157 | The conjunction of all unconditional invariants survives every run from any state that has it |
| Runs.SeedIsSound | api/core/Database.php:164-201 | The seeded tables satisfy every invariant, the conditional ones included |
| GrandTotals.MoneyIsConserved | api/models/Invoice.php:90-149 | In every reachable state clients together have spent 1060 more than the invoices naming a client; all drawers together took in what all invoices billed, if no payment was dropped |
| GrandTotals.DrawersTookInWhatWasBilled | api/models/Invoice.php:105-149 | Summed over all rows, cash plus digital equals the total of all invoices, because each invoice falls on exactly one row |
| References.RunKeepsIntact | api/core/Database.php:38-157 | Every foreign key holds in every state of every run |
| Frames.RunGrows | api/core/Database.php:104-140 | No run removes a row, and invoices, items and expenses are only appended to |
| Answers.AnswerIsRight | api/index.php:43-200 | Every request is accepted or refused for exactly the reason that the rows before it give, in the order in which the code looks; an accepted one is answered with the key of its new row, a refused one changes nothing (a booking may leave its client row; a completion keeps its status) |
| Answers.CheckoutAcceptedIff | api/models/Invoice.php:6-157 | A checkout is accepted if and only if it has lines and a method, its client, user and stylists exist and the day has an open row or none; the answer is the new invoice's key |
| Histories.ColumnHoldsLastWord | api/index.php:43-200 | What each request sets or leaves alone is, after any run, what the last request that set it said |
| Records.ServiceIsAsLastSet | api/models/Service.php:11-42 | A service has the duration and price of the last valid request that named it |
| Records.ContactIsAsGiven | api/models/Client.php:11-30 | A client has for good the name, email and phone of the request that made the row: a registration, or a booking whose email and phone no client had |
| Records.UserIsAsLastSet | api/models/User.php:18-150 | A user has the name, username, rate and type of the last accepted registration or update, the password hash of the last that carried a password, and the role of the registration |
| Records.StaffIsAsLastSet | api/models/User.php:18-150 | A staff row keeps its user, has the name and specializations last accepted for that user, and the availability given by the last status of one of its appointments or by the user's own choice |
| Records.StatusIsAsLastSet | api/models/Appointment.php:113-138 | An appointment has the status of the last request that named it, all four alike, and is upcoming before |
| Records.RunLeaves | api/core/Database.php:38-157 | No run changes an appointment but for its status, a client but for spending and last visit, or the date and opening of a drawer row |
| CashBook.RunKeepsBalance | api/models/Invoice.php:105-149 | Over every run: one row per date; cash and expense columns equal the sums over the date's invoices and expenses; an open row closes with opening plus cash less expenses; nothing is logged on a date without a row |
| CashBook.RunKeepsDigitalIff | api/models/Invoice.php:105-149 | Every row's digital column is the sum of the date's non-cash invoices in every state of a run if and only if no request of the run drops a payment |
| CashBook.StepKeepsDigitalIff | api/models/Invoice.php:105-149 | A request keeps the digital column right if and only if it is not a valid checkout on a day without a row, by another method than cash and digital, over a nonzero total; all of this can be seen before the request |
| CashBook.KnownMethodsRecord | js/app.js:749-772 | Runs that only pay by cash or digitally contain no such sale |
| CashBook.ChequeIsDropped | api/models/Invoice.php:132-147 | A cheque of 50 on a day without a row is invoiced and recorded nowhere in the drawer |
| CashBook.DashboardShowsTheDrawer | api/controllers/AppointmentController.php:26-33 | The dashboard's revenue of a date is the cash plus digital takings of the date's drawer, or 0 without one |
| ClosedDays.ClosedForGood | api/models/Invoice.php:107-149 | Once a row is closed, no later request on any date changes it or commits an invoice or expense of its date |
| ClosedDays.ClosedOnlyByClose | api/models/Reconciliation.php:16-51 | Over every run a row is closed if and only if it was at the start or a close of its date by a known user came while it was open; it carries that call's balance and user, and an open row carries no user |
| ClosedDays.OnlyCloseCloses | api/models/Invoice.php:132-147 | After any other request, rows that are new or were open are open and unsigned |
| ClosedDays.CloseIsEffectiveIff | api/models/Reconciliation.php:37-51 | Closing changes the tables if and only if the day has an open row and the user is known; then that one row, to the counted balance and the closing user |
| Sales.RunKeepsTotals | api/models/Invoice.php:9-77 | Over every run each invoice's total is the sum of price times quantity over its own stored items |
| Sales.RunKeepsCarried | api/models/Invoice.php:90-103 | Over every run `total_spent` moves exactly with the invoices naming the client, from any start; a client added later starts from 0 |
| Sales.RunKeepsVisits | api/models/Invoice.php:91-102 | Over every run `last_visit` is the day of the last invoice naming the client, once there is one |
| Sales.EveryItemEarned | api/models/Invoice.php:39-77 | Over every run each item sold carries the commission by the rates in force at its sale: the share of its amount, the rate per unit, or nothing without a stylist or user |
| Sales.RunMovesReceived | api/models/Invoice.php:79-87 | Over every run a product's stock is what it was plus restocks less all quantities sold in committed invoices |
| Sales.AddedProductAddsUpIff | api/core/Database.php:118-129 | A product added in a run adds up if and only if earlier sales under its id cancel out, since item ids have no foreign key |
| Sales.SoldBeforeAdded | api/models/Invoice.php:79-87 | Three units sold before the product exists: they are never taken from its stock of ten |
| Bookings.NeverDoubleBookedIff | api/models/Appointment.php:52-127 | In every state of a run nobody is double booked and every booking has its true times if and only if every request was orderly when it came: no accepted booking longer than a day or with a row hidden from the check, no revival into a taken slot |
| Bookings.StepKeepsApartIff | api/models/Appointment.php:52-127 | The same for one request, from any table that is apart |
| Bookings.PlainRunIsOrderly | api/models/Appointment.php:52-127 | Runs that book nothing past midnight and revive nothing are orderly, if different dates are different days |
| Bookings.NoDoubleBookingIff | api/models/Appointment.php:69-73 | Rows are apart if and only if no moment, on any date, belongs to two non-cancelled appointments of one stylist |
| Bookings.BookingAcceptedIff | api/models/Appointment.php:55-106 | A booking is accepted if and only if service, client and stylist are known and every row in its way is one the check cannot see; it adds one row |
| Bookings.BookingKeepsApartIff | api/models/Appointment.php:64-106 | An accepted booking of any length takes a moment that is already taken if and only if some row is hidden from the check; if it lasts at most a day, the rows after it are apart if and only if none is |
| Bookings.StatusKeepsApartIff | api/models/Appointment.php:125-127 | A status change keeps rows apart if and only if it does not bring a cancelled appointment back onto another one of its stylist |
| Bookings.CheckIsExact | api/models/Appointment.php:69-87 | Over any table, for any slot, the check refuses if and only if some row is in the way of the slot and can be seen |
| Bookings.CheckOfRow | api/models/Appointment.php:64-87 | Against any row, the check never finds one that is not in the way of the slot, and misses one that is if and only if it cannot see it: another date, a row past midnight, or a slot past midnight, each with the comparison that fails |
| Bookings.InTheWayIff | api/models/Appointment.php:55-66 | Being in the way of a slot is taking one of its moments from the same stylist |
| Bookings.TrueEndStoredIff | api/models/Appointment.php:64-66 | The stored times are the true ones if and only if the service lasts at most a day |
| Bookings.MidnightDoubleBooking | api/models/Appointment.php:64-73 | From the seed: 23:30 for an hour, then 23:45; both are accepted and overlap |
| Bookings.LateSlotDoubleBooking | api/models/Appointment.php:64-73 | From the seed, all rows ending on their day: 23:45 for ten minutes, then 23:30 for an hour; both are accepted and overlap |
| Bookings.NextDayDoubleBooking | api/models/Appointment.php:69-73 | From the seed: 23:30 for an hour, then midnight of the next date; both are accepted and overlap |
| Bookings.RevivedDoubleBooking | api/models/Appointment.php:113-127 | From the seed: booked, cancelled, booked again, revived; two appointments at once |
| Clients.BookingIsForCaller | api/models/Client.php:11-30 | A complete booking request finds the first client with that nonblank email or phone, or adds one row with exactly the data given, nothing spent and no visit; an accepted booking is for that client |
| Clients.ClientFoundOrAdded | api/models/Client.php:11-30 | The same of `findOrCreate` alone, which changes no other table |
| Clock.TextOrderIsTimeOrder | api/models/Appointment.php:64-73 | Comparing `H:i:s` texts byte by byte is comparing seconds of the day |
| Completion.CompletedIffInvoiced | api/models/Appointment.php:113-153 | Completing always commits the status; it succeeds if and only if the appointment was invoiced before or the day is not shut and the user known; success leaves exactly one invoice, failure none and all books as they were |
| Completion.CompletionInvoice | api/models/Invoice.php:166-193 | A completion that invoices adds one invoice, today's, in cash, at the service's current price, for the client, by the recording user; and one item, one unit of that service by the appointment's stylist, with what it earns the stylist |
| Completion.RunKeepsAtMostOne | api/models/Invoice.php:159-164 | Over every run no two invoices name the same appointment |
| Completion.CompletingTwice | api/models/Invoice.php:160-164 | Completing again after any requests in between succeeds and changes no invoice, item, client, stock or drawer |
| Completion.RetryAfterClosedDay | api/models/Appointment.php:140-151 | On a closed day the appointment is completed and not invoiced; a later retry on a day not shut leaves exactly one invoice |
| Commissions.CommissionIsTheShare | api/models/Invoice.php:39-62 | The commissions on a cart served by one stylist add up to the rate's share of the invoice total, or the rate per unit sold |
| Commissions.NewRateCountsFromNow | api/models/User.php:76-141 | In any run after a change of a stylist's rate and type, up to the next change for that user, every item the stylist sells earns at the new rate; items stored before stay as they were, and no other profile changes |
| Commissions.ReportIsComplete | api/models/Invoice.php:206-216 | The report summed over all staff equals the commissions of all items with a stylist |
| Commissions.ReportRows | api/models/Invoice.php:206-216 | The report has one row per member of staff, in order of keys, with the name and the sum of the commissions of the member's items |
| Commissions.JoinsKeepRows | api/models/Invoice.php:218-232 | The five-table join yields an item once if its stylist is tied to the user, and never otherwise |
| Commissions.PayoutsMatchReport | api/models/Invoice.php:218-232 | A user's payouts total the report rows of the staff tied to the user |
| Commissions.PayoutIsOneReportRow | api/models/Invoice.php:206-232 | For a registered stylist that is one row of the report |
| Commissions.GetStylistPayouts | api/controllers/POSController.php:44-58 | The loop's total is what the report shows for the user's staff rows |
| Accounts.RunKeepsAccounts | api/models/User.php:18-150 | Over every run usernames are unique, every stylist user has exactly one staff row, no two rows share a user, and every tied row is a stylist's |
| Accounts.UpdateRefusedIff | api/models/User.php:76-150 | An update is refused if and only if another user has the name, and then changes nothing; a blank password keeps the old one |
| Clients.ReturningClientIff | api/models/Client.php:21-30 | The same contact data finds the same client again if and only if email or phone is nonblank; otherwise every booking makes a new client |
| SalonDatabase.Database.constructor | api/core/Database.php:35-202 | A new database holds the seed and no transaction |
| SalonDatabase.Database.RollBack | api/models/Invoice.php:153-156 | Restores the tables as they were when the transaction began; without one it fails and changes nothing |
| SalonDatabase.Database.CreateCheckout | api/models/Invoice.php:6-157 | The whole checkout equals `RingUp`, and any failure leaves every table as it was before |
| SalonDatabase.Database.CheckoutStatements | api/models/Invoice.php:8-152 | The `try` block: when the closed day is found out, invoice, items, stock and client have all been written already |
| SalonDatabase.Database.RingDrawer | api/models/Invoice.php:105-149 | The drawer write is refused exactly when the day has a row but no open one |
| SalonDatabase.Database.AddItems | api/models/Invoice.php:31-88 | The second loop: all item rows with their commissions, and each product down by all that the cart takes of it, or a failure exactly when some stylist is unknown |
| SalonDatabase.Database.CreateFromCompletedAppointment | api/models/Invoice.php:159-193 | Equals `AutoInvoice`: nothing if already invoiced, else a cash checkout of one unit |
| SalonDatabase.Database.UpdateStatus | api/models/Appointment.php:113-153 | Equals `ChangeStatus`: the status is committed before invoicing is tried, and survives its failure |
| SalonDatabase.Database.CreateAppointment | api/models/Appointment.php:52-111 | Equals `Reserve`; a refused booking changes nothing |
| SalonDatabase.Database.SlotIsTaken | api/models/Appointment.php:69-87 | The text query finds a conflict exactly when the comparison by seconds does |
| SalonDatabase.Database.FindOrCreateClient | api/models/Client.php:21-30 | Equals `FindOrCreate` |
| SalonDatabase.Database.CreateExpense | api/models/Expense.php:16-69 | Equals `Spend`; a refused expense changes nothing |
| SalonDatabase.Database.GetTodayStatus | api/models/Reconciliation.php:16-35 | Opens the day's row if there is none, and returns the day's row |
| SalonDatabase.Database.CloseDrawer | api/models/Reconciliation.php:37-51 | Equals `CloseDay`, which succeeds also when it closes nothing |
| SalonDatabase.Database.RegisterUser | api/models/User.php:18-63 | Equals `Enroll` |
| SalonDatabase.Database.UpdateStaffDetails | api/models/User.php:76-150 | Equals `Amend` |
| SalonDatabase.Database.Handle | api/index.php:43-200 | Every request, with the checks of its controller, equals `Respond`, so every run of the class is a `Run` |
| Cart.CartPage.AddCartItem | js/app.js:774-789 | Equals `Add`: one more of the first matching line, or a new line with the first stylist |
| Cart.CartPage.RemoveCartItem | js/app.js:791-794 | For every index, from the end for negative ones: that line goes, those behind move up, beyond the end nothing happens; distinct lines stay distinct, and the quantities lose that one item only |
| Cart.CartPage.ChangeCartStylist | js/app.js:796-798 | Sets one line's stylist, or throws and changes nothing |
| Cart.CartPage.ChangeCartQty | js/app.js:800-807 | Equals `ChangeQuantity`, or throws and changes nothing |
| Cart.CartPage.DisplayedTotal | js/app.js:821-823 | The rendering loop shows the sum over the lines |
| Cart.AddCounts | js/app.js:774-789 | Adding raises the quantity of one item by one, from zero if absent, and of no other |
| Cart.AddLines | js/app.js:774-789 | Line by line: an item without a line gets a last line with its price, quantity 1 and the first stylist; otherwise only the quantity of its first line rises by one |
| Cart.ChangeCounts | js/app.js:800-807 | Changing a quantity sets that item's, and removes the item if not positive |
| Cart.ChangeLines | js/app.js:800-807 | Line by line: a positive quantity is all that changes, in one line; any other takes the line out |
| Cart.EditsKeepValid | js/app.js:774-807 | Over every run of edits lines are pairwise distinct with quantity at least 1 |
| Cart.PricesAreThoseAdded | js/app.js:774-807 | Over every run of edits each line has the price of the `addCartItem` that made it |
| Cart.TotalIsAsked | js/app.js:774-823 | The displayed total is, item by item, the price the item was added at times its quantity |
| Cart.SubmittedTotalIsDisplayed | js/app.js:852-866 | For a cart that any run of edits made, the server's invoice carries exactly the displayed total, with one item row per line in order, and each product loses exactly the cart's quantity of it |
| Codec.WriteAndRead | mobile/canvaskit/canvaskit.js:95-116 | Count, write into `qa + 1` bytes, read back: the same string if and only if it is paired, without NUL, and not a text above 16 bytes with a leading byte order mark read by a native decoder |
| Codec.WriteAndReadWindow | mobile/canvaskit/canvaskit.js:95-116 | Written into any window and read back, the longest prefix of whole characters that fits comes back, up to a NUL and but for such a mark |
| Codec.ComesBackIff | mobile/canvaskit/canvaskit.js:95 | Those are the whole string if and only if its surrogates are paired, it has no NUL and it does not lose a mark |
| Codec.MarkAndEuros | mobile/canvaskit/canvaskit.js:95 | A mark and five euro signs lose the mark |
| Codec.UnitsComeBackIff | mobile/canvaskit/canvaskit.js:95 | For the hand-written decoder: if and only if its surrogates are paired and it has no NUL |
| Codec.ReadsBack | mobile/canvaskit/canvaskit.js:95 | Where a string stands that ends by a NUL, by the limit or by the end of the array, its characters up to the first NUL are read back, by either decoder, but for a byte order mark that a native decoder takes off a long text |
| Codec.CountedReadsBack | mobile/canvaskit/canvaskit.js:95 | Characters without NUL are read back by their byte count, whatever byte follows |
| Codec.CountBytes | mobile/canvaskit/canvaskit.js:116 | `qa` counts exactly the bytes of the encoding, lone surrogates included |
| Codec.WriteString | mobile/canvaskit/canvaskit.js:115-116 | `ra`: without room nothing; else the longest prefix of whole characters that fits, then NUL, and not a byte outside the window; what lies beyond the end of the heap is lost |
| Codec.WriteChar | mobile/canvaskit/canvaskit.js:115-116 | Writes the RFC 3629 bytes of one character, or none if they do not all fit |
| Flattening.FitIsLongest | mobile/canvaskit/canvaskit.js:115-116 | A number of leading characters fits if and only if it is at most the number written |
| Codec.ReadString | mobile/canvaskit/canvaskit.js:95 | `db`: scans to NUL, end of array or limit; decodes what precedes, reading past the end where it does, or passes more than 16 bytes to a native decoder if there is one |
| Codec.ScanStopsFirst | mobile/canvaskit/canvaskit.js:95 | The scan of `db` stops at the first NUL, at the limit that the byte count sets, or at the end of the array, whichever comes first |
| Codec.DecodeOne | mobile/canvaskit/canvaskit.js:95 | One pass of the decoder undoes one encoded character and consumes exactly its bytes |
| Codec.MalformedExamples | mobile/canvaskit/canvaskit.js:95 | What the decoder makes of an overlong form, a lone surrogate, a cut sequence and a stray byte |
| Codec.SurrogateExamples | mobile/canvaskit/canvaskit.js:115 | A pair of surrogates is its character; a lone one swallows ten bits of what follows |
| Codec.Rfc3629Examples | mobile/canvaskit/canvaskit.js:115-116 | The bytes of the examples of RFC 3629, section 7 |
| StdStrings.WriteAndReadStd | mobile/canvaskit/canvaskit.js:147 | A string passed to a std::string and back is the same, NULs included, if and only if its surrogates are paired and a native decoder takes a mark off none of its pieces |
| StdStrings.StdReadsBack | mobile/canvaskit/canvaskit.js:147 | Reading an encoding by its length gives the pieces between the NULs, each as `db` reads it, with the NULs between them |
| StdStrings.StdComesBackIff | mobile/canvaskit/canvaskit.js:147 | Those are the whole string under exactly that condition |
| StdStrings.FromWire | mobile/canvaskit/canvaskit.js:146-147 | The loop over the bytes reads every piece once, the last by its count alone |
| StdStrings.ToWire | mobile/canvaskit/canvaskit.js:147 | Writes all bytes of the string and a NUL behind the length word, and nothing else |
| Handles.RunStaysInStep | mobile/canvaskit/canvaskit.js:112-151 | Over every run in which clients use only handles they hold, the table agrees with the clients' own books: same handles, values and counts, and the reported count is their number |
| Handles.HeldValueStays | mobile/canvaskit/canvaskit.js:112 | Over every disciplined run in which somebody always holds a reference to a handle, its value stays, in the clients' books and in the table |
| Handles.HandleTable.ToHandle | mobile/canvaskit/canvaskit.js:112 | `Ob` equals `Acquire`: a popped handle is never taken for an empty list |
| Handles.HandleTable.ToValue | mobile/canvaskit/canvaskit.js:112 | `mc` returns the value a handle stands for, and fails for 0 |
| Handles.HandleTable.Decref | mobile/canvaskit/canvaskit.js:112 | `lc` equals `Release` |
| Handles.HandleTable.Incref | mobile/canvaskit/canvaskit.js:151 | `H` equals `Retain` |
| Handles.HandleTable.CountHandles | mobile/canvaskit/canvaskit.js:137 | The reported count is the number of dynamic handles in use |
| Handles.AcquireIsFresh | mobile/canvaskit/canvaskit.js:112 | A new value gets a handle above 9 that nobody holds, with count 1, and no other handle changes |
| Handles.RetainCounts | mobile/canvaskit/canvaskit.js:151 | Counting up changes one count only |
| Handles.ReleaseCounts | mobile/canvaskit/canvaskit.js:112 | Counting down changes one count only, and frees the handle with the last reference |
| Handles.FreedIsGivenNext | mobile/canvaskit/canvaskit.js:112 | The handle freed last is given out next, and the table is otherwise as it was before the release |
| Handles.OnlyLiveHandlesMayBeCounted | mobile/canvaskit/canvaskit.js:112-151 | Counting a handle keeps the table well formed if and only if the handle is in use |
| Handles.FreedTwiceSharedTwice | mobile/canvaskit/canvaskit.js:112-151 | A freed handle counted up and down again is later given to two values at once |
| Base64Url.DecodeInvertsEncode | api/core/JWT.php:7-17 | Base64 decoding undoes encoding for every byte string |
| Base64Url.PaddingRestored | api/core/JWT.php:7-16 | The url form holds only letters, digits, '-' and '_'; its length is never 1 modulo 4; the padding added restores exactly what was stripped |
| Base64Url.UrlRoundTrip | api/core/JWT.php:7-17 | `base64UrlDecode` undoes `base64UrlEncode` for every byte string |
| Base64Url.OthersPassedOver | api/core/JWT.php:11-17 | The decoder passes over a character outside the alphabet wherever it stands |
| Base64Url.BytesFilled | api/core/JWT.php:11-17 | A decoded text has as many bytes as its sextets fill |
| Base64Url.Rfc4648Alphabet | api/core/JWT.php:8 | The ends of the ranges of RFC 4648's alphabet |
| Base64Url.Rfc4648Example | api/core/JWT.php:8 | The example "foo" of RFC 4648, section 10, and its prefixes |
| Jwt.ExplodeInverse | api/core/JWT.php:33 | Splitting at dots loses nothing and leaves no dot in a part |
| Jwt.TokenHasThreeParts | api/core/JWT.php:19-36 | A token splits back into exactly its three texts |
| Jwt.TokenRoundTrip | api/core/JWT.php:19-54 | For any hash and any invertible JSON codec a token decodes to its payload with the expiry while the clock has not passed it, and to null after |
| Jwt.AcceptedIff | api/core/JWT.php:32-54 | A token decodes to claims if and only if it is three texts of which the third is the signature of the first two and the second parses to those claims, which carry no passed expiry |

## Left out

- HTTP, JSON bodies, rendering, role checks and password hashing: foreign calls and I/O. A request arrives with its
  values read; of the checks for blank fields, those on modelled columns are kept.
- Interleaved requests: each request runs alone. At most one invoice per appointment is a claim about sequential runs,
  because the check for an earlier invoice is outside the transaction.
- Rounding of money and stock (exact reals), text-to-number conversions, `strtotime` and time zones, and a change of
  date within one request. A date is an opaque key, and a timestamp its date; where bookings pass midnight, the
  numbering of the days is a parameter.
- Descriptive columns (addresses, descriptions, categories, creation times, client type) and the listings that only
  filter and sort them, the order of the commission report included.
- Which client `findOrCreate` picks when several match: the query leaves it open, and the model takes the first row.
  The client row that a refused booking may leave behind is kept.
- Staff availability over runs: the last write wins, and no state of the appointments follows from it.
- Codec.ReadString: the native decoder is an arbitrary function; the round trips assume of it what the Encoding Standard
  asks of a UTF-8 TextDecoder on well-formed bytes, and nothing about malformed ones.
- Handles.OnlyLiveHandlesMayBeCounted: covers the even numbers inside the table. The code also adds to whatever slot
  lies behind an odd or an unused number, which turns a value or a missing slot into NaN or text; that is not
  modelled.
- Base64Url.Base64Decode: reads the alphabet and passes over every other character, as the decoder does when not
  strict; it has no error result.
- Jwt.Decode: the comparison of an expiry that is not a number with the clock is an arbitrary function.
- Handles.HandleTable.ToHandle: JavaScript values other than undefined, null, true and false are told apart by an
  integer only.
- StdStrings.FromWire: the length is a parameter; the four bytes of the length word and the memory that the runtime
  allocates and frees are not modelled, nor are the string types of other code units.
- The copies of the codec in the other runtime files, the graphics bindings, and the database headers.
