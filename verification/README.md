# Prom ticket booking: a verified model

This project models the core of a small ticket shop for a school prom. Buyers reserve
standing tickets or seats at numbered tables. Each table belongs to one of four halls.
An administrator then reconciles bank payments, releases bookings that were not paid in
time, can undo the last release, flags tickets as picked up, and removes users who hold no
tickets.

The database is one object, `Store.Store`. It holds:

- the `ticket` and `user` tables, as sequences of records;
- the session's current user;
- the session's `cancelled_tickets` ledger.

Every routine that changes the object keeps the invariant `Valid`:

- ticket ids and user ids strictly increase along their tables;
- user ids are positive;
- a ticket is booked exactly when it has an owner, and an unbooked ticket is unpaid;
- a standing ticket has no table, and every sitting ticket's table is one of 1..113;
- no user has two ledger entries.

Rows are named by their position in the ticket table. Because ids ascend, "the first rows
the query returns" is the same as "the lowest ids".

Modules:

- `Config`: the constants. Price 300, ticket limit 21, booking days limit 3, last table 113.
- `Records`: the two records and the per-row updates (booking, flags), plus the fan-out of
  a flag to every ticket a user owns.
- `Selection`: standing and sitting seat selection, and per-table availability.
- `Cancellation`: the expiry sweep and the ledger as functions, the undo, and the sweep as
  the source writes it.
- `UserLookup`: finding a user by id or name fragment, the next user id, and deletion.
- `Reconcile`: bank transactions, per-user verdicts, and the tables after reconciliation.
- `Display`: the hall partition, the ticket and user descriptions, and the booking summary.
- `Store`: the database object and its routines, each proved against the functions above.

## Model

| member | source | states |
|---|---|---|
| Records.NewTicket | main.py:32-41 | A fresh ticket is unbooked, unpaid, not picked up and has no owner. |
| Records.NewUser | main.py:54-61 | A fresh user is neither paid nor picked up. |
| Records.WithTicketFlag | main.py:323-327 | Setting "picked_up" changes only `was_collected`, anything else changes only `is_paid`; the other flag and all other fields are kept. |
| Records.WithUserFlag | main.py:317-320 | The same column choice on the user record; the other flag and the user's data are kept. |
| Records.OwnedCount | main.py:569-570 | The number of tickets whose `user_id` is the user; it is zero exactly when no ticket names them. |
| Records.SameOwnersSameCount | main.py:569-570 | Two ticket tables with the same owner on every row give every user the same ticket count, so paying tickets does not change a price. |
| Records.FlagOwned | main.py:322-327 | Every ticket the user owns gets the flag, and every other ticket is unchanged. |
| Records.Booked | main.py:138-141 | A booked row is booked, owned by the user and stamped with the booking time; payment, pickup, id and table are kept. |
| Records.BookAll | main.py:131-142 | Exactly the listed rows are booked for the user; every other row is unchanged. |
| Selection.FreeIndices | main.py:123 | The rows the query returns: never more than the table has; what they are is stated by `FreeIndicesExact`. |
| Selection.FreeIndicesExact | main.py:108 | The query lists exactly the unbooked rows matching the filter, each once, in ascending position order. |
| Selection.TakeIsLowest | main.py:110 | The first n rows of the query are lower than every matching row left out. |
| Selection.StandingSelection | main.py:104-113 | None (the source's False) exactly when fewer than n standing rows are unbooked; otherwise n distinct ascending unbooked standing rows, lower than every one left out. |
| Selection.SittingSelection | main.py:116-128 | A successful selection has as many rows as the request asks for in total. |
| Selection.SittingAllOrNothing | main.py:122-127 | The selection fails exactly when some requested table has fewer unbooked rows than asked for. |
| Selection.SittingFailureIsFinal | main.py:126-127 | Once a prefix of the request fails, the whole request fails, so stopping at the first short table is sound. |
| Selection.SittingSegments | main.py:122-125 | Entry k's rows follow the rows of the entries before it and are the lowest unbooked rows at its table. |
| Selection.SittingSelectionAtRequestedTables | main.py:122-125 | Every chosen row exists, is unbooked, and sits at a table the request names. |
| Selection.SittingSeatsDistinct | main.py:122-125 | When each table is named once, no row is chosen twice. |
| Selection.RepeatedTableChosenTwice | main.py:122-125 | A request that names one table under two keys takes the same row twice. |
| Selection.FreeSeatsAt | main.py:70-74 | The per-table count of sitting rows that are neither booked nor paid; never more than the table has rows. |
| Selection.AvailabilityMatchesSelection | main.py:70-74 | The count the hall map shows for a table equals the number of rows a request for that table can take. |
| Selection.SittingSucceedsIffAvailable | main.py:116-128 | A sitting request succeeds exactly when no entry asks for more than the map shows. |
| Selection.BookedRowsNotReselected | main.py:138-141 | Once rows are booked, no later selection returns any of them. |
| Cancellation.IndexOfUser | main.py:600 | Finds the ledger entry of a user, or reports that the user has none. |
| Cancellation.Record | main.py:600 | Appends the ticket id under its owner, opening a new entry when needed; owners stay unique. |
| Cancellation.RecordOwner | main.py:600 | After recording a new id, the ledger gives that id to its owner and every other id to the same user as before. |
| Cancellation.LedgerOwner | main.py:650-654 | The user a restore gives a ticket to is the user of the last entry that lists it, or none when no entry does. |
| Cancellation.Cancelled | main.py:601-603 | A cancelled row loses owner, booking and payment, and keeps pickup, id, table and booking time. |
| Cancellation.SweptTickets | main.py:609-632 | After the sweep, exactly the expired rows are cancelled; every other row is unchanged. |
| Cancellation.SweepLedger | main.py:610 | The sweep's ledger is built fresh and has unique owners. |
| Cancellation.ExpiredTicketsAreExpired | main.py:612-621 | The report lists exactly the booked, unpaid, uncollected rows booked more than 3 days ago. |
| Cancellation.ExpiredTickets | main.py:627 | The report has no more lines than the table has rows, and every line is a booked, unpaid, uncollected row booked more than 3 days ago. |
| Cancellation.ExpiredTicketsInTableOrder | main.py:612-627 | On a table with ascending ids the report lists rows of the table, each once, in table order. |
| Cancellation.ExpiredTicketsCount | main.py:627-629 | The report has exactly one line per released row. |
| Cancellation.SweepChangesExactlyExpired | main.py:617-629 | The sweep changes exactly the released rows, so the count it reports is the number of rows it changed. |
| Cancellation.AffectedUsers | main.py:615-623 | The users to notify are listed without repetition. |
| Cancellation.AffectedUsersAreOwners | main.py:615-623 | A user is notified exactly when one of the released rows was theirs. |
| Cancellation.SweepLedgerOwner | main.py:609-626 | The sweep's ledger gives each released row back to its former owner and knows no other ticket. |
| Cancellation.Rebook | main.py:653-655 | A restored row is booked by the recorded user; payment and pickup flags are untouched. |
| Cancellation.IndexOfId | main.py:653 | Finds the row with the given id, or reports that there is none. |
| Cancellation.RestoreOne | main.py:653-655 | Restoring one id keeps every row's id and changes no row with another id; the first row with that id is rebooked to the user. |
| Cancellation.RestoreIds | main.py:652-656 | Restoring one entry keeps every row's id and changes no row whose id the entry does not list. |
| Cancellation.RestoreLedger | main.py:650-656 | The ticket table after restoring every entry in ledger order has as many rows as before; what each row becomes is stated by `RestoreLedgerAt`. |
| Cancellation.RestoreIdsAt | main.py:652-656 | Restoring one entry rebooks exactly the rows whose ids it lists, each to that entry's user. |
| Cancellation.RestoreLedgerAt | main.py:645-660 | Restoring a ledger rebooks exactly the rows it lists, each to its recorded user; every other row and all payment flags are left alone. |
| Cancellation.RestoreIdempotent | main.py:645-660 | Restoring twice from the same ledger gives the same table as restoring once. |
| Cancellation.SweepThenRestore | main.py:609-660 | Restoring right after a sweep gives back the table from before the sweep. |
| Cancellation.CancelSpecificThenRestore | main.py:635-660 | Cancelling one booked row and then restoring rebooks it to its owner, but unpaid. |
| Cancellation.RestoreOverridesNewBooking | main.py:650-655 | Restore ignores a row's current state: a released row booked by someone else since the sweep goes back to its former owner. |
| Cancellation.SweepAsWritten | main.py:617-618 | The sweep as written fails exactly when some row is booked, unpaid and not picked up; when it completes it has released nothing. |
| Cancellation.AsWrittenSweepNeverReleases | main.py:612-618 | Any row the intended sweep would release makes the written sweep fail; when the written sweep completes, the intended one would change nothing. |
| Cancellation.BookingTimeFinding | main.py:618 | A ticket booked on day 0 and unpaid on day 4 makes the written sweep fail, while the intended sweep releases it. |
| UserLookup.DecimalText | main.py:349-350 | The text of an id is a decimal string. |
| UserLookup.DecimalRoundTrip | main.py:349-351 | Reading back the text of an id gives the id. |
| UserLookup.Lower | main.py:353 | Each upper-case ASCII letter becomes its own lower-case letter; every other character is kept. |
| UserLookup.LeadingZerosIgnored | main.py:350-351 | A decimal key with leading zeros names the same id. |
| UserLookup.KeyMatchesIgnoresKeyCase | main.py:350-353 | A key and its lower-case form match the same users. |
| UserLookup.FindUser | main.py:343-355 | The first user matching the key: by id when the key is decimal, otherwise by a case-blind name fragment; None when no user matches. |
| UserLookup.FindUserById | main.py:330 | Looking a user up again by the text of their id finds the same user. |
| UserLookup.EmptyKeyFindsFirstUser | main.py:353 | An empty key matches every name, so it finds the first user. |
| UserLookup.NextUserId | main.py:93-97 | The database gives a new user an id above every existing one. |
| UserLookup.WithoutUser | main.py:667 | Deleting by id removes exactly the users with that id and keeps the others in order. |
| Reconcile.WholeCrowns | main.py:559 | `int(amount)` truncates toward zero, for positive and negative amounts. |
| Reconcile.HasPayment | main.py:556-560 | A symbol has an entry exactly when some CZK line carries it; without one its sum is zero. |
| Reconcile.PaymentFor | main.py:555-560 | The dictionary entry of a symbol: present exactly when some CZK line carries the symbol, and then the sum of its lines. |
| Reconcile.SumForSplit | main.py:556-560 | Summing a statement in two parts and adding the results gives the sum of the whole. |
| Reconcile.SumForIgnoresOthers | main.py:557 | A line in another currency or for another symbol does not change a user's sum. |
| Reconcile.Classify | main.py:568-581 | No payment gives "not paid yet"; a sum equal to the price is "paid" at that price, a larger one "overpaid" and a smaller one "paid too little", each with the sum and the price; the user is settled exactly when the sum reaches the price. |
| Reconcile.VerdictFor | main.py:566-570 | A user's verdict is about that user; it is "not paid yet" exactly when no line carries their id, and settles exactly when their sum reaches their ticket count times 300. |
| Reconcile.Verdicts | main.py:562-582 | The report has exactly as many lines as there are unpaid users, and each line is the verdict on an unpaid user. |
| Reconcile.VerdictsInUserOrder | main.py:564-581 | Unpaid user j's verdict is the line at j's place among the unpaid users, so every unpaid user has a line and the lines follow the user table. |
| Reconcile.ReconciledUsers | main.py:564-577 | Exactly the unpaid users whose sum reaches their price become paid; all other users are unchanged. |
| Reconcile.ReconciledTickets | main.py:569-577 | Reconciliation changes a ticket only in `is_paid`, so no owner, place, booking or pickup flag changes; a ticket without an owner is unchanged. |
| Reconcile.SettledUsersFullyPaid | main.py:572-577 | A settled user ends up paid, together with every ticket they own. |
| Reconcile.UnsettledUntouched | main.py:578-581 | A ticket whose owner is short or has not paid is unchanged. |
| Reconcile.ReconcileIdempotent | main.py:564-577 | A second run over the same transactions settles nobody and changes neither table. |
| Display.HallOf | functions.py:50-57 | Tables up to 43 are in the Great Hall, 44..65 in the Left Hall, 66..83 in the Right Hall and above on the Second Floor. |
| Display.ShownNumber | functions.py:104-112 | The hall and the shown number give back the table; tables 1..113 are shown as numbers from 1. |
| Display.HallPartition | functions.py:104-112 | Tables 1..113 split into Great Hall 1..43, Left Hall 44..65, Right Hall 66..83 and Second Floor 84..113, shown as 1..30. |
| Display.ShownNumberIdentifiesTable | functions.py:110-112 | The hall and the shown number together name exactly one table. |
| Display.TicketPlace | functions.py:48-57 | A ticket with no table is described as standing. |
| Display.SummaryPlace | functions.py:101-112 | Summary key 0 is described as standing. |
| Display.PlacesAgree | functions.py:48-57 | The ticket description and the booking summary place every real table the same way. |
| Display.PickupPlaceOf | functions.py:74-83 | Only the four form codes select a pickup place, and each place gives back its code. |
| Display.PlaceText | functions.py:74-83 | The pickup text is empty exactly for an unspecified place. |
| Display.PlaceTextClassifies | functions.py:74-83 | Only "office", "eight", "four" and "ideon" give a pickup text, and each gives a different one. |
| Display.TicketText | functions.py:38-60 | The description keeps id and owner, says standing exactly when there is no table, and says paid and picked up exactly when the flags are set. |
| Display.Texts | main.py:626-627 | One description per ticket, in order. |
| Display.UserText | functions.py:64-87 | The description keeps id, name and ticket count, has an empty pickup text exactly for unknown codes, and says paid and picked up exactly when the flags are set. |
| Display.LineFor | functions.py:101-113 | A summary line carries the seat count; it is the standing line exactly for key 0, otherwise it names the key's hall and shown number. |
| Display.Normalized | functions.py:93-95 | A None key is moved to key 0, replacing any key 0; every other key and count is kept. |
| Display.MinKey | functions.py:97 | The smallest key of a non-empty set. |
| Display.Ascending | functions.py:97 | The sorted key list has one element per key. |
| Display.AscendingSorted | functions.py:97 | The sorted key list holds exactly the set's keys, strictly increasing. |
| Display.Lines | functions.py:97-113 | One summary line per key. |
| Display.SummaryKeys | functions.py:97 | The summary's keys are keys of the normalised dictionary. |
| Display.LinesAt | functions.py:97-113 | The j-th line describes the j-th key and its count. |
| Display.LinesShowTotal | functions.py:98 | The counts on the lines add up to the dictionary's total. |
| Display.TablesSummary | functions.py:90-115 | One line per normalised key, in strictly ascending key order, each with its key's place and count, adding up to the total. |
| Display.TablesInfo | functions.py:90-115 | The loop produces exactly the summary lines and the total of all seat counts. |
| Store.Store.constructor | main.py:32-41 | A fresh database holds the seeded unbooked tickets, no users and an empty session, and is valid. |
| Store.Store.TableAvailability | main.py:64-81 | The map has exactly the keys 1..113; each value counts that table's sitting rows that are neither booked nor paid, and equals what a request there can take. |
| Store.Store.SelectSitting | main.py:116-128 | The loop returns exactly the sitting selection, stopping at the first short table. |
| Store.Store.BookTickets | main.py:131-142 | Exactly the listed rows are booked for the user; users, session and ledger are unchanged; the invariant holds. |
| Store.Store.BookRows | main.py:138-141 | The loop over the listed rows books exactly those rows. |
| Store.Store.SaveUser | main.py:84-101 | The new user is appended with an id above every existing one, and that id becomes the session's user. |
| Store.Store.FormStanding | main.py:192-211 | A count that does not parse is 0; tickets are booked exactly when enough standing rows are free and the count is below 21; otherwise no ticket changes. |
| Store.Store.TableMap | main.py:235-269 | The last error set wins: a short table, then too many seats, then no table chosen, then a malformed field; otherwise seats are booked for the session's user, and only if there is one. |
| Store.Store.SetFlagOnOwned | main.py:322-327 | Every ticket the user owns gets the flag and nothing else changes; it answers how many tickets that is. |
| Store.Store.FlagRows | main.py:322-327 | The loop sets the flag on exactly the owned rows and counts them. |
| Store.Store.EditTicketsOfGivenUser | main.py:304-339 | An unknown user changes nothing; otherwise the found user and exactly their tickets get the flag, and looking the user up again by id finds them. |
| Store.Store.PayForUser | main.py:526-536 | The user and exactly their tickets become paid; the total is the ticket count times the price. |
| Store.Store.SetPayments | main.py:543-582 | With no statement it answers None and changes nothing; otherwise it answers the verdicts and leaves the reconciled tables. |
| Store.Store.ReconcileAll | main.py:555-582 | The payments dictionary and then the loop over the users give exactly the verdicts and the reconciled tables. |
| Store.Store.ReconcileRows | main.py:564-582 | The loop over the users gives exactly the verdicts and the reconciled users and tickets. |
| Store.Store.ReconcileUser | main.py:565-581 | One user is classified if unpaid, and paid together with their tickets when settled. |
| Store.Store.SumPayments | main.py:555-560 | The dictionary has a key exactly for each symbol with a CZK line, holding the sum of its whole-crown amounts. |
| Store.Store.CancelTicket | main.py:597-606 | The row's id is recorded under its owner, the row is cancelled, and the answer describes the row as it was. |
| Store.Store.SweepExpired | main.py:609-632 | Exactly the expired rows are released into a fresh ledger; the report's count is the number of rows the sweep changed, and it gives their descriptions and the users to notify, each once. |
| Store.Store.SweepRows | main.py:612-629 | The loop over the rows gives the swept table, the fresh ledger, the report lines and the users to notify. |
| Store.Store.SweepRow | main.py:618-627 | One more row swept: an expired row is cancelled, recorded in the ledger under its owner, described in the report, and its owner is added to the users to notify unless already there. |
| Store.Store.CancelSpecificTicket | main.py:635-642 | Without a booked row of that id owned by that user nothing changes; otherwise that row is cancelled and the ledger becomes that single entry. |
| Store.Store.RestoreCancelledBookings | main.py:645-660 | With no ledger it answers so and changes nothing; otherwise it restores the ledger, keeps it, and leaves payments alone. |
| Store.Store.RestoreRows | main.py:650-656 | The loop over the ledger's entries gives exactly the restored table. |
| Store.Store.RestoreEntry | main.py:652-656 | The loop over one entry's ids gives exactly that entry's restore. |
| Store.Store.DeleteUserIfNoBookings | main.py:662-671 | The user is deleted exactly when no ticket names them; otherwise nothing changes. |
| Store.BookedTicketOf | main.py:636 | Finds a booked row with the given id owned by the given user, or reports that there is none. |

## Left out

- Flask routing, HTML rendering, the password check and the wording of every message are not modelled. The model keeps the classification behind each message: the place, the paid and picked-up texts, and the verdicts.
- Mail is not modelled. The sweep reports the ids of the users to notify. The confirmation, payment and cancellation mails, and the administrator fallback, are left out.
- The FioBank client is not modelled. The statement is a parameter: `None` stands for a missing token or a failed call, `Some(lines)` for the transactions. `show_payments` only displays and is left out.
- The database and the clock are in memory. Booking time is an integer day stamp, and "more than 3 days" is `today - time > 3`. The source stores a `datetime` in an integer column.
- Requests are applied one at a time. Two buyers racing for the same seat are not modelled.
- `Reconcile.Transaction`: a variable symbol is read as a number or is absent. A symbol that is not numeric makes `int(...)` at main.py:558 raise `ValueError`; the model has no such line. The amount is a whole number of hundredths, not a float, so `Store.Store.SumPayments` truncates hundredths to crowns.
- Seat counts are natural numbers. A negative count from the form is not modelled.
- The table request reaches `Store.Store.TableMap` already parsed: a list of (table, count) entries plus a flag for a field that did not parse. How keys are read from the form is not modelled.
- `Store.Store.TableMap`: when a table is short the source goes on to evaluate `len(False)` and fails. The model ends the request as `SeatsTaken` and changes nothing, which is the effect of the failure on the data.
- The summary page, the session's `booked` and `email` keys, and `return_all_users` / `return_all_booked_tickets` are left out. They only display.
- `Display.TablesInfo`: takes integer keys. When the source passes the session's dictionary, its keys are strings and are sorted as text. The model sorts numerically.
- `Display.TicketText`: the booking time in the description is not modelled.
- `UserLookup.KeyMatches`: `ilike` wildcards inside the key and non-ASCII case folding are not modelled, and `isdecimal` is restricted to ASCII digits.
- `Cancellation.RestoreOne`: a ledger id with no ticket row makes the source fail. The model skips that id.
- Cancelling sets the row's `is_paid` to false but keeps `was_collected`. A picked-up ticket cancelled by hand is then unbooked and picked up. The model reproduces this and does not claim "picked up implies booked".

Points of the code's behaviour worth knowing, all modelled as the code has them:

- The ticket limit is checked after selection. A standing request needs a count strictly below 21. A sitting request is refused only above 21 seats.
- Booking does not re-check that the rows are still free.
- Seat selection and booking are separate steps, with no lock between them.
- A failed bank call makes `set_payments` return False; the model answers `None`.
- The sweep, as written, fails at the first booked, unpaid, uncollected row (see Findings).

## Findings

| source | as written | input that shows it | evidently intended | confidence | as-written member | corrected member |
|---|---|---|---|---|---|---|
| main.py:618 | The sweep reads `_ticket.booking_time`, but the ticket record's column is `time_of_booking` (main.py:30), so the first booked, unpaid, uncollected row raises and nothing is released. | One ticket booked on day 0 by user 7, unpaid and not picked up, swept on day 4. | Read `time_of_booking` and release every row booked more than 3 days ago. | not executed | Cancellation.SweepAsWritten | Store.Store.SweepExpired |
