/**
 * The database and the session as one object (main.py): the `ticket` and `user` tables, the
 * session's `user_id` and its `cancelled_tickets` ledger, and the routines that change them.
 * Every routine keeps the table invariant `Valid`.
 */
module Store {
  import opened Config
  import opened Records
  import opened Selection
  import opened Cancellation
  import opened UserLookup
  import opened Reconcile
  import opened Display

  /** How table_map ends; the last error the handler sets is the one it shows. */
  datatype SittingOutcome =
    | WronglyEntered   // some field did not hold a number
    | NoTableChosen    // no table field at all
    | SeatsTaken       // a table is short (the source then fails on `len(False)`)
    | TooManySeats     // more seats than the limit
    | Accepted(booked: bool)  // booked only when the session knows the user

  /** The sweep's report: the number of released rows, their descriptions, the users to notify. */
  datatype SweepReport = SweepReport(count: nat, released: seq<TicketInfo>, notified: seq<int>)

  /** What restore_cancelled_bookings answers. */
  datatype RestoreOutcome = NoTicketsWereCancelled | Restored(entries: seq<Entry>)

  class Store {
    var tickets: seq<Ticket>
    var users: seq<User>
    var sessionUser: Option<int>      // session["user_id"]
    var ledger: Option<seq<Entry>>    // session["cancelled_tickets"]; None while the key is absent

    /** Ids are ascending and positive, every row keeps the lifecycle and placement rules, ledger keys are unique. */
    ghost predicate Valid()
      reads this
    {
      IdsAscending(tickets) && UserIdsAscending(users) &&
      (forall j :: 0 <= j < |users| ==> users[j].id >= 1) &&
      (forall i :: 0 <= i < |tickets| ==> Lifecycle(tickets[i]) && WellPlaced(tickets[i])) &&
      (ledger.Some? ==> KeysDistinct(ledger.value))
    }

    /** A fresh database holding the seeded tickets, no users, and an empty session. */
    constructor (seed: seq<Ticket>)
      requires IdsAscending(seed)
      requires forall i :: 0 <= i < |seed| ==> seed[i] == NewTicket(seed[i].id, seed[i].table, seed[i].isForStanding)
      requires forall i :: 0 <= i < |seed| ==> WellPlaced(seed[i])
      ensures tickets == seed && users == [] && sessionUser == None && ledger == None
      ensures Valid()
    {
      tickets, users, sessionUser, ledger := seed, [], None, None;
    }

    /**
     * return_table_availability: every table of the map, 1 to 113, with the number of its
     * sitting rows that are neither booked nor paid, which is the number a request can take.
     */
    method TableAvailability() returns (m: map<int, nat>)
      requires Valid()
      ensures forall n :: n in m <==> 1 <= n <= LastTable
      ensures forall n :: 1 <= n <= LastTable ==> m[n] == FreeSeatsAt(tickets, n)
      ensures forall n :: 1 <= n <= LastTable ==> m[n] == |FreeIndices(tickets, AtTable(n))|
    {
      m := map[];
      var n := 1;
      while n <= LastTable
        invariant 1 <= n <= LastTable + 1
        invariant forall x :: x in m <==> 1 <= x < n
        invariant forall x :: x in m ==> m[x] == 0
      {
        m := m[n := 0];
        n := n + 1;
      }
      var i := 0;
      while i < |tickets|
        invariant 0 <= i <= |tickets|
        invariant forall n :: n in m <==> 1 <= n <= LastTable
        invariant forall n :: 1 <= n <= LastTable ==> m[n] == FreeSeatsAt(tickets[..i], n)
      {
        var t := tickets[i];
        assert tickets[..i + 1][..i] == tickets[..i];
        if !t.isForStanding && !t.isBooked && !t.isPaid {
          var table := t.table.value;
          m := m[table := m[table] + 1];
        }
        i := i + 1;
      }
      assert tickets[..i] == tickets;
      forall n | 1 <= n <= LastTable ensures m[n] == |FreeIndices(tickets, AtTable(n))| {
        AvailabilityMatchesSelection(tickets, n);
      }
    }

    /**
     * return_available_sitting_tickets: walk the request, appending the lowest free rows of
     * each table, and give up at the first table that is short.
     */
    method SelectSitting(req: seq<TableRequest>) returns (r: Option<seq<nat>>)
      ensures r == SittingSelection(tickets, req)
    {
      var chosen: seq<nat> := [];
      var k := 0;
      while k < |req|
        invariant 0 <= k <= |req|
        invariant SittingSelection(tickets, req[..k]) == Some(chosen)
      {
        var free := FreeIndices(tickets, AtTable(req[k].table));
        assert req[..k + 1][..k] == req[..k];
        if |free| < req[k].count {
          SittingFailureIsFinal(tickets, req, k + 1);
          return None;
        }
        chosen := chosen + free[..req[k].count];
        k := k + 1;
      }
      assert req[..k] == req;
      r := Some(chosen);
    }

    /** book_tickets: exactly the listed rows become booked by `uid` on day `now`. */
    method BookTickets(idxs: seq<nat>, uid: int, now: int)
      requires Valid()
      requires forall j :: 0 <= j < |idxs| ==> idxs[j] < |tickets|
      modifies this
      ensures tickets == BookAll(old(tickets), idxs, uid, now)
      ensures users == old(users) && sessionUser == old(sessionUser) && ledger == old(ledger)
      ensures Valid()
    {
      var ts := BookRows(tickets, idxs, uid, now);
      BookedKeepsShape(tickets, idxs, uid, now);
      tickets := ts;
    }

    /** book_tickets' loop over the listed row positions. */
    static method BookRows(ts0: seq<Ticket>, idxs: seq<nat>, uid: int, now: int) returns (ts: seq<Ticket>)
      requires forall j :: 0 <= j < |idxs| ==> idxs[j] < |ts0|
      ensures ts == BookAll(ts0, idxs, uid, now)
    {
      ts := ts0;
      var j := 0;
      while j < |idxs|
        invariant 0 <= j <= |idxs|
        invariant ts == BookAll(ts0, idxs[..j], uid, now)
      {
        var i := idxs[j];
        assert idxs[..j + 1] == idxs[..j] + [i];
        ts := ts[i := Booked(ts[i], uid, now)];
        j := j + 1;
      }
      assert idxs[..j] == idxs;
    }

    /** save_user_to_database: the new user gets the next id, which becomes the session's user. */
    method SaveUser(name: string, email: string, phone: string, place: string) returns (id: int)
      requires Valid()
      modifies this
      ensures id == NextUserId(old(users)) && id >= 1
      ensures forall j :: 0 <= j < |old(users)| ==> old(users)[j].id < id
      ensures users == old(users) + [NewUser(id, name, email, phone, place)]
      ensures sessionUser == Some(id)
      ensures tickets == old(tickets) && ledger == old(ledger)
      ensures Valid()
    {
      id := NextUserId(users);
      users := users + [NewUser(id, name, email, phone, place)];
      sessionUser := Some(id);
    }

    /**
     * form_standing: save the user, then book the lowest `n` free standing rows for them, but
     * only when that many are free and `n` is below the limit (strictly). A count that does not
     * parse is 0.
     */
    method FormStanding(name: string, email: string, phone: string, place: string, count: Option<nat>, now: int)
      returns (uid: int, booked: bool)
      requires Valid()
      modifies this
      ensures uid == NextUserId(old(users))
      ensures users == old(users) + [NewUser(uid, name, email, phone, place)]
      ensures sessionUser == Some(uid) && ledger == old(ledger)
      ensures var n := if count.Some? then count.value else 0;
              (booked <==> StandingSelection(old(tickets), n).Some? && n < TicketLimit) &&
              (booked ==> tickets == BookAll(old(tickets), StandingSelection(old(tickets), n).value, uid, now)) &&
              (!booked ==> tickets == old(tickets))
      ensures Valid()
    {
      uid := SaveUser(name, email, phone, place);
      var n := if count.Some? then count.value else 0;
      var selection := StandingSelection(tickets, n);
      if selection.Some? && n < TicketLimit {
        BookTickets(selection.value, uid, now);
        booked := true;
      } else {
        booked := false;
      }
    }

    /**
     * table_map: select the requested rows and book them for the session's user, unless one of
     * the handler's errors applies; a short table ends the request before the seat limit is checked.
     */
    method TableMap(req: seq<TableRequest>, malformed: bool, now: int) returns (o: SittingOutcome)
      requires Valid()
      modifies this
      ensures SittingSelection(old(tickets), req).None? ==> o == SeatsTaken
      ensures SittingSelection(old(tickets), req).Some? ==>
                var seats := SittingSelection(old(tickets), req).value;
                (|seats| > TicketLimit ==> o == TooManySeats) &&
                (|seats| <= TicketLimit && req == [] ==> o == NoTableChosen) &&
                (|seats| <= TicketLimit && req != [] && malformed ==> o == WronglyEntered) &&
                (|seats| <= TicketLimit && req != [] && !malformed ==> o == Accepted(old(sessionUser).Some?))
      ensures o == Accepted(true) ==>
                tickets == BookAll(old(tickets), SittingSelection(old(tickets), req).value, old(sessionUser).value, now)
      ensures o != Accepted(true) ==> tickets == old(tickets)
      ensures users == old(users) && sessionUser == old(sessionUser) && ledger == old(ledger)
      ensures Valid()
    {
      var selection := SelectSitting(req);
      if selection.None? {
        o := SeatsTaken;
      } else if |selection.value| > TicketLimit {
        o := TooManySeats;
      } else if req == [] {
        o := NoTableChosen;
      } else if malformed {
        o := WronglyEntered;
      } else {
        if sessionUser.Some? {
          SittingSelectionAtRequestedTables(tickets, req);
          assert forall j :: 0 <= j < |selection.value| ==> selection.value[j] in selection.value;
          BookTickets(selection.value, sessionUser.value, now);
        }
        o := Accepted(sessionUser.Some?);
      }
    }

    /** Set column `c` to `v` on every ticket `uid` owns; answers how many that is. */
    method SetFlagOnOwned(uid: int, c: Column, v: bool) returns (n: nat)
      requires Valid()
      modifies this
      ensures tickets == FlagOwned(old(tickets), uid, c, v)
      ensures n == OwnedCount(old(tickets), uid)
      ensures users == old(users) && sessionUser == old(sessionUser) && ledger == old(ledger)
      ensures Valid()
    {
      var ts;
      ts, n := FlagRows(tickets, uid, c, v);
      FlaggedKeepsShape(tickets, uid, c, v);
      tickets := ts;
    }

    /** The loop over the rows that sets the flag on the owned ones and counts them. */
    static method FlagRows(ts0: seq<Ticket>, uid: int, c: Column, v: bool) returns (ts: seq<Ticket>, n: nat)
      ensures ts == FlagOwned(ts0, uid, c, v)
      ensures n == OwnedCount(ts0, uid)
    {
      ts, n := ts0, 0;
      var i := 0;
      while i < |ts|
        invariant 0 <= i <= |ts| == |ts0|
        invariant forall p :: 0 <= p < i ==> ts[p] == FlagOwned(ts0, uid, c, v)[p]
        invariant forall p :: i <= p < |ts0| ==> ts[p] == ts0[p]
        invariant n == OwnedCount(ts0[..i], uid)
      {
        assert ts0[..i + 1][..i] == ts0[..i];
        if OwnedBy(ts[i], uid) {
          ts := ts[i := WithTicketFlag(ts[i], c, v)];
          n := n + 1;
        }
        i := i + 1;
      }
      assert ts0[..i] == ts0;
    }

    /**
     * edit_tickets_of_given_user: find the user by id or name; set the chosen flag on them and
     * on every ticket they own. An unknown user changes nothing. Looking the user up again by
     * the text of their id, as the report does, finds the same user.
     */
    method EditTicketsOfGivenUser(key: string, c: Column, v: bool) returns (found: Option<int>)
      requires Valid()
      modifies this
      ensures FindUser(old(users), key).None? ==>
                found == None && users == old(users) && tickets == old(tickets)
      ensures FindUser(old(users), key).Some? ==>
                var k := FindUser(old(users), key).value;
                found == Some(old(users)[k].id) &&
                users == old(users)[k := WithUserFlag(old(users)[k], c, v)] &&
                tickets == FlagOwned(old(tickets), old(users)[k].id, c, v) &&
                FindUser(users, DecimalText(old(users)[k].id)) == Some(k)
      ensures sessionUser == old(sessionUser) && ledger == old(ledger)
      ensures Valid()
    {
      var k := FindUser(users, key);
      if k.None? {
        return None;
      }
      var u := users[k.value];
      users := users[k.value := WithUserFlag(u, c, v)];
      var _ := SetFlagOnOwned(u.id, c, v);
      FindUserById(users, k.value);
      found := Some(u.id);
    }

    /** pay_for_user: the user and every ticket they own become paid; answers the price of those tickets. */
    method PayForUser(k: nat) returns (totalPayment: int)
      requires Valid() && k < |users|
      modifies this
      ensures users == old(users)[k := old(users)[k].(isPaid := true)]
      ensures tickets == FlagOwned(old(tickets), old(users)[k].id, Paid, true)
      ensures totalPayment == OwnedCount(old(tickets), old(users)[k].id) * Price
      ensures sessionUser == old(sessionUser) && ledger == old(ledger)
      ensures Valid()
    {
      users := users[k := users[k].(isPaid := true)];
      var n := SetFlagOnOwned(users[k].id, Paid, true);
      totalPayment := n * Price;
    }

    /**
     * set_payments: with no statement (no token, or the bank call failed) answer None and
     * change nothing; otherwise sum the statement per variable symbol and classify every
     * unpaid user in turn, paying those who sent at least the price of their tickets.
     */
    method SetPayments(feed: Option<seq<Transaction>>) returns (r: Option<seq<Verdict>>)
      requires Valid()
      modifies this
      ensures feed.None? ==> r.None? && users == old(users) && tickets == old(tickets)
      ensures feed.Some? ==>
                r == Some(Verdicts(old(users), old(tickets), feed.value)) &&
                users == ReconciledUsers(old(users), old(tickets), feed.value) &&
                tickets == ReconciledTickets(old(users), old(tickets), feed.value)
      ensures sessionUser == old(sessionUser) && ledger == old(ledger)
      ensures Valid()
    {
      if feed.None? {
        return None;
      }
      var verdicts := ReconcileAll(feed.value);
      r := Some(verdicts);
    }

    /** set_payments with a statement: the payments dictionary, then the loop over the users. */
    method ReconcileAll(txs: seq<Transaction>) returns (verdicts: seq<Verdict>)
      requires Valid()
      modifies this
      ensures verdicts == Verdicts(old(users), old(tickets), txs)
      ensures users == ReconciledUsers(old(users), old(tickets), txs)
      ensures tickets == ReconciledTickets(old(users), old(tickets), txs)
      ensures sessionUser == old(sessionUser) && ledger == old(ledger)
      ensures Valid()
    {
      var payments := SumPayments(txs);
      var us, ts;
      us, ts, verdicts := ReconcileRows(users, tickets, txs, payments);
      ReconciledKeepsShape(users, tickets, txs);
      users, tickets := us, ts;
    }

    /** set_payments' loop over the users, on the tables as they were when it started. */
    static method ReconcileRows(us0: seq<User>, ts0: seq<Ticket>, txs: seq<Transaction>, payments: map<int, int>)
      returns (us: seq<User>, ts: seq<Ticket>, verdicts: seq<Verdict>)
      requires forall vs :: vs in payments <==> HasPayment(txs, vs)
      requires forall vs :: vs in payments ==> payments[vs] == SumFor(txs, vs)
      ensures verdicts == Verdicts(us0, ts0, txs)
      ensures us == ReconciledUsers(us0, ts0, txs)
      ensures ts == ReconciledTickets(us0, ts0, txs)
    {
      us, ts, verdicts := us0, ts0, [];
      assert us0[..0] == [];
      var j := 0;
      while j < |us|
        invariant 0 <= j <= |us| == |us0|
        invariant ReconciledUpTo(j, us0, ts0, txs, us, ts)
        invariant verdicts == Verdicts(us0[..j], ts0, txs)
      {
        assert us0[..j + 1][..j] == us0[..j] && us0[..j + 1][j] == us0[j];
        var verdict;
        us, ts, verdict := ReconcileUser(j, payments, txs, us0, ts0, us, ts);
        if verdict.Some? {
          verdicts := verdicts + [verdict.value];
        }
        j := j + 1;
      }
      assert us0[..j] == us0;
      assert us == ReconciledUsers(us0, ts0, txs);
    }

    /** One turn of set_payments' loop: classify user `j` if unpaid, paying them when settled. */
    static method ReconcileUser(j: nat, payments: map<int, int>, ghost txs: seq<Transaction>,
                                ghost us0: seq<User>, ghost ts0: seq<Ticket>, us: seq<User>, ts: seq<Ticket>)
      returns (us': seq<User>, ts': seq<Ticket>, verdict: Option<Verdict>)
      requires j < |us0| && ReconciledUpTo(j, us0, ts0, txs, us, ts)
      requires forall vs :: vs in payments <==> HasPayment(txs, vs)
      requires forall vs :: vs in payments ==> payments[vs] == SumFor(txs, vs)
      ensures ReconciledUpTo(j + 1, us0, ts0, txs, us', ts')
      ensures verdict == if us0[j].isPaid then None else Some(VerdictFor(us0[j], ts0, txs))
    {
      us', ts' := us, ts;
      var u := us[j];
      assert us0[..j + 1] == us0[..j] + [u];
      SameOwnersSameCount(ts0, ts, u.id);
      if u.isPaid {
        ReconciledTicketsSkip(us0, ts0, txs, j);
        return us', ts', None;
      }
      var received := if u.id in payments then Some(payments[u.id]) else None;
      var v := Classify(u.id, received, OwnedCount(ts, u.id) * Price);
      assert v == VerdictFor(u, ts0, txs);
      if Settles(v) {
        us' := us[j := u.(isPaid := true)];
        var owned;
        ts', owned := FlagRows(ts, u.id, Paid, true);
        ReconciledTicketsStep(us0, ts0, txs, j, ts, ts');
      } else {
        ReconciledTicketsSkip(us0, ts0, txs, j);
      }
      verdict := Some(v);
    }

    /** The payments dictionary: for every symbol with a counted line, the sum of its lines. */
    static method SumPayments(txs: seq<Transaction>) returns (payments: map<int, int>)
      ensures forall vs :: vs in payments <==> HasPayment(txs, vs)
      ensures forall vs :: vs in payments ==> payments[vs] == SumFor(txs, vs)
    {
      payments := map[];
      var i := 0;
      while i < |txs|
        invariant 0 <= i <= |txs|
        invariant forall vs :: vs in payments <==> HasPayment(txs[..i], vs)
        invariant forall vs :: vs in payments ==> payments[vs] == SumFor(txs[..i], vs)
      {
        var tx := txs[i];
        assert txs[..i + 1][..i] == txs[..i] && txs[..i + 1][i] == tx;
        forall vs ensures SumFor(txs[..i + 1], vs) == SumFor(txs[..i], vs) + (if CountedFor(tx, vs) then WholeCrowns(tx.amountHundredths) else 0)
                  && (HasPayment(txs[..i + 1], vs) <==> HasPayment(txs[..i], vs) || CountedFor(tx, vs)) {
        }
        if tx.currency == "CZK" && tx.variableSymbol.Some? {
          var vs := tx.variableSymbol.value;
          var sofar := if vs in payments then payments[vs] else 0;
          payments := payments[vs := sofar + WholeCrowns(tx.amountHundredths)];
        }
        i := i + 1;
      }
      assert txs[..i] == txs;
    }

    /**
     * cancel_ticket: record the row's id under its owner in the ledger, then clear owner,
     * booking and payment; answers the row's description from before.
     */
    method CancelTicket(i: nat) returns (info: TicketInfo)
      requires Valid() && i < |tickets| && tickets[i].isBooked && ledger.Some?
      modifies this
      ensures info == TicketText(old(tickets)[i])
      ensures tickets == old(tickets)[i := Cancelled(old(tickets)[i])]
      ensures ledger == Some(Record(old(ledger).value, old(tickets)[i].userId.value, old(tickets)[i].id))
      ensures users == old(users) && sessionUser == old(sessionUser)
      ensures Valid()
    {
      var t := tickets[i];
      info := TicketText(t);
      ledger := Some(Record(ledger.value, t.userId.value, t.id));
      tickets := tickets[i := Cancelled(t)];
    }

    /**
     * return_invalid_booking: start a fresh ledger, release every expired row into it under its
     * former owner, and report the count, the released rows and the users to notify.
     */
    method SweepExpired(today: int) returns (report: SweepReport)
      requires Valid()
      modifies this
      ensures tickets == SweptTickets(old(tickets), today)
      ensures ledger == Some(SweepLedger(old(tickets), today))
      ensures report.count == |ExpiredTickets(old(tickets), today)| == |report.released|
      ensures report.released == Texts(ExpiredTickets(old(tickets), today))
      ensures report.notified == AffectedUsers(old(tickets), today)
      ensures report.count == |ChangedRows(old(tickets), tickets)|
      ensures users == old(users) && sessionUser == old(sessionUser)
      ensures Valid()
    {
      var ts, l, released, notified := SweepRows(tickets, today);
      SweptKeepsShape(tickets, today);
      SweepChangesExactlyExpired(tickets, today);
      tickets, ledger := ts, Some(l);
      report := SweepReport(|released|, released, notified);
    }

    /** The sweep's loop over the rows: the new table, the fresh ledger, the report lines and the users to notify. */
    static method SweepRows(ts0: seq<Ticket>, today: int) returns (ts: seq<Ticket>, l: seq<Entry>, released: seq<TicketInfo>, notified: seq<int>)
      requires OwnersKnown(ts0)
      ensures ts == SweptTickets(ts0, today)
      ensures l == SweepLedger(ts0, today)
      ensures released == Texts(ExpiredTickets(ts0, today))
      ensures notified == AffectedUsers(ts0, today)
    {
      ts, l, released, notified := ts0, [], [], [];
      var i := 0;
      while i < |ts|
        invariant 0 <= i <= |ts0| && |ts| == |ts0|
        invariant SweptUpTo(ts0, today, i, ts, l, released, notified)
      {
        ts, l, released, notified := SweepRow(ts0, today, i, ts, l, released, notified);
        i := i + 1;
      }
      assert ts0[..i] == ts0;
    }

    /** One step of the sweep: row `i` is released when it has expired. */
    static method SweepRow(ghost ts0: seq<Ticket>, today: int, i: nat, ts: seq<Ticket>, l: seq<Entry>,
                           released: seq<TicketInfo>, notified: seq<int>)
      returns (ts': seq<Ticket>, l': seq<Entry>, released': seq<TicketInfo>, notified': seq<int>)
      requires i < |ts0| == |ts| && SweptUpTo(ts0, today, i, ts, l, released, notified)
      ensures |ts'| == |ts0| && SweptUpTo(ts0, today, i + 1, ts', l', released', notified')
    {
      ts', l', released', notified' := ts, l, released, notified;
      var t := ts[i];
      SweepRowFacts(ts0, today, i);
      if t.isBooked && !t.isPaid && !t.wasCollected && today - t.timeOfBooking > BookingDaysLimit {
        if t.userId.value !in notified {
          notified' := notified + [t.userId.value];
        }
        released' := released + [TicketText(t)];
        l' := Record(l, t.userId.value, t.id);
        ts' := ts[i := Cancelled(t)];
      }
    }

    /**
     * cancel_specific_ticket: release the booked row with id `tid` that `uid` owns, replacing
     * the ledger by one holding just that row; with no such row nothing changes.
     */
    method CancelSpecificTicket(uid: int, tid: int) returns (found: Option<TicketInfo>)
      requires Valid()
      modifies this
      ensures BookedTicketOf(old(tickets), uid, tid).None? ==>
                found == None && tickets == old(tickets) && ledger == old(ledger)
      ensures BookedTicketOf(old(tickets), uid, tid).Some? ==>
                var i := BookedTicketOf(old(tickets), uid, tid).value;
                found == Some(TicketText(old(tickets)[i])) &&
                tickets == old(tickets)[i := Cancelled(old(tickets)[i])] &&
                ledger == Some([Entry(uid, [tid])])
      ensures users == old(users) && sessionUser == old(sessionUser)
      ensures Valid()
    {
      var k := BookedTicketOf(tickets, uid, tid);
      if k.None? {
        return None;
      }
      ledger := Some([]);
      var info := CancelTicket(k.value);
      assert [] + [Entry(uid, [tid])] == [Entry(uid, [tid])];
      found := Some(info);
    }

    /**
     * restore_cancelled_bookings: with no ledger answer so and change nothing; otherwise give
     * every ledger row back to its recorded user, leaving payments alone and keeping the ledger.
     */
    method RestoreCancelledBookings() returns (report: RestoreOutcome)
      requires Valid()
      modifies this
      ensures old(ledger).None? ==> report == NoTicketsWereCancelled && tickets == old(tickets)
      ensures old(ledger).Some? ==>
                report == Restored(old(ledger).value) && tickets == RestoreLedger(old(tickets), old(ledger).value)
      ensures ledger == old(ledger) && users == old(users) && sessionUser == old(sessionUser)
      ensures Valid()
    {
      if ledger.None? {
        return NoTicketsWereCancelled;
      }
      var l := ledger.value;
      var ts := RestoreRows(tickets, l);
      RestoredKeepsShape(tickets, l);
      tickets := ts;
      report := Restored(l);
    }

    /** The restore loop over the ledger's entries, in ledger order. */
    static method RestoreRows(ts0: seq<Ticket>, l: seq<Entry>) returns (ts: seq<Ticket>)
      ensures ts == RestoreLedger(ts0, l)
    {
      ts := ts0;
      var k := 0;
      while k < |l|
        invariant 0 <= k <= |l|
        invariant ts == RestoreLedger(ts0, l[..k])
      {
        ts := RestoreEntry(ts, l[k].userId, l[k].ticketIds);
        assert l[..k + 1][..k] == l[..k];
        k := k + 1;
      }
      assert l[..k] == l;
    }

    /** The inner loop: every ticket id of one entry is looked up and given back to the entry's user. */
    static method RestoreEntry(ts0: seq<Ticket>, u: int, ids: seq<int>) returns (ts: seq<Ticket>)
      ensures ts == RestoreIds(ts0, u, ids)
    {
      ts := ts0;
      var j := 0;
      while j < |ids|
        invariant 0 <= j <= |ids|
        invariant ts == RestoreIds(ts0, u, ids[..j])
      {
        var x := ids[j];
        assert ids[..j + 1][..j] == ids[..j];
        var p := IndexOfId(ts, x);
        if p.Some? {
          ts := ts[p.value := Rebook(ts[p.value], u)];
        }
        j := j + 1;
      }
      assert ids[..j] == ids;
    }

    /** delete_user_if_no_bookings: remove the user exactly when no ticket names them. */
    method DeleteUserIfNoBookings(uid: int) returns (deleted: bool)
      requires Valid()
      modifies this
      ensures deleted <==> OwnedCount(old(tickets), uid) == 0
      ensures deleted ==> users == WithoutUser(old(users), uid)
      ensures !deleted ==> users == old(users)
      ensures tickets == old(tickets) && sessionUser == old(sessionUser) && ledger == old(ledger)
      ensures Valid()
    {
      deleted := OwnedCount(tickets, uid) == 0;
      if deleted {
        users := WithoutUser(users, uid);
      }
    }
  }

  /** The row `ticket.query.filter(is_booked, user_id == uid, id == tid).first()` finds. */
  function BookedTicketOf(ts: seq<Ticket>, uid: int, tid: int): (r: Option<nat>)
    ensures r.Some? ==> r.value < |ts| && ts[r.value].isBooked && ts[r.value].userId == Some(uid) && ts[r.value].id == tid
    ensures r.None? ==> forall i :: 0 <= i < |ts| ==> !(ts[i].isBooked && ts[i].userId == Some(uid) && ts[i].id == tid)
  {
    if ts == [] then None
    else if ts[0].isBooked && ts[0].userId == Some(uid) && ts[0].id == tid then Some(0)
    else match BookedTicketOf(ts[1..], uid, tid)
      case None => None
      case Some(k) => Some(k + 1)
  }

  /** The first `j` users of `us0` are reconciled, the rest untouched, and the tickets match. */
  ghost predicate ReconciledUpTo(j: nat, us0: seq<User>, ts0: seq<Ticket>, txs: seq<Transaction>,
                                 us: seq<User>, ts: seq<Ticket>)
  {
    j <= |us0| && |us| == |us0| &&
    (forall p :: 0 <= p < j ==> us[p] == ReconciledUsers(us0, ts0, txs)[p]) &&
    (forall p :: j <= p < |us0| ==> us[p] == us0[p]) &&
    ts == ReconciledTickets(us0[..j], ts0, txs)
  }

  /** Reconciliation keeps ids, the booking lifecycle and the placement of every row. */
  lemma ReconciledKeepsShape(us: seq<User>, ts: seq<Ticket>, txs: seq<Transaction>)
    requires UserIdsAscending(us) && IdsAscending(ts)
    requires forall j :: 0 <= j < |us| ==> us[j].id >= 1
    requires forall i :: 0 <= i < |ts| ==> Lifecycle(ts[i]) && WellPlaced(ts[i])
    ensures UserIdsAscending(ReconciledUsers(us, ts, txs)) && IdsAscending(ReconciledTickets(us, ts, txs))
    ensures forall j :: 0 <= j < |us| ==> ReconciledUsers(us, ts, txs)[j].id >= 1
    ensures forall i :: 0 <= i < |ts| ==>
              Lifecycle(ReconciledTickets(us, ts, txs)[i]) && WellPlaced(ReconciledTickets(us, ts, txs)[i])
  {
  }

  /** Booking listed rows keeps ids ascending, the booking lifecycle and the placement of every row. */
  lemma BookedKeepsShape(ts: seq<Ticket>, idxs: seq<nat>, uid: int, now: int)
    requires IdsAscending(ts)
    requires forall i :: 0 <= i < |ts| ==> Lifecycle(ts[i]) && WellPlaced(ts[i])
    ensures IdsAscending(BookAll(ts, idxs, uid, now))
    ensures forall i :: 0 <= i < |ts| ==> Lifecycle(BookAll(ts, idxs, uid, now)[i]) && WellPlaced(BookAll(ts, idxs, uid, now)[i])
  {
  }

  /** Setting a flag on owned rows keeps ids ascending, the booking lifecycle and the placement of every row. */
  lemma FlaggedKeepsShape(ts: seq<Ticket>, uid: int, c: Column, v: bool)
    requires IdsAscending(ts)
    requires forall i :: 0 <= i < |ts| ==> Lifecycle(ts[i]) && WellPlaced(ts[i])
    ensures IdsAscending(FlagOwned(ts, uid, c, v))
    ensures forall i :: 0 <= i < |ts| ==> Lifecycle(FlagOwned(ts, uid, c, v)[i]) && WellPlaced(FlagOwned(ts, uid, c, v)[i])
  {
  }

  /** The sweep has visited the first `i` rows of `ts0`. */
  ghost predicate SweptUpTo(ts0: seq<Ticket>, today: int, i: nat, ts: seq<Ticket>, l: seq<Entry>,
                            released: seq<TicketInfo>, notified: seq<int>)
  {
    i <= |ts0| == |ts| && OwnersKnown(ts0) &&
    (forall k :: 0 <= k < i ==> ts[k] == if Expired(ts0[k], today) then Cancelled(ts0[k]) else ts0[k]) &&
    (forall k :: i <= k < |ts| ==> ts[k] == ts0[k]) &&
    OwnersKnown(ts0[..i]) &&
    l == SweepLedger(ts0[..i], today) &&
    released == Texts(ExpiredTickets(ts0[..i], today)) &&
    notified == AffectedUsers(ts0[..i], today)
  }

  /** The restore keeps ids, the booking lifecycle and the placement of every row. */
  lemma RestoredKeepsShape(ts: seq<Ticket>, l: seq<Entry>)
    requires IdsAscending(ts)
    requires forall i :: 0 <= i < |ts| ==> Lifecycle(ts[i]) && WellPlaced(ts[i])
    ensures IdsAscending(RestoreLedger(ts, l))
    ensures forall i :: 0 <= i < |ts| ==> Lifecycle(RestoreLedger(ts, l)[i]) && WellPlaced(RestoreLedger(ts, l)[i])
  {
    RestoreLedgerAt(ts, l);
  }

  /** The sweep keeps ids, the booking lifecycle and the placement of every row. */
  lemma SweptKeepsShape(ts: seq<Ticket>, today: int)
    requires IdsAscending(ts)
    requires forall i :: 0 <= i < |ts| ==> Lifecycle(ts[i]) && WellPlaced(ts[i])
    ensures IdsAscending(SweptTickets(ts, today))
    ensures forall i :: 0 <= i < |ts| ==> Lifecycle(SweptTickets(ts, today)[i]) && WellPlaced(SweptTickets(ts, today)[i])
  {
  }

  /** How the sweep's ledger, report lines and notified users grow by one row. */
  lemma SweepRowFacts(ts0: seq<Ticket>, today: int, i: nat)
    requires OwnersKnown(ts0) && i < |ts0|
    ensures OwnersKnown(ts0[..i]) && OwnersKnown(ts0[..i + 1])
    ensures SweepLedger(ts0[..i + 1], today)
            == if Expired(ts0[i], today) then Record(SweepLedger(ts0[..i], today), ts0[i].userId.value, ts0[i].id)
               else SweepLedger(ts0[..i], today)
    ensures Texts(ExpiredTickets(ts0[..i + 1], today))
            == Texts(ExpiredTickets(ts0[..i], today)) + if Expired(ts0[i], today) then [TicketText(ts0[i])] else []
    ensures AffectedUsers(ts0[..i + 1], today)
            == if Expired(ts0[i], today) && ts0[i].userId.value !in AffectedUsers(ts0[..i], today)
               then AffectedUsers(ts0[..i], today) + [ts0[i].userId.value]
               else AffectedUsers(ts0[..i], today)
  {
    var front, row := ts0[..i + 1], ts0[i];
    assert front[..i] == ts0[..i] && front[i] == row;
    var before := ExpiredTickets(ts0[..i], today);
    if Expired(row, today) {
      var after := before + [row];
      assert after[..|after| - 1] == before;
    }
  }

  /** Settling user `j` pays exactly their tickets, extending the reconciled prefix by one user. */
  lemma ReconciledTicketsStep(us: seq<User>, ts: seq<Ticket>, txs: seq<Transaction>, j: nat,
                              before: seq<Ticket>, after: seq<Ticket>)
    requires j < |us| && Settled(us[j], ts, txs)
    requires before == ReconciledTickets(us[..j], ts, txs)
    requires after == FlagOwned(before, us[j].id, Paid, true)
    ensures after == ReconciledTickets(us[..j + 1], ts, txs)
  {
    var want := ReconciledTickets(us[..j + 1], ts, txs);
    assert us[..j + 1] == us[..j] + [us[j]];
    assert SettledIds(us[..j + 1], ts, txs) == SettledIds(us[..j], ts, txs) + {us[j].id};
    forall i | 0 <= i < |ts| ensures after[i] == want[i] {
    }
  }

  /** A user who is not settled leaves the reconciled prefix's tickets as they are. */
  lemma ReconciledTicketsSkip(us: seq<User>, ts: seq<Ticket>, txs: seq<Transaction>, j: nat)
    requires j < |us| && !Settled(us[j], ts, txs)
    ensures ReconciledTickets(us[..j + 1], ts, txs) == ReconciledTickets(us[..j], ts, txs)
  {
    assert us[..j + 1] == us[..j] + [us[j]];
    assert SettledIds(us[..j + 1], ts, txs) == SettledIds(us[..j], ts, txs);
  }
}
