/**
 * The expiry sweep and the single-generation undo ledger (main.py, lines 597-660), as
 * functions on the ticket table. The ledger is the session's `cancelled_tickets` dictionary:
 * user id to the ids of the tickets released from that user, in insertion order.
 */
module Cancellation {
  import opened Config
  import opened Records

  datatype Entry = Entry(userId: int, ticketIds: seq<int>)

  /** Position of the entry of user `u`, if the ledger has one. */
  function IndexOfUser(l: seq<Entry>, u: int): (r: Option<nat>)
    ensures r.Some? ==> r.value < |l| && l[r.value].userId == u
    ensures r.None? ==> forall k :: 0 <= k < |l| ==> l[k].userId != u
  {
    if l == [] then None
    else if l[0].userId == u then Some(0)
    else match IndexOfUser(l[1..], u)
      case None => None
      case Some(k) => Some(k + 1)
  }

  /** No user has two entries (dictionary keys). */
  ghost predicate KeysDistinct(l: seq<Entry>) {
    forall a, b :: 0 <= a < b < |l| ==> l[a].userId != l[b].userId
  }

  /** cancel_ticket's ledger update: append `id` to the list of `u`, opening a new entry at the end if `u` has none. */
  function Record(l: seq<Entry>, u: int, id: int): (r: seq<Entry>)
    ensures KeysDistinct(l) ==> KeysDistinct(r)
    ensures exists k :: 0 <= k < |r| && r[k].userId == u && id in r[k].ticketIds
  {
    match IndexOfUser(l, u)
    case Some(k) =>
      var r := l[k := Entry(u, l[k].ticketIds + [id])];
      assert id in r[k].ticketIds;
      r
    case None =>
      var r := l + [Entry(u, [id])];
      assert r[|l|].userId == u && id in r[|l|].ticketIds;
      r
  }

  /** The user the ledger would give ticket `x` back to: that of the last entry listing `x`. */
  function LedgerOwner(l: seq<Entry>, x: int): (r: Option<int>)
    ensures r.None? <==> forall k :: 0 <= k < |l| ==> x !in l[k].ticketIds
    ensures r.Some? ==> exists k :: 0 <= k < |l| && x in l[k].ticketIds && l[k].userId == r.value
  {
    if l == [] then None
    else if x in l[|l| - 1].ticketIds then Some(l[|l| - 1].userId)
    else LedgerOwner(l[..|l| - 1], x)
  }

  /** Replacing one entry by another for the same user and the same membership of `x` keeps the owner of `x`. */
  lemma {:induction false} UpdateKeepsOwner(l: seq<Entry>, k: nat, e: Entry, x: int)
    requires k < |l| && l[k].userId == e.userId
    requires x in l[k].ticketIds <==> x in e.ticketIds
    ensures LedgerOwner(l[k := e], x) == LedgerOwner(l, x)
  {
    var l' := l[k := e];
    if k < |l| - 1 {
      assert l'[|l| - 1] == l[|l| - 1];
      assert l'[..|l| - 1] == l[..|l| - 1][k := e];
      UpdateKeepsOwner(l[..|l| - 1], k, e, x);
    } else {
      assert l'[|l| - 1] == e;
      assert l'[..|l| - 1] == l[..|l| - 1];
    }
  }

  /** Recording a ticket not yet in the ledger makes its owner `u` and leaves every other ticket's owner alone. */
  lemma RecordOwner(l: seq<Entry>, u: int, id: int, x: int)
    requires LedgerOwner(l, id) == None
    ensures LedgerOwner(Record(l, u, id), x) == if x == id then Some(u) else LedgerOwner(l, x)
  {
    var r := Record(l, u, id);
    match IndexOfUser(l, u)
    case Some(k) =>
      if x == id {
        assert forall j :: 0 <= j < |r| && j != k ==> x !in r[j].ticketIds;
      } else {
        UpdateKeepsOwner(l, k, r[k], x);
      }
    case None =>
      assert r[..|l|] == l;
  }

  // ---- The sweep (return_invalid_booking, cancel_ticket) ----

  /** A row the sweep releases: booked, unpaid, not picked up, and booked more than the limit of days ago. */
  predicate Expired(t: Ticket, today: int) {
    t.isBooked && !t.isPaid && !t.wasCollected && today - t.timeOfBooking > BookingDaysLimit
  }

  /** cancel_ticket's effect on the row: owner, booked and paid are cleared; the pickup flag is kept. */
  function Cancelled(t: Ticket): (r: Ticket)
    ensures !r.isBooked && r.userId == None && !r.isPaid
    ensures r.wasCollected == t.wasCollected && r.timeOfBooking == t.timeOfBooking
    ensures r.id == t.id && r.table == t.table && r.isForStanding == t.isForStanding
  {
    t.(userId := None, isBooked := false, isPaid := false)
  }

  /** Every booked row names its owner. */
  ghost predicate OwnersKnown(ts: seq<Ticket>) {
    forall i :: 0 <= i < |ts| ==> ts[i].isBooked ==> ts[i].userId.Some?
  }

  ghost predicate IdsDistinct(ts: seq<Ticket>) {
    forall i, j :: 0 <= i < j < |ts| ==> ts[i].id != ts[j].id
  }

  /** The ticket table after the sweep. */
  function SweptTickets(ts: seq<Ticket>, today: int): (r: seq<Ticket>)
    ensures |r| == |ts|
    ensures forall i :: 0 <= i < |ts| && Expired(ts[i], today) ==> r[i] == Cancelled(ts[i])
    ensures forall i :: 0 <= i < |ts| && !Expired(ts[i], today) ==> r[i] == ts[i]
  {
    seq(|ts|, i requires 0 <= i < |ts| => if Expired(ts[i], today) then Cancelled(ts[i]) else ts[i])
  }

  /** The ledger the sweep leaves: a fresh one holding every expired row under its former owner. */
  function SweepLedger(ts: seq<Ticket>, today: int): (l: seq<Entry>)
    requires OwnersKnown(ts)
    ensures KeysDistinct(l)
  {
    if ts == [] then []
    else
      var prev := SweepLedger(ts[..|ts| - 1], today);
      var t := ts[|ts| - 1];
      if Expired(t, today) then Record(prev, t.userId.value, t.id) else prev
  }

  /** The rows the sweep releases, as they were before (the report lines), in table order. */
  function ExpiredTickets(ts: seq<Ticket>, today: int): (r: seq<Ticket>)
    ensures |r| <= |ts|
    ensures forall k :: 0 <= k < |r| ==> Expired(r[k], today)
  {
    if ts == [] then []
    else ExpiredTickets(ts[..|ts| - 1], today) + (if Expired(ts[|ts| - 1], today) then [ts[|ts| - 1]] else [])
  }

  /** The report lists exactly the expired rows. */
  lemma {:induction false} ExpiredTicketsAreExpired(ts: seq<Ticket>, today: int)
    ensures forall t :: t in ExpiredTickets(ts, today) <==> t in ts && Expired(t, today)
  {
    if ts != [] {
      var front := ts[..|ts| - 1];
      ExpiredTicketsAreExpired(front, today);
      assert forall t :: t in ts <==> t in front || t == ts[|ts| - 1];
    }
  }

  /** On a table with ascending ids the report lists rows of the table, each once, in table order. */
  lemma {:induction false} ExpiredTicketsInTableOrder(ts: seq<Ticket>, today: int)
    requires IdsAscending(ts)
    ensures IdsAscending(ExpiredTickets(ts, today))
    ensures forall k :: 0 <= k < |ExpiredTickets(ts, today)| ==> ExpiredTickets(ts, today)[k] in ts
  {
    if ts != [] {
      var front := ts[..|ts| - 1];
      var last := ts[|ts| - 1];
      ExpiredTicketsInTableOrder(front, today);
      var r0 := ExpiredTickets(front, today);
      var r := ExpiredTickets(ts, today);
      forall k | 0 <= k < |r0|
        ensures r0[k] in ts && r0[k].id < last.id
      {
        var i :| 0 <= i < |front| && front[i] == r0[k];
        assert ts[i] == r0[k];
      }
      if Expired(last, today) {
        assert r == r0 + [last];
        assert r[|r0|] == last;
      } else {
        assert r == r0;
      }
    }
  }

  /** Positions of the rows the sweep releases. */
  ghost function ExpiredRows(ts: seq<Ticket>, today: int): set<nat> {
    set i: nat | i < |ts| && Expired(ts[i], today)
  }

  /** The report has one line per released row. */
  lemma {:induction false} ExpiredTicketsCount(ts: seq<Ticket>, today: int)
    ensures |ExpiredTickets(ts, today)| == |ExpiredRows(ts, today)|
  {
    if ts == [] {
      assert ExpiredRows(ts, today) == {};
    } else {
      var n := |ts| - 1;
      var front := ts[..n];
      ExpiredTicketsCount(front, today);
      assert n !in ExpiredRows(front, today);
      if Expired(ts[n], today) {
        assert ExpiredRows(ts, today) == ExpiredRows(front, today) + {n};
      } else {
        assert ExpiredRows(ts, today) == ExpiredRows(front, today);
      }
    }
  }

  /** Positions at which two tables differ. */
  ghost function ChangedRows(before: seq<Ticket>, after: seq<Ticket>): set<nat> {
    set i: nat | i < |before| && i < |after| && after[i] != before[i]
  }

  /** The sweep changes exactly the released rows, so the report's count is the number of rows it changed. */
  lemma SweepChangesExactlyExpired(ts: seq<Ticket>, today: int)
    ensures ChangedRows(ts, SweptTickets(ts, today)) == ExpiredRows(ts, today)
    ensures |ExpiredTickets(ts, today)| == |ChangedRows(ts, SweptTickets(ts, today))|
  {
    var r := SweptTickets(ts, today);
    forall i: nat | i < |ts|
      ensures r[i] != ts[i] <==> Expired(ts[i], today)
    {
      if Expired(ts[i], today) {
        assert r[i].isBooked != ts[i].isBooked;
      }
    }
    ExpiredTicketsCount(ts, today);
  }

  /** The users to notify: owners of released rows, each once, in order of first release. */
  function AffectedUsers(ts: seq<Ticket>, today: int): (r: seq<int>)
    requires OwnersKnown(ts)
    ensures forall a, b :: 0 <= a < b < |r| ==> r[a] != r[b]
  {
    if ts == [] then []
    else
      var prev := AffectedUsers(ts[..|ts| - 1], today);
      var t := ts[|ts| - 1];
      if Expired(t, today) && t.userId.value !in prev then prev + [t.userId.value] else prev
  }

  /** A user is notified exactly when one of the rows released was theirs. */
  lemma {:induction false} AffectedUsersAreOwners(ts: seq<Ticket>, today: int)
    requires OwnersKnown(ts)
    ensures forall u :: u in AffectedUsers(ts, today) <==>
              exists i :: 0 <= i < |ts| && Expired(ts[i], today) && ts[i].userId == Some(u)
  {
    if ts != [] {
      var front := ts[..|ts| - 1];
      assert forall i :: 0 <= i < |front| ==> front[i] == ts[i];
      AffectedUsersAreOwners(front, today);
    }
  }

  /** After a sweep the ledger gives each released row back to its former owner and knows no other ticket. */
  lemma {:induction false} SweepLedgerOwner(ts: seq<Ticket>, today: int)
    requires OwnersKnown(ts) && IdsDistinct(ts)
    ensures forall i :: 0 <= i < |ts| ==>
              LedgerOwner(SweepLedger(ts, today), ts[i].id) == if Expired(ts[i], today) then ts[i].userId else None
    ensures forall x :: (forall i :: 0 <= i < |ts| ==> ts[i].id != x) ==> LedgerOwner(SweepLedger(ts, today), x) == None
  {
    if ts != [] {
      var front := ts[..|ts| - 1];
      var t := ts[|ts| - 1];
      assert forall i :: 0 <= i < |front| ==> front[i] == ts[i];
      SweepLedgerOwner(front, today);
      var prev := SweepLedger(front, today);
      if Expired(t, today) {
        assert LedgerOwner(prev, t.id) == None;
        forall x ensures LedgerOwner(SweepLedger(ts, today), x) == if x == t.id then Some(t.userId.value) else LedgerOwner(prev, x) {
          RecordOwner(prev, t.userId.value, t.id, x);
        }
      }
    }
  }

  // ---- The undo (restore_cancelled_bookings) ----

  /** What restoring does to one row: booked again by `u`; payment and pickup flags are not touched. */
  function Rebook(t: Ticket, u: int): (r: Ticket)
    ensures r.isBooked && r.userId == Some(u)
    ensures r.isPaid == t.isPaid && r.wasCollected == t.wasCollected && r.timeOfBooking == t.timeOfBooking
    ensures r.id == t.id && r.table == t.table && r.isForStanding == t.isForStanding
  {
    t.(userId := Some(u), isBooked := true)
  }

  /** The row `ticket.query.filter(_id == id).first()` finds. */
  function IndexOfId(ts: seq<Ticket>, id: int): (r: Option<nat>)
    ensures r.Some? ==> r.value < |ts| && ts[r.value].id == id
    ensures r.Some? ==> forall j :: 0 <= j < r.value ==> ts[j].id != id
    ensures r.None? ==> forall i :: 0 <= i < |ts| ==> ts[i].id != id
  {
    if ts == [] then None
    else if ts[0].id == id then Some(0)
    else match IndexOfId(ts[1..], id)
      case None => None
      case Some(k) => Some(k + 1)
  }

  /** Restore one ledger ticket to `u`. A ledger id without a row would make the source fail; the model leaves the table alone. */
  function RestoreOne(ts: seq<Ticket>, u: int, id: int): (r: seq<Ticket>)
    ensures |r| == |ts|
    ensures forall i :: 0 <= i < |ts| ==> r[i].id == ts[i].id
    ensures forall i :: 0 <= i < |ts| && ts[i].id != id ==> r[i] == ts[i]
    ensures forall i :: 0 <= i < |ts| && ts[i].id == id && (forall j :: 0 <= j < i ==> ts[j].id != id) ==> r[i] == Rebook(ts[i], u)
  {
    match IndexOfId(ts, id)
    case Some(i) => ts[i := Rebook(ts[i], u)]
    case None => ts
  }

  /** Restore every ticket of one ledger entry, in list order. */
  function RestoreIds(ts: seq<Ticket>, u: int, ids: seq<int>): (r: seq<Ticket>)
    ensures |r| == |ts|
    ensures forall i :: 0 <= i < |ts| ==> r[i].id == ts[i].id
    ensures forall i :: 0 <= i < |ts| && ts[i].id !in ids ==> r[i] == ts[i]
  {
    if ids == [] then ts else RestoreOne(RestoreIds(ts, u, ids[..|ids| - 1]), u, ids[|ids| - 1])
  }

  /** Restore every entry of the ledger, in ledger order. */
  function RestoreLedger(ts: seq<Ticket>, l: seq<Entry>): (r: seq<Ticket>)
    ensures |r| == |ts|
  {
    if l == [] then ts else RestoreIds(RestoreLedger(ts, l[..|l| - 1]), l[|l| - 1].userId, l[|l| - 1].ticketIds)
  }

  lemma {:induction false} RestoreIdsAt(ts: seq<Ticket>, u: int, ids: seq<int>)
    requires IdsDistinct(ts)
    ensures |RestoreIds(ts, u, ids)| == |ts|
    ensures forall i :: 0 <= i < |ts| ==>
              RestoreIds(ts, u, ids)[i] == if ts[i].id in ids then Rebook(ts[i], u) else ts[i]
  {
    if ids != [] {
      var front := ids[..|ids| - 1];
      var x := ids[|ids| - 1];
      RestoreIdsAt(ts, u, front);
      var mid := RestoreIds(ts, u, front);
      assert forall i :: 0 <= i < |ts| ==> mid[i].id == ts[i].id;
      assert forall i :: 0 <= i < |ts| ==> (ts[i].id in ids <==> ts[i].id in front || ts[i].id == x);
    }
  }

  /**
   * Restoring a ledger rebooks exactly the rows it lists, each to the user of the last entry
   * listing it; every other row and every payment and pickup flag is left as it was.
   */
  lemma {:induction false} RestoreLedgerAt(ts: seq<Ticket>, l: seq<Entry>)
    requires IdsDistinct(ts)
    ensures |RestoreLedger(ts, l)| == |ts|
    ensures forall i :: 0 <= i < |ts| ==>
              RestoreLedger(ts, l)[i] == match LedgerOwner(l, ts[i].id)
                                           case Some(u) => Rebook(ts[i], u)
                                           case None => ts[i]
  {
    if l != [] {
      var front := l[..|l| - 1];
      var e := l[|l| - 1];
      RestoreLedgerAt(ts, front);
      var mid := RestoreLedger(ts, front);
      assert forall i :: 0 <= i < |ts| ==> mid[i].id == ts[i].id;
      RestoreIdsAt(mid, e.userId, e.ticketIds);
    }
  }

  /** Restoring twice from the same ledger gives the same table as restoring once. */
  lemma RestoreIdempotent(ts: seq<Ticket>, l: seq<Entry>)
    requires IdsDistinct(ts)
    ensures RestoreLedger(RestoreLedger(ts, l), l) == RestoreLedger(ts, l)
  {
    var once := RestoreLedger(ts, l);
    RestoreLedgerAt(ts, l);
    assert forall i :: 0 <= i < |ts| ==> once[i].id == ts[i].id;
    RestoreLedgerAt(once, l);
  }

  /** Single-generation undo: restoring right after a sweep gives back the table from before the sweep. */
  lemma SweepThenRestore(ts: seq<Ticket>, today: int)
    requires OwnersKnown(ts) && IdsDistinct(ts)
    ensures RestoreLedger(SweptTickets(ts, today), SweepLedger(ts, today)) == ts
  {
    var swept := SweptTickets(ts, today);
    assert forall i :: 0 <= i < |ts| ==> swept[i].id == ts[i].id;
    SweepLedgerOwner(ts, today);
    RestoreLedgerAt(swept, SweepLedger(ts, today));
  }

  /** Cancelling one booked row and restoring the one-entry ledger rebooks it to its owner, but unpaid. */
  lemma CancelSpecificThenRestore(ts: seq<Ticket>, i: nat)
    requires IdsDistinct(ts) && i < |ts| && ts[i].isBooked && ts[i].userId.Some?
    ensures RestoreLedger(ts[i := Cancelled(ts[i])], [Entry(ts[i].userId.value, [ts[i].id])])
            == ts[i := ts[i].(isPaid := false)]
  {
    var l := [Entry(ts[i].userId.value, [ts[i].id])];
    var cut := ts[i := Cancelled(ts[i])];
    assert forall j :: 0 <= j < |ts| ==> cut[j].id == ts[j].id;
    RestoreLedgerAt(cut, l);
    assert l[..0] == [];
  }

  /**
   * Restoring does not look at the row's current state: a released row that another user has
   * booked since the sweep is handed back to its former owner.
   */
  lemma RestoreOverridesNewBooking(ts: seq<Ticket>, today: int, i: nat, v: int, now: int)
    requires OwnersKnown(ts) && IdsDistinct(ts) && i < |ts| && Expired(ts[i], today)
    ensures RestoreLedger(BookAll(SweptTickets(ts, today), [i], v, now), SweepLedger(ts, today))[i].userId
            == ts[i].userId
  {
    var after := BookAll(SweptTickets(ts, today), [i], v, now);
    assert forall j :: 0 <= j < |ts| ==> after[j].id == ts[j].id;
    SweepLedgerOwner(ts, today);
    RestoreLedgerAt(after, SweepLedger(ts, today));
  }

  // ---- The sweep as the source writes it ----

  /** A row the sweep's query returns: booked, unpaid and not picked up. */
  predicate SweepCandidate(t: Ticket) {
    t.isBooked && !t.isPaid && !t.wasCollected
  }

  datatype SweepAttempt = AttributeError | Completed(cancelled: nat)

  /**
   * return_invalid_booking as written: the loop reads `_ticket.booking_time`, but the ticket
   * record's column is `time_of_booking`, so the first candidate row raises before anything
   * is cancelled; only a table without candidates gets through, releasing nothing.
   */
  function SweepAsWritten(ts: seq<Ticket>): (r: SweepAttempt)
    ensures r.AttributeError? <==> exists i :: 0 <= i < |ts| && SweepCandidate(ts[i])
    ensures r.Completed? ==> r.cancelled == 0
  {
    if ts == [] then Completed(0)
    else if SweepCandidate(ts[0]) then AttributeError
    else
      var rest := SweepAsWritten(ts[1..]);
      assert forall i :: 1 <= i < |ts| ==> ts[i] == ts[1..][i - 1];
      rest
  }

  /** The sweep as written never releases a row: every row the intended sweep would release makes it fail. */
  lemma AsWrittenSweepNeverReleases(ts: seq<Ticket>, today: int)
    ensures (exists i :: 0 <= i < |ts| && Expired(ts[i], today)) ==> SweepAsWritten(ts) == AttributeError
    ensures SweepAsWritten(ts) != AttributeError ==> SweptTickets(ts, today) == ts
  {
  }

  /** A ticket booked on day 0 and still unpaid on day 4: the intended sweep releases it, the written one fails. */
  lemma BookingTimeFinding()
    ensures SweepAsWritten([Booked(NewTicket(1, None, true), 7, 0)]) == AttributeError
    ensures SweptTickets([Booked(NewTicket(1, None, true), 7, 0)], 4)[0].userId == None
  {
    var t := Booked(NewTicket(1, None, true), 7, 0);
    assert Expired(t, 4);
    assert SweepCandidate([t][0]);
  }
}
