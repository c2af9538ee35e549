/** The two database records, `ticket` and `user` (main.py, lines 21-61). */
module Records {
  import opened Config

  datatype Option<T> = None | Some(value: T)

  /** One sellable seat. `table` is None for a standing ticket; `userId` is None while unbooked. */
  datatype Ticket = Ticket(
    id: int,
    userId: Option<int>,
    table: Option<int>,
    isForStanding: bool,
    isBooked: bool,
    isPaid: bool,
    wasCollected: bool,
    timeOfBooking: int)  // day stamp

  /** A registered buyer; `placeOfPickingUp` is the raw code sent by the form. */
  datatype User = User(
    id: int,
    name: string,
    email: string,
    phoneNumber: string,
    placeOfPickingUp: string,
    isPaid: bool,
    wasCollected: bool)

  /** The flag an administrator sets for a user: "picked_up" or anything else (paid). */
  datatype Column = PickedUp | Paid

  /** A fresh ticket row as its constructor creates it. */
  function NewTicket(id: int, table: Option<int>, standing: bool): (t: Ticket)
    ensures !t.isBooked && !t.isPaid && !t.wasCollected && t.userId == None
  {
    Ticket(id, None, table, standing, false, false, false, 0)
  }

  /** A fresh user row as its constructor creates it. */
  function NewUser(id: int, name: string, email: string, phone: string, place: string): (u: User)
    ensures !u.isPaid && !u.wasCollected
  {
    User(id, name, email, phone, place, false, false)
  }

  function TicketFlag(t: Ticket, c: Column): bool {
    match c
    case PickedUp => t.wasCollected
    case Paid => t.isPaid
  }

  function UserFlag(u: User, c: Column): bool {
    match c
    case PickedUp => u.wasCollected
    case Paid => u.isPaid
  }

  /** The flag that is not `c`. */
  function Other(c: Column): Column {
    match c
    case PickedUp => Paid
    case Paid => PickedUp
  }

  /** The ticket with column `c` set to `v`; the other flag and every other field are kept. */
  function WithTicketFlag(t: Ticket, c: Column, v: bool): (r: Ticket)
    ensures TicketFlag(r, c) == v && TicketFlag(r, Other(c)) == TicketFlag(t, Other(c))
    ensures r.id == t.id && r.userId == t.userId && r.table == t.table && r.isForStanding == t.isForStanding
    ensures r.isBooked == t.isBooked && r.timeOfBooking == t.timeOfBooking
  {
    match c
    case PickedUp => t.(wasCollected := v)
    case Paid => t.(isPaid := v)
  }

  /** The user with column `c` set to `v`; the other flag and every other field are kept. */
  function WithUserFlag(u: User, c: Column, v: bool): (r: User)
    ensures UserFlag(r, c) == v && UserFlag(r, Other(c)) == UserFlag(u, Other(c))
    ensures r.id == u.id && r.name == u.name && r.email == u.email && r.phoneNumber == u.phoneNumber
    ensures r.placeOfPickingUp == u.placeOfPickingUp
  {
    match c
    case PickedUp => u.(wasCollected := v)
    case Paid => u.(isPaid := v)
  }

  predicate OwnedBy(t: Ticket, uid: int) {
    t.userId == Some(uid)
  }

  /** Number of tickets whose `user_id` is `uid` (the length of `ticket.query.filter(user_id == uid).all()`). */
  function OwnedCount(ts: seq<Ticket>, uid: int): (n: nat)
    ensures n <= |ts|
    ensures n == 0 <==> forall i :: 0 <= i < |ts| ==> !OwnedBy(ts[i], uid)
  {
    if ts == [] then 0
    else OwnedCount(ts[..|ts| - 1], uid) + (if OwnedBy(ts[|ts| - 1], uid) then 1 else 0)
  }

  /** Two ticket tables that agree on every owner agree on every owner's count. */
  lemma {:induction false} SameOwnersSameCount(ts: seq<Ticket>, us: seq<Ticket>, uid: int)
    requires |ts| == |us|
    requires forall i :: 0 <= i < |ts| ==> ts[i].userId == us[i].userId
    ensures OwnedCount(ts, uid) == OwnedCount(us, uid)
  {
    if ts != [] {
      SameOwnersSameCount(ts[..|ts| - 1], us[..|us| - 1], uid);
    }
  }

  /** Fan-out of one flag: every ticket owned by `uid` gets column `c` set to `v`, nothing else changes. */
  function FlagOwned(ts: seq<Ticket>, uid: int, c: Column, v: bool): (r: seq<Ticket>)
    ensures |r| == |ts|
    ensures forall i :: 0 <= i < |ts| && OwnedBy(ts[i], uid) ==> r[i] == WithTicketFlag(ts[i], c, v)
    ensures forall i :: 0 <= i < |ts| && !OwnedBy(ts[i], uid) ==> r[i] == ts[i]
  {
    seq(|ts|, i requires 0 <= i < |ts| => if OwnedBy(ts[i], uid) then WithTicketFlag(ts[i], c, v) else ts[i])
  }

  /** Ticket ids strictly increase along the table, so they are unique and index order is id order. */
  ghost predicate IdsAscending(ts: seq<Ticket>) {
    forall i, j :: 0 <= i < j < |ts| ==> ts[i].id < ts[j].id
  }

  /** User ids strictly increase along the table. */
  ghost predicate UserIdsAscending(us: seq<User>) {
    forall i, j :: 0 <= i < j < |us| ==> us[i].id < us[j].id
  }

  /** Booked exactly when owned, and unbooked tickets are unpaid. */
  ghost predicate Lifecycle(t: Ticket) {
    (t.isBooked <==> t.userId.Some?) && (!t.isBooked ==> !t.isPaid)
  }

  /** Standing tickets have no table; sitting tickets sit at one of the tables of the map. */
  ghost predicate WellPlaced(t: Ticket) {
    (t.isForStanding <==> t.table.None?) &&
    (t.table.Some? ==> 1 <= t.table.value <= LastTable)
  }

  /** What book_tickets does to one row: booked by `uid` on day `now`. */
  function Booked(t: Ticket, uid: int, now: int): (r: Ticket)
    ensures r.isBooked && r.userId == Some(uid) && r.timeOfBooking == now
    ensures r.isPaid == t.isPaid && r.wasCollected == t.wasCollected
    ensures r.id == t.id && r.table == t.table && r.isForStanding == t.isForStanding
  {
    t.(isBooked := true, userId := Some(uid), timeOfBooking := now)
  }

  /** book_tickets over a whole list of row positions: exactly the listed rows are booked. */
  function BookAll(ts: seq<Ticket>, idxs: seq<nat>, uid: int, now: int): (r: seq<Ticket>)
    ensures |r| == |ts|
    ensures forall i :: 0 <= i < |ts| && i in idxs ==> r[i] == Booked(ts[i], uid, now)
    ensures forall i :: 0 <= i < |ts| && i !in idxs ==> r[i] == ts[i]
  {
    seq(|ts|, i requires 0 <= i < |ts| => if i in idxs then Booked(ts[i], uid, now) else ts[i])
  }
}
