/**
 * The hall and label helpers of functions.py (lines 38-115): which hall a table id is in,
 * how a ticket's place and a user's pickup place are described, and the per-table summary
 * with its ticket total.
 */
module Display {
  import opened Config
  import opened Records

  datatype Hall = GreatHall | LeftHall | RightHall | SecondFloor

  /** The hall of a table id: up to 43, up to 65, up to 83, above. */
  function HallOf(table: int): (h: Hall)
    ensures h == GreatHall <==> table <= 43
    ensures h == LeftHall <==> 44 <= table <= 65
    ensures h == RightHall <==> 66 <= table <= 83
    ensures h == SecondFloor <==> 84 <= table
  {
    if table <= 43 then GreatHall
    else if table <= 65 then LeftHall
    else if table <= 83 then RightHall
    else SecondFloor
  }

  /** The table a hall and a shown number denote. */
  function TableAt(h: Hall, shown: int): int {
    if h == SecondFloor then shown + 83 else shown
  }

  /** The number shown for a table: Second Floor tables are numbered from 1 again. */
  function ShownNumber(table: int): (n: int)
    ensures TableAt(HallOf(table), n) == table
    ensures 1 <= table <= LastTable ==> 1 <= n <= 83
  {
    if HallOf(table) == SecondFloor then table - 83 else table
  }

  /**
   * The map's 113 tables fall into four contiguous blocks, 43 + 22 + 18 + 30, and each hall
   * shows its tables as 1..43, 44..65, 66..83 and 1..30.
   */
  lemma HallPartition(t: int)
    requires 1 <= t <= LastTable
    ensures HallOf(t) == GreatHall <==> 1 <= ShownNumber(t) <= 43 && t == ShownNumber(t)
    ensures HallOf(t) == LeftHall <==> 44 <= t <= 65
    ensures HallOf(t) == RightHall <==> 66 <= t <= 83
    ensures HallOf(t) == SecondFloor <==> 84 <= t && 1 <= ShownNumber(t) <= 30
  {
  }

  /** The hall and the shown number together name exactly one table. */
  lemma ShownNumberIdentifiesTable(a: int, b: int)
    requires HallOf(a) == HallOf(b) && ShownNumber(a) == ShownNumber(b)
    ensures a == b
  {
  }

  /** Where a ticket is, as described to the administrator. */
  datatype Place = Standing | Table(hall: Hall, shown: int)

  /** get_ticket_text's place: no table means standing. */
  function TicketPlace(table: Option<int>): (p: Place)
    ensures p.Standing? <==> table.None?
  {
    match table
    case None => Standing
    case Some(t) => Table(HallOf(t), ShownNumber(t))
  }

  /** return_tables_info's place: key 0 means standing. */
  function SummaryPlace(tableId: int): (p: Place)
    ensures p.Standing? <==> tableId == 0
  {
    if tableId == 0 then Standing else Table(HallOf(tableId), ShownNumber(tableId))
  }

  /** The ticket description and the booking summary place every real table the same way. */
  lemma PlacesAgree(t: int)
    requires t != 0
    ensures SummaryPlace(t) == TicketPlace(Some(t))
    ensures TicketPlace(None) == SummaryPlace(0)
  {
  }

  function PayText(isPaid: bool): string {
    if isPaid then "paid" else "not paid"
  }

  function PickText(wasCollected: bool): string {
    if wasCollected then "picked up" else "not picked up"
  }

  /** The pickup places the form offers; any other code is unspecified. */
  datatype PickupPlace = Office | ClassEightC | ClassFourA | Ideon | Unspecified

  /** The form's code for a known pickup place. */
  function PickupCode(p: PickupPlace): string {
    match p
    case Office => "office"
    case ClassEightC => "eight"
    case ClassFourA => "four"
    case Ideon => "ideon"
    case Unspecified => ""
  }

  /** The pickup place a form code selects. */
  function PickupPlaceOf(code: string): (p: PickupPlace)
    ensures p == Unspecified <==> code !in {"office", "eight", "four", "ideon"}
    ensures p != Unspecified ==> PickupCode(p) == code
  {
    if code == "office" then Office
    else if code == "eight" then ClassEightC
    else if code == "four" then ClassFourA
    else if code == "ideon" then Ideon
    else Unspecified
  }

  /** The words get_user_info_text puts after "picking up". */
  function PlaceText(p: PickupPlace): (t: string)
    ensures t == "" <==> p == Unspecified
  {
    match p
    case Office => "in the school's office"
    case ClassEightC => "at 8.C"
    case ClassFourA => "at 4.A"
    case Ideon => "at IDEON"
    case Unspecified => ""
  }

  /** Only the four known codes produce a place text, and no two of them produce the same one. */
  lemma PlaceTextClassifies(a: string, b: string)
    ensures PlaceText(PickupPlaceOf(a)) == "" <==> a !in {"office", "eight", "four", "ideon"}
    ensures PlaceText(PickupPlaceOf(a)) != "" && PlaceText(PickupPlaceOf(a)) == PlaceText(PickupPlaceOf(b)) ==> a == b
  {
  }

  /** What get_ticket_text reports about a ticket; the booking time stamp is not modelled. */
  datatype TicketInfo = TicketInfo(id: int, userId: Option<int>, place: Place, pay: string, pick: string)

  function TicketText(t: Ticket): (i: TicketInfo)
    ensures i.id == t.id && i.userId == t.userId
    ensures i.place.Standing? <==> t.table.None?
    ensures t.table.Some? && t.table.value != 0 ==> i.place == SummaryPlace(t.table.value)
    ensures i.pay == "paid" <==> t.isPaid
    ensures i.pick == "picked up" <==> t.wasCollected
  {
    TicketInfo(t.id, t.userId, TicketPlace(t.table), PayText(t.isPaid), PickText(t.wasCollected))
  }

  /** The report lines for a list of tickets, one per ticket, in order. */
  function Texts(ts: seq<Ticket>): (r: seq<TicketInfo>)
    ensures |r| == |ts|
    ensures forall i :: 0 <= i < |ts| ==> r[i] == TicketText(ts[i])
  {
    if ts == [] then [] else Texts(ts[..|ts| - 1]) + [TicketText(ts[|ts| - 1])]
  }

  /** What get_user_info_text reports about a user and the number of tickets they hold. */
  datatype UserInfo = UserInfo(id: int, name: string, pickup: string, pay: string, pick: string, tickets: nat)

  function UserText(u: User, numberOfTickets: nat): (i: UserInfo)
    ensures i.id == u.id && i.name == u.name && i.tickets == numberOfTickets
    ensures i.pickup == "" <==> u.placeOfPickingUp !in {"office", "eight", "four", "ideon"}
    ensures i.pay == "paid" <==> u.isPaid
    ensures i.pick == "picked up" <==> u.wasCollected
  {
    UserInfo(u.id, u.name, PlaceText(PickupPlaceOf(u.placeOfPickingUp)), PayText(u.isPaid), PickText(u.wasCollected), numberOfTickets)
  }

  // ---- return_tables_info ----

  /** One line of the booking summary. */
  datatype InfoLine = StandingLine(seats: int) | TableLine(hall: Hall, shown: int, seats: int)

  function LineFor(tableId: int, seats: int): (l: InfoLine)
    ensures l.seats == seats
    ensures l.StandingLine? <==> SummaryPlace(tableId).Standing?
    ensures l.TableLine? ==> Table(l.hall, l.shown) == SummaryPlace(tableId)
  {
    if tableId == 0 then StandingLine(seats) else TableLine(HallOf(tableId), ShownNumber(tableId), seats)
  }

  /** The dictionary after its None key (standing) has been moved to key 0. */
  function Normalized(booked: map<Option<int>, int>): (m: map<int, int>)
    ensures 0 in m <==> None in booked || Some(0) in booked
    ensures None in booked ==> m[0] == booked[None]
    ensures None !in booked && Some(0) in booked ==> m[0] == booked[Some(0)]
    ensures forall k :: k != 0 ==> (k in m <==> Some(k) in booked)
    ensures forall k :: k != 0 && k in m ==> m[k] == booked[Some(k)]
  {
    var d := if None in booked then booked[Some(0) := booked[None]] - {None} else booked;
    map o | o in d.Keys && o.Some? :: o.value := d[o]
  }

  lemma MinExists(s: set<int>)
    requires s != {}
    ensures exists k :: k in s && forall x :: x in s ==> k <= x
    decreases |s|
  {
    if forall z :: z !in s { assert false; }
    var y :| y in s;
    if s != {y} {
      MinExists(s - {y});
      var k :| k in s - {y} && forall x :: x in s - {y} ==> k <= x;
      var least := if y < k then y else k;
      forall x | x in s ensures least <= x {
        if x != y { assert x in s - {y}; }
      }
      assert least in s;
    } else {
      assert forall x :: x in s ==> y <= x;
    }
  }

  /** The smallest key. */
  function MinKey(s: set<int>): (k: int)
    requires s != {}
    ensures k in s && forall x :: x in s ==> k <= x
  {
    MinExists(s);
    var k :| k in s && forall x :: x in s ==> k <= x;
    k
  }

  /** The keys of a set in ascending order, as `sorted` returns them. */
  function Ascending(s: set<int>): (r: seq<int>)
    ensures |r| == |s|
    decreases |s|
  {
    if s == {} then [] else [MinKey(s)] + Ascending(s - {MinKey(s)})
  }

  /** Ascending lists exactly the set's elements, each once, strictly increasing. */
  lemma {:induction false} AscendingSorted(s: set<int>)
    ensures forall x :: x in Ascending(s) <==> x in s
    ensures forall i, j :: 0 <= i < j < |Ascending(s)| ==> Ascending(s)[i] < Ascending(s)[j]
    decreases |s|
  {
    if s != {} {
      var k := MinKey(s);
      var rest := Ascending(s - {k});
      AscendingSorted(s - {k});
      assert Ascending(s) == [k] + rest;
      forall i, j | 0 <= i < j < |Ascending(s)| ensures Ascending(s)[i] < Ascending(s)[j] {
        if i == 0 {
          assert Ascending(s)[j] == rest[j - 1];
          assert rest[j - 1] in s - {k};
        } else {
          assert Ascending(s)[i] == rest[i - 1] && Ascending(s)[j] == rest[j - 1];
        }
      }
    }
  }

  /** Sum of the seat counts of the given keys. */
  function SumSeats(m: map<int, int>, keys: seq<int>): int
    requires forall i :: 0 <= i < |keys| ==> keys[i] in m
  {
    if keys == [] then 0 else SumSeats(m, keys[..|keys| - 1]) + m[keys[|keys| - 1]]
  }

  /** Sum of the seat counts the summary lines show. */
  function LineSeats(info: seq<InfoLine>): int {
    if info == [] then 0 else LineSeats(info[..|info| - 1]) + info[|info| - 1].seats
  }

  /** The summary lines for the given keys, in the given order. */
  function Lines(m: map<int, int>, keys: seq<int>): (r: seq<InfoLine>)
    requires forall i :: 0 <= i < |keys| ==> keys[i] in m
    ensures |r| == |keys|
  {
    if keys == [] then [] else Lines(m, keys[..|keys| - 1]) + [LineFor(keys[|keys| - 1], m[keys[|keys| - 1]])]
  }

  /** The keys of the summary: the dictionary's keys after normalisation, ascending. */
  function SummaryKeys(booked: map<Option<int>, int>): (r: seq<int>)
    ensures forall i :: 0 <= i < |r| ==> r[i] in Normalized(booked)
  {
    AscendingSorted(Normalized(booked).Keys);
    Ascending(Normalized(booked).Keys)
  }

  /** The j-th line describes the j-th key and its seat count. */
  lemma {:induction false} LinesAt(m: map<int, int>, keys: seq<int>, j: int)
    requires forall i :: 0 <= i < |keys| ==> keys[i] in m
    requires 0 <= j < |keys|
    ensures Lines(m, keys)[j] == LineFor(keys[j], m[keys[j]])
    decreases |keys|
  {
    if j < |keys| - 1 {
      assert keys[..|keys| - 1][j] == keys[j];
      LinesAt(m, keys[..|keys| - 1], j);
    }
  }

  /** The total the lines show is the total of the dictionary. */
  lemma {:induction false} LinesShowTotal(m: map<int, int>, keys: seq<int>)
    requires forall i :: 0 <= i < |keys| ==> keys[i] in m
    ensures LineSeats(Lines(m, keys)) == SumSeats(m, keys)
    decreases |keys|
  {
    if keys != [] {
      var r := Lines(m, keys);
      assert r[..|r| - 1] == Lines(m, keys[..|keys| - 1]);
      LinesShowTotal(m, keys[..|keys| - 1]);
    }
  }

  /**
   * The booking summary has one line per key of the normalised dictionary, in ascending key
   * order, each with the hall, shown number and seat count of its key, and its lines add up to
   * the dictionary's total.
   */
  lemma TablesSummary(booked: map<Option<int>, int>)
    ensures |Lines(Normalized(booked), SummaryKeys(booked))| == |Normalized(booked)|
    ensures forall j :: 0 <= j < |SummaryKeys(booked)| ==>
              Lines(Normalized(booked), SummaryKeys(booked))[j]
                == LineFor(SummaryKeys(booked)[j], Normalized(booked)[SummaryKeys(booked)[j]])
    ensures forall i, j :: 0 <= i < j < |SummaryKeys(booked)| ==> SummaryKeys(booked)[i] < SummaryKeys(booked)[j]
    ensures LineSeats(Lines(Normalized(booked), SummaryKeys(booked)))
              == SumSeats(Normalized(booked), SummaryKeys(booked))
  {
    var m := Normalized(booked);
    assert |m.Keys| == |m|;
    AscendingSorted(m.Keys);
    forall j | 0 <= j < |SummaryKeys(booked)|
      ensures Lines(m, SummaryKeys(booked))[j] == LineFor(SummaryKeys(booked)[j], m[SummaryKeys(booked)[j]])
    {
      LinesAt(m, SummaryKeys(booked), j);
    }
    LinesShowTotal(m, SummaryKeys(booked));
  }

  /**
   * return_tables_info: after moving the standing count to key 0, walk the keys in ascending
   * order, emitting one line per key and adding up the seats.
   */
  method TablesInfo(booked: map<Option<int>, int>) returns (info: seq<InfoLine>, numberOfTickets: int)
    ensures info == Lines(Normalized(booked), SummaryKeys(booked))
    ensures numberOfTickets == SumSeats(Normalized(booked), SummaryKeys(booked))
  {
    var m := Normalized(booked);
    ghost var keys := SummaryKeys(booked);
    var remaining := m.Keys;
    ghost var done: seq<int> := [];
    info, numberOfTickets := [], 0;
    while remaining != {}
      invariant remaining <= m.Keys
      invariant done + Ascending(remaining) == keys
      invariant forall j :: 0 <= j < |done| ==> done[j] in m
      invariant info == Lines(m, done)
      invariant numberOfTickets == SumSeats(m, done)
      decreases |remaining|
    {
      var k := MinKey(remaining);
      var seats := m[k];
      TablesStep(m, remaining, done, keys);
      numberOfTickets := numberOfTickets + seats;
      info := info + [LineFor(k, seats)];
      done := done + [k];
      remaining := remaining - {k};
    }
    assert |Ascending(remaining)| == 0;
    assert done == keys;
  }

  /** One turn of TablesInfo's loop keeps its invariants. */
  lemma TablesStep(m: map<int, int>, remaining: set<int>, done: seq<int>, keys: seq<int>)
    requires remaining != {} && remaining <= m.Keys
    requires done + Ascending(remaining) == keys
    requires forall j :: 0 <= j < |done| ==> done[j] in m
    ensures MinKey(remaining) in m
    ensures remaining - {MinKey(remaining)} <= m.Keys
    ensures (done + [MinKey(remaining)]) + Ascending(remaining - {MinKey(remaining)}) == keys
    ensures forall j :: 0 <= j < |done| + 1 ==> (done + [MinKey(remaining)])[j] in m
    ensures Lines(m, done + [MinKey(remaining)]) == Lines(m, done) + [LineFor(MinKey(remaining), m[MinKey(remaining)])]
    ensures SumSeats(m, done + [MinKey(remaining)]) == SumSeats(m, done) + m[MinKey(remaining)]
  {
    var k := MinKey(remaining);
    AscendingStep(remaining, done, keys);
    assert (done + [k])[..|done|] == done;
    assert forall j :: 0 <= j < |done| ==> (done + [k])[j] == done[j];
  }

  lemma AscendingStep(s: set<int>, done: seq<int>, keys: seq<int>)
    requires s != {} && done + Ascending(s) == keys
    ensures (done + [MinKey(s)]) + Ascending(s - {MinKey(s)}) == keys
  {
    assert Ascending(s) == [MinKey(s)] + Ascending(s - {MinKey(s)});
  }
}
