/**
 * Seat selection (main.py, lines 104-128): which unbooked ticket rows a request would take.
 * Rows are identified by their position in the ticket table; query order is table order,
 * which is ascending id order.
 */
module Selection {
  import opened Records

  /** The filter of a selection query: standing tickets, or tickets at one table. */
  datatype Selector = Standing | AtTable(table: int)

  /** One entry of a seat request from the hall map: `count` seats at `table`. */
  datatype TableRequest = TableRequest(table: int, count: nat)

  predicate Claimable(t: Ticket, s: Selector) {
    !t.isBooked &&
    match s
    case Standing => t.isForStanding
    case AtTable(n) => t.table == Some(n)
  }

  /** Positions of all rows the query for `s` returns, in query order. */
  function FreeIndices(ts: seq<Ticket>, s: Selector): (r: seq<nat>)
    ensures |r| <= |ts|
  {
    if ts == [] then []
    else
      var r := FreeIndices(ts[..|ts| - 1], s);
      if Claimable(ts[|ts| - 1], s) then r + [|ts| - 1] else r
  }

  /** The query returns exactly the claimable rows, each once, in ascending position order. */
  lemma {:induction false} FreeIndicesExact(ts: seq<Ticket>, s: Selector)
    ensures forall j :: 0 <= j < |FreeIndices(ts, s)| ==> FreeIndices(ts, s)[j] < |ts| && Claimable(ts[FreeIndices(ts, s)[j]], s)
    ensures forall j, k :: 0 <= j < k < |FreeIndices(ts, s)| ==> FreeIndices(ts, s)[j] < FreeIndices(ts, s)[k]
    ensures forall i :: 0 <= i < |ts| && Claimable(ts[i], s) ==> i in FreeIndices(ts, s)
  {
    if ts != [] {
      var front := ts[..|ts| - 1];
      FreeIndicesExact(front, s);
      assert forall i :: 0 <= i < |front| ==> front[i] == ts[i];
    }
  }

  /** The first `n` elements of an ascending list of all claimable rows are the `n` lowest ones. */
  lemma TakeIsLowest(ts: seq<Ticket>, s: Selector, n: nat)
    requires n <= |FreeIndices(ts, s)|
    ensures forall i, j :: 0 <= i < |ts| && Claimable(ts[i], s) && i !in FreeIndices(ts, s)[..n] && 0 <= j < n
              ==> FreeIndices(ts, s)[j] < i
  {
    var free := FreeIndices(ts, s);
    FreeIndicesExact(ts, s);
    forall i, j | 0 <= i < |ts| && Claimable(ts[i], s) && i !in free[..n] && 0 <= j < n
      ensures free[j] < i
    {
      var p :| 0 <= p < |free| && free[p] == i;
    }
  }

  /**
   * return_available_standing_tickets: the first `n` unbooked standing tickets, or None
   * (the source's False) when fewer than `n` are unbooked.
   */
  function StandingSelection(ts: seq<Ticket>, n: nat): (r: Option<seq<nat>>)
    ensures r.None? <==> |FreeIndices(ts, Standing)| < n
    ensures r.Some? ==> |r.value| == n
    ensures r.Some? ==> forall j :: 0 <= j < n ==>
              r.value[j] < |ts| && ts[r.value[j]].isForStanding && !ts[r.value[j]].isBooked
    ensures r.Some? ==> forall j, k :: 0 <= j < k < n ==> r.value[j] < r.value[k]
    ensures r.Some? ==> forall i, j :: 0 <= i < |ts| && Claimable(ts[i], Standing) && i !in r.value && 0 <= j < n ==>
              r.value[j] < i
  {
    var free := FreeIndices(ts, Standing);
    if |free| >= n then
      FreeIndicesExact(ts, Standing);
      TakeIsLowest(ts, Standing, n);
      Some(free[..n])
    else None
  }

  /** Total number of seats a request asks for. */
  function RequestedSeats(req: seq<TableRequest>): nat {
    if req == [] then 0 else RequestedSeats(req[..|req| - 1]) + req[|req| - 1].count
  }

  /** Some table of the request has fewer unbooked rows than it asks for. */
  predicate SomeTableShort(ts: seq<Ticket>, req: seq<TableRequest>) {
    exists k :: 0 <= k < |req| && |FreeIndices(ts, AtTable(req[k].table))| < req[k].count
  }

  /**
   * return_available_sitting_tickets: for each requested table in request order, the first
   * `count` unbooked rows at that table; None as soon as one table is short.
   */
  function SittingSelection(ts: seq<Ticket>, req: seq<TableRequest>): (r: Option<seq<nat>>)
    ensures r.Some? ==> |r.value| == RequestedSeats(req)
  {
    if req == [] then Some([])
    else
      var last := req[|req| - 1];
      match SittingSelection(ts, req[..|req| - 1])
      case None => None
      case Some(prev) =>
        var free := FreeIndices(ts, AtTable(last.table));
        if |free| >= last.count then Some(prev + free[..last.count]) else None
  }

  /** All or nothing: the selection fails exactly when some requested table is short. */
  lemma {:induction false} SittingAllOrNothing(ts: seq<Ticket>, req: seq<TableRequest>)
    ensures SittingSelection(ts, req).None? <==> SomeTableShort(ts, req)
  {
    if req != [] {
      var front := req[..|req| - 1];
      SittingAllOrNothing(ts, front);
      assert forall k :: 0 <= k < |front| ==> front[k] == req[k];
      if SomeTableShort(ts, front) {
        var k :| 0 <= k < |front| && |FreeIndices(ts, AtTable(front[k].table))| < front[k].count;
        assert |FreeIndices(ts, AtTable(req[k].table))| < req[k].count;
      }
    }
  }

  /** Once a prefix of the request fails, the whole request fails: the loop may stop at the first short table. */
  lemma SittingFailureIsFinal(ts: seq<Ticket>, req: seq<TableRequest>, k: nat)
    requires k <= |req| && SittingSelection(ts, req[..k]).None?
    ensures SittingSelection(ts, req).None?
  {
    SittingAllOrNothing(ts, req[..k]);
    SittingAllOrNothing(ts, req);
    var j :| 0 <= j < k && |FreeIndices(ts, AtTable(req[..k][j].table))| < req[..k][j].count;
    assert req[..k][j] == req[j];
  }

  /**
   * Entry `k` of the request owns the segment starting after the seats of the entries before
   * it, and that segment holds the `count` lowest unbooked rows at its table.
   */
  lemma {:induction false} SittingSegments(ts: seq<Ticket>, req: seq<TableRequest>, k: nat, j: nat)
    requires SittingSelection(ts, req).Some?
    requires k < |req| && j < req[k].count
    ensures j < |FreeIndices(ts, AtTable(req[k].table))|
    ensures RequestedSeats(req[..k]) + j < |SittingSelection(ts, req).value|
    ensures SittingSelection(ts, req).value[RequestedSeats(req[..k]) + j]
            == FreeIndices(ts, AtTable(req[k].table))[j]
  {
    var front, last := req[..|req| - 1], req[|req| - 1];
    SittingLast(ts, req);
    var prev := SittingSelection(ts, front).value;
    if k < |front| {
      assert front[k] == req[k] && front[..k] == req[..k];
      SittingSegments(ts, front, k, j);
      assert RequestedSeats(req[..k]) + j < |prev|;
    } else {
      assert k == |front| && req[..k] == front && last == req[k];
    }
  }

  /** A successful selection is the selection for all but the last entry, then that entry's lowest rows. */
  lemma SittingLast(ts: seq<Ticket>, req: seq<TableRequest>)
    requires req != [] && SittingSelection(ts, req).Some?
    ensures SittingSelection(ts, req[..|req| - 1]).Some?
    ensures req[|req| - 1].count <= |FreeIndices(ts, AtTable(req[|req| - 1].table))|
    ensures |SittingSelection(ts, req[..|req| - 1]).value| == RequestedSeats(req[..|req| - 1])
    ensures SittingSelection(ts, req).value
            == SittingSelection(ts, req[..|req| - 1]).value
               + FreeIndices(ts, AtTable(req[|req| - 1].table))[..req[|req| - 1].count]
  {
  }

  /** Every chosen row is unbooked and sits at a table the request named. */
  lemma SittingSelectionAtRequestedTables(ts: seq<Ticket>, req: seq<TableRequest>)
    requires SittingSelection(ts, req).Some?
    ensures forall p :: p in SittingSelection(ts, req).value ==>
              p < |ts| && !ts[p].isBooked && exists k :: 0 <= k < |req| && ts[p].table == Some(req[k].table)
  {
    var r := SittingSelection(ts, req).value;
    forall p | p in r
      ensures p < |ts| && !ts[p].isBooked && exists k :: 0 <= k < |req| && ts[p].table == Some(req[k].table)
    {
      var q :| 0 <= q < |r| && r[q] == p;
      var k := SelectedRowAt(ts, req, q);
    }
  }

  /** The row at position `q` of a selection is unbooked and sits at the table of entry `k`. */
  lemma SelectedRowAt(ts: seq<Ticket>, req: seq<TableRequest>, q: nat) returns (k: nat)
    requires SittingSelection(ts, req).Some? && q < |SittingSelection(ts, req).value|
    ensures k < |req|
    ensures SittingSelection(ts, req).value[q] < |ts|
    ensures !ts[SittingSelection(ts, req).value[q]].isBooked
    ensures ts[SittingSelection(ts, req).value[q]].table == Some(req[k].table)
  {
    var j;
    k, j := SegmentOf(req, q);
    SegmentRow(ts, req, k, j);
  }

  /** Row `j` of entry `k`'s segment is unbooked and sits at that entry's table. */
  lemma SegmentRow(ts: seq<Ticket>, req: seq<TableRequest>, k: nat, j: nat)
    requires SittingSelection(ts, req).Some?
    requires k < |req| && j < req[k].count
    ensures RequestedSeats(req[..k]) + j < |SittingSelection(ts, req).value|
    ensures SittingSelection(ts, req).value[RequestedSeats(req[..k]) + j] < |ts|
    ensures !ts[SittingSelection(ts, req).value[RequestedSeats(req[..k]) + j]].isBooked
    ensures ts[SittingSelection(ts, req).value[RequestedSeats(req[..k]) + j]].table == Some(req[k].table)
  {
    SittingSegments(ts, req, k, j);
    var free := FreeIndices(ts, AtTable(req[k].table));
    FreeIndicesExact(ts, AtTable(req[k].table));
    assert Claimable(ts[free[j]], AtTable(req[k].table));
  }

  /** Position `q` of a selection lies in the segment of exactly one request entry. */
  lemma {:induction false} SegmentOf(req: seq<TableRequest>, q: nat) returns (k: nat, j: nat)
    requires q < RequestedSeats(req)
    ensures k < |req| && j < req[k].count && q == RequestedSeats(req[..k]) + j
  {
    var front := req[..|req| - 1];
    assert req[..|req| - 1] == front;
    if q < RequestedSeats(front) {
      k, j := SegmentOf(front, q);
      assert req[..k] == front[..k];
    } else {
      k, j := |req| - 1, q - RequestedSeats(front);
    }
  }

  /** When the request names each table once, no row is chosen twice. */
  lemma SittingSeatsDistinct(ts: seq<Ticket>, req: seq<TableRequest>)
    requires SittingSelection(ts, req).Some?
    requires forall a, b :: 0 <= a < b < |req| ==> req[a].table != req[b].table
    ensures forall p, q :: 0 <= p < q < |SittingSelection(ts, req).value| ==>
              SittingSelection(ts, req).value[p] != SittingSelection(ts, req).value[q]
  {
    var r := SittingSelection(ts, req).value;
    forall p, q | 0 <= p < q < |r| ensures r[p] != r[q] {
      DistinctPositions(ts, req, r, p, q);
    }
  }

  lemma DistinctPositions(ts: seq<Ticket>, req: seq<TableRequest>, r: seq<nat>, p: nat, q: nat)
    requires SittingSelection(ts, req) == Some(r)
    requires forall a, b :: 0 <= a < b < |req| ==> req[a].table != req[b].table
    requires p < q < |r|
    ensures r[p] != r[q]
  {
    var k1, j1 := SegmentOf(req, p);
    var k2, j2 := SegmentOf(req, q);
    if k1 == k2 {
      SittingSegments(ts, req, k1, j1);
      SittingSegments(ts, req, k2, j2);
      var f := FreeIndices(ts, AtTable(req[k1].table));
      FreeIndicesExact(ts, AtTable(req[k1].table));
      assert j1 < j2 && r[p] == f[j1] && r[q] == f[j2];
    } else {
      SegmentRow(ts, req, k1, j1);
      SegmentRow(ts, req, k2, j2);
      assert req[k1].table != req[k2].table;
    }
  }

  /** A request that names one table twice takes the same row twice (both entries see the same free rows). */
  lemma RepeatedTableChosenTwice()
    ensures SittingSelection([NewTicket(1, Some(5), false)], [TableRequest(5, 1), TableRequest(5, 1)]) == Some([0, 0])
  {
    var ts := [NewTicket(1, Some(5), false)];
    var req := [TableRequest(5, 1), TableRequest(5, 1)];
    assert ts[..0] == [];
    assert FreeIndices(ts, AtTable(5)) == [0];
    assert req[..1] == [TableRequest(5, 1)];
    assert req[..1][..0] == [];
    assert [0][..1] == [0] && [] + [0] == [0] && [0] + [0] == [0, 0];
    assert SittingSelection(ts, req[..1][..0]) == Some([]);
    assert SittingSelection(ts, req[..1]) == Some([0]);
    assert req[..|req| - 1] == req[..1];
  }

  // ---- Per-table availability (return_table_availability) ----

  /** A row the availability query counts at table `n`: sitting, not booked and not paid. */
  predicate AvailableAt(t: Ticket, n: int) {
    !t.isForStanding && !t.isBooked && !t.isPaid && t.table == Some(n)
  }

  /** Number of rows counted at table `n`. */
  function FreeSeatsAt(ts: seq<Ticket>, n: int): (c: nat)
    ensures c <= |ts|
  {
    if ts == [] then 0
    else FreeSeatsAt(ts[..|ts| - 1], n) + (if AvailableAt(ts[|ts| - 1], n) then 1 else 0)
  }

  /**
   * On a table whose rows keep the lifecycle and placement rules, the count the hall map shows
   * is exactly the number of rows a request for that table can take.
   */
  lemma {:induction false} AvailabilityMatchesSelection(ts: seq<Ticket>, n: int)
    requires forall i :: 0 <= i < |ts| ==> Lifecycle(ts[i]) && WellPlaced(ts[i])
    ensures FreeSeatsAt(ts, n) == |FreeIndices(ts, AtTable(n))|
  {
    if ts != [] {
      AvailabilityMatchesSelection(ts[..|ts| - 1], n);
    }
  }

  /** So a sitting request succeeds exactly when every entry asks for at most what the map shows. */
  lemma SittingSucceedsIffAvailable(ts: seq<Ticket>, req: seq<TableRequest>)
    requires forall i :: 0 <= i < |ts| ==> Lifecycle(ts[i]) && WellPlaced(ts[i])
    ensures SittingSelection(ts, req).Some? <==>
            forall k :: 0 <= k < |req| ==> req[k].count <= FreeSeatsAt(ts, req[k].table)
  {
    SittingAllOrNothing(ts, req);
    forall k | 0 <= k < |req| ensures FreeSeatsAt(ts, req[k].table) == |FreeIndices(ts, AtTable(req[k].table))| {
      AvailabilityMatchesSelection(ts, req[k].table);
    }
  }

  /** Once the chosen rows are booked, no later selection can return any of them. */
  lemma BookedRowsNotReselected(ts: seq<Ticket>, idxs: seq<nat>, uid: int, now: int, s: Selector)
    ensures forall p :: p in FreeIndices(BookAll(ts, idxs, uid, now), s) ==> p !in idxs
  {
    FreeIndicesExact(BookAll(ts, idxs, uid, now), s);
  }
}
