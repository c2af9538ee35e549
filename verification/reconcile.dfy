/**
 * Bank reconciliation (main.py, lines 526-582): bank transactions are summed per variable
 * symbol (the user id) and every unpaid user is classified against the price of the tickets
 * they own.
 */
module Reconcile {
  import opened Config
  import opened Records

  /** One statement line: currency code, variable symbol read as a number, amount in hundredths. */
  datatype Transaction = Transaction(currency: string, variableSymbol: Option<int>, amountHundredths: int)

  /** `int(amount)`: Python truncates toward zero. */
  function WholeCrowns(hundredths: int): (c: int)
    ensures hundredths >= 0 ==> 0 <= c * 100 <= hundredths < c * 100 + 100
    ensures hundredths < 0 ==> c * 100 - 100 < hundredths <= c * 100 <= 0
  {
    if hundredths >= 0 then hundredths / 100 else -((-hundredths) / 100)
  }

  /** A line that enters the sums: in crowns and carrying a variable symbol. */
  predicate Counted(tx: Transaction) {
    tx.currency == "CZK" && tx.variableSymbol.Some?
  }

  predicate CountedFor(tx: Transaction, vs: int) {
    Counted(tx) && tx.variableSymbol == Some(vs)
  }

  /** Sum of the counted lines for symbol `vs`. */
  function SumFor(txs: seq<Transaction>, vs: int): int {
    if txs == [] then 0
    else SumFor(txs[..|txs| - 1], vs) + (if CountedFor(txs[|txs| - 1], vs) then WholeCrowns(txs[|txs| - 1].amountHundredths) else 0)
  }

  /** Some counted line carries symbol `vs`. */
  function HasPayment(txs: seq<Transaction>, vs: int): (b: bool)
    ensures b <==> exists i :: 0 <= i < |txs| && CountedFor(txs[i], vs)
    ensures !b ==> SumFor(txs, vs) == 0
  {
    if txs == [] then false
    else
      assert forall i :: 0 <= i < |txs| - 1 ==> txs[..|txs| - 1][i] == txs[i];
      HasPayment(txs[..|txs| - 1], vs) || CountedFor(txs[|txs| - 1], vs)
  }

  /** The entry `payments_dict` holds for symbol `vs`, if any. */
  function PaymentFor(txs: seq<Transaction>, vs: int): (p: Option<int>)
    ensures p.Some? <==> exists i :: 0 <= i < |txs| && CountedFor(txs[i], vs)
    ensures p.Some? ==> p.value == SumFor(txs, vs)
  {
    if HasPayment(txs, vs) then Some(SumFor(txs, vs)) else None
  }

  /**
   * The sums do not depend on how the statement is split: reading it in two parts and adding
   * the two sums gives the sum of the whole.
   */
  lemma {:induction false} SumForSplit(a: seq<Transaction>, b: seq<Transaction>, vs: int)
    ensures SumFor(a + b, vs) == SumFor(a, vs) + SumFor(b, vs)
  {
    if b != [] {
      var front := b[..|b| - 1];
      SumForSplit(a, front, vs);
      assert (a + b)[..|a + b| - 1] == a + front;
    } else {
      assert a + b == a;
    }
  }

  /** Lines in another currency or for another symbol leave a user's sum alone. */
  lemma {:induction false} SumForIgnoresOthers(txs: seq<Transaction>, tx: Transaction, vs: int)
    requires !CountedFor(tx, vs)
    ensures SumFor(txs + [tx], vs) == SumFor(txs, vs)
    ensures SumFor([tx] + txs, vs) == SumFor(txs, vs)
  {
    SumForSplit([tx], txs, vs);
    assert [tx][..0] == [];
  }

  /** The classification of one unpaid user: the source's report line. */
  datatype Verdict =
    | NotPaidYet(userId: int)
    | PaidExact(userId: int, price: int)
    | Overpaid(userId: int, received: int, price: int)
    | Underpaid(userId: int, received: int, price: int)

  /** The verdicts on which the user and their tickets become paid. */
  predicate Settles(v: Verdict) {
    v.PaidExact? || v.Overpaid?
  }

  /** The report line for one unpaid user who should pay `price` and whose symbol summed to `received`. */
  function Classify(uid: int, received: Option<int>, price: int): (v: Verdict)
    ensures v.userId == uid
    ensures v.NotPaidYet? <==> received.None?
    ensures Settles(v) <==> received.Some? && received.value >= price
    ensures received == Some(price) ==> v == PaidExact(uid, price)
    ensures received.Some? && received.value > price ==> v == Overpaid(uid, received.value, price)
    ensures received.Some? && received.value < price ==> v == Underpaid(uid, received.value, price)
  {
    match received
    case None => NotPaidYet(uid)
    case Some(sum) =>
      if price == sum then PaidExact(uid, price)
      else if price < sum then Overpaid(uid, sum, price)
      else Underpaid(uid, sum, price)
  }

  /** The verdict on user `u`: expected price is the number of tickets they own times the price. */
  function VerdictFor(u: User, ts: seq<Ticket>, txs: seq<Transaction>): (v: Verdict)
    ensures v.userId == u.id
    ensures v.NotPaidYet? <==> !HasPayment(txs, u.id)
    ensures Settles(v) <==> HasPayment(txs, u.id) && SumFor(txs, u.id) >= OwnedCount(ts, u.id) * Price
  {
    Classify(u.id, PaymentFor(txs, u.id), OwnedCount(ts, u.id) * Price)
  }

  /** How many of the first `j` users are unpaid: the position of user `j`'s line in the report. */
  function UnpaidBefore(us: seq<User>, j: nat): (n: nat)
    requires j <= |us|
    ensures n <= j
  {
    if j == 0 then 0 else UnpaidBefore(us, j - 1) + (if us[j - 1].isPaid then 0 else 1)
  }

  /** The report: one verdict per unpaid user, in user order (see `VerdictsInUserOrder`). */
  function Verdicts(us: seq<User>, ts: seq<Ticket>, txs: seq<Transaction>): (r: seq<Verdict>)
    ensures |r| == UnpaidBefore(us, |us|)
    ensures forall v :: v in r ==> exists j :: 0 <= j < |us| && !us[j].isPaid && v == VerdictFor(us[j], ts, txs)
  {
    if us == [] then []
    else
      var front := us[..|us| - 1];
      var u := us[|us| - 1];
      assert forall j :: 0 <= j < |front| ==> front[j] == us[j];
      UnpaidBeforePrefix(us, |front|, |front|);
      Verdicts(front, ts, txs) + (if !u.isPaid then [VerdictFor(u, ts, txs)] else [])
  }

  /** Counting the unpaid users among the first `j` only looks at those `j` users. */
  lemma {:induction false} UnpaidBeforePrefix(us: seq<User>, k: nat, j: nat)
    requires j <= k <= |us|
    ensures UnpaidBefore(us[..k], j) == UnpaidBefore(us, j)
  {
    if j > 0 {
      UnpaidBeforePrefix(us, k, j - 1);
    }
  }

  /** Unpaid user `j`'s verdict is line `UnpaidBefore(us, j)` of the report: the lines follow the users. */
  lemma {:induction false} VerdictsInUserOrder(us: seq<User>, ts: seq<Ticket>, txs: seq<Transaction>, j: nat)
    requires j < |us| && !us[j].isPaid
    ensures UnpaidBefore(us, j) < |Verdicts(us, ts, txs)|
    ensures Verdicts(us, ts, txs)[UnpaidBefore(us, j)] == VerdictFor(us[j], ts, txs)
  {
    var front := us[..|us| - 1];
    var u := us[|us| - 1];
    var head := Verdicts(front, ts, txs);
    assert Verdicts(us, ts, txs) == head + (if !u.isPaid then [VerdictFor(u, ts, txs)] else []);
    UnpaidBeforePrefix(us, |front|, j);
    if j < |front| {
      assert front[j] == us[j];
      VerdictsInUserOrder(front, ts, txs, j);
    } else {
      assert |head| == UnpaidBefore(front, |front|);
    }
  }

  /** The users the run marks as paid. */
  predicate Settled(u: User, ts: seq<Ticket>, txs: seq<Transaction>) {
    !u.isPaid && Settles(VerdictFor(u, ts, txs))
  }

  /** Ids of the users the run marks as paid. */
  function SettledIds(us: seq<User>, ts: seq<Ticket>, txs: seq<Transaction>): set<int> {
    set u | u in us && Settled(u, ts, txs) :: u.id
  }

  /** The user table after the run. */
  function ReconciledUsers(us: seq<User>, ts: seq<Ticket>, txs: seq<Transaction>): (r: seq<User>)
    ensures |r| == |us|
    ensures forall j :: 0 <= j < |us| && Settled(us[j], ts, txs) ==> r[j] == us[j].(isPaid := true)
    ensures forall j :: 0 <= j < |us| && !Settled(us[j], ts, txs) ==> r[j] == us[j]
  {
    seq(|us|, j requires 0 <= j < |us| => if Settled(us[j], ts, txs) then us[j].(isPaid := true) else us[j])
  }

  /** The ticket table after the run: every ticket of a settled user is paid. */
  function ReconciledTickets(us: seq<User>, ts: seq<Ticket>, txs: seq<Transaction>): (r: seq<Ticket>)
    ensures |r| == |ts|
    ensures forall i :: 0 <= i < |ts| ==> r[i] == ts[i].(isPaid := r[i].isPaid)
    ensures forall i :: 0 <= i < |ts| && ts[i].userId.None? ==> r[i] == ts[i]
  {
    var settled := SettledIds(us, ts, txs);
    seq(|ts|, i requires 0 <= i < |ts| =>
      if ts[i].userId.Some? && ts[i].userId.value in settled then ts[i].(isPaid := true) else ts[i])
  }

  /** Every settled user ends up paid together with every ticket they own. */
  lemma SettledUsersFullyPaid(us: seq<User>, ts: seq<Ticket>, txs: seq<Transaction>, j: nat)
    requires j < |us| && Settled(us[j], ts, txs)
    ensures ReconciledUsers(us, ts, txs)[j].isPaid
    ensures forall i :: 0 <= i < |ts| && OwnedBy(ts[i], us[j].id) ==> ReconciledTickets(us, ts, txs)[i].isPaid
  {
    assert us[j].id in SettledIds(us, ts, txs);
  }

  /** Users that are short or have not paid keep their state, and so do their tickets. */
  lemma UnsettledUntouched(us: seq<User>, ts: seq<Ticket>, txs: seq<Transaction>, i: nat)
    requires i < |ts| && ts[i].userId.Some?
    requires forall j :: 0 <= j < |us| && us[j].id == ts[i].userId.value ==> !Settled(us[j], ts, txs)
    ensures ReconciledTickets(us, ts, txs)[i] == ts[i]
  {
  }

  /**
   * A second run over the same transactions changes nothing: the users it settled are now
   * paid and skipped, and every other verdict is the same as before.
   */
  lemma ReconcileIdempotent(us: seq<User>, ts: seq<Ticket>, txs: seq<Transaction>)
    ensures SettledIds(ReconciledUsers(us, ts, txs), ReconciledTickets(us, ts, txs), txs) == {}
    ensures ReconciledUsers(ReconciledUsers(us, ts, txs), ReconciledTickets(us, ts, txs), txs)
            == ReconciledUsers(us, ts, txs)
    ensures ReconciledTickets(ReconciledUsers(us, ts, txs), ReconciledTickets(us, ts, txs), txs)
            == ReconciledTickets(us, ts, txs)
  {
    var us' := ReconciledUsers(us, ts, txs);
    var ts' := ReconciledTickets(us, ts, txs);
    forall u | u in us' ensures !Settled(u, ts', txs) {
      var j :| 0 <= j < |us'| && us'[j] == u;
      SameOwnersSameCount(ts, ts', u.id);
      assert VerdictFor(u, ts', txs) == VerdictFor(u, ts, txs);
    }
    assert SettledIds(us', ts', txs) == {};
  }
}
