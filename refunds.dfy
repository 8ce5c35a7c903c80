/**
 * Stage C, the refund processor (`processRefunds`): every paid booking marked
 * `processRefund` (or left `refunding` by an earlier run) is marked `refunding`, refunded
 * through the payment provider (reusing a refund the provider already holds), and then
 * closed in one transaction that records the ledger row, notifies the participant and
 * sets the booking `refunded`. A failure after the mark sends a failure notification and
 * leaves the booking `refunding`, so that the next run retries it.
 */
module Refunds {
  import opened Schema

  /** A refund object of the payment provider; the empty string stands for a missing field. */
  datatype Refund = Refund(id: string, status: string)

  /** Listing the payment's existing refunds: the list, or that the call threw. */
  datatype ListResult = ListFailed | Listed(refunds: seq<Refund>)

  /** Creating a refund: the new refund, or that the call threw. */
  datatype CreateResult = CreateFailed | Created(refund: Refund)

  /** Looking up the participant's profile row: its id, no row, or that the query threw. */
  datatype ProfileLookup = ProfileQueryFailed | NoProfile | Profile(id: nat)

  /**
   * The outside world as one booking sees it: the profile query, whether the `refunding`
   * mark throws, the provider's answers, where the closing transaction throws, whether
   * the failure notification throws, and the message of the error that is reported.
   * The statements of the closing transaction are numbered: 0 the ledger lookup, 1 the
   * ledger insert, 2 the notification lookup, 3 the notification insert, 4 the booking
   * update; the inserts are only issued when their lookup found nothing.
   */
  datatype RefundOracle = RefundOracle(
    profile: ProfileLookup,
    markFails: bool,
    list: ListResult,
    create: CreateResult,
    commitFault: Fault,
    noticeFails: bool,
    error: string)

  /** The selection query: `transaction_status IN ('processRefund', 'refunding') and payment = true`. */
  predicate Refundable(b: Booking)
  {
    (b.txStatus == ProcessRefund || b.txStatus == Refunding) && b.payment
  }

  /** How many existing refunds one list request returns. */
  const ListLimit: nat := 10

  predicate Reusable(r: Refund)
  {
    r.status == "succeeded" || r.status == "pending"
  }

  /** The first refund on the returned page that is succeeded or pending. */
  function FindReusable(rs: seq<Refund>): (r: Option<nat>)
    ensures r.Some? ==> r.value < |rs| && Reusable(rs[r.value])
    ensures r.Some? ==> forall i :: 0 <= i < r.value ==> !Reusable(rs[i])
    ensures r.None? ==> forall i :: 0 <= i < |rs| ==> !Reusable(rs[i])
  {
    if |rs| == 0 then None
    else if Reusable(rs[0]) then Some(0)
    else match FindReusable(rs[1..])
      case None => None
      case Some(k) => Some(k + 1)
  }

  /** The page of existing refunds one list request returns. */
  function Page(rs: seq<Refund>): (p: seq<Refund>)
    ensures |p| <= ListLimit && p <= rs
    ensures |rs| <= ListLimit ==> p == rs
    ensures |rs| > ListLimit ==> |p| == ListLimit
  {
    if |rs| <= ListLimit then rs else rs[..ListLimit]
  }

  /** The existing refund the job reuses, if any: a failed list counts as finding none. */
  function Existing(o: RefundOracle): Option<Refund>
  {
    if o.list.ListFailed? then None
    else
      var page := Page(o.list.refunds);
      match FindReusable(page)
      case None => None
      case Some(k) => Some(page[k])
  }

  /** The refund the booking ends up with: the reused one, else the created one; None when creation threw. */
  function ChosenRefund(o: RefundOracle): Option<Refund>
  {
    if Existing(o).Some? then Existing(o)
    else if o.create.Created? then Some(o.create.refund)
    else None
  }

  /** The profile id the notifications carry; None is SQL NULL. */
  function UserOf(p: ProfileLookup): Option<nat>
  {
    if p.Profile? then Some(p.id) else None
  }

  predicate HasRef(ledger: seq<LedgerEntry>, ref: string)
  {
    exists i :: 0 <= i < |ledger| && ledger[i].ref == ref
  }

  /**
   * `SELECT ... WHERE userid = uid AND message = m` finds a row. With a NULL user id
   * the comparison is never true, so nothing is found.
   */
  predicate HasNotice(notes: seq<Notification>, uid: Option<nat>, m: Message)
  {
    uid.Some? && exists i :: 0 <= i < |notes| && notes[i].userId == uid && notes[i].message == m
  }

  /** The refund's ledger row: a credit to the participant, keyed by the provider's refund id. */
  function RefundEntry(b: Booking, r: Refund): LedgerEntry
  {
    LedgerEntry(r.id, Credit, b.amount, b.joinee, b.joinee, "system")
  }

  function SuccessNotice(b: Booking): Message
  {
    RefundedNotice(b.amount, b.topic)
  }

  /** Some statement that the closing transaction actually issues throws. */
  predicate CommitThrows(d: Db, b: Booking, r: Refund, uid: Option<nat>, f: Fault)
  {
    || Throws(f, 0)
    || (Throws(f, 1) && !HasRef(d.ledger, r.id))
    || Throws(f, 2)
    || (Throws(f, 3) && !HasNotice(d.notifications, uid, SuccessNotice(b)))
    || Throws(f, 4)
  }

  /** The store after the closing transaction commits. */
  function Commit(d: Db, b: Booking, j: nat, r: Refund, uid: Option<nat>): Db
    requires j < |d.bookings|
  {
    var ledger := if HasRef(d.ledger, r.id) then d.ledger else d.ledger + [RefundEntry(b, r)];
    var notifications :=
      if HasNotice(d.notifications, uid, SuccessNotice(b)) then d.notifications
      else d.notifications + [Notification(uid, SuccessNotice(b))];
    d.(ledger := ledger, notifications := notifications,
       bookings := d.bookings[j := d.bookings[j].(txStatus := Refunded, status := Passed)])
  }

  /** The store, and whether an error escaped the per-booking handling and ended the run. */
  datatype Progress = Progress(db: Db, stopped: bool)

  /** The error path: a failure notification, whose own failure ends the run. */
  function Failure(d: Db, b: Booking, o: RefundOracle): Progress
  {
    if o.noticeFails then Progress(d, true)
    else Progress(d.(notifications := d.notifications + [Notification(UserOf(o.profile), RefundFailedNotice(b.topic, o.error))]), false)
  }

  function Mark(d: Db, j: nat): Db
    requires j < |d.bookings|
  {
    d.(bookings := d.bookings[j := d.bookings[j].(txStatus := Refunding)])
  }

  /** The turn of the booking at position j, which read the row `b`. */
  function RefundOne(d: Db, b: Booking, j: nat, o: RefundOracle): Progress
    requires j < |d.bookings|
  {
    if o.profile.ProfileQueryFailed? then Progress(d, true)
    else if o.markFails then Failure(d, b, o)
    else
      var marked := Mark(d, j);
      match ChosenRefund(o)
      case None => Failure(marked, b, o)
      case Some(r) =>
        if r.id == "" || r.status == "" then Progress(marked, false)
        else if CommitThrows(marked, b, r, UserOf(o.profile), o.commitFault) then Failure(marked, b, o)
        else Progress(Commit(marked, b, j, r, UserOf(o.profile)), false)
  }

  /** The selected rows `rows` of the snapshot `table` have had their turn, in order, until the run stopped. */
  function RefundAll(d: Db, table: seq<Booking>, rows: seq<nat>, oracle: nat -> RefundOracle): (r: Progress)
    requires |d.bookings| == |table| && RowsIn(rows, |table|)
    ensures |r.db.bookings| == |table|
    ensures r.db.wallets == d.wallets
  {
    if |rows| == 0 then Progress(d, false)
    else
      var prev := RefundAll(d, table, rows[..|rows| - 1], oracle);
      var j := rows[|rows| - 1];
      if prev.stopped then prev else RefundOne(prev.db, table[j], j, oracle(j))
  }

  /** One run of the job over the store `d`. */
  function RefundRun(d: Db, oracle: nat -> RefundOracle): Progress
  {
    RefundAll(d, d.bookings, Positions(d.bookings, Refundable), oracle)
  }

  method ProcessRefunds(db: Store, oracle: nat -> RefundOracle)
    modifies db
    ensures db.Value() == RefundRun(old(db.Value()), oracle).db
  {
    var table := db.bookings;
    var rows := Positions(table, Refundable);
    var k := 0;
    var stopped := false;
    while k < |rows| && !stopped
      invariant 0 <= k <= |rows|
      invariant Progress(db.Value(), stopped) == RefundAll(old(db.Value()), table, rows[..k], oracle)
    {
      var j := rows[k];
      assert rows[..k + 1][..k] == rows[..k];
      stopped := RefundBooking(db, table[j], j, oracle(j));
      k := k + 1;
    }
    StoppedRunIsFinal(old(db.Value()), table, rows, k, oracle);
  }

  /** One booking's turn; `stopped` says that an error escaped it and ends the run. */
  method RefundBooking(db: Store, b: Booking, j: nat, o: RefundOracle) returns (stopped: bool)
    requires j < |db.bookings|
    modifies db
    ensures Progress(db.Value(), stopped) == RefundOne(old(db.Value()), b, j, o)
  {
    if o.profile.ProfileQueryFailed? {
      // the profile query sits outside the per-booking error handling
      return true;
    }
    var failed := false;
    if o.markFails {
      failed := true;
    } else {
      db.bookings := db.bookings[j := db.bookings[j].(txStatus := Refunding)];
      var refund: Option<Refund> := None;
      match o.list {
        case ListFailed =>
          // logged and otherwise ignored
        case Listed(existing) =>
          var page := Page(existing);
          var k := FindReusable(page);
          if k.Some? {
            refund := Some(page[k.value]);
          }
      }
      if refund.None? {
        match o.create {
          case CreateFailed =>
            failed := true;
          case Created(created) =>
            refund := Some(created);
        }
      }
      if !failed && refund.value.id != "" && refund.value.status != "" {
        failed := CommitRefund(db, b, j, refund.value, UserOf(o.profile), o.commitFault);
      }
    }
    if failed {
      if o.noticeFails {
        return true;
      }
      db.notifications := db.notifications + [Notification(UserOf(o.profile), RefundFailedNotice(b.topic, o.error))];
    }
    return false;
  }

  /** The closing transaction; on a throw everything it wrote is rolled back. */
  method CommitRefund(db: Store, b: Booking, j: nat, r: Refund, uid: Option<nat>, f: Fault) returns (failed: bool)
    requires j < |db.bookings|
    modifies db
    ensures failed == CommitThrows(old(db.Value()), b, r, uid, f)
    ensures db.Value() == if failed then old(db.Value()) else Commit(old(db.Value()), b, j, r, uid)
  {
    var ledger0, notifications0, bookings0 := db.ledger, db.notifications, db.bookings;
    var ok := !Throws(f, 0);
    if ok && !HasRef(db.ledger, r.id) {
      ok := !Throws(f, 1);
      if ok {
        db.ledger := db.ledger + [RefundEntry(b, r)];
      }
    }
    if ok {
      ok := !Throws(f, 2);
    }
    if ok && !HasNotice(db.notifications, uid, SuccessNotice(b)) {
      ok := !Throws(f, 3);
      if ok {
        db.notifications := db.notifications + [Notification(uid, SuccessNotice(b))];
      }
    }
    if ok {
      ok := !Throws(f, 4);
      if ok {
        db.bookings := db.bookings[j := db.bookings[j].(txStatus := Refunded, status := Passed)];
      }
    }
    if !ok {
      db.ledger, db.notifications, db.bookings := ledger0, notifications0, bookings0;
    }
    failed := !ok;
  }

  /** Once an error has ended the run, the remaining bookings are not visited. */
  lemma {:induction false} StoppedRunIsFinal(d: Db, table: seq<Booking>, rows: seq<nat>, k: nat, oracle: nat -> RefundOracle)
    requires |d.bookings| == |table| && RowsIn(rows, |table|) && k <= |rows|
    requires k == |rows| || RefundAll(d, table, rows[..k], oracle).stopped
    ensures RefundAll(d, table, rows, oracle) == RefundAll(d, table, rows[..k], oracle)
  {
    if k < |rows| {
      var n := |rows| - 1;
      assert rows[..n][..k] == rows[..k];
      StoppedRunIsFinal(d, table, rows[..n], k, oracle);
    } else {
      assert rows[..k] == rows;
    }
  }

  /** The closing transaction of this turn commits. */
  predicate Closes(d: Db, b: Booking, o: RefundOracle)
  {
    && !o.profile.ProfileQueryFailed?
    && !o.markFails
    && ChosenRefund(o).Some?
    && ChosenRefund(o).value.id != ""
    && ChosenRefund(o).value.status != ""
    && !CommitThrows(d, b, ChosenRefund(o).value, UserOf(o.profile), o.commitFault)
  }

  /**
   * A booking becomes `refunded` (and `passed`) exactly when its closing transaction
   * commits, and then the ledger holds a row for the refund and, for a participant with
   * a profile, a success notification exists. Otherwise the ledger is untouched.
   */
  lemma RefundedWithLedgerAndNotice(d: Db, b: Booking, j: nat, o: RefundOracle)
    requires j < |d.bookings| && Refundable(d.bookings[j])
    ensures var p := RefundOne(d, b, j, o);
      && (p.db.bookings[j].txStatus == Refunded <==> Closes(d, b, o))
      && (Closes(d, b, o) ==>
            && p.db.bookings[j].status == Passed
            && HasRef(p.db.ledger, ChosenRefund(o).value.id)
            && (o.profile.Profile? ==> HasNotice(p.db.notifications, UserOf(o.profile), SuccessNotice(b)))
            && !p.stopped)
      && (!Closes(d, b, o) ==> p.db.ledger == d.ledger)
  {
    var p := RefundOne(d, b, j, o);
    if Closes(d, b, o) {
      var r := ChosenRefund(o).value;
      var uid := UserOf(o.profile);
      var marked := Mark(d, j);
      if !HasRef(marked.ledger, r.id) {
        assert p.db.ledger[|marked.ledger|].ref == r.id;
      }
      if uid.Some? && !HasNotice(marked.notifications, uid, SuccessNotice(b)) {
        assert p.db.notifications[|marked.notifications|] == Notification(uid, SuccessNotice(b));
      }
    }
  }

  /** The turn changes no other booking, and its booking only along legal edges of its status. */
  lemma RefundOneBookings(d: Db, b: Booking, j: nat, o: RefundOracle)
    requires j < |d.bookings|
    ensures var bs := RefundOne(d, b, j, o).db.bookings;
      && |bs| == |d.bookings|
      && (forall i :: 0 <= i < |d.bookings| && i != j ==> bs[i] == d.bookings[i])
      && RefundStep(d.bookings[j], bs[j])
  {
  }

  /** What one turn may do to its booking: nothing, mark it `refunding`, or close it as `refunded` and `passed`. */
  predicate RefundStep(before: Booking, after: Booking)
  {
    || after == before
    || after == before.(txStatus := Refunding)
    || after == before.(txStatus := Refunded, status := Passed)
  }

  lemma {:induction false} RefundAllBookings(d: Db, table: seq<Booking>, rows: seq<nat>, oracle: nat -> RefundOracle)
    requires |d.bookings| == |table| && RowsIn(rows, |table|) && Increasing(rows)
    ensures var bs := RefundAll(d, table, rows, oracle).db.bookings;
      forall j :: 0 <= j < |table| ==> (bs[j] == d.bookings[j] || j in rows) && RefundStep(d.bookings[j], bs[j])
  {
    if |rows| > 0 {
      var n := |rows| - 1;
      var prev := RefundAll(d, table, rows[..n], oracle);
      RefundAllBookings(d, table, rows[..n], oracle);
      assert rows == rows[..n] + [rows[n]];
      assert rows[n] !in rows[..n];
      if !prev.stopped {
        RefundOneBookings(prev.db, table[rows[n]], rows[n], oracle(rows[n]));
      }
    }
  }

  /**
   * Over a run, only selected bookings move, only their status columns change, and each
   * takes legal edges only: `processRefund` to `refunding` (to `refunded`), `refunding`
   * to `refunding` or `refunded`. A booking is selected again by the next run exactly when
   * it was selected by this one and did not reach `refunded`.
   */
  lemma {:induction false} RefundTransitions(d: Db, oracle: nat -> RefundOracle, j: nat)
    requires j < |d.bookings|
    ensures var b := RefundRun(d, oracle).db.bookings[j];
      && b == d.bookings[j].(txStatus := b.txStatus, status := b.status)
      && (b == d.bookings[j] || Refundable(d.bookings[j]))
      && (b.txStatus == d.bookings[j].txStatus || Edge(d.bookings[j].txStatus, b.txStatus)
          || (Edge(d.bookings[j].txStatus, Refunding) && Edge(Refunding, b.txStatus)))
      && (Refundable(b) <==> Refundable(d.bookings[j]) && b.txStatus != Refunded)
  {
    var rows := Positions(d.bookings, Refundable);
    PositionsExact(d.bookings, Refundable);
    RefundAllBookings(d, d.bookings, rows, oracle);
  }

  /** No two ledger rows carry the same reference. */
  predicate UniqueRefs(ledger: seq<LedgerEntry>)
  {
    forall a, b :: 0 <= a < b < |ledger| ==> ledger[a].ref != ledger[b].ref
  }

  /** No success notification for a known user appears twice. */
  predicate UniqueSuccessNotices(notes: seq<Notification>)
  {
    forall a, b :: 0 <= a < b < |notes| && notes[a].userId.Some? && notes[a].message.RefundedNotice? ==> notes[a] != notes[b]
  }

  lemma RefundOneKeepsUnique(d: Db, b: Booking, j: nat, o: RefundOracle)
    requires j < |d.bookings|
    requires UniqueRefs(d.ledger) && UniqueSuccessNotices(d.notifications)
    ensures UniqueRefs(RefundOne(d, b, j, o).db.ledger)
    ensures UniqueSuccessNotices(RefundOne(d, b, j, o).db.notifications)
  {
    var p := RefundOne(d, b, j, o);
    if Closes(d, b, o) {
      var r := ChosenRefund(o).value;
      var uid := UserOf(o.profile);
      if !HasRef(d.ledger, r.id) {
        assert forall a :: 0 <= a < |d.ledger| ==> d.ledger[a].ref != r.id;
      }
      if !HasNotice(d.notifications, uid, SuccessNotice(b)) {
        var n := Notification(uid, SuccessNotice(b));
        assert forall a :: 0 <= a < |d.notifications| && d.notifications[a].userId.Some? ==> d.notifications[a] != n;
      }
    }
  }

  /**
   * A run never adds a second ledger row for a refund id already recorded, nor a second
   * identical success notification for a participant with a profile.
   */
  lemma {:induction false} RefundAllKeepsUnique(d: Db, table: seq<Booking>, rows: seq<nat>, oracle: nat -> RefundOracle)
    requires |d.bookings| == |table| && RowsIn(rows, |table|)
    requires UniqueRefs(d.ledger) && UniqueSuccessNotices(d.notifications)
    ensures UniqueRefs(RefundAll(d, table, rows, oracle).db.ledger)
    ensures UniqueSuccessNotices(RefundAll(d, table, rows, oracle).db.notifications)
  {
    if |rows| > 0 {
      var n := |rows| - 1;
      var prev := RefundAll(d, table, rows[..n], oracle);
      RefundAllKeepsUnique(d, table, rows[..n], oracle);
      if !prev.stopped {
        RefundOneKeepsUnique(prev.db, table[rows[n]], rows[n], oracle(rows[n]));
      }
    }
  }

  /** The booking is marked `refunding` before the provider is called: a failed mark never reaches the provider. */
  lemma MarkBeforeProvider(d: Db, b: Booking, j: nat, o: RefundOracle, list: ListResult, create: CreateResult)
    requires j < |d.bookings| && o.markFails
    ensures RefundOne(d, b, j, o) == RefundOne(d, b, j, o.(list := list, create := create))
    ensures RefundOne(d, b, j, o).db.bookings == d.bookings
  {
  }

  /** A succeeded or pending refund already held by the provider is reused and no new refund is requested. */
  lemma ReuseSkipsCreate(d: Db, b: Booking, j: nat, o: RefundOracle, create: CreateResult, k: nat)
    requires j < |d.bookings| && o.list.Listed? && k < |o.list.refunds| && k < ListLimit
    requires Reusable(o.list.refunds[k]) && forall i :: 0 <= i < k ==> !Reusable(o.list.refunds[i])
    ensures ChosenRefund(o) == Some(o.list.refunds[k])
    ensures RefundOne(d, b, j, o) == RefundOne(d, b, j, o.(create := create))
  {
    var page := Page(o.list.refunds);
    assert page[k] == o.list.refunds[k];
    assert forall i :: 0 <= i < k ==> page[i] == o.list.refunds[i];
  }

  /** A failed list request is treated as finding no refund to reuse. */
  lemma ListFailureIsIgnored(d: Db, b: Booking, j: nat, o: RefundOracle)
    requires j < |d.bookings| && o.list.ListFailed?
    ensures RefundOne(d, b, j, o) == RefundOne(d, b, j, o.(list := Listed([])))
  {
  }

  /**
   * When the provider cannot refund, the booking stays `refunding`, nothing reaches the
   * ledger, and a failure notification is appended (or, if that insert throws, the run ends).
   */
  lemma ProviderFailureNotifies(d: Db, b: Booking, j: nat, o: RefundOracle)
    requires j < |d.bookings| && !o.profile.ProfileQueryFailed? && !o.markFails
    requires ChosenRefund(o).None?
    ensures var p := RefundOne(d, b, j, o);
      && p.db.bookings == d.bookings[j := d.bookings[j].(txStatus := Refunding)]
      && p.db.ledger == d.ledger
      && p.stopped == o.noticeFails
      && (!o.noticeFails ==>
            p.db.notifications == d.notifications + [Notification(UserOf(o.profile), RefundFailedNotice(b.topic, o.error))])
  {
  }

  /** A provider answer without an id or a status leaves the booking `refunding`, to be retried, and writes nothing else. */
  lemma IncompleteRefundWaits(d: Db, b: Booking, j: nat, o: RefundOracle)
    requires j < |d.bookings| && !o.profile.ProfileQueryFailed? && !o.markFails
    requires ChosenRefund(o).Some? && (ChosenRefund(o).value.id == "" || ChosenRefund(o).value.status == "")
    ensures RefundOne(d, b, j, o) == Progress(d.(bookings := d.bookings[j := d.bookings[j].(txStatus := Refunding)]), false)
  {
  }

  /** Re-closing a refund that is already recorded, for a participant already notified, adds no row. */
  lemma CommitIdempotent(d: Db, b: Booking, j: nat, r: Refund, uid: Option<nat>)
    requires j < |d.bookings| && HasRef(d.ledger, r.id) && HasNotice(d.notifications, uid, SuccessNotice(b))
    ensures Commit(d, b, j, r, uid).ledger == d.ledger
    ensures Commit(d, b, j, r, uid).notifications == d.notifications
  {
  }
}
