/**
 * Stage A, the booking resolver (`updateBookings`): every unsettled paid booking is sent
 * toward payout (`processing`), toward refund (`processRefund`), or left to wait for a
 * later run. Each booking is decided and written in a transaction of its own.
 */
module BookingResolver {
  import opened Schema

  /** Twelve hours in milliseconds: how long an unattended booking waits before a refund. */
  const RefundDelay: int := 12 * 60 * 60 * 1000

  /** The selection query: `transaction_status = 'unavailable' and payment = true`. */
  predicate Unsettled(b: Booking)
  {
    b.txStatus == Unavailable && b.payment
  }

  /** JavaScript truthiness of `joined_by`: neither NULL nor the empty string. */
  predicate Joined(b: Booking)
  {
    b.joinedBy.Some? && b.joinedBy.value != ""
  }

  predicate Attended(b: Booking)
  {
    Joined(b) && (b.meetingStatus == MeetingCreated || b.meetingStatus == MeetingCompleted)
  }

  /** The row one booking's transaction leaves behind when it commits. */
  function Resolve(b: Booking, now: int): Booking
  {
    if !b.payment then b
    else if b.status == Declined then b.(txStatus := ProcessRefund)
    else if Attended(b) then b.(meetingStatus := MeetingCompleted, txStatus := Processing)
    else if now - b.startsOn > RefundDelay then b.(txStatus := ProcessRefund)
    else b
  }

  /**
   * The bookings table after one run. Each booking's transaction reads the clock anew:
   * `clock(j)` is the time the booking at position j is decided at, and `fails(j)` says
   * that its transaction throws (and is rolled back).
   */
  function ResolveAll(bs: seq<Booking>, clock: nat -> int, fails: nat -> bool): (r: seq<Booking>)
    ensures |r| == |bs|
    ensures forall j :: 0 <= j < |bs| && !Unsettled(bs[j]) ==> r[j] == bs[j]
    ensures forall j :: 0 <= j < |bs| && fails(j) ==> r[j] == bs[j]
    ensures forall j :: 0 <= j < |bs| ==> r[j] == bs[j] || Edge(bs[j].txStatus, r[j].txStatus)
    ensures forall j :: 0 <= j < |bs| ==> r[j] == bs[j].(txStatus := r[j].txStatus, meetingStatus := r[j].meetingStatus)
  {
    seq(|bs|, j requires 0 <= j < |bs| => if Unsettled(bs[j]) && !fails(j) then Resolve(bs[j], clock(j)) else bs[j])
  }

  /** How many of the selected rows failed. */
  function CountFailures(rows: seq<nat>, fails: nat -> bool): (n: nat)
    ensures n <= |rows|
  {
    if |rows| == 0 then 0
    else CountFailures(rows[..|rows| - 1], fails) + (if fails(rows[|rows| - 1]) then 1 else 0)
  }

  /** The failure count is zero exactly when no selected row failed, and full exactly when every one did. */
  lemma {:induction false} FailuresCounted(rows: seq<nat>, fails: nat -> bool)
    ensures CountFailures(rows, fails) == 0 <==> forall k :: 0 <= k < |rows| ==> !fails(rows[k])
    ensures CountFailures(rows, fails) == |rows| <==> forall k :: 0 <= k < |rows| ==> fails(rows[k])
  {
    if |rows| > 0 {
      var n := |rows| - 1;
      FailuresCounted(rows[..n], fails);
      assert forall k :: 0 <= k < n ==> rows[..n][k] == rows[k];
    }
  }

  method UpdateBookings(db: Store, clock: nat -> int, fails: nat -> bool) returns (successCount: nat, failureCount: nat)
    modifies db
    ensures db.bookings == ResolveAll(old(db.bookings), clock, fails)
    ensures db.wallets == old(db.wallets) && db.ledger == old(db.ledger)
    ensures db.notifications == old(db.notifications)
    ensures successCount + failureCount == |Positions(old(db.bookings), Unsettled)|
    ensures failureCount == CountFailures(Positions(old(db.bookings), Unsettled), fails)
  {
    var table := db.bookings;
    var rows := Positions(table, Unsettled);
    successCount, failureCount := 0, 0;
    for k := 0 to |rows|
      invariant db.wallets == old(db.wallets) && db.ledger == old(db.ledger)
      invariant db.notifications == old(db.notifications)
      invariant db.bookings == Resolved(table, rows[..k], clock, fails)
      invariant successCount + failureCount == k
      invariant failureCount == CountFailures(rows[..k], fails)
    {
      var j := rows[k];
      var b := table[j];
      NextRowIsNew(rows, k);
      CountFailuresSnoc(rows, k, fails);
      ResolvedStep(table, rows[..k], j, clock, fails);
      if fails(j) {
        // the transaction threw and was rolled back; the next booking is processed
        failureCount := failureCount + 1;
      } else {
        ResolveBooking(db, b, j, clock(j));
        successCount := successCount + 1;
      }
    }
    assert rows[..|rows|] == rows;
    ResolvedAll(table, rows, clock, fails);
  }

  lemma {:induction false} CountFailuresSnoc(rows: seq<nat>, k: nat, fails: nat -> bool)
    requires k < |rows|
    ensures rows[..k + 1] == rows[..k] + [rows[k]]
    ensures CountFailures(rows[..k + 1], fails) == CountFailures(rows[..k], fails) + (if fails(rows[k]) then 1 else 0)
  {
    assert rows[..k + 1][..k] == rows[..k];
  }

  /** The bookings table once the rows in `done` have been processed. */
  ghost function Resolved(table: seq<Booking>, done: seq<nat>, clock: nat -> int, fails: nat -> bool): (r: seq<Booking>)
  {
    seq(|table|, j requires 0 <= j < |table| => if j in done && !fails(j) then Resolve(table[j], clock(j)) else table[j])
  }

  lemma ResolvedStep(table: seq<Booking>, done: seq<nat>, j: nat, clock: nat -> int, fails: nat -> bool)
    requires j < |table| && j !in done
    ensures |Resolved(table, done, clock, fails)| == |table|
    ensures Resolved(table, done, clock, fails)[j] == table[j]
    ensures Resolved(table, done + [j], clock, fails) ==
      if fails(j) then Resolved(table, done, clock, fails) else Resolved(table, done, clock, fails)[j := Resolve(table[j], clock(j))]
  {
  }

  lemma ResolvedAll(table: seq<Booking>, rows: seq<nat>, clock: nat -> int, fails: nat -> bool)
    requires rows == Positions(table, Unsettled)
    ensures Resolved(table, rows, clock, fails) == ResolveAll(table, clock, fails)
  {
    PositionsExact(table, Unsettled);
  }

  /** The body of one booking's transaction, on the row `b` it read, at position `j`, with the clock reading `now`. */
  method ResolveBooking(db: Store, b: Booking, j: nat, now: int)
    requires j < |db.bookings| && db.bookings[j] == b
    modifies db
    ensures db.bookings == old(db.bookings)[j := Resolve(b, now)]
    ensures db.wallets == old(db.wallets) && db.ledger == old(db.ledger)
    ensures db.notifications == old(db.notifications)
  {
    if b.payment {
      if b.status == Declined {
        db.bookings := db.bookings[j := b.(txStatus := ProcessRefund)];
      } else if Joined(b) && (b.meetingStatus == MeetingCreated || b.meetingStatus == MeetingCompleted) {
        var newMeetingStatus := if b.meetingStatus == MeetingCreated then MeetingCompleted else b.meetingStatus;
        db.bookings := db.bookings[j := b.(meetingStatus := newMeetingStatus, txStatus := Processing)];
      } else if now - b.startsOn > RefundDelay {
        db.bookings := db.bookings[j := b.(txStatus := ProcessRefund)];
      }
    }
  }

  lemma DeclinedAlwaysRefunds(bs: seq<Booking>, clock: nat -> int, fails: nat -> bool, j: nat)
    requires j < |bs| && Unsettled(bs[j]) && !fails(j)
    requires bs[j].status == Declined
    ensures ResolveAll(bs, clock, fails)[j] == bs[j].(txStatus := ProcessRefund)
  {
  }

  lemma AttendedProceedsToPayout(bs: seq<Booking>, clock: nat -> int, fails: nat -> bool, j: nat)
    requires j < |bs| && Unsettled(bs[j]) && !fails(j)
    requires bs[j].status != Declined && Joined(bs[j])
    requires bs[j].meetingStatus == MeetingCreated || bs[j].meetingStatus == MeetingCompleted
    ensures ResolveAll(bs, clock, fails)[j] == bs[j].(meetingStatus := MeetingCompleted, txStatus := Processing)
  {
  }

  /** An unattended booking is refunded only once strictly more than twelve hours have passed at its own clock reading. */
  lemma UnattendedWaitsTwelveHours(bs: seq<Booking>, clock: nat -> int, fails: nat -> bool, j: nat)
    requires j < |bs| && Unsettled(bs[j]) && !fails(j)
    requires bs[j].status != Declined && !Attended(bs[j])
    ensures clock(j) - bs[j].startsOn > RefundDelay ==> ResolveAll(bs, clock, fails)[j] == bs[j].(txStatus := ProcessRefund)
    ensures clock(j) - bs[j].startsOn <= RefundDelay ==> ResolveAll(bs, clock, fails)[j] == bs[j]
  {
  }

  /**
   * Re-running after a run in which nothing failed changes nothing, provided no booking's
   * clock reading has moved on (for instance, the same instant throughout).
   */
  lemma {:induction false} ResolveIdempotent(bs: seq<Booking>, clock: nat -> int, fails: nat -> bool, later: nat -> int, again: nat -> bool)
    requires forall j :: 0 <= j < |bs| ==> !fails(j)
    requires forall j :: 0 <= j < |bs| ==> later(j) <= clock(j)
    ensures ResolveAll(ResolveAll(bs, clock, fails), later, again) == ResolveAll(bs, clock, fails)
  {
    var once := ResolveAll(bs, clock, fails);
    var twice := ResolveAll(once, later, again);
    forall j | 0 <= j < |bs|
      ensures twice[j] == once[j]
    {
      if Unsettled(once[j]) {
        assert once[j] == bs[j];
      }
    }
  }

  /** A later run, at any time and with any failures, leaves every booking an earlier run moved. */
  lemma {:induction false} MovedBookingsStayMoved(bs: seq<Booking>, clock: nat -> int, fails: nat -> bool, later: nat -> int, again: nat -> bool, j: nat)
    requires j < |bs|
    requires ResolveAll(bs, clock, fails)[j] != bs[j]
    ensures ResolveAll(ResolveAll(bs, clock, fails), later, again)[j] == ResolveAll(bs, clock, fails)[j]
  {
    var once := ResolveAll(bs, clock, fails);
    assert Edge(bs[j].txStatus, once[j].txStatus);
    assert !Unsettled(once[j]);
  }
}
