/**
 * Stage B, the settlement processor (`processTransactions`): for every booking marked
 * `processing`, confirm with the payment provider that the charge was captured, then
 * credit the host's USD wallet, append one ledger row and complete the booking, all in
 * one transaction. Each booking is handled on its own; a failure leaves it `processing`.
 */
module Settlement {
  import opened Schema

  /** What retrieving the payment intent tells: its status, or that the call threw. */
  datatype Capture = CaptureSucceeded | CaptureNotSucceeded | RetrieveFailed

  /**
   * The outside world as one booking sees it. The statements of its database work are
   * numbered: with a failed capture, 0 is the status update; with a succeeded capture,
   * 0 is the wallet lookup, 1 the wallet update or insert, 2 the ledger insert and 3 the
   * booking update.
   */
  datatype SettleOracle = SettleOracle(capture: Capture, fault: Fault)

  /** The selection query: `transaction_status = 'processing'` (payment is not re-checked). */
  predicate Processable(b: Booking)
  {
    b.txStatus == Processing
  }

  predicate IsUsdWalletOf(w: Wallet, email: string)
  {
    w.email == email && w.currency == USD
  }

  /** `SELECT ... FROM wallet WHERE email = admin AND currency = 'USD' LIMIT 1`: the first such row. */
  function FindWallet(ws: seq<Wallet>, email: string): (r: Option<nat>)
    ensures r.Some? ==> r.value < |ws| && IsUsdWalletOf(ws[r.value], email)
    ensures r.Some? ==> forall i :: 0 <= i < r.value ==> !IsUsdWalletOf(ws[i], email)
    ensures r.None? ==> forall i :: 0 <= i < |ws| ==> !IsUsdWalletOf(ws[i], email)
  {
    if |ws| == 0 then None
    else if IsUsdWalletOf(ws[0], email) then Some(0)
    else match FindWallet(ws[1..], email)
      case None => None
      case Some(k) => Some(k + 1)
  }

  /** The host's USD wallet after a credit of `amount`: the found row grows, or a new active row appears. */
  function CreditWallet(ws: seq<Wallet>, email: string, amount: nat): (r: seq<Wallet>)
    ensures Balance(r) == Balance(ws) + amount
    ensures FindWallet(ws, email).Some? ==>
      var k := FindWallet(ws, email).value;
      && |r| == |ws|
      && r[k].amount == ws[k].amount + amount && r[k].email == email && r[k].currency == USD
      && r[k].status == ws[k].status
      && forall i :: 0 <= i < |ws| && i != k ==> r[i] == ws[i]
    ensures FindWallet(ws, email).None? ==>
      && |r| == |ws| + 1 && r[..|ws|] == ws
      && r[|ws|] == Wallet(email, amount, USD, WalletActive)
  {
    match FindWallet(ws, email)
    case Some(k) =>
      BalanceUpdate(ws, k, ws[k].(amount := ws[k].amount + amount));
      ws[k := ws[k].(amount := ws[k].amount + amount)]
    case None =>
      BalanceAppend(ws, Wallet(email, amount, USD, WalletActive));
      ws + [Wallet(email, amount, USD, WalletActive)]
  }

  /** The ledger row of a settlement, keyed `to_wallet_<transaction_id>`. */
  function WalletEntry(b: Booking): LedgerEntry
  {
    LedgerEntry("to_wallet_" + b.transactionId, Credit, b.amount, b.admin, "wallet", "system")
  }

  /** The booking's credit transaction commits. */
  predicate Credited(o: SettleOracle)
  {
    o.capture == CaptureSucceeded && !(o.fault.FaultAt? && o.fault.statement <= 3)
  }

  /** The capture was not confirmed and the status update went through. */
  predicate Rejected(o: SettleOracle)
  {
    o.capture == CaptureNotSucceeded && !Throws(o.fault, 0)
  }

  /** The booking row after its turn. */
  function Settled(b: Booking, o: SettleOracle): Booking
  {
    if Credited(o) then b.(txStatus := Completed)
    else if Rejected(o) then b.(txStatus := PaymentVerificationFailed)
    else b
  }

  /** The store after the turn of the booking at position j, which read the row `b`. */
  function SettleOne(d: Db, b: Booking, j: nat, o: SettleOracle): Db
    requires j < |d.bookings|
  {
    var bookings := d.bookings[j := Settled(d.bookings[j], o)];
    if Credited(o) then
      d.(wallets := CreditWallet(d.wallets, b.admin, b.amount), ledger := d.ledger + [WalletEntry(b)], bookings := bookings)
    else d.(bookings := bookings)
  }

  /** The store after the selected rows `rows` of the snapshot `table` have had their turn, in order. */
  function SettleAll(d: Db, table: seq<Booking>, rows: seq<nat>, oracle: nat -> SettleOracle): (r: Db)
    requires |d.bookings| == |table| && RowsIn(rows, |table|)
    ensures |r.bookings| == |table|
    ensures r.notifications == d.notifications
  {
    if |rows| == 0 then d
    else
      var j := rows[|rows| - 1];
      SettleOne(SettleAll(d, table, rows[..|rows| - 1], oracle), table[j], j, oracle(j))
  }

  /** One run of the job over the store `d`. */
  function SettleRun(d: Db, oracle: nat -> SettleOracle): Db
  {
    SettleAll(d, d.bookings, Positions(d.bookings, Processable), oracle)
  }

  method ProcessTransactions(db: Store, oracle: nat -> SettleOracle)
    modifies db
    ensures db.Value() == SettleRun(old(db.Value()), oracle)
  {
    var table := db.bookings;
    var rows := Positions(table, Processable);
    for k := 0 to |rows|
      invariant db.Value() == SettleAll(old(db.Value()), table, rows[..k], oracle)
    {
      var j := rows[k];
      assert rows[..k + 1][..k] == rows[..k];
      SettleBooking(db, table[j], j, oracle(j));
    }
    assert rows[..|rows|] == rows;
  }

  /** One booking's turn: the capture check, then the credit transaction. */
  method SettleBooking(db: Store, b: Booking, j: nat, o: SettleOracle)
    requires j < |db.bookings|
    modifies db
    ensures db.Value() == SettleOne(old(db.Value()), b, j, o)
  {
    match o.capture
    case RetrieveFailed =>
      // the provider call threw: logged, and the booking is retried on the next run
    case CaptureNotSucceeded =>
      if !Throws(o.fault, 0) {
        db.bookings := db.bookings[j := db.bookings[j].(txStatus := PaymentVerificationFailed)];
      }
    case CaptureSucceeded =>
      var wallets0, ledger0, bookings0 := db.wallets, db.ledger, db.bookings;
      var ok := !Throws(o.fault, 0);
      var found := FindWallet(db.wallets, b.admin);
      if ok {
        ok := !Throws(o.fault, 1);
        if ok {
          match found
          case Some(k) =>
            db.wallets := db.wallets[k := db.wallets[k].(amount := db.wallets[k].amount + b.amount)];
          case None =>
            db.wallets := db.wallets + [Wallet(b.admin, b.amount, USD, WalletActive)];
        }
      }
      if ok {
        ok := !Throws(o.fault, 2);
        if ok {
          db.ledger := db.ledger + [WalletEntry(b)];
        }
      }
      if ok {
        ok := !Throws(o.fault, 3);
        if ok {
          db.bookings := db.bookings[j := db.bookings[j].(txStatus := Completed)];
        }
      }
      if !ok {
        // the transaction threw: everything it wrote is rolled back
        db.wallets, db.ledger, db.bookings := wallets0, ledger0, bookings0;
      }
  }

  /** The ledger rows the credited rows append, in order. */
  function CreditEntries(table: seq<Booking>, rows: seq<nat>, oracle: nat -> SettleOracle): seq<LedgerEntry>
    requires RowsIn(rows, |table|)
  {
    if |rows| == 0 then []
    else
      var j := rows[|rows| - 1];
      CreditEntries(table, rows[..|rows| - 1], oracle) + (if Credited(oracle(j)) then [WalletEntry(table[j])] else [])
  }

  /** The amounts of the credited rows. */
  function CreditedAmount(table: seq<Booking>, rows: seq<nat>, oracle: nat -> SettleOracle): nat
    requires RowsIn(rows, |table|)
  {
    if |rows| == 0 then 0
    else
      var j := rows[|rows| - 1];
      CreditedAmount(table, rows[..|rows| - 1], oracle) + (if Credited(oracle(j)) then table[j].amount else 0)
  }

  /** Exactly one `to_wallet_` row per credited booking is appended, and nothing else. */
  lemma {:induction false} SettleLedger(d: Db, table: seq<Booking>, rows: seq<nat>, oracle: nat -> SettleOracle)
    requires |d.bookings| == |table| && RowsIn(rows, |table|)
    ensures SettleAll(d, table, rows, oracle).ledger == d.ledger + CreditEntries(table, rows, oracle)
  {
    if |rows| > 0 {
      SettleLedger(d, table, rows[..|rows| - 1], oracle);
    }
  }

  /** The wallets gain, in total, exactly the amounts of the credited bookings. */
  lemma {:induction false} SettleConservesMoney(d: Db, table: seq<Booking>, rows: seq<nat>, oracle: nat -> SettleOracle)
    requires |d.bookings| == |table| && RowsIn(rows, |table|)
    ensures Balance(SettleAll(d, table, rows, oracle).wallets) == Balance(d.wallets) + CreditedAmount(table, rows, oracle)
  {
    if |rows| > 0 {
      SettleConservesMoney(d, table, rows[..|rows| - 1], oracle);
    }
  }

  /**
   * Each booking's fate depends on its own oracle only: a selected row ends as `Settled`
   * says, whatever happened to the others, and an unselected row is untouched.
   */
  lemma {:induction false} SettleBookings(d: Db, table: seq<Booking>, rows: seq<nat>, oracle: nat -> SettleOracle)
    requires |d.bookings| == |table| && RowsIn(rows, |table|) && Increasing(rows)
    ensures forall j :: 0 <= j < |table| ==>
      SettleAll(d, table, rows, oracle).bookings[j] == if j in rows then Settled(d.bookings[j], oracle(j)) else d.bookings[j]
  {
    if |rows| > 0 {
      var n := |rows| - 1;
      var prefix := rows[..n];
      SettleBookings(d, table, prefix, oracle);
      assert rows == prefix + [rows[n]];
      assert rows[n] !in prefix;
    }
  }

  /** A booking becomes `completed` exactly when its credit committed; the amounts credited are those of the completed bookings. */
  lemma {:induction false} CompletedIffCredited(d: Db, oracle: nat -> SettleOracle, j: nat)
    requires j < |d.bookings| && Processable(d.bookings[j])
    ensures SettleRun(d, oracle).bookings[j].txStatus == Completed <==> Credited(oracle(j))
    ensures SettleRun(d, oracle).bookings[j].txStatus == PaymentVerificationFailed <==> Rejected(oracle(j))
    ensures SettleRun(d, oracle).bookings[j].txStatus == Processing <==> !Credited(oracle(j)) && !Rejected(oracle(j))
  {
    SettleRunPointwise(d, oracle);
  }

  /** Only `processing` bookings move, each along one legal edge, and only their status changes. */
  lemma {:induction false} SettleTransitions(d: Db, oracle: nat -> SettleOracle, j: nat)
    requires j < |d.bookings|
    ensures var b := SettleRun(d, oracle).bookings[j];
      && b == d.bookings[j].(txStatus := b.txStatus)
      && (b == d.bookings[j] || (Processable(d.bookings[j]) && Edge(Processing, b.txStatus)))
  {
    SettleRunPointwise(d, oracle);
  }

  /** A capture that did not succeed never touches a wallet or the ledger. */
  lemma NoCreditWithoutCapture(d: Db, b: Booking, j: nat, o: SettleOracle)
    requires j < |d.bookings| && o.capture != CaptureSucceeded
    ensures SettleOne(d, b, j, o).wallets == d.wallets
    ensures SettleOne(d, b, j, o).ledger == d.ledger
  {
  }

  /** After a run, the bookings still selected by the next run are exactly those whose turn failed. */
  lemma {:induction false} SettleRerun(d: Db, oracle: nat -> SettleOracle, j: nat)
    requires j < |d.bookings|
    ensures Processable(SettleRun(d, oracle).bookings[j]) <==>
      Processable(d.bookings[j]) && !Credited(oracle(j)) && !Rejected(oracle(j))
  {
    SettleRunPointwise(d, oracle);
  }

  /** The amounts of the bookings that went from `processing` to `completed` between two versions of the table. */
  function CompletedAmount(before: seq<Booking>, after: seq<Booking>): nat
    requires |before| == |after|
  {
    if |before| == 0 then 0
    else
      var n := |before| - 1;
      CompletedAmount(before[..n], after[..n])
        + (if before[n].txStatus == Processing && after[n].txStatus == Completed then before[n].amount else 0)
  }

  lemma {:induction false} CreditedAmountSnoc(table: seq<Booking>, rows: seq<nat>, j: nat, oracle: nat -> SettleOracle)
    requires RowsIn(rows, |table|) && j < |table|
    ensures RowsIn(rows + [j], |table|)
    ensures CreditedAmount(table, rows + [j], oracle)
      == CreditedAmount(table, rows, oracle) + (if Credited(oracle(j)) then table[j].amount else 0)
  {
    assert (rows + [j])[..|rows|] == rows;
  }

  lemma {:induction false} CompletedAmountSnoc(before: seq<Booking>, after: seq<Booking>, m: nat)
    requires 0 < m <= |before| == |after|
    ensures CompletedAmount(before[..m], after[..m]) == CompletedAmount(before[..m - 1], after[..m - 1])
      + (if before[m - 1].txStatus == Processing && after[m - 1].txStatus == Completed then before[m - 1].amount else 0)
  {
    assert before[..m][..m - 1] == before[..m - 1];
    assert after[..m][..m - 1] == after[..m - 1];
  }

  /** Every booking of `after` is the corresponding booking of `table` after its own turn. */
  ghost predicate SettledPointwise(table: seq<Booking>, after: seq<Booking>, oracle: nat -> SettleOracle)
  {
    |table| == |after| &&
    forall j :: 0 <= j < |table| ==>
      after[j] == if Processable(table[j]) then Settled(table[j], oracle(j)) else table[j]
  }

  lemma CompletedStep(b: Booking, a: Booking, o: SettleOracle)
    requires a == if Processable(b) then Settled(b, o) else b
    ensures (if b.txStatus == Processing && a.txStatus == Completed then b.amount else 0)
      == (if Processable(b) && Credited(o) then b.amount else 0)
  {
  }

  lemma {:induction false} CreditedIsCompleted(table: seq<Booking>, after: seq<Booking>, oracle: nat -> SettleOracle, m: nat)
    requires m <= |table| && SettledPointwise(table, after, oracle)
    ensures RowsIn(Positions(table[..m], Processable), |table|)
    ensures CreditedAmount(table, Positions(table[..m], Processable), oracle) == CompletedAmount(table[..m], after[..m])
  {
    if m > 0 {
      var n := m - 1;
      CreditedIsCompleted(table, after, oracle, n);
      CompletedAmountSnoc(table, after, m);
      CreditedIsCompletedStep(table, after[n], oracle, m);
    }
  }

  lemma {:induction false} CreditedIsCompletedStep(table: seq<Booking>, a: Booking, oracle: nat -> SettleOracle, m: nat)
    requires 0 < m <= |table|
    requires a == if Processable(table[m - 1]) then Settled(table[m - 1], oracle(m - 1)) else table[m - 1]
    ensures RowsIn(Positions(table[..m - 1], Processable), |table|)
    ensures RowsIn(Positions(table[..m], Processable), |table|)
    ensures CreditedAmount(table, Positions(table[..m], Processable), oracle)
      == CreditedAmount(table, Positions(table[..m - 1], Processable), oracle)
        + (if table[m - 1].txStatus == Processing && a.txStatus == Completed then table[m - 1].amount else 0)
  {
    var n := m - 1;
    var rows := Positions(table[..n], Processable);
    PositionsSnoc(table, Processable, m);
    CompletedStep(table[n], a, oracle(n));
    CreditedAmountSnoc(table, rows, n, oracle);
    if Processable(table[n]) {
      assert Positions(table[..m], Processable) == rows + [n];
    } else {
      assert Positions(table[..m], Processable) == rows;
    }
  }

  /** A whole run, booking by booking: each `processing` booking ends as its own turn decided. */
  lemma {:induction false} SettleRunPointwise(d: Db, oracle: nat -> SettleOracle)
    ensures SettledPointwise(d.bookings, SettleRun(d, oracle).bookings, oracle)
  {
    var rows := Positions(d.bookings, Processable);
    PositionsExact(d.bookings, Processable);
    SettleBookings(d, d.bookings, rows, oracle);
  }

  /**
   * Over a whole run, the total of all wallet balances grows by exactly the amounts of
   * the bookings that reached `completed`.
   */
  lemma {:induction false} SettleRunConservesMoney(d: Db, oracle: nat -> SettleOracle)
    ensures |SettleRun(d, oracle).bookings| == |d.bookings|
    ensures Balance(SettleRun(d, oracle).wallets) == Balance(d.wallets) + CompletedAmount(d.bookings, SettleRun(d, oracle).bookings)
  {
    var rows := Positions(d.bookings, Processable);
    var after := SettleRun(d, oracle).bookings;
    SettleConservesMoney(d, d.bookings, rows, oracle);
    SettleRunPointwise(d, oracle);
    CreditedIsCompleted(d.bookings, after, oracle, |d.bookings|);
    assert d.bookings[..|d.bookings|] == d.bookings;
    assert after[..|after|] == after;
  }
}
