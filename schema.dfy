/**
 * The shared store of the settlement jobs: the `bookings`, `wallet`, `transactions`
 * (ledger) and `notifications` tables, and the state machine that the jobs drive on
 * `bookings.transaction_status`.
 *
 * Money is integer cents throughout. A row is identified by its position in its table,
 * which plays the part of the primary key: `UPDATE ... WHERE id = x` is an update of
 * one position.
 */
module Schema {

  datatype Option<T> = None | Some(value: T)

  /** `bookings.transaction_status`: the latch that hands a booking from one job to the next. */
  datatype TxStatus =
    | Unavailable
    | Processing
    | ProcessRefund
    | Refunding
    | Refunded
    | Completed
    | PaymentVerificationFailed

  /** `bookings.status` (only `declined` is read and only `passed` is written by the jobs). */
  datatype BookingStatus = Active | Declined | Passed

  /** `bookings.meeting_status`. */
  datatype MeetingStatus = MeetingCreated | MeetingCompleted | MeetingOther

  datatype Booking = Booking(
    payment: bool,
    status: BookingStatus,
    meetingStatus: MeetingStatus,
    txStatus: TxStatus,
    joinedBy: Option<string>,   // None is SQL NULL
    startsOn: int,              // milliseconds since the epoch
    amount: nat,                // cents
    admin: string,              // the host's email: the payee of a settlement
    joinee: string,             // the participant's email: the recipient of a refund
    transactionId: string,      // the charge reference the settlement ledger key is built from
    topic: string)

  datatype Currency = USD | OtherCurrency

  datatype WalletStatus = WalletActive | WalletInactive

  datatype Wallet = Wallet(email: string, amount: nat, currency: Currency, status: WalletStatus)

  datatype EntryKind = Credit | Debit

  /** A row of the `transactions` table; `ref` is its `transaction_id` column. */
  datatype LedgerEntry = LedgerEntry(ref: string, kind: EntryKind, amount: nat, email: string, payee: string, payer: string)

  /** The two notification texts the refund job writes, kept as structured values. */
  datatype Message =
    | RefundedNotice(amount: nat, topic: string)
    | RefundFailedNotice(topic: string, error: string)

  /** A row of `notifications`; `userId` is None when the recipient has no profile row (SQL NULL). */
  datatype Notification = Notification(userId: Option<nat>, message: Message)

  /** The value of the whole store. */
  datatype Db = Db(bookings: seq<Booking>, wallets: seq<Wallet>, ledger: seq<LedgerEntry>, notifications: seq<Notification>)

  /** The database, whose tables the jobs update in place. */
  class Store {
    var bookings: seq<Booking>
    var wallets: seq<Wallet>
    var ledger: seq<LedgerEntry>
    var notifications: seq<Notification>

    function Value(): Db
      reads this
    {
      Db(bookings, wallets, ledger, notifications)
    }
  }

  /**
   * Where a row's database work fails: `FaultAt(k)` means the k-th SQL statement issued
   * for that row (counting from 0) throws; a statement that is never issued cannot throw.
   */
  datatype Fault = NoFault | FaultAt(statement: nat)

  predicate Throws(f: Fault, k: nat)
  {
    f.FaultAt? && f.statement == k
  }

  /** One write of `transaction_status` that some job performs. */
  predicate Edge(from: TxStatus, to: TxStatus)
  {
    match from
    case Unavailable => to == Processing || to == ProcessRefund
    case Processing => to == Completed || to == PaymentVerificationFailed
    case ProcessRefund => to == Refunding
    case Refunding => to == Refunding || to == Refunded
    case _ => false
  }

  /** The statuses no job selects. */
  predicate Terminal(s: TxStatus)
  {
    s == Completed || s == PaymentVerificationFailed || s == Refunded
  }

  lemma TerminalIsFinal(s: TxStatus, t: TxStatus)
    requires Terminal(s)
    ensures !Edge(s, t)
  {
  }

  predicate Increasing(r: seq<nat>)
  {
    forall a, b :: 0 <= a < b < |r| ==> r[a] < r[b]
  }

  lemma NextRowIsNew(rows: seq<nat>, k: nat)
    requires Increasing(rows) && k < |rows|
    ensures rows[k] !in rows[..k]
  {
  }

  lemma IncreasingPrefix(rows: seq<nat>, n: nat)
    requires Increasing(rows) && n <= |rows|
    ensures Increasing(rows[..n])
  {
  }

  lemma PrefixMember(rows: seq<nat>, n: nat, x: nat)
    requires n < |rows| && x !in rows
    ensures x !in rows[..n] && x != rows[n]
  {
  }

  /** Every position in `rows` is a row of a table of `n` rows. */
  predicate RowsIn(rows: seq<nat>, n: nat)
  {
    forall k :: 0 <= k < |rows| ==> rows[k] < n
  }

  /**
   * The rows a `SELECT ... WHERE p` returns, as positions in table order: exactly the
   * positions whose row satisfies `p`, each once.
   */
  function Positions<T>(s: seq<T>, p: T -> bool): (r: seq<nat>)
    ensures Increasing(r)
    ensures forall k :: 0 <= k < |r| ==> r[k] < |s| && p(s[r[k]])
  {
    if |s| == 0 then []
    else
      var r' := Positions(s[..|s| - 1], p);
      assert forall j :: 0 <= j < |s| - 1 ==> s[..|s| - 1][j] == s[j];
      if p(s[|s| - 1]) then r' + [|s| - 1] else r'
  }

  /** A position is selected exactly when its row satisfies the condition. */
  lemma {:induction false} PositionsExact<T>(s: seq<T>, p: T -> bool)
    ensures forall j :: 0 <= j < |s| ==> (j in Positions(s, p) <==> p(s[j]))
  {
    if |s| > 0 {
      var n := |s| - 1;
      PositionsExact(s[..n], p);
      assert forall j :: 0 <= j < n ==> s[..n][j] == s[j];
    }
  }

  lemma {:induction false} PositionsSnoc<T>(s: seq<T>, p: T -> bool, m: nat)
    requires 0 < m <= |s|
    ensures Positions(s[..m], p) == Positions(s[..m - 1], p) + (if p(s[m - 1]) then [m - 1] else [])
  {
    assert s[..m][..m - 1] == s[..m - 1];
  }

  /** The sum of all wallet balances. */
  function Balance(ws: seq<Wallet>): nat
  {
    if |ws| == 0 then 0 else Balance(ws[..|ws| - 1]) + ws[|ws| - 1].amount
  }

  lemma {:induction false} BalanceAppend(ws: seq<Wallet>, w: Wallet)
    ensures Balance(ws + [w]) == Balance(ws) + w.amount
  {
    assert (ws + [w])[..|ws|] == ws;
  }

  lemma {:induction false} BalanceUpdate(ws: seq<Wallet>, k: nat, w: Wallet)
    requires k < |ws|
    ensures Balance(ws[k := w]) + ws[k].amount == Balance(ws) + w.amount
  {
    var n := |ws| - 1;
    if k < n {
      BalanceUpdate(ws[..n], k, w);
      assert ws[k := w][..n] == ws[..n][k := w];
    } else {
      assert ws[k := w][..n] == ws[..n];
    }
  }
}
