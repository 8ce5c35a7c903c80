/**
 * Stage D, the wallet sweeper (`processWalletWithdrawals`): inside ONE database
 * transaction, every active wallet holding more than ten dollars is paid out to its
 * owner's connected account, zeroed, and recorded in the ledger. A wallet whose owner has
 * no connected account is skipped; any other error aborts the loop and rolls back every
 * database write of the run, while the transfers already made stay made.
 */
module Withdrawals {
  import opened Schema

  /** Ten dollars, in cents: a wallet must hold strictly more to be swept. */
  const MinimumBalance: nat := 1000

  /** The selection query: `amount > 10 AND status = 'active'` (any currency). */
  predicate Eligible(w: Wallet)
  {
    w.amount > MinimumBalance && w.status == WalletActive
  }

  /** The owner's `profile.stripe_account_id`: the id (empty when unset), no profile row or a NULL id, or that the query threw. */
  datatype AccountLookup = AccountQueryFailed | NoAccountRow | Account(id: string)

  /** Creating the transfer: its id, or that the call threw. */
  datatype TransferResult = TransferFailed | TransferCreated(id: string)

  /**
   * The outside world as one selected wallet sees it. The statements after a transfer are
   * numbered: 0 the zeroing update, 1 the ledger insert.
   */
  datatype SweepOracle = SweepOracle(account: AccountLookup, transfer: TransferResult, fault: Fault)

  /** A transfer made to a connected account, recorded with the wallet owner it paid out. */
  datatype Transfer = Transfer(email: string, destination: string, cents: nat, id: string)

  /** The run in progress: the tables as the open transaction sees them, the transfers made, and whether it aborted. */
  datatype Sweep = Sweep(wallets: seq<Wallet>, ledger: seq<LedgerEntry>, transfers: seq<Transfer>, aborted: bool)

  /** `UPDATE wallet SET amount = 0 WHERE email = e`: every row of that owner, whatever its currency or status. */
  function ZeroByEmail(ws: seq<Wallet>, e: string): (r: seq<Wallet>)
    ensures |r| == |ws|
    ensures forall i :: 0 <= i < |ws| ==> r[i] == ws[i].(amount := r[i].amount)
    ensures forall i :: 0 <= i < |ws| ==> (r[i].amount == 0 <==> ws[i].email == e || ws[i].amount == 0)
    ensures forall i :: 0 <= i < |ws| && ws[i].email != e ==> r[i] == ws[i]
  {
    seq(|ws|, i requires 0 <= i < |ws| => if ws[i].email == e then ws[i].(amount := 0) else ws[i])
  }

  /** The ledger row of a payout, keyed `to_stripe_<transfer id>`. */
  function WithdrawalEntry(t: Transfer): LedgerEntry
  {
    LedgerEntry("to_stripe_" + t.id, Credit, t.cents, t.email, t.destination, "company_account")
  }

  /** The ledger rows of a sequence of payouts, in order. */
  function Entries(ts: seq<Transfer>): (r: seq<LedgerEntry>)
    ensures |r| == |ts|
    ensures forall i :: 0 <= i < |ts| ==> r[i] == WithdrawalEntry(ts[i])
  {
    if |ts| == 0 then [] else Entries(ts[..|ts| - 1]) + [WithdrawalEntry(ts[|ts| - 1])]
  }

  /** The owners that were paid out. */
  function Payees(ts: seq<Transfer>): set<string>
  {
    if |ts| == 0 then {} else Payees(ts[..|ts| - 1]) + {ts[|ts| - 1].email}
  }

  /** The sum paid out. */
  function Total(ts: seq<Transfer>): nat
  {
    if |ts| == 0 then 0 else Total(ts[..|ts| - 1]) + ts[|ts| - 1].cents
  }

  /** The turn of one selected wallet, as read by the selection query (`w`). */
  function SweepOne(s: Sweep, w: Wallet, o: SweepOracle): Sweep
  {
    match o.account
    case AccountQueryFailed => s.(aborted := true)
    case NoAccountRow => s
    case Account(acct) =>
      if acct == "" then s
      else match o.transfer
        case TransferFailed => s.(aborted := true)
        case TransferCreated(id) =>
          var t := Transfer(w.email, acct, w.amount, id);
          var paid := s.(transfers := s.transfers + [t]);
          if Throws(o.fault, 0) then paid.(aborted := true)
          else
            var zeroed := paid.(wallets := ZeroByEmail(s.wallets, w.email));
            if Throws(o.fault, 1) then zeroed.(aborted := true)
            else zeroed.(ledger := s.ledger + [WithdrawalEntry(t)])
  }

  /** The selected rows `rows` of the snapshot `table` have had their turn, in order, until the run aborted. */
  function SweepAll(s: Sweep, table: seq<Wallet>, rows: seq<nat>, oracle: nat -> SweepOracle): Sweep
    requires RowsIn(rows, |table|)
  {
    if |rows| == 0 then s
    else
      var prev := SweepAll(s, table, rows[..|rows| - 1], oracle);
      var j := rows[|rows| - 1];
      if prev.aborted then prev else SweepOne(prev, table[j], oracle(j))
  }

  function Start(d: Db): Sweep
  {
    Sweep(d.wallets, d.ledger, [], false)
  }

  /** The loop of one run over the store `d`. */
  function SweepRun(d: Db, oracle: nat -> SweepOracle): Sweep
  {
    SweepAll(Start(d), d.wallets, Positions(d.wallets, Eligible), oracle)
  }

  /**
   * The store after the run: the loop's writes if it finished and the enclosing
   * transaction's commit went through, the store as it was if the loop aborted or
   * the commit threw (`commitFails`).
   */
  function WithdrawDb(d: Db, oracle: nat -> SweepOracle, commitFails: bool): Db
  {
    var s := SweepRun(d, oracle);
    if s.aborted || commitFails then d else d.(wallets := s.wallets, ledger := s.ledger)
  }

  /**
   * One run; `transfers` are the payouts made and `committed` says whether the transaction
   * committed. `commitFails` says that the commit of the enclosing transaction throws.
   */
  method ProcessWalletWithdrawals(db: Store, oracle: nat -> SweepOracle, commitFails: bool) returns (transfers: seq<Transfer>, committed: bool)
    modifies db
    ensures transfers == SweepRun(old(db.Value()), oracle).transfers
    ensures committed == (!SweepRun(old(db.Value()), oracle).aborted && !commitFails)
    ensures db.Value() == WithdrawDb(old(db.Value()), oracle, commitFails)
  {
    var wallets0, ledger0 := db.wallets, db.ledger;
    var table := db.wallets;
    var rows := Positions(table, Eligible);
    transfers := [];
    var aborted := false;
    var k := 0;
    while k < |rows| && !aborted
      invariant 0 <= k <= |rows|
      invariant Sweep(db.wallets, db.ledger, transfers, aborted) == SweepAll(Start(old(db.Value())), table, rows[..k], oracle)
      invariant db.bookings == old(db.bookings) && db.notifications == old(db.notifications)
    {
      var j := rows[k];
      SweepAllStep(Start(old(db.Value())), table, rows, k, oracle);
      transfers, aborted := SweepWallet(db, transfers, table[j], oracle(j));
      k := k + 1;
    }
    StoppedSweepIsFinal(Start(old(db.Value())), table, rows, k, oracle);
    if aborted || commitFails {
      // the enclosing transaction rolls back; the transfers already made stay made
      db.wallets, db.ledger := wallets0, ledger0;
    }
    committed := !aborted && !commitFails;
  }

  lemma SweepAllStep(s: Sweep, table: seq<Wallet>, rows: seq<nat>, k: nat, oracle: nat -> SweepOracle)
    requires RowsIn(rows, |table|) && k < |rows|
    ensures var prev := SweepAll(s, table, rows[..k], oracle);
      !prev.aborted ==> SweepAll(s, table, rows[..k + 1], oracle) == SweepOne(prev, table[rows[k]], oracle(rows[k]))
  {
    assert rows[..k + 1][..k] == rows[..k];
  }

  /** One wallet's turn inside the open transaction. */
  method SweepWallet(db: Store, transfers: seq<Transfer>, w: Wallet, o: SweepOracle) returns (made: seq<Transfer>, aborted: bool)
    modifies db
    ensures Sweep(db.wallets, db.ledger, made, aborted) == SweepOne(Sweep(old(db.wallets), old(db.ledger), transfers, false), w, o)
    ensures db.bookings == old(db.bookings) && db.notifications == old(db.notifications)
  {
    made, aborted := transfers, false;
    match o.account {
      case AccountQueryFailed =>
        aborted := true;
      case NoAccountRow =>
        // skipped: no connected account
      case Account(acct) =>
        if acct != "" {
          match o.transfer {
            case TransferFailed =>
              aborted := true;
            case TransferCreated(id) =>
              var t := Transfer(w.email, acct, w.amount, id);
              made := transfers + [t];
              if Throws(o.fault, 0) {
                aborted := true;
              } else {
                db.wallets := ZeroByEmail(db.wallets, w.email);
                if Throws(o.fault, 1) {
                  aborted := true;
                } else {
                  db.ledger := db.ledger + [WithdrawalEntry(t)];
                }
              }
          }
        }
    }
  }

  /** Once the run has aborted, the remaining wallets are not attempted. */
  lemma {:induction false} StoppedSweepIsFinal(s: Sweep, table: seq<Wallet>, rows: seq<nat>, k: nat, oracle: nat -> SweepOracle)
    requires RowsIn(rows, |table|) && k <= |rows|
    requires k == |rows| || SweepAll(s, table, rows[..k], oracle).aborted
    ensures SweepAll(s, table, rows, oracle) == SweepAll(s, table, rows[..k], oracle)
  {
    if k < |rows| {
      var n := |rows| - 1;
      assert rows[..n][..k] == rows[..k];
      StoppedSweepIsFinal(s, table, rows[..n], k, oracle);
    } else {
      assert rows[..k] == rows;
    }
  }

  /** A wallet whose owner has no connected account is skipped without any write or transfer. */
  lemma SkippedWithoutAccount(s: Sweep, w: Wallet, o: SweepOracle)
    requires o.account.NoAccountRow? || o.account == Account("")
    ensures SweepOne(s, w, o) == s
  {
  }

  lemma {:induction false} EntriesSnoc(ts: seq<Transfer>, t: Transfer)
    ensures Entries(ts + [t]) == Entries(ts) + [WithdrawalEntry(t)]
  {
    assert (ts + [t])[..|ts|] == ts;
  }

  lemma {:induction false} PayeesSnoc(ts: seq<Transfer>, t: Transfer)
    ensures Payees(ts + [t]) == Payees(ts) + {t.email}
    ensures Total(ts + [t]) == Total(ts) + t.cents
  {
    assert (ts + [t])[..|ts|] == ts;
  }

  /** While the run goes on, the ledger holds exactly one `to_stripe_` row per payout made, in order. */
  lemma {:induction false} SweepLedger(s: Sweep, table: seq<Wallet>, rows: seq<nat>, oracle: nat -> SweepOracle)
    requires RowsIn(rows, |table|) && s.transfers == [] && !s.aborted
    ensures var r := SweepAll(s, table, rows, oracle);
      !r.aborted ==> r.ledger == s.ledger + Entries(r.transfers)
  {
    if |rows| > 0 {
      var n := |rows| - 1;
      var prev := SweepAll(s, table, rows[..n], oracle);
      SweepLedger(s, table, rows[..n], oracle);
      if !prev.aborted {
        SweepOneLedger(prev, s.ledger, table[rows[n]], oracle(rows[n]));
      }
    }
  }

  lemma SweepOneLedger(prev: Sweep, start: seq<LedgerEntry>, w: Wallet, o: SweepOracle)
    requires prev.ledger == start + Entries(prev.transfers)
    ensures var r := SweepOne(prev, w, o);
      !r.aborted ==> r.ledger == start + Entries(r.transfers)
  {
    var r := SweepOne(prev, w, o);
    SweepOneTransfers(prev, w, o);
    if Pays(o) && !r.aborted {
      var t := Transfer(w.email, o.account.id, w.amount, o.transfer.id);
      EntriesSnoc(prev.transfers, t);
      assert r.ledger == prev.ledger + [WithdrawalEntry(t)];
    }
  }

  /** Every payout moves the full balance the query read, which is above the minimum, to a non-empty account. */
  lemma {:induction false} TransfersAboveMinimum(s: Sweep, table: seq<Wallet>, rows: seq<nat>, oracle: nat -> SweepOracle)
    requires RowsIn(rows, |table|) && s.transfers == []
    requires forall k :: 0 <= k < |rows| ==> Eligible(table[rows[k]])
    ensures AllAboveMinimum(SweepAll(s, table, rows, oracle).transfers)
    ensures PaidFrom(SweepAll(s, table, rows, oracle).transfers, table)
  {
    if |rows| > 0 {
      var n := |rows| - 1;
      assert forall k :: 0 <= k < n ==> rows[..n][k] == rows[k];
      TransfersAboveMinimum(s, table, rows[..n], oracle);
      var prev := SweepAll(s, table, rows[..n], oracle);
      if !prev.aborted {
        PayoutAboveMinimum(prev, table, rows[n], oracle(rows[n]));
      }
    }
  }

  /** Every payout moves more than the minimum, to a non-empty account. */
  predicate AllAboveMinimum(ts: seq<Transfer>)
  {
    forall i :: 0 <= i < |ts| ==> ts[i].cents > MinimumBalance && ts[i].destination != ""
  }

  /** Every payout is the whole balance of some eligible row of `ws`, paid to that row's owner. */
  predicate PaidFrom(ts: seq<Transfer>, ws: seq<Wallet>)
  {
    forall i :: 0 <= i < |ts| ==>
      exists j :: 0 <= j < |ws| && Eligible(ws[j]) && ts[i].email == ws[j].email && ts[i].cents == ws[j].amount
  }

  lemma PayoutAboveMinimum(s: Sweep, table: seq<Wallet>, j: nat, o: SweepOracle)
    requires j < |table| && Eligible(table[j])
    requires AllAboveMinimum(s.transfers) && PaidFrom(s.transfers, table)
    ensures AllAboveMinimum(SweepOne(s, table[j], o).transfers)
    ensures PaidFrom(SweepOne(s, table[j], o).transfers, table)
  {
    var ts := SweepOne(s, table[j], o).transfers;
    forall i | 0 <= i < |ts|
      ensures exists k :: 0 <= k < |table| && Eligible(table[k]) && ts[i].email == table[k].email && ts[i].cents == table[k].amount
    {
      if i == |s.transfers| {
        assert ts[i].email == table[j].email && ts[i].cents == table[j].amount;
      } else {
        assert ts[i] == s.transfers[i];
      }
    }
  }

  /** Every wallet row keeps its place, owner, currency and status; only balances of paid-out owners drop, and to zero. */
  ghost predicate OnlyZeroed(before: seq<Wallet>, after: seq<Wallet>, ts: seq<Transfer>)
  {
    && |after| == |before|
    && forall j :: 0 <= j < |before| ==>
         after[j] == before[j] || (after[j] == before[j].(amount := 0) && before[j].email in Payees(ts))
  }

  /** Every wallet row of a paid-out owner is empty. */
  ghost predicate PayeesEmptied(ws: seq<Wallet>, ts: seq<Transfer>)
  {
    forall j :: 0 <= j < |ws| && ws[j].email in Payees(ts) ==> ws[j].amount == 0
  }

  lemma SweepOneWallets(s: Sweep, w: Wallet, o: SweepOracle)
    ensures var r := SweepOne(s, w, o);
      && OnlyZeroed(s.wallets, r.wallets, r.transfers)
      && Payees(s.transfers) <= Payees(r.transfers)
      && (!r.aborted && PayeesEmptied(s.wallets, s.transfers) ==> PayeesEmptied(r.wallets, r.transfers))
  {
    if o.account.Account? && o.account.id != "" && o.transfer.TransferCreated? {
      PayeesSnoc(s.transfers, Transfer(w.email, o.account.id, w.amount, o.transfer.id));
    }
  }

  lemma OnlyZeroedTrans(a: seq<Wallet>, b: seq<Wallet>, c: seq<Wallet>, ts: seq<Transfer>, us: seq<Transfer>)
    requires OnlyZeroed(a, b, ts) && OnlyZeroed(b, c, us) && Payees(ts) <= Payees(us)
    ensures OnlyZeroed(a, c, us)
  {
    forall j | 0 <= j < |a|
      ensures c[j] == a[j] || (c[j] == a[j].(amount := 0) && a[j].email in Payees(us))
    {
      assert b[j].email == a[j].email;
    }
  }

  lemma {:induction false} SweepWallets(s: Sweep, table: seq<Wallet>, rows: seq<nat>, oracle: nat -> SweepOracle)
    requires RowsIn(rows, |table|) && s.transfers == [] && !s.aborted
    ensures var r := SweepAll(s, table, rows, oracle);
      OnlyZeroed(s.wallets, r.wallets, r.transfers) && (!r.aborted ==> PayeesEmptied(r.wallets, r.transfers))
  {
    if |rows| > 0 {
      var n := |rows| - 1;
      var prev := SweepAll(s, table, rows[..n], oracle);
      SweepWallets(s, table, rows[..n], oracle);
      if !prev.aborted {
        var r := SweepOne(prev, table[rows[n]], oracle(rows[n]));
        SweepOneWallets(prev, table[rows[n]], oracle(rows[n]));
        OnlyZeroedTrans(s.wallets, prev.wallets, r.wallets, prev.transfers, r.transfers);
      }
    }
  }

  /** No two wallet rows belong to the same owner. */
  predicate UniqueOwners(ws: seq<Wallet>)
  {
    forall a, b :: 0 <= a < b < |ws| ==> ws[a].email != ws[b].email
  }

  lemma ZeroOnlyOwner(ws: seq<Wallet>, j: nat)
    requires j < |ws| && forall i :: 0 <= i < |ws| && i != j ==> ws[i].email != ws[j].email
    ensures ZeroByEmail(ws, ws[j].email) == ws[j := ws[j].(amount := 0)]
  {
  }

  /** One turn on a wallet whose owner has no other row: the wallet pays out what it loses, and no other row changes. */
  lemma ConservesStep(prev: Sweep, j: nat, w: Wallet, o: SweepOracle)
    requires j < |prev.wallets| && prev.wallets[j] == w
    requires forall i :: 0 <= i < |prev.wallets| && i != j ==> prev.wallets[i].email != w.email
    ensures var r := SweepOne(prev, w, o);
      !r.aborted ==>
        && |r.wallets| == |prev.wallets|
        && Balance(r.wallets) + Total(r.transfers) == Balance(prev.wallets) + Total(prev.transfers)
        && (forall i :: 0 <= i < |prev.wallets| ==> r.wallets[i].email == prev.wallets[i].email)
        && (forall i :: 0 <= i < |prev.wallets| && i != j ==> r.wallets[i] == prev.wallets[i])
  {
    var r := SweepOne(prev, w, o);
    if o.account.Account? && o.account.id != "" && o.transfer.TransferCreated? && !Throws(o.fault, 0) {
      var t := Transfer(w.email, o.account.id, w.amount, o.transfer.id);
      var zeroed := prev.wallets[j := w.(amount := 0)];
      ZeroOnlyOwner(prev.wallets, j);
      assert r.wallets == zeroed && r.transfers == prev.transfers + [t];
      PayeesSnoc(prev.transfers, t);
      BalanceUpdate(prev.wallets, j, w.(amount := 0));
    } else {
      assert r.aborted || (r.wallets == prev.wallets && r.transfers == prev.transfers);
    }
  }

  /**
   * While the run goes on: the wallets lose exactly what the transfers paid out, every
   * row keeps its owner, and every row not yet visited is as the query read it.
   */
  ghost predicate Conserved(d: Db, r: Sweep, rows: seq<nat>)
  {
    && |r.wallets| == |d.wallets|
    && Balance(r.wallets) + Total(r.transfers) == Balance(d.wallets)
    && (forall j :: 0 <= j < |d.wallets| ==> r.wallets[j].email == d.wallets[j].email)
    && (forall j :: 0 <= j < |d.wallets| && j !in rows ==> r.wallets[j] == d.wallets[j])
  }

  /** With one wallet row per owner, the run conserves money until it aborts. */
  lemma {:induction false} SweepConserves(d: Db, rows: seq<nat>, oracle: nat -> SweepOracle)
    requires RowsIn(rows, |d.wallets|) && Increasing(rows) && UniqueOwners(d.wallets)
    ensures var r := SweepAll(Start(d), d.wallets, rows, oracle);
      !r.aborted ==> Conserved(d, r, rows)
  {
    if |rows| > 0 {
      var n := |rows| - 1;
      IncreasingPrefix(rows, n);
      SweepConserves(d, rows[..n], oracle);
      ConservedStep(d, rows, oracle);
    }
  }

  lemma ConservedStep(d: Db, rows: seq<nat>, oracle: nat -> SweepOracle)
    requires RowsIn(rows, |d.wallets|) && Increasing(rows) && UniqueOwners(d.wallets) && |rows| > 0
    requires var prev := SweepAll(Start(d), d.wallets, rows[..|rows| - 1], oracle);
      !prev.aborted ==> Conserved(d, prev, rows[..|rows| - 1])
    ensures var r := SweepAll(Start(d), d.wallets, rows, oracle);
      !r.aborted ==> Conserved(d, r, rows)
  {
    var n := |rows| - 1;
    var prev := SweepAll(Start(d), d.wallets, rows[..n], oracle);
    if !prev.aborted {
      var j := rows[n];
      var w := d.wallets[j];
      NextRowIsNew(rows, n);
      assert prev.wallets[j] == w;
      OwnerAlone(d.wallets, prev.wallets, j);
      var r := SweepOne(prev, w, oracle(j));
      ConservesStep(prev, j, w, oracle(j));
      if !r.aborted {
        forall i | 0 <= i < |d.wallets|
          ensures r.wallets[i].email == d.wallets[i].email
        {
          assert r.wallets[i].email == prev.wallets[i].email;
        }
        forall i | 0 <= i < |d.wallets| && i !in rows
          ensures r.wallets[i] == d.wallets[i]
        {
          PrefixMember(rows, n, i);
          assert r.wallets[i] == prev.wallets[i];
        }
      }
    }
  }

  lemma OwnerAlone(ws: seq<Wallet>, cur: seq<Wallet>, j: nat)
    requires UniqueOwners(ws) && j < |ws| && |cur| == |ws|
    requires forall i :: 0 <= i < |ws| ==> cur[i].email == ws[i].email
    ensures forall i :: 0 <= i < |cur| && i != j ==> cur[i].email != ws[j].email
  {
    forall i | 0 <= i < |cur| && i != j
      ensures cur[i].email != ws[j].email
    {
      if i < j {
        assert ws[i].email != ws[j].email;
      } else {
        assert ws[j].email != ws[i].email;
      }
    }
  }

  /**
   * A committed run appends one ledger row per payout and nothing else; an aborted run
   * leaves the store exactly as it was.
   */
  lemma WithdrawalLedger(d: Db, oracle: nat -> SweepOracle, commitFails: bool)
    ensures SweepRun(d, oracle).aborted || commitFails ==> WithdrawDb(d, oracle, commitFails) == d
    ensures !SweepRun(d, oracle).aborted && !commitFails ==>
      WithdrawDb(d, oracle, commitFails).ledger == d.ledger + Entries(SweepRun(d, oracle).transfers)
  {
    SweepLedger(Start(d), d.wallets, Positions(d.wallets, Eligible), oracle);
  }

  /**
   * Every payout is of a balance above ten dollars, to a connected account, and is the
   * whole balance the query read for one of the owner's eligible rows.
   */
  lemma WithdrawalAmounts(d: Db, oracle: nat -> SweepOracle)
    ensures AllAboveMinimum(SweepRun(d, oracle).transfers)
    ensures PaidFrom(SweepRun(d, oracle).transfers, d.wallets)
  {
    TransfersAboveMinimum(Start(d), d.wallets, Positions(d.wallets, Eligible), oracle);
  }

  /**
   * A committed run only zeroes wallets, and only those of paid-out owners; all of those
   * are then empty, so the next run selects none of them.
   */
  lemma WithdrawalZeroes(d: Db, oracle: nat -> SweepOracle, commitFails: bool)
    ensures var after := WithdrawDb(d, oracle, commitFails).wallets;
      var ts := SweepRun(d, oracle).transfers;
      && OnlyZeroed(d.wallets, after, if SweepRun(d, oracle).aborted || commitFails then [] else ts)
      && (!SweepRun(d, oracle).aborted && !commitFails ==>
            forall j :: 0 <= j < |after| && after[j].email in Payees(ts) ==> !Eligible(after[j]))
  {
    SweepWallets(Start(d), d.wallets, Positions(d.wallets, Eligible), oracle);
  }

  /** With one wallet row per owner, a committed run lowers the total balance by exactly the sum paid out. */
  lemma WithdrawalConservesMoney(d: Db, oracle: nat -> SweepOracle, commitFails: bool)
    requires UniqueOwners(d.wallets)
    ensures !SweepRun(d, oracle).aborted && !commitFails ==>
      Balance(WithdrawDb(d, oracle, commitFails).wallets) + Total(SweepRun(d, oracle).transfers) == Balance(d.wallets)
  {
    var r := SweepRun(d, oracle);
    SweepConserves(d, Positions(d.wallets, Eligible), oracle);
    if !r.aborted {
      assert Conserved(d, r, Positions(d.wallets, Eligible));
    }
  }

  /** The summed balances of the rows of `ws` at the positions in `p`. */
  ghost function SumAt(ws: seq<Wallet>, p: set<nat>): nat
  {
    if |ws| == 0 then 0
    else SumAt(ws[..|ws| - 1], p) + (if |ws| - 1 in p then ws[|ws| - 1].amount else 0)
  }

  lemma {:induction false} SumAtAdd(ws: seq<Wallet>, p: set<nat>, j: nat)
    requires j < |ws| && j !in p
    ensures SumAt(ws, p + {j}) == SumAt(ws, p) + ws[j].amount
  {
    var n := |ws| - 1;
    if j < n {
      SumAtAdd(ws[..n], p, j);
    } else {
      SumAtSame(ws[..n], p, p + {j});
    }
  }

  lemma {:induction false} SumAtNone(ws: seq<Wallet>)
    ensures SumAt(ws, {}) == 0
  {
    if |ws| > 0 {
      SumAtNone(ws[..|ws| - 1]);
    }
  }

  /** Positions beyond the end of `ws` do not count. */
  lemma {:induction false} SumAtSame(ws: seq<Wallet>, p: set<nat>, q: set<nat>)
    requires forall j :: 0 <= j < |ws| ==> (j in p <==> j in q)
    ensures SumAt(ws, p) == SumAt(ws, q)
  {
    if |ws| > 0 {
      SumAtSame(ws[..|ws| - 1], p, q);
    }
  }

  /**
   * When each row either keeps its balance or is emptied, and every row in `p` is
   * emptied, the balance lost covers the balances that `p` held.
   */
  lemma {:induction false} SumAtBound(before: seq<Wallet>, after: seq<Wallet>, p: set<nat>)
    requires |after| == |before|
    requires forall j :: 0 <= j < |before| ==> after[j] == before[j] || after[j].amount == 0
    requires forall j :: 0 <= j < |before| && j in p ==> after[j].amount == 0
    ensures SumAt(before, p) + Balance(after) <= Balance(before)
  {
    if |before| > 0 {
      var n := |before| - 1;
      assert forall j :: 0 <= j < n ==> before[..n][j] == before[j] && after[..n][j] == after[j];
      SumAtBound(before[..n], after[..n], p);
    }
  }

  /** The turn of a wallet whose owner has a connected account and whose transfer is created. */
  predicate Pays(o: SweepOracle)
  {
    o.account.Account? && o.account.id != "" && o.transfer.TransferCreated?
  }

  /** The positions of the selected rows that were paid out before the run aborted. */
  ghost function PaidRows(s: Sweep, table: seq<Wallet>, rows: seq<nat>, oracle: nat -> SweepOracle): (p: set<nat>)
    requires RowsIn(rows, |table|)
    ensures forall x :: x in p ==> x in rows
  {
    if |rows| == 0 then {}
    else
      var n := |rows| - 1;
      var paid := PaidRows(s, table, rows[..n], oracle);
      assert forall x :: x in rows[..n] ==> x in rows;
      if !SweepAll(s, table, rows[..n], oracle).aborted && Pays(oracle(rows[n])) then paid + {rows[n]} else paid
  }

  /** The transfers paid exactly the balances the query read for the rows in `paid`, to their owners. */
  ghost predicate PaysRows(d: Db, r: Sweep, paid: set<nat>)
  {
    && (forall j :: j in paid ==> j < |d.wallets| && d.wallets[j].email in Payees(r.transfers))
    && Total(r.transfers) == SumAt(d.wallets, paid)
  }

  /** A turn makes one transfer, of the balance the query read, exactly when the owner has an account and the transfer is created. */
  lemma SweepOneTransfers(s: Sweep, w: Wallet, o: SweepOracle)
    ensures SweepOne(s, w, o).transfers ==
      if Pays(o) then s.transfers + [Transfer(w.email, o.account.id, w.amount, o.transfer.id)] else s.transfers
  {
  }

  lemma PayOne(d: Db, prev: Sweep, paid: set<nat>, j: nat, o: SweepOracle)
    requires j < |d.wallets| && j !in paid && PaysRows(d, prev, paid)
    ensures PaysRows(d, SweepOne(prev, d.wallets[j], o), if Pays(o) then paid + {j} else paid)
  {
    var w := d.wallets[j];
    var ts := SweepOne(prev, w, o).transfers;
    SweepOneTransfers(prev, w, o);
    if Pays(o) {
      var t := Transfer(w.email, o.account.id, w.amount, o.transfer.id);
      PayeesSnoc(prev.transfers, t);
      SumAtAdd(d.wallets, paid, j);
      assert Payees(ts) == Payees(prev.transfers) + {w.email};
    }
  }

  lemma {:induction false} SweepPaysRows(d: Db, rows: seq<nat>, oracle: nat -> SweepOracle)
    requires RowsIn(rows, |d.wallets|) && Increasing(rows)
    ensures PaysRows(d, SweepAll(Start(d), d.wallets, rows, oracle), PaidRows(Start(d), d.wallets, rows, oracle))
  {
    if |rows| == 0 {
      SumAtNone(d.wallets);
    } else {
      var n := |rows| - 1;
      IncreasingPrefix(rows, n);
      SweepPaysRows(d, rows[..n], oracle);
      var prev := SweepAll(Start(d), d.wallets, rows[..n], oracle);
      if !prev.aborted {
        NextRowIsNew(rows, n);
        PayOne(d, prev, PaidRows(Start(d), d.wallets, rows[..n], oracle), rows[n], oracle(rows[n]));
      }
    }
  }

  /**
   * Whatever the store, a committed run never pays out more than the wallets lose: every
   * paid row is among the rows zeroed by owner, and each is paid once.
   */
  lemma WithdrawalNeverOverpays(d: Db, oracle: nat -> SweepOracle, commitFails: bool)
    ensures !SweepRun(d, oracle).aborted && !commitFails ==>
      Balance(WithdrawDb(d, oracle, commitFails).wallets) + Total(SweepRun(d, oracle).transfers) <= Balance(d.wallets)
  {
    var rows := Positions(d.wallets, Eligible);
    var r := SweepRun(d, oracle);
    var paid := PaidRows(Start(d), d.wallets, rows, oracle);
    SweepWallets(Start(d), d.wallets, rows, oracle);
    SweepPaysRows(d, rows, oracle);
    if !r.aborted && !commitFails {
      forall j | 0 <= j < |d.wallets| && j in paid
        ensures r.wallets[j].amount == 0
      {
        assert r.wallets[j].email == d.wallets[j].email;
      }
      SumAtBound(d.wallets, r.wallets, paid);
    }
  }

  /** Two owners with one wallet each, both above the minimum. */
  const TwoOwners: Db := Db([], [Wallet("a", 2000, USD, WalletActive), Wallet("b", 3000, USD, WalletActive)], [], [])

  /** The first owner is paid out; the second owner's transfer throws. */
  function SecondTransferFails(k: nat): SweepOracle
  {
    if k == 0 then SweepOracle(Account("acct_a"), TransferCreated("tr_1"), NoFault)
    else SweepOracle(Account("acct_b"), TransferFailed, NoFault)
  }

  lemma TwoOwnersSelected()
    ensures Positions(TwoOwners.wallets, Eligible) == [0, 1]
  {
    var ws := TwoOwners.wallets;
    PositionsSnoc(ws, Eligible, 1);
    PositionsSnoc(ws, Eligible, 2);
    assert ws[..0] == [] && ws[..2] == ws;
  }

  /**
   * The run is atomic in the database but not at the provider: a payout made before a
   * later wallet's transfer fails is rolled back from the ledger and the wallet, yet
   * the money has left the company account.
   */
  lemma TransferSurvivesRollback(commitFails: bool)
    ensures SweepRun(TwoOwners, SecondTransferFails).transfers == [Transfer("a", "acct_a", 2000, "tr_1")]
    ensures WithdrawDb(TwoOwners, SecondTransferFails, commitFails) == TwoOwners
  {
    var ws := TwoOwners.wallets;
    TwoOwnersSelected();
    var rows := Positions(ws, Eligible);
    assert rows[..1] == [0] && rows[..1][..0] == [];
    var s0 := Start(TwoOwners);
    assert SweepAll(s0, ws, rows[..1][..0], SecondTransferFails) == s0;
    var s1 := SweepOne(s0, ws[0], SecondTransferFails(0));
    assert s1.transfers == [Transfer("a", "acct_a", 2000, "tr_1")] && !s1.aborted;
    assert SweepAll(s0, ws, rows[..1], SecondTransferFails) == s1;
    var s2 := SweepOne(s1, ws[1], SecondTransferFails(1));
    assert s2 == s1.(aborted := true);
    assert SweepAll(s0, ws, rows, SecondTransferFails) == s2;
  }

  /** One owner with two wallet rows, only one of them above the minimum. */
  const SplitOwner: Db := Db([], [Wallet("a", 2000, USD, WalletActive), Wallet("a", 500, OtherCurrency, WalletActive)], [], [])

  function AllTransfersSucceed(k: nat): SweepOracle
  {
    SweepOracle(Account("acct_a"), TransferCreated("tr_1"), NoFault)
  }

  lemma SplitOwnerSelected()
    ensures Positions(SplitOwner.wallets, Eligible) == [0]
  {
    var ws := SplitOwner.wallets;
    PositionsSnoc(ws, Eligible, 1);
    PositionsSnoc(ws, Eligible, 2);
    assert ws[..0] == [] && ws[..2] == ws;
  }

  /**
   * Zeroing is by owner, not by row: an owner's second wallet row that was not selected
   * (here one below the minimum) is emptied too, without being paid out.
   */
  lemma ZeroingReachesUnselectedRows()
    ensures !SweepRun(SplitOwner, AllTransfersSucceed).aborted
    ensures Total(SweepRun(SplitOwner, AllTransfersSucceed).transfers) == 2000
    ensures Balance(SplitOwner.wallets) == 2500
    ensures Balance(WithdrawDb(SplitOwner, AllTransfersSucceed, false).wallets) == 0
  {
    var ws := SplitOwner.wallets;
    SplitOwnerSelected();
    var rows := Positions(ws, Eligible);
    assert rows[..0] == [];
    assert SweepAll(Start(SplitOwner), ws, rows[..0], AllTransfersSucceed) == Start(SplitOwner);
    var t := Transfer("a", "acct_a", 2000, "tr_1");
    var r := SweepRun(SplitOwner, AllTransfersSucceed);
    assert r == SweepOne(Start(SplitOwner), ws[0], AllTransfersSucceed(0));
    assert r.transfers == [t] && !r.aborted;
    PayeesSnoc([], t);
    var z := r.wallets;
    assert z == [Wallet("a", 0, USD, WalletActive), Wallet("a", 0, OtherCurrency, WalletActive)];
    assert z[..1] == [z[0]] && z[..1][..0] == [];
    assert ws[..1] == [ws[0]];
  }
}
