# Settlement jobs, modelled in Dafny

This project models the four batch jobs that settle a booking marketplace's money:

1. **Booking resolver** (`updateBookings`). Every paid booking still `unavailable` is sent toward payout (`processing`) when the participant attended. It is sent toward refund (`processRefund`) when it was declined, or when it is unattended and more than twelve hours past its start. Otherwise it is left alone. Each booking is handled in a transaction of its own.
2. **Settlement processor** (`processTransactions`). For every `processing` booking, the job asks the payment provider whether the charge was captured. On success it credits the host's USD wallet (creating one if needed), appends a `to_wallet_` ledger row and marks the booking `completed`, all in one transaction. Otherwise it marks the booking `payment_verification_failed`, or leaves it for the next run.
3. **Refund processor** (`processRefunds`). Every paid booking in `processRefund` or `refunding` is marked `refunding` first. A succeeded or pending refund the provider already holds is reused; otherwise a new one is created. The job then writes, in one transaction, a deduplicated ledger row, a deduplicated notification, and `refunded`/`passed`. When the provider yields no refund (the create call throws), or the closing transaction fails, the job inserts a failure notification and the booking stays `refunding`. When the `refunding` mark itself throws, the booking keeps its status (`processRefund` or `refunding`) and a failure notification is inserted. A refund the provider returns without an id or a status leaves the booking `refunding` with no notification.
4. **Wallet sweeper** (`processWalletWithdrawals`). Inside one transaction, every active wallet holding more than ten dollars is paid out to its owner's connected account. The owner's wallets are then zeroed and a `to_stripe_` ledger row is appended. A wallet whose owner has no connected account is skipped. Any other error aborts the loop and rolls back every database write of the run. Transfers already made are not undone.

The store is a `Schema.Store` object whose four tables (`bookings`, `wallets`, `ledger`, `notifications`) are sequences that the job methods reassign in place. Each job is a `method` with the source's loop. Its postcondition ties the new store to a specification function over the old one, which is a fold over the rows the selection query returned. The properties the jobs promise are lemmas about those functions.

Conventions:

- A row is identified by its position in its table, which stands in for the primary key.
- Money is integer cents.
- Time is integer milliseconds.
- What the payment provider and the database answer for a row is an *oracle* parameter keyed by that row's position: a capture status, a list of refunds, a transfer id, or "the k-th statement of this row's transaction throws". Nothing is left to chance inside the model.

Files: `schema.dfy` (tables, the `transaction_status` state machine, row selection, balances), `booking_resolver.dfy`, `settlement.dfy`, `refunds.dfy`, `withdrawals.dfy`.

Notable behaviour of the code, which the model follows:

- The settlement processor selects on `transaction_status = 'processing'` alone. It does not re-check `payment`.
- In the refund processor, the profile lookup sits outside the per-booking error handling, and so does the insert of the failure notification. An error in either ends the whole run; it is not confined to that booking.
- The refund processor's failure path logs "marked as completed" but writes no status. The booking stays `refunding`.
- The wallet sweeper runs every wallet inside one transaction, with no per-wallet recovery marker, no idempotency key and no notification. It zeroes every wallet row of the owner, by email, before the ledger insert. A failed profile query aborts the whole run like a failed transfer.

## Model

| member | source | states |
|---|---|---|
| BookingResolver.ResolveAll | src/jobs/aUpdateBookings.js:36-168 | Each booking is decided at its own clock reading. Rows outside the selection (`unavailable` and paid) and rows whose transaction failed are unchanged. Every other row changes at most its `transaction_status` and `meeting_status`, and its status moves along one legal edge. |
| BookingResolver.CountFailures | src/jobs/aUpdateBookings.js:169-171 | The failure count never exceeds the number of selected rows. |
| BookingResolver.FailuresCounted | src/jobs/aUpdateBookings.js:169-171 | The failure count is zero exactly when no selected booking failed, and equals the selection exactly when every one did. |
| BookingResolver.UpdateBookings | src/jobs/aUpdateBookings.js:13-183 | The bookings table becomes `ResolveAll` of the old one, and wallets, ledger and notifications are untouched. `successCount + failureCount` equals the number of selected rows, and `failureCount` counts the failed ones. |
| BookingResolver.ResolveBooking | src/jobs/aUpdateBookings.js:56-166 | One booking's transaction writes only that booking's row: `processRefund` if declined; `meeting_status = completed` and `processing` if joined and the meeting was created or completed; `processRefund` if more than 12 h have elapsed; otherwise nothing. |
| BookingResolver.DeclinedAlwaysRefunds | src/jobs/aUpdateBookings.js:58-84 | A declined booking ends in `processRefund` whatever its `joined_by` and `meeting_status`, and only its status changes. |
| BookingResolver.AttendedProceedsToPayout | src/jobs/aUpdateBookings.js:90-121 | A non-declined booking that was joined, with meeting `created` or `completed`, ends `completed`/`processing`. |
| BookingResolver.UnattendedWaitsTwelveHours | src/jobs/aUpdateBookings.js:135-160 | Otherwise the booking moves to `processRefund` exactly when strictly more than 12 h have elapsed between its start and the clock reading taken for it; at 12 h or less it is unchanged. |
| BookingResolver.ResolveIdempotent | src/jobs/aUpdateBookings.js:13-17 | Re-running after a run without failures changes nothing, as long as no booking's clock reading is later than in the first run (for instance, at the same instant). |
| BookingResolver.MovedBookingsStayMoved | src/jobs/aUpdateBookings.js:13-17 | A booking moved by one run is left alone by any later run, at any clock readings and with any failures. |
| Settlement.FindWallet | src/jobs/bProcessTransactions.js:66-71 | The lookup finds the first USD wallet of the host, or reports that none exists. |
| Settlement.CreditWallet | src/jobs/bProcessTransactions.js:73-96 | The found wallet grows by the amount and no other wallet changes; with no wallet, one new active USD wallet holding the amount is appended. Either way the total balance grows by exactly the amount. |
| Settlement.SettleAll | src/jobs/bProcessTransactions.js:29-135 | The run keeps the bookings table's size and never touches notifications. |
| Settlement.ProcessTransactions | src/jobs/bProcessTransactions.js:13-135 | The store after the run equals `SettleRun` of the store before it. |
| Settlement.SettleBooking | src/jobs/bProcessTransactions.js:36-134 | One booking's turn equals `SettleOne`: a status update on a failed capture, the all-or-nothing credit transaction on a succeeded one, nothing when the provider call throws. |
| Settlement.SettleLedger | src/jobs/bProcessTransactions.js:98-113 | The ledger gains exactly one `to_wallet_<transaction_id>` credit row per credited booking, in order, and nothing else. |
| Settlement.SettleConservesMoney | src/jobs/bProcessTransactions.js:73-96 | The total wallet balance grows by exactly the amounts of the credited bookings. |
| Settlement.SettleBookings | src/jobs/bProcessTransactions.js:127-134 | Each selected booking ends as its own turn decided, whatever happened to the others; unselected bookings are untouched. |
| Settlement.CompletedIffCredited | src/jobs/bProcessTransactions.js:42-121 | A `processing` booking becomes `completed` exactly when its credit transaction commits. It becomes `payment_verification_failed` exactly when the capture did not succeed and the update went through. Otherwise it stays `processing`. |
| Settlement.SettleTransitions | src/jobs/bProcessTransactions.js:13-17 | Only `processing` bookings change, only in `transaction_status`, and only to `completed` or `payment_verification_failed`. |
| Settlement.NoCreditWithoutCapture | src/jobs/bProcessTransactions.js:42-56 | When the capture did not succeed or could not be retrieved, no wallet and no ledger row changes. |
| Settlement.SettleRerun | src/jobs/bProcessTransactions.js:127-134 | The next run selects a booking exactly when this run selected it and its turn neither credited nor rejected it. |
| Settlement.SettleRunConservesMoney | src/jobs/bProcessTransactions.js:73-120 | Over a whole run, the total wallet balance grows by exactly the amounts of the bookings that went from `processing` to `completed`. |
| Refunds.FindReusable | src/jobs/cIntiateRefunds.js:68-70 | The search finds the first refund whose status is `succeeded` or `pending`, or reports that there is none. |
| Refunds.Page | src/jobs/cIntiateRefunds.js:62-65 | One list request returns the first refunds the provider holds: all of them when there are ten or fewer, otherwise exactly the first ten. |
| Refunds.RefundAll | src/jobs/cIntiateRefunds.js:30-198 | The run keeps the bookings table's size and never touches wallets. |
| Refunds.ProcessRefunds | src/jobs/cIntiateRefunds.js:14-204 | The store after the run equals `RefundRun` of the store before it, including a run cut short by an escaping error. |
| Refunds.RefundBooking | src/jobs/cIntiateRefunds.js:37-197 | One booking's turn equals `RefundOne`, and `stopped` reports an error that escaped the per-booking handling. |
| Refunds.CommitRefund | src/jobs/cIntiateRefunds.js:99-160 | The closing transaction fails exactly when a statement it issues throws, and then it leaves the store as it was. Otherwise it commits `Commit`. |
| Refunds.StoppedRunIsFinal | src/jobs/cIntiateRefunds.js:175-203 | Once an error has ended the run, no later booking is visited. |
| Refunds.RefundedWithLedgerAndNotice | src/jobs/cIntiateRefunds.js:99-160 | A booking becomes `refunded` exactly when its closing transaction commits. It is then `passed`, the ledger holds a row keyed by the refund id, and a participant with a profile holds a success notification. Otherwise the ledger is untouched. |
| Refunds.RefundOneBookings | src/jobs/cIntiateRefunds.js:51-159 | A turn changes only its own booking, and that one only to `refunding`, or to `refunded` and `passed`. |
| Refunds.RefundAllBookings | src/jobs/cIntiateRefunds.js:30-198 | Over a run, only selected bookings change, each by one of those two writes. |
| Refunds.RefundTransitions | src/jobs/cIntiateRefunds.js:14-18 | Only paid `processRefund`/`refunding` bookings change, only in their status columns, along legal edges. The next run selects a booking exactly when this one did and it did not reach `refunded`. |
| Refunds.RefundOneKeepsUnique | src/jobs/cIntiateRefunds.js:102-152 | A turn never creates a second ledger row for a refund id, nor a second identical success notification for a known user. |
| Refunds.RefundAllKeepsUnique | src/jobs/cIntiateRefunds.js:102-152 | The same holds over a whole run. |
| Refunds.MarkBeforeProvider | src/jobs/cIntiateRefunds.js:49-62 | When the `refunding` mark fails, the outcome does not depend on the provider at all, and no booking changes. |
| Refunds.ReuseSkipsCreate | src/jobs/cIntiateRefunds.js:62-96 | When the listed page holds a succeeded or pending refund, the first one is used, and the outcome does not depend on the create call. |
| Refunds.ListFailureIsIgnored | src/jobs/cIntiateRefunds.js:78-86 | A failed list request behaves exactly like an empty list. |
| Refunds.ProviderFailureNotifies | src/jobs/cIntiateRefunds.js:167-197 | When no refund is obtained, the booking stays `refunding` and the ledger is untouched. A failure notification is appended; if that insert throws, the run ends instead. |
| Refunds.IncompleteRefundWaits | src/jobs/cIntiateRefunds.js:99-99 | A refund without an id or a status leaves the booking `refunding` and writes nothing else. |
| Refunds.CommitIdempotent | src/jobs/cIntiateRefunds.js:102-152 | Closing a refund already recorded, for a participant already notified, adds no row. |
| Withdrawals.ZeroByEmail | src/jobs/dProcessWalletWithdrawals.js:68-70 | Every wallet row of the owner is emptied, whatever its currency or status. Other rows, and the rest of each row, are unchanged. |
| Withdrawals.Entries | src/jobs/dProcessWalletWithdrawals.js:73-84 | There is one ledger row per payout, in the same order: the i-th row is the `to_stripe_` credit of the i-th transfer. |
| Withdrawals.ProcessWalletWithdrawals | src/jobs/dProcessWalletWithdrawals.js:14-110 | It returns the transfers `SweepRun` makes, and commits exactly when the loop did not abort and the enclosing transaction's commit did not throw. The store becomes `WithdrawDb`: the loop's writes on commit, the old store otherwise. Bookings and notifications are never touched. |
| Withdrawals.SweepWallet | src/jobs/dProcessWalletWithdrawals.js:25-100 | One wallet's turn equals `SweepOne`: skip, or abort, or transfer then zero then ledger insert, with an abort at the first failing step. |
| Withdrawals.StoppedSweepIsFinal | src/jobs/dProcessWalletWithdrawals.js:90-99 | After an abort no later wallet is attempted. |
| Withdrawals.SkippedWithoutAccount | src/jobs/dProcessWalletWithdrawals.js:40-50 | A wallet whose owner has no connected account is skipped with no write and no transfer. |
| Withdrawals.SweepLedger | src/jobs/dProcessWalletWithdrawals.js:73-84 | While the run goes on, the ledger holds exactly one `to_stripe_<transfer id>` row per payout, in order. |
| Withdrawals.TransfersAboveMinimum | src/jobs/dProcessWalletWithdrawals.js:56-60 | Every payout moves more than ten dollars to a non-empty account, and is the whole balance the query read for an eligible row of the same owner. |
| Withdrawals.SweepWallets | src/jobs/dProcessWalletWithdrawals.js:68-70 | The loop only zeroes balances, only those of paid-out owners, and until it aborts all of those are empty. |
| Withdrawals.SweepConserves | src/jobs/dProcessWalletWithdrawals.js:56-70 | With one wallet row per owner, the wallets lose exactly what the transfers paid out until the run aborts, and unvisited rows are as read. |
| Withdrawals.SweepPaysRows | src/jobs/dProcessWalletWithdrawals.js:25-84 | For any store, the sum the transfers paid equals the balances the query read for the rows paid out, each row at most once, and each of those rows belongs to a paid-out owner. |
| Withdrawals.WithdrawalLedger | src/jobs/dProcessWalletWithdrawals.js:14-101 | A run whose loop aborted or whose commit threw leaves the store exactly as it was. A committed run appends exactly one ledger row per payout. |
| Withdrawals.WithdrawalAmounts | src/jobs/dProcessWalletWithdrawals.js:16-60 | Every payout of a run is of more than ten dollars, to a connected account, and equals the balance the query read for one of the owner's eligible rows. |
| Withdrawals.WithdrawalZeroes | src/jobs/dProcessWalletWithdrawals.js:68-70 | The run changes wallets only by zeroing rows of paid-out owners. After a committed run none of those rows is selected again. |
| Withdrawals.WithdrawalConservesMoney | src/jobs/dProcessWalletWithdrawals.js:56-70 | With one wallet row per owner, a committed run lowers the total balance by exactly the sum paid out. |
| Withdrawals.WithdrawalNeverOverpays | src/jobs/dProcessWalletWithdrawals.js:56-84 | For any store, a committed run pays out at most what the wallets lose. |
| Withdrawals.TransferSurvivesRollback | src/jobs/dProcessWalletWithdrawals.js:54-101 | Example: when the second owner's transfer fails, the first owner's transfer has been made, yet the ledger and the wallets are rolled back to their old state, whether or not the commit would have thrown. |
| Withdrawals.ZeroingReachesUnselectedRows | src/jobs/dProcessWalletWithdrawals.js:68-70 | Example: an owner's second wallet row, below the minimum and never selected, is emptied without being paid out. The balance drops by 2500 cents while 2000 are transferred. |

## Left out

- Logging (`logMessage`, `console.log`) and the messages' text: the scheduler (`src/cronjobs.js`) and the step runners (`src/jobs/runJobsSequentilay.js`, `src/jobs/runSpecificTask.js`) are not part of this model, and neither is the connection setup (`src/db.js`).
- The payment provider's calls (payment-intent retrieval, refund list and create, transfer create) and the failure of each per-row SQL statement and of the sweeper's commit are oracle parameters; the network, the SDK and SQL itself are not modelled.
- A selection query that throws: each job's first `SELECT` is taken to succeed. If it threw, the job would end before visiting any row, with no write.
- Withdrawals.Transfer carries no currency. Every transfer is made in `usd` (`src/jobs/dProcessWalletWithdrawals.js:58`), while the selection takes active wallets of any currency (`:17`). A non-USD balance is therefore paid out as the same number of US cents, and the model does not record this.
- Floating-point amounts (`parseFloat`, `Math.round(x * 100)`): money is integer cents, so the sum in the settlement credit is exact and the amount sent to the provider equals the stored amount.
- The refund amount sent to the provider when a refund is created: the create call is an oracle whose answer does not depend on it.
- Columns that only carry constants or timestamps (`date`, `NOW()`, `generationid`, `url`, `type`, `message` text of ledger rows): the ledger and notification rows keep only the columns the jobs decide; notification messages are kept as structured values, so two texts are equal exactly when their amount and topic (or topic and error) are.
- `LIMIT 1` without an ordering (wallet lookup, profile lookups): the model takes the first matching row in table order.
- Concurrent runs: the jobs take no row locks, and the sweeper has no per-wallet recovery marker and no idempotency key, so the model runs each job alone on the store.
- Withdrawals.SweepConserves: states exact conservation only for stores with one wallet row per owner, for the same reason as the next line; `SweepPaysRows` and `WithdrawalNeverOverpays` give the bound that holds for every store.
- Withdrawals.WithdrawalConservesMoney: states conservation only for stores with one wallet row per owner, because zeroing is by email and reaches rows that were not paid out (`ZeroingReachesUnselectedRows` exhibits this).
- Refunds.RefundAllKeepsUnique: covers success notices for participants with a profile only; failure notices are inserted without a duplicate check, and a NULL user id never matches the duplicate check.
