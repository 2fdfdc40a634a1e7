# Points ledger of the waste-reporting app, in Dafny

This project models the points ledger kept by `utils/db/actions.ts`. The ledger consists of:

- reward rows, which hold a user's stored points;
- transaction records (`earned`, `earned_report`, `earned_collect`, `redeemed`);
- reports with their status and collector;
- notifications.

The database is one object, `Store.LedgerStore`, with a sequence field per table in insertion order. A serial key is the row's position plus one (`Valid()`). No action deletes a row.

The actions that write become methods that run their statements in order:

- `createUser`, `getOrCreateReward`, `createReport`, `redeemReward`;
- `updateRewardPoints`, `saveReward`, `createTransaction`, `createNotification`;
- `updateTaskStatus`, `updateReportStatus`, `markNotificationAsRead`.

Each `UPDATE ... WHERE` is a loop over a copy of the table. Each method's contract gives the new state in terms of value-level functions over the old tables. Those functions are:

- `RewardRows.EnsureRow`, `RewardRows.UpdatePoints`;
- `ReportRows.SetStatus`, `Inbox.MarkRead`.

The reads are functions:

- `Balance.RecentTransactions` for `getRewardTransactions`;
- `Balance.UserBalance` for `getUserBalance`;
- `Balance.AvailableRewards` for `getAvailableRewards`;
- `Leaderboard.Leaderboard` for `getAllRewards`;
- `Balance.UserTotalRewards` and `Balance.TotalRewards`;
- `Inbox.UnreadNotifications`.

The model keeps the behaviour of the code, including where it differs from a tidy single-balance ledger:

- A user can own several reward rows, because `saveReward` always inserts one.
- Every points update touches all of the user's rows.
- `getOrCreateReward` and the sufficiency checks read one row of the user (the model takes the first in table order) and ignore the others. `RewardRows.CheckedDeductionCanDriveOtherRowNegative` shows a second row left at −5.
- `updateRewardPoints` changes points without writing a transaction.
- `createReport` and `redeemReward` call `getOrCreateReward` before their check. A user who had no row therefore keeps a new 0-point row even when the charge is refused.
- `createReport` stores the pending report before the check, and the report stays when the charge is refused.
- `getUserBalance` and the "Your Points" entry fold only the ten newest transactions of the user.

Agreement (`Agreement.Agrees`) is the property that ties the two records of a balance together. A user agrees when they have no reward row and their transactions sum to 0, or exactly one row whose points equal the signed sum of all their transactions.

- These keep agreement for every user: the lazy row creation, the 10-point report charge, the catalogue redemption and redeem-all.
- A brand-new organisation starts in agreement.
- `saveReward` on a user who already has a row breaks it, and so does `updateRewardPoints` with a non-zero amount.
- Under agreement, and with at most ten transactions, `getUserBalance` equals the stored points clamped at 0.

Dates are not modelled. Every transaction's date is its insertion time, so "newest first" is the reverse of table order.

## Model

| member | source | states |
|---|---|---|
| `Tables.Signed` | utils/db/actions.ts:414-416 | a transaction adds its amount when its type starts with "earned" and subtracts it otherwise, i.e. exactly the redemptions subtract |
| `Tables.KindClassification` | utils/db/actions.ts:357 | a type starts with "earned" iff it is not `redeemed`; the leaderboard kinds are exactly `earned_report` and `earned_collect`, so the organisation grant `earned` is not among them |
| `Tables.IntToString` | utils/db/actions.ts:485 | the decimal text used in "Redeemed all points: N" is non-empty and has a leading '-' exactly when N is negative. The rest is decimal digits without a leading zero (only 0 renders as "0"), and they read back as N, or as −N after the sign |
| `RewardRows.RowsOfMembers` | utils/db/actions.ts:120 | `SELECT ... WHERE userId = u` holds exactly the rows of u |
| `RewardRows.FirstRowOf` | utils/db/actions.ts:120 | the row `getOrCreateReward` takes is a row of the table that belongs to u |
| `RewardRows.FirstRowOfNone` | utils/db/actions.ts:120-121 | there is no first row exactly when no row of the table belongs to u |
| `RewardRows.EnsureRow` | utils/db/actions.ts:118-131 | the table is left as it is when u has a row; otherwise exactly one default row is appended, with the next id, 0 points, level 1 and available |
| `RewardRows.EnsureRowIdempotent` | utils/db/actions.ts:118-131 | after the lazy creation u has a first row: their old first row, or the fresh 0-point default row. Doing it again changes nothing, and the first row's points are unchanged |
| `RewardRows.EnsureRowOthers` | utils/db/actions.ts:122-130 | the lazily created row changes no other user's rows |
| `RewardRows.RowByIdSerial` | utils/db/actions.ts:488-490 | with serial ids, the row with a given id exists exactly when the id lies between 1 and the table's length, and it is the row at that position |
| `RewardRows.RowById` | utils/db/actions.ts:490 | the catalogue lookup finds a row with that id, or reports that no row has it |
| `RewardRows.UpdatePointsRows` | utils/db/actions.ts:80-88 | an update by userId changes the points of every row of u as the SET says, keeps their number, order and other columns, and leaves every other user's rows as they were |
| `RewardRows.UpdatePointsFrame` | utils/db/actions.ts:140-148 | the update changes only the points column: every row keeps its position, id and owner, and other users' rows are untouched |
| `RewardRows.FirstRowAfterUpdate` | utils/db/actions.ts:475-482 | the row the update returns first is u's old first row with the new points |
| `RewardRows.RowsOfAppend` | utils/db/actions.ts:286-297 | an inserted row joins the end of its own user's rows and no one else's |
| `RewardRows.CheckedDeductionCanDriveOtherRowNegative` | utils/db/actions.ts:492-503 | the check guards only the first row: rows of 50 and 5 pass a check against 10, and the second becomes −5 |
| `Balance.TransactionsOfMembers` | utils/db/actions.ts:388 | `WHERE userId = u` keeps exactly u's transactions |
| `Balance.Window` | utils/db/actions.ts:389-390 | the window holds min(n, 10) rows, and element k is the k-th newest |
| `Balance.RecentTransactions` | utils/db/actions.ts:376-406 | `getRewardTransactions(u)` returns min(n, 10) of u's transactions, newest first, and element k is u's k-th most recent one |
| `Balance.UserBalance` | utils/db/actions.ts:516-522 | the balance is never negative; it is the signed fold of the recent transactions when that fold is ≥ 0, and 0 otherwise |
| `Balance.NetReverse` | utils/db/actions.ts:414-416 | the fold is a sum, so the newest-first order does not change it |
| `Balance.LedgerSumAppend` | utils/db/actions.ts:455-467 | one more transaction of u moves u's full ledger sum by its signed amount; other users' sums do not move |
| `Balance.BalanceOfShortHistory` | utils/db/actions.ts:516-522 | with at most ten transactions, the balance is the clamped sum of the user's whole history |
| `Balance.BalanceIgnoresOlderTransactions` | utils/db/actions.ts:389-390 | once a user has ten or more transactions, an older one changes neither the recent list nor the balance |
| `Balance.AvailableRows` | utils/db/actions.ts:428-438 | `WHERE isAvailable = true` keeps exactly the available rows |
| `Balance.AvailableRowsAppend` | utils/db/actions.ts:430 | an inserted row appears once, at the end of the selection, exactly when it is available; so each available row is selected once, in table order |
| `Balance.AvailableRewards` | utils/db/actions.ts:408-453 | the catalogue is one synthetic entry followed by every available row, in table order, with its points as cost. The synthetic entry has id 0, the name "Your Points", the fixed description and collection text, and as cost the unclamped fold of the recent transactions; that cost clamped at 0 is `getUserBalance` |
| `Balance.CatalogOffersExactlyAvailableRows` | utils/db/actions.ts:428-450 | every available row is offered and every offered entry after the first is an available row |
| `Balance.UserTotalAfterAppend` | utils/db/actions.ts:527-563 | a new transaction raises the global earned total by its amount when it is of a leaderboard kind, and a user's total only when it is also that user's; redemptions and the organisation grant move neither |
| `Balance.UserTotalWithoutEarnings` | utils/db/actions.ts:527-544 | a user with no `earned_report` or `earned_collect` transaction has a total of 0 (the `|| 0` default) |
| `Balance.UserTotalWithinTotal` | utils/db/actions.ts:551-563 | with non-negative amounts, a user's total lies between 0 and the total over all users |
| `Balance.Level` | utils/db/actions.ts:367 | the level is ⌊points/10⌋ |
| `Balance.LevelNeverDecreases` | utils/db/actions.ts:349-367 | a non-negative earning, or any transaction of another kind, never lowers a user's level, and a redemption leaves it equal |
| `Agreement.EnsureRowKeepsAgreement` | utils/db/actions.ts:118-131 | the lazy row creation keeps every user's agreement |
| `Agreement.UpdatePointsKeepsAgreement` | utils/db/actions.ts:80-91 | updating all of u's rows by the signed amount of a recorded transaction of u keeps agreement for every user |
| `Agreement.ChargeKeepsAgreement` | utils/db/actions.ts:80-91 | a deduction of c from all of u's rows plus one `redeemed` transaction of c keeps agreement |
| `Agreement.RedeemAllKeepsAgreement` | utils/db/actions.ts:473-485 | zeroing all of u's rows plus one redemption of the first row's former points keeps agreement |
| `Agreement.EnsureRowKeepsAll` | utils/db/actions.ts:118-131 | the lazy row creation keeps the all-users invariant |
| `Agreement.ChargeKeepsAll` | utils/db/actions.ts:496-506 | a checked charge keeps the all-users invariant |
| `Agreement.RedeemAllKeepsAll` | utils/db/actions.ts:473-485 | redeem-all keeps the all-users invariant |
| `Agreement.OtherUsersAppendKeepsAgreement` | utils/db/actions.ts:455-467 | rows and transactions of other users do not affect u's agreement |
| `Agreement.OrganizationGrantAgrees` | utils/db/actions.ts:9-27 | a new organisation with its 100-point row and its `earned` 100 transaction agrees |
| `Agreement.OrganizationGrantKeepsAll` | utils/db/actions.ts:9-27 | the organisation grant on an id that has no row and no transaction keeps the all-users invariant |
| `Agreement.FreshUserAgrees` | utils/db/actions.ts:7 | a new user with no row and no transaction agrees |
| `Agreement.BalanceMatchesStoredPoints` | utils/db/actions.ts:516-522 | under agreement and with at most ten transactions, `getUserBalance` is the stored first-row points clamped at 0 |
| `Agreement.SaveRewardBreaksAgreement` | utils/db/actions.ts:284-303 | `saveReward` on a user who already has a row leaves them with two rows, so they no longer agree |
| `Agreement.UpdateRewardPointsBreaksAgreement` | utils/db/actions.ts:138-150 | a non-zero `updateRewardPoints` moves the stored points without a transaction, so the user no longer agrees |
| `Leaderboard.UserById` | utils/db/actions.ts:356 | the LEFT JOIN finds a user row with the transaction's user id, or reports that no user has it |
| `Leaderboard.DisplayName` | utils/db/actions.ts:353-365 | the entry's name is never empty. It is the joined user's name when there is one and it is non-empty; it is "Unknown User" when the name is empty or no user joins |
| `Leaderboard.EarnedUsers` | utils/db/actions.ts:357-358 | the groups are the users with at least one leaderboard-kind transaction, each once |
| `Leaderboard.Insert` | utils/db/actions.ts:359 | inserting into the ordering adds exactly one entry and loses none |
| `Leaderboard.SortDescCorrect` | utils/db/actions.ts:359 | the ordering is non-increasing in points, a permutation of the groups, and keeps users distinct |
| `Leaderboard.GroupsFacts` | utils/db/actions.ts:349-368 | there is one group per earning user, with the user's earned sum as points, ⌊sum/10⌋ as level, and the user id as id |
| `Leaderboard.Leaderboard` | utils/db/actions.ts:347-373 | the leaderboard is non-increasing in points and has one entry per user, present exactly for the users who earned. Each entry's id is its userId, its points are the user's earned total, its level is ⌊points/10⌋ and its name is the display name |
| `Leaderboard.LeaderboardSumsToTotal` | utils/db/actions.ts:347-373 | the leaderboard's points add up to `getTotalRewards`' sum |
| `Inbox.UnreadNotifications` | utils/db/actions.ts:197-209 | the unread list holds exactly u's notifications that are not read |
| `Inbox.UnreadAfterCreate` | utils/db/actions.ts:199-203 | an appended notification appears once, at the end of its own user's unread list, exactly when it is unread; no other list changes. So each unread notification is listed once, in table order, and every one `createNotification` adds joins its user's list |
| `Inbox.MarkReadFlags` | utils/db/actions.ts:213 | a notification is read afterwards exactly when it was read already or has that id; nothing else about any row changes |
| `Inbox.MarkReadRemovesExactlyOne` | utils/db/actions.ts:211-217 | after marking notification i read, each unread list is the old one without notification i |
| `ReportRows.ReportById` | utils/db/actions.ts:336-338 | the returned report has that id, or no report has it |
| `ReportRows.SetStatusFrame` | utils/db/actions.ts:334-339 | the update changes only the status and the collector; every report keeps its position, id and other columns |
| `ReportRows.SetStatusEffect` | utils/db/actions.ts:328-345 | the report with that id gets the new status (and the collector only when one is given); every other report is unchanged |
| `Store.LedgerStore.CreateUser` | utils/db/actions.ts:5-34 | appends the user. An organisation also gets one 100-point default row and one `earned` transaction of 100; a volunteer gets nothing else. A new id ends up in agreement, and when every user agreed before, every user still agrees |
| `Store.LedgerStore.CreateTransaction` | utils/db/actions.ts:455-467 | appends exactly one transaction with the next id and the given fields |
| `Store.LedgerStore.CreateNotification` | utils/db/actions.ts:183-195 | appends exactly one unread notification with the next id |
| `Store.LedgerStore.GetOrCreateReward` | utils/db/actions.ts:118-136 | the table becomes `EnsureRow` of the old one. It returns u's first row: the old one if there was one, otherwise the new default row. Its points are the old first-row points (0 if there was none), and agreement is kept |
| `Store.LedgerStore.UpdateUserPoints` | utils/db/actions.ts:140-148 | the loop leaves the rewards table equal to `UpdatePoints` of the old one and returns u's first updated row |
| `Store.LedgerStore.UpdateRewardPoints` | utils/db/actions.ts:138-154 | adds the amount to every row of u, writes no transaction, and returns u's first row |
| `Store.LedgerStore.SaveReward` | utils/db/actions.ts:284-307 | inserts a new row of `amount` points whatever rows u already has, and one `earned_collect` transaction of `amount` |
| `Store.LedgerStore.CreateReport` | utils/db/actions.ts:47-105 | always appends the pending report. It succeeds iff u's first-row points were ≥ 10. Then every row of u drops by 10, exactly one `redeemed` 10 transaction and one `reward` notification are appended, and the report is returned. Otherwise only the lazily created row remains. Agreement is kept |
| `Store.LedgerStore.ChargeForReport` | utils/db/actions.ts:79-98 | deducts 10 from every row of u, appends the `redeemed` transaction and the notification, and keeps agreement |
| `Store.LedgerStore.RedeemReward` | utils/db/actions.ts:469-514 | id 0 sets every row of u to 0, records one redemption of the former first-row points, and returns the zeroed first row. For any other id, the row exists exactly when the id is between 1 and the table's length; a missing row or a cost above the first row's points gives the error, and only the lazily created row remains. Otherwise every row drops by the cost, one redemption of the cost is recorded, and the returned row holds points − cost ≥ 0. Agreement is kept |
| `Store.LedgerStore.RedeemAll` | utils/db/actions.ts:473-487 | the `rewardId === 0` branch, as above |
| `Store.LedgerStore.RedeemCatalogueRow` | utils/db/actions.ts:488-507 | the catalogue branch, both the refusal and the deduction, as above; the looked-up row is the one at position id − 1 |
| `Store.LedgerStore.UpdateTaskStatus` | utils/db/actions.ts:328-345 | the loop leaves the reports table equal to `SetStatus` of the old one and returns the report with that id |
| `Store.LedgerStore.UpdateReportStatus` | utils/db/actions.ts:228-241 | the same update with the status only; the collector is kept |
| `Store.LedgerStore.MarkNotificationAsRead` | utils/db/actions.ts:211-217 | the loop marks the notification with that id read; every unread list loses exactly that notification |
| `Store.GetOrCreateRewardTwice` | utils/db/actions.ts:118-131 | two calls in a row return the same row. Together they only add the lazily created row; users, transactions, reports and notifications stay as they were |

## Left out

- The `try/catch` storage-failure paths (`return null` or `[]` after a database error) are not modelled. The one thrown error kept is the insufficient-points error:
  - `createReport` catches it and returns null, modelled as `None`;
  - `redeemReward` rethrows it, modelled as `Err(InsufficientPointsOrInvalidReward)`.
- `date`, `updatedAt` and the `toISOString` date formatting are not modelled. Rows inserted at the same instant are ordered by insertion.
- `console.log`, the drizzle driver and the `db` configuration are not modelled.
- Atomicity and concurrent calls are out of scope: the code uses no database transactions or locks, and each action is one sequential step here.
- The schema's foreign-key and uniqueness constraints are not modelled. `utils/db/schema.ts` is not part of this model. No action requires that the user exists.
- `createReport`'s `type` parameter is unused by the code and left out.
- The SQL `SUM` read back as a string by the driver is not modelled; sums are integers.
- The order among leaderboard entries with equal sums is left out. The code has no tie-break; the model keeps a stable order, and the contract of `Leaderboard.Leaderboard` promises only non-increasing points.
- `getUserByEmail`, `getReportsByUserId`, `createCollectedWaste`, `getCollectedWastesByCollector`, `getPendingReports`, `getRecentReports`, `getWasteCollectionTasks`, `saveCollectedWaste`, `getVolunteersEngaged`, `getOrgsEngaged` and `getAllReports` are left out. They are plain inserts, filters, counts and limits outside the points ledger.
- The `app/**` pages, the Gemini call, Google Maps and floating-point `parseFloat` of amounts are UI or external services, outside the ledger.
- `Store.LedgerStore.CreateReport` states the effect on other users' rows through `RewardRows.UpdatePointsRows`, not in its own contract.
- Row order: `SELECT` and `UPDATE ... RETURNING` without `ORDER BY` leave the order of rows unspecified. The model reads them in table order. This fixes which row `RewardRows.FirstRowOf`, `RewardRows.FirstRowAfterUpdate` and `Store.LedgerStore.RedeemReward` call the user's first row. Under agreement a user has at most one row, so there the choice makes no difference.
- Number width: amounts, points and ids are unbounded integers. JavaScript numbers, fractional amounts and integer-column overflow are not modelled.
