/**
 * The read side of the ledger that folds transactions: a user's recent
 * transactions (`getRewardTransactions`), the clamped balance
 * (`getUserBalance`), the redeemable catalogue (`getAvailableRewards`) and the
 * earned totals (`getUserTotalRewards`, `getTotalRewards`).
 *
 * `transactions` is a sequence in insertion order. Every row's date is the
 * time of its insertion, so "ORDER BY date DESC" is the reverse of that order.
 */
module Balance {
  import opened Tables
  import opened RewardRows

  /** The `.limit(10)` of `getRewardTransactions`. */
  const RecentLimit: nat := 10

  /** `SELECT ... FROM transactions WHERE userId = u`, in insertion order. */
  function TransactionsOf(txs: seq<Transaction>, u: int): (r: seq<Transaction>)
    ensures |r| <= |txs|
  {
    if txs == [] then []
    else
      var last := txs[|txs| - 1];
      TransactionsOf(txs[..|txs| - 1], u) + (if last.userId == u then [last] else [])
  }

  /** The selection holds exactly the transactions of u. */
  lemma {:induction false} TransactionsOfMembers(txs: seq<Transaction>, u: int)
    ensures forall t :: t in TransactionsOf(txs, u) <==> t in txs && t.userId == u
  {
    if txs != [] {
      var n := |txs| - 1;
      TransactionsOfMembers(txs[..n], u);
      assert txs == txs[..n] + [txs[n]];
    }
  }

  function Reverse<T>(s: seq<T>): (r: seq<T>)
    ensures |r| == |s|
    ensures forall k :: 0 <= k < |s| ==> r[k] == s[|s| - 1 - k]
  {
    if s == [] then [] else [s[|s| - 1]] + Reverse(s[..|s| - 1])
  }

  /** The newest-first window of at most ten rows over one user's history. */
  function Window(mine: seq<Transaction>): (r: seq<Transaction>)
    ensures |r| == (if |mine| < RecentLimit then |mine| else RecentLimit)
    ensures forall k :: 0 <= k < |r| ==> r[k] == mine[|mine| - 1 - k]
  {
    var start := if |mine| > RecentLimit then |mine| - RecentLimit else 0;
    Reverse(mine[start..])
  }

  /**
   * `getRewardTransactions(u)`: the user's transactions newest first, at most ten
   * of them; element k is the user's k-th most recent transaction.
   */
  function RecentTransactions(txs: seq<Transaction>, u: int): (r: seq<Transaction>)
    ensures var mine := TransactionsOf(txs, u);
      && |r| == (if |mine| < RecentLimit then |mine| else RecentLimit)
      && forall k :: 0 <= k < |r| ==> r[k] == mine[|mine| - 1 - k]
    ensures forall t :: t in r ==> t in txs && t.userId == u
  {
    var mine := TransactionsOf(txs, u);
    var r := Window(mine);
    TransactionsOfMembers(txs, u);
    assert forall t :: t in r ==> t in mine by {
      forall t | t in r ensures t in mine {
        var k :| 0 <= k < |r| && r[k] == t;
        assert mine[|mine| - 1 - k] in mine;
      }
    }
    r
  }

  /** The `reduce` of the balance folds, left to right from 0. */
  function Net(s: seq<Transaction>): int {
    if s == [] then 0 else Net(s[..|s| - 1]) + Signed(s[|s| - 1])
  }

  /** `getUserBalance(u)`: the fold of the recent transactions, clamped at 0. */
  function UserBalance(txs: seq<Transaction>, u: int): (b: int)
    ensures b >= 0
    ensures Net(RecentTransactions(txs, u)) >= 0 ==> b == Net(RecentTransactions(txs, u))
    ensures Net(RecentTransactions(txs, u)) < 0 ==> b == 0
  {
    var net := Net(RecentTransactions(txs, u));
    if net > 0 then net else 0
  }

  /** The fold over the user's whole history, with no window and no clamp. */
  function LedgerSum(txs: seq<Transaction>, u: int): int {
    Net(TransactionsOf(txs, u))
  }

  lemma TransactionsOfAppend(txs: seq<Transaction>, t: Transaction, u: int)
    ensures TransactionsOf(txs + [t], u) == TransactionsOf(txs, u) + (if t.userId == u then [t] else [])
  {
    assert (txs + [t])[..|txs|] == txs;
  }

  lemma {:induction false} TransactionsOfPrepend(t: Transaction, txs: seq<Transaction>, u: int)
    ensures TransactionsOf([t] + txs, u) == (if t.userId == u then [t] else []) + TransactionsOf(txs, u)
  {
    if txs == [] {
      assert [t] + txs == [] + [t];
      TransactionsOfAppend([], t, u);
    } else {
      var n := |txs| - 1;
      assert [t] + txs == ([t] + txs[..n]) + [txs[n]];
      assert txs == txs[..n] + [txs[n]];
      TransactionsOfPrepend(t, txs[..n], u);
      TransactionsOfAppend([t] + txs[..n], txs[n], u);
      TransactionsOfAppend(txs[..n], txs[n], u);
    }
  }

  lemma {:induction false} NetConcat(a: seq<Transaction>, b: seq<Transaction>)
    ensures Net(a + b) == Net(a) + Net(b)
  {
    if b == [] {
      assert a + b == a;
    } else {
      var n := |b| - 1;
      assert (a + b)[..|a + b| - 1] == a + b[..n];
      NetConcat(a, b[..n]);
    }
  }

  /** The fold is a sum, so the newest-first order does not change it. */
  lemma {:induction false} NetReverse(s: seq<Transaction>)
    ensures Net(Reverse(s)) == Net(s)
  {
    if s != [] {
      var n := |s| - 1;
      assert Reverse(s) == [s[n]] + Reverse(s[..n]);
      NetConcat([s[n]], Reverse(s[..n]));
      assert [s[n]][..0] == [];
      NetReverse(s[..n]);
    }
  }

  lemma LedgerSumAppend(txs: seq<Transaction>, t: Transaction, u: int)
    ensures LedgerSum(txs + [t], u) == LedgerSum(txs, u) + (if t.userId == u then Signed(t) else 0)
  {
    TransactionsOfAppend(txs, t, u);
    var mine := TransactionsOf(txs, u);
    if t.userId == u {
      assert (mine + [t])[..|mine|] == mine;
      assert Net(mine + [t]) == Net(mine) + Signed(t);
    } else {
      assert mine + [] == mine;
    }
  }

  /**
   * While a user has at most ten transactions the window covers the whole history, and
   * `getUserBalance` is the clamped fold over every transaction of the user.
   */
  lemma {:induction false} BalanceOfShortHistory(txs: seq<Transaction>, u: int)
    requires |TransactionsOf(txs, u)| <= RecentLimit
    ensures UserBalance(txs, u) == if LedgerSum(txs, u) > 0 then LedgerSum(txs, u) else 0
  {
    var mine := TransactionsOf(txs, u);
    assert mine[0..] == mine;
    assert Window(mine) == Reverse(mine);
    NetReverse(mine);
  }

  /**
   * Once a user has ten or more transactions, an older one (earlier in the table)
   * no longer reaches `getUserBalance`: the window is the same with or without it.
   */
  lemma {:induction false} BalanceIgnoresOlderTransactions(t: Transaction, txs: seq<Transaction>, u: int)
    requires |TransactionsOf(txs, u)| >= RecentLimit
    ensures RecentTransactions([t] + txs, u) == RecentTransactions(txs, u)
    ensures UserBalance([t] + txs, u) == UserBalance(txs, u)
  {
    TransactionsOfPrepend(t, txs, u);
    var mine := TransactionsOf(txs, u);
    var mine' := TransactionsOf([t] + txs, u);
    assert RecentTransactions(txs, u) == Window(mine);
    assert RecentTransactions([t] + txs, u) == Window(mine');
    if t.userId == u {
      var n := |mine|;
      assert mine' == [t] + mine;
      assert mine'[|mine'| - RecentLimit..] == mine[n - RecentLimit..];
    } else {
      assert mine' == mine;
    }
  }

  /** A row of the redeemable catalogue as `getAvailableRewards` returns it. */
  datatype CatalogEntry = CatalogEntry(id: int, name: string, cost: int, description: Option<string>, collectionInfo: string)

  /** The id of the synthetic "Your Points" entry; `redeemReward` treats it as "redeem all". */
  const RedeemAllId := 0

  /** `SELECT ... FROM rewards WHERE isAvailable = true`, in table order. */
  function AvailableRows(rows: seq<Reward>): (r: seq<Reward>)
    ensures forall x :: x in r <==> x in rows && x.isAvailable
  {
    if rows == [] then []
    else
      var last := rows[|rows| - 1];
      AvailableRows(rows[..|rows| - 1]) + (if last.isAvailable then [last] else [])
  }

  /**
   * A row inserted at the end shows up once, at the end, exactly when it is available:
   * with the empty table giving no rows, this fixes the result's number and order.
   */
  lemma AvailableRowsAppend(rows: seq<Reward>, x: Reward)
    ensures AvailableRows(rows + [x]) == AvailableRows(rows) + (if x.isAvailable then [x] else [])
  {
    assert (rows + [x])[..|rows|] == rows;
  }

  function AsEntry(row: Reward): CatalogEntry {
    CatalogEntry(row.id, row.name, row.points, row.description, row.collectionInfo)
  }

  /** The catalogue rows in table order, each with its points as cost. */
  function Entries(avail: seq<Reward>): (r: seq<CatalogEntry>)
    ensures |r| == |avail|
    ensures forall k :: 0 <= k < |r| ==> r[k] == AsEntry(avail[k])
  {
    seq(|avail|, i requires 0 <= i < |avail| => AsEntry(avail[i]))
  }

  lemma EntriesContain(avail: seq<Reward>, x: Reward)
    requires x in avail
    ensures AsEntry(x) in Entries(avail)
  {
    var i :| 0 <= i < |avail| && avail[i] == x;
    assert Entries(avail)[i] == AsEntry(x);
  }

  /**
   * `getAvailableRewards(u)`: the synthetic "Your Points" entry, whose cost is the
   * UNclamped fold of the recent transactions, followed by every available row with
   * its points as cost. `getUserBalance` is that first cost clamped at 0.
   */
  function AvailableRewards(rewards: seq<Reward>, txs: seq<Transaction>, u: int): (r: seq<CatalogEntry>)
    ensures |r| == 1 + |AvailableRows(rewards)|
    ensures r[0].id == RedeemAllId && r[0].name == "Your Points"
    ensures r[0].cost == Net(RecentTransactions(txs, u))
    ensures r[0].description == Some("Redeem your earned points")
    ensures r[0].collectionInfo == "Points earned from reporting and collecting waste"
    ensures UserBalance(txs, u) == if r[0].cost < 0 then 0 else r[0].cost
    ensures forall k :: 1 <= k < |r| ==> r[k] == AsEntry(AvailableRows(rewards)[k - 1])
  {
    var avail := AvailableRows(rewards);
    var own := CatalogEntry(RedeemAllId, "Your Points", Net(RecentTransactions(txs, u)),
      Some("Redeem your earned points"), "Points earned from reporting and collecting waste");
    var r := [own] + Entries(avail);
    assert r[0] == own;
    assert forall k :: 1 <= k < |r| ==> r[k] == Entries(avail)[k - 1];
    r
  }

  /** Every available row is offered, and nothing else is: the unavailable rows are filtered out. */
  lemma CatalogOffersExactlyAvailableRows(rewards: seq<Reward>, txs: seq<Transaction>, u: int, x: Reward)
    ensures x in rewards && x.isAvailable ==> AsEntry(x) in AvailableRewards(rewards, txs, u)[1..]
    ensures forall e :: e in AvailableRewards(rewards, txs, u)[1..] ==>
      exists y :: y in rewards && y.isAvailable && e == AsEntry(y)
  {
    var r := AvailableRewards(rewards, txs, u);
    var avail := AvailableRows(rewards);
    assert r[1..] == Entries(avail);
    if x in rewards && x.isAvailable {
      EntriesContain(avail, x);
    }
    forall e | e in r[1..] ensures exists y :: y in rewards && y.isAvailable && e == AsEntry(y) {
      var k :| 0 <= k < |r[1..]| && r[1..][k] == e;
      assert avail[k] in avail;
    }
  }

  /** `SUM(amount)` over the transactions of the leaderboard kinds; an empty sum is 0. */
  function EarnedSum(s: seq<Transaction>): int {
    if s == [] then 0
    else
      var last := s[|s| - 1];
      EarnedSum(s[..|s| - 1]) + (if OnLeaderboard(last.kind) then last.amount else 0)
  }

  /** `getUserTotalRewards(u)`: the user's earned_report and earned_collect amounts summed. */
  function UserTotalRewards(txs: seq<Transaction>, u: int): int {
    EarnedSum(TransactionsOf(txs, u))
  }

  /** `getTotalRewards()`: the same sum over every user. */
  function TotalRewards(txs: seq<Transaction>): int {
    EarnedSum(txs)
  }

  lemma EarnedSumAppend(s: seq<Transaction>, t: Transaction)
    ensures EarnedSum(s + [t]) == EarnedSum(s) + (if OnLeaderboard(t.kind) then t.amount else 0)
  {
    assert (s + [t])[..|s|] == s;
  }

  /**
   * Appending a transaction moves a user's earned total by its amount exactly when it is
   * that user's and of an earned_report/earned_collect kind; redemptions and the
   * organisation grant never move it.
   */
  lemma UserTotalAfterAppend(txs: seq<Transaction>, t: Transaction, u: int)
    ensures UserTotalRewards(txs + [t], u)
      == UserTotalRewards(txs, u) + (if t.userId == u && OnLeaderboard(t.kind) then t.amount else 0)
    ensures TotalRewards(txs + [t]) == TotalRewards(txs) + (if OnLeaderboard(t.kind) then t.amount else 0)
  {
    TransactionsOfAppend(txs, t, u);
    EarnedSumAppend(txs, t);
    if t.userId == u {
      EarnedSumAppend(TransactionsOf(txs, u), t);
    } else {
      assert TransactionsOf(txs, u) + [] == TransactionsOf(txs, u);
    }
  }

  /**
   * The SUM over no earned rows is NULL and `|| 0` turns it into 0: a user without an
   * earned_report or earned_collect transaction has a total of 0.
   */
  lemma {:induction false} UserTotalWithoutEarnings(txs: seq<Transaction>, u: int)
    requires forall t :: t in txs && t.userId == u ==> !OnLeaderboard(t.kind)
    ensures UserTotalRewards(txs, u) == 0
    decreases |txs|
  {
    if txs != [] {
      var init, last := txs[..|txs| - 1], txs[|txs| - 1];
      assert txs == init + [last];
      assert forall t :: t in init ==> t in txs;
      UserTotalWithoutEarnings(init, u);
      UserTotalAfterAppend(init, last, u);
    } else {
      assert TransactionsOf(txs, u) == [];
    }
  }

  /**
   * With amounts that are never negative, one user's total lies between 0 and the
   * total over every user.
   */
  lemma {:induction false} UserTotalWithinTotal(txs: seq<Transaction>, u: int)
    requires forall t :: t in txs ==> t.amount >= 0
    ensures 0 <= UserTotalRewards(txs, u) <= TotalRewards(txs)
    decreases |txs|
  {
    if txs != [] {
      var init, last := txs[..|txs| - 1], txs[|txs| - 1];
      assert txs == init + [last];
      assert forall t :: t in init ==> t in txs;
      UserTotalWithinTotal(init, u);
      UserTotalAfterAppend(init, last, u);
    } else {
      assert TransactionsOf(txs, u) == [];
    }
  }

  /** The level ⌊total/10⌋, as `Math.floor(points / 10)`; `/` by a positive divisor floors. */
  function Level(points: int): (l: int)
    ensures 10 * l <= points < 10 * l + 10
  {
    points / 10
  }

  /**
   * The leaderboard level of a user never drops when a transaction is recorded that is
   * not a negative earning: spending points leaves it where it was.
   */
  lemma LevelNeverDecreases(txs: seq<Transaction>, t: Transaction, u: int)
    requires t.amount >= 0 || !OnLeaderboard(t.kind)
    ensures Level(UserTotalRewards(txs + [t], u)) >= Level(UserTotalRewards(txs, u))
    ensures t.kind == Redeemed ==> Level(UserTotalRewards(txs + [t], u)) == Level(UserTotalRewards(txs, u))
  {
    UserTotalAfterAppend(txs, t, u);
    KindClassification(t.kind);
  }
}
