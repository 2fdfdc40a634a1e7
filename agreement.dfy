/**
 * When do the stored points and the transaction log tell the same story?
 *
 * `Agrees(rewards, txs, u)` says: u has no reward row and a ledger sum of 0, or
 * exactly one reward row whose points equal the fold of all of u's transactions.
 * The spending paths and the lazy row creation keep it; `saveReward` (which adds
 * a second row) and `updateRewardPoints` (which writes no transaction) break it,
 * and the lemmas at the end show that they do.
 */
module Agreement {
  import opened Tables
  import opened RewardRows
  import opened Balance

  ghost predicate Agrees(rewards: seq<Reward>, txs: seq<Transaction>, u: int) {
    var mine := RowsOf(rewards, u);
    (mine == [] && LedgerSum(txs, u) == 0) || (|mine| == 1 && mine[0].points == LedgerSum(txs, u))
  }

  /** Every user agrees: the invariant the spending paths keep. */
  ghost predicate AllAgree(rewards: seq<Reward>, txs: seq<Transaction>) {
    forall v :: Agrees(rewards, txs, v)
  }

  /** A redemption of amount c for user u. */
  predicate IsCharge(t: Transaction, u: int, c: int) {
    t.userId == u && t.kind == Redeemed && t.amount == c
  }

  /** getOrCreateReward keeps agreement for every user. */
  lemma EnsureRowKeepsAgreement(rewards: seq<Reward>, txs: seq<Transaction>, u: int, v: int)
    requires Agrees(rewards, txs, v)
    ensures Agrees(EnsureRow(rewards, u), txs, v)
  {
    if v != u {
      EnsureRowOthers(rewards, u, v);
    } else if FirstRowOf(rewards, u).None? {
      RowsOfAppend(rewards, DefaultRow(|rewards| + 1, u), u);
    }
  }

  /**
   * A checked deduction of c from every row of u, recorded by one redemption of c,
   * keeps agreement for every user, provided u has a row (getOrCreateReward has run).
   */
  lemma ChargeKeepsAgreement(rewards: seq<Reward>, txs: seq<Transaction>, u: int, v: int, c: int, t: Transaction)
    requires Agrees(rewards, txs, v)
    requires FirstRowOf(rewards, u).Some?
    requires IsCharge(t, u, c)
    ensures Agrees(UpdatePoints(rewards, u, Add(-c)), txs + [t], v)
  {
    UpdatePointsKeepsAgreement(rewards, txs, u, v, Add(-c), t);
  }

  /** The common step: every row of u updated by `upd`, one transaction t of u recorded. */
  lemma UpdatePointsKeepsAgreement(rewards: seq<Reward>, txs: seq<Transaction>, u: int, v: int, upd: PointsUpdate, t: Transaction)
    requires Agrees(rewards, txs, v)
    requires FirstRowOf(rewards, u).Some?
    requires t.userId == u
    requires var p := FirstPoints(rewards, u); upd.ApplyTo(p) == p + Signed(t) || v != u
    ensures Agrees(UpdatePoints(rewards, u, upd), txs + [t], v)
  {
    var after := UpdatePoints(rewards, u, upd);
    UpdatePointsRows(rewards, u, upd, v);
    LedgerSumAppend(txs, t, v);
    if v == u {
      var mine := RowsOf(rewards, u);
      assert |mine| == 1 by {
        assert FirstRowOf(rewards, u).value in mine;
      }
      assert RowsOf(after, u)[0].points == upd.ApplyTo(mine[0].points);
    } else {
      assert RowsOf(after, v) == RowsOf(rewards, v);
    }
  }

  /**
   * `redeemReward(u, 0)`: setting every row of u to 0 and recording the points the first
   * row held keeps agreement for every user.
   */
  lemma RedeemAllKeepsAgreement(rewards: seq<Reward>, txs: seq<Transaction>, u: int, v: int, t: Transaction)
    requires Agrees(rewards, txs, v)
    requires FirstRowOf(rewards, u).Some?
    requires IsCharge(t, u, FirstPoints(rewards, u))
    ensures Agrees(UpdatePoints(rewards, u, SetTo(0)), txs + [t], v)
  {
    UpdatePointsKeepsAgreement(rewards, txs, u, v, SetTo(0), t);
  }

  /** Appending rows or transactions of other users does not matter to u. */
  lemma OtherUsersAppendKeepsAgreement(rewards: seq<Reward>, txs: seq<Transaction>, u: int, row: Reward, t: Transaction)
    requires Agrees(rewards, txs, u)
    requires row.userId != u && t.userId != u
    ensures Agrees(rewards + [row], txs + [t], u)
  {
    RowsOfAppend(rewards, row, u);
    LedgerSumAppend(txs, t, u);
  }

  /**
   * The organisation grant of `createUser`: a brand-new user given one row of 100 points
   * and one 'earned' transaction of 100 agrees.
   */
  lemma OrganizationGrantAgrees(rewards: seq<Reward>, txs: seq<Transaction>, row: Reward, t: Transaction)
    requires RowsOf(rewards, row.userId) == [] && TransactionsOf(txs, row.userId) == []
    requires row.points == 100 && t == Transaction(t.id, row.userId, Earned, 100, t.description)
    ensures Agrees(rewards + [row], txs + [t], row.userId)
  {
    RowsOfAppend(rewards, row, row.userId);
    LedgerSumAppend(txs, t, row.userId);
  }

  /** The organisation grant on a brand-new id keeps every user in agreement. */
  lemma OrganizationGrantKeepsAll(rewards: seq<Reward>, txs: seq<Transaction>, row: Reward, t: Transaction)
    requires AllAgree(rewards, txs)
    requires RowsOf(rewards, row.userId) == [] && TransactionsOf(txs, row.userId) == []
    requires row.points == 100 && t == Transaction(t.id, row.userId, Earned, 100, t.description)
    ensures AllAgree(rewards + [row], txs + [t])
  {
    forall v ensures Agrees(rewards + [row], txs + [t], v) {
      if v == row.userId {
        OrganizationGrantAgrees(rewards, txs, row, t);
      } else {
        OtherUsersAppendKeepsAgreement(rewards, txs, v, row, t);
      }
    }
  }

  /** A user with no reward row and no transaction agrees. */
  lemma FreshUserAgrees(rewards: seq<Reward>, txs: seq<Transaction>, u: int)
    requires RowsOf(rewards, u) == [] && TransactionsOf(txs, u) == []
    ensures Agrees(rewards, txs, u)
  {
  }

  /**
   * Under agreement and a history of at most ten transactions, `getUserBalance` reads the
   * stored points back, clamped at 0: the two ways of computing a balance coincide.
   */
  lemma BalanceMatchesStoredPoints(rewards: seq<Reward>, txs: seq<Transaction>, u: int)
    requires Agrees(rewards, txs, u)
    requires |TransactionsOf(txs, u)| <= RecentLimit
    ensures UserBalance(txs, u) == if FirstPoints(rewards, u) > 0 then FirstPoints(rewards, u) else 0
  {
    BalanceOfShortHistory(txs, u);
    var mine := RowsOf(rewards, u);
    if mine != [] {
      assert FirstRowOf(rewards, u) == Some(mine[0]);
    }
  }

  /**
   * `saveReward` inserts a row instead of updating the existing one, so a user who
   * already had a row ends up with two, and agreement no longer holds.
   */
  lemma SaveRewardBreaksAgreement(rewards: seq<Reward>, txs: seq<Transaction>, u: int, row: Reward, t: Transaction)
    requires FirstRowOf(rewards, u).Some?
    requires row.userId == u && t.userId == u
    ensures !Agrees(rewards + [row], txs + [t], u)
  {
    RowsOfAppend(rewards, row, u);
    assert FirstRowOf(rewards, u).value in RowsOf(rewards, u);
  }

  /**
   * `updateRewardPoints` changes a user's points without recording a transaction, so a
   * non-zero change breaks agreement for a user who had it.
   */
  lemma UpdateRewardPointsBreaksAgreement(rewards: seq<Reward>, txs: seq<Transaction>, u: int, d: int)
    requires Agrees(rewards, txs, u) && FirstRowOf(rewards, u).Some?
    requires d != 0
    ensures !Agrees(UpdatePoints(rewards, u, Add(d)), txs, u)
  {
    UpdatePointsRows(rewards, u, Add(d), u);
    assert FirstRowOf(rewards, u).value in RowsOf(rewards, u);
  }

  /** getOrCreateReward keeps every user's agreement at once. */
  lemma EnsureRowKeepsAll(rewards: seq<Reward>, txs: seq<Transaction>, u: int)
    requires AllAgree(rewards, txs)
    ensures AllAgree(EnsureRow(rewards, u), txs)
  {
    forall v ensures Agrees(EnsureRow(rewards, u), txs, v) {
      EnsureRowKeepsAgreement(rewards, txs, u, v);
    }
  }

  /** A checked charge of c keeps every user's agreement at once. */
  lemma ChargeKeepsAll(rewards: seq<Reward>, txs: seq<Transaction>, u: int, c: int, t: Transaction)
    requires AllAgree(rewards, txs)
    requires FirstRowOf(rewards, u).Some?
    requires IsCharge(t, u, c)
    ensures AllAgree(UpdatePoints(rewards, u, Add(-c)), txs + [t])
  {
    var after := UpdatePoints(rewards, u, Add(-c));
    forall v ensures Agrees(after, txs + [t], v) {
      ChargeKeepsAgreement(rewards, txs, u, v, c, t);
    }
  }

  /** Redeeming all of u's points keeps every user's agreement at once. */
  lemma RedeemAllKeepsAll(rewards: seq<Reward>, txs: seq<Transaction>, u: int, t: Transaction)
    requires AllAgree(rewards, txs)
    requires FirstRowOf(rewards, u).Some?
    requires IsCharge(t, u, FirstPoints(rewards, u))
    ensures AllAgree(UpdatePoints(rewards, u, SetTo(0)), txs + [t])
  {
    forall v ensures Agrees(UpdatePoints(rewards, u, SetTo(0)), txs + [t], v) {
      RedeemAllKeepsAgreement(rewards, txs, u, v, t);
    }
  }
}
