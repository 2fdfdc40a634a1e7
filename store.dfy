/**
 * The database the actions of `utils/db/actions.ts` work on, as one object whose
 * tables are sequences in insertion order, and each action as a method that runs
 * its statements one after the other. Serial keys are the row's position plus one.
 */
module Store {
  import opened Tables
  import opened RewardRows
  import opened Balance
  import opened Agreement
  import opened Inbox
  import opened ReportRows

  /** Points `createReport` charges for a report. */
  const ReportCost := 10

  /** Points an organisation is granted when its account is created. */
  const OrganizationGrant := 100

  const ReportNotice := "You've consumed 10 points for reporting an activity!"

  class LedgerStore {
    var users: seq<User>
    var rewards: seq<Reward>
    var transactions: seq<Transaction>
    var reports: seq<Report>
    var notifications: seq<Notification>

    /** Every table's serial key is the row's position plus one (no action deletes rows). */
    ghost predicate Valid()
      reads this
    {
      && (forall i :: 0 <= i < |users| ==> users[i].id == i + 1)
      && (forall i :: 0 <= i < |rewards| ==> rewards[i].id == i + 1)
      && (forall i :: 0 <= i < |transactions| ==> transactions[i].id == i + 1)
      && (forall i :: 0 <= i < |reports| ==> reports[i].id == i + 1)
      && (forall i :: 0 <= i < |notifications| ==> notifications[i].id == i + 1)
    }

    constructor ()
      ensures Valid() && AllAgree(rewards, transactions)
      ensures users == [] && rewards == [] && transactions == [] && reports == [] && notifications == []
    {
      users, rewards, transactions, reports, notifications := [], [], [], [], [];
    }

    /**
     * `createUser`: adds the user; an organisation also gets a reward row of 100 points
     * and an 'earned' transaction of 100, a volunteer gets nothing else. A user id that
     * nothing refers to yet ends up agreeing with its (empty or granted) log.
     */
    method CreateUser(email: string, name: string, userType: UserType) returns (user: User)
      requires Valid()
      modifies this
      ensures Valid()
      ensures user == User(|old(users)| + 1, email, name, userType)
      ensures users == old(users) + [user]
      ensures userType == Organization ==>
        && rewards == old(rewards) + [DefaultRow(|old(rewards)| + 1, user.id).(points := OrganizationGrant)]
        && transactions == old(transactions)
          + [Transaction(|old(transactions)| + 1, user.id, Earned, OrganizationGrant, "Initial reward for organization account creation")]
      ensures userType == Volunteer ==> rewards == old(rewards) && transactions == old(transactions)
      ensures reports == old(reports) && notifications == old(notifications)
      ensures old(RowsOf(rewards, |users| + 1)) == [] && old(TransactionsOf(transactions, |users| + 1)) == [] ==>
        Agrees(rewards, transactions, user.id)
      ensures && old(AllAgree(rewards, transactions))
              && old(RowsOf(rewards, |users| + 1)) == [] && old(TransactionsOf(transactions, |users| + 1)) == []
              ==> AllAgree(rewards, transactions)
    {
      user := User(|users| + 1, email, name, userType);
      ghost var isNew := RowsOf(rewards, user.id) == [] && TransactionsOf(transactions, user.id) == [];
      users := users + [user];
      if userType == Organization {
        var row := DefaultRow(|rewards| + 1, user.id).(points := OrganizationGrant);
        var t := Transaction(|transactions| + 1, user.id, Earned, OrganizationGrant,
          "Initial reward for organization account creation");
        if isNew {
          OrganizationGrantAgrees(rewards, transactions, row, t);
          if AllAgree(rewards, transactions) {
            OrganizationGrantKeepsAll(rewards, transactions, row, t);
          }
        }
        rewards := rewards + [row];
        transactions := transactions + [t];
      } else if isNew {
        FreshUserAgrees(rewards, transactions, user.id);
      }
    }

    /** `createTransaction`: appends one transaction; the caller's type is never 'earned'. */
    method CreateTransaction(userId: int, kind: TxKind, amount: int, description: string) returns (t: Transaction)
      requires Valid()
      requires kind != Earned
      modifies this
      ensures Valid()
      ensures t == Transaction(|old(transactions)| + 1, userId, kind, amount, description)
      ensures transactions == old(transactions) + [t]
      ensures users == old(users) && rewards == old(rewards)
      ensures reports == old(reports) && notifications == old(notifications)
    {
      t := Transaction(|transactions| + 1, userId, kind, amount, description);
      transactions := transactions + [t];
    }

    /** `createNotification`: appends one unread notification (UnreadAfterCreate says where it shows). */
    method CreateNotification(userId: int, message: string, kind: string) returns (n: Notification)
      requires Valid()
      modifies this
      ensures Valid()
      ensures n == Notification(|old(notifications)| + 1, userId, message, kind, false)
      ensures notifications == old(notifications) + [n]
      ensures users == old(users) && rewards == old(rewards)
      ensures transactions == old(transactions) && reports == old(reports)
    {
      n := Notification(|notifications| + 1, userId, message, kind, false);
      notifications := notifications + [n];
    }

    /**
     * `getOrCreateReward`: returns the user's first reward row; when there is none, adds
     * exactly one default row (0 points, level 1, available) and returns it.
     */
    method GetOrCreateReward(userId: int) returns (reward: Reward)
      requires Valid()
      modifies this
      ensures Valid()
      ensures rewards == EnsureRow(old(rewards), userId)
      ensures FirstRowOf(rewards, userId) == Some(reward)
      ensures old(FirstRowOf(rewards, userId)).Some? ==> reward == old(FirstRowOf(rewards, userId)).value
      ensures old(FirstRowOf(rewards, userId)).None? ==> reward == DefaultRow(|old(rewards)| + 1, userId)
      ensures reward.userId == userId && reward.points == FirstPoints(old(rewards), userId)
      ensures users == old(users) && transactions == old(transactions)
      ensures reports == old(reports) && notifications == old(notifications)
      ensures old(AllAgree(rewards, transactions)) ==> AllAgree(rewards, transactions)
    {
      EnsureRowIdempotent(rewards, userId);
      if AllAgree(rewards, transactions) {
        EnsureRowKeepsAll(rewards, transactions, userId);
      }
      var found := FirstRowOf(rewards, userId);
      if found.Some? {
        reward := found.value;
      } else {
        reward := DefaultRow(|rewards| + 1, userId);
        rewards := rewards + [reward];
      }
    }

    /** The `UPDATE rewards SET points = ... WHERE userId = u` the actions share; returns the first updated row. */
    method UpdateUserPoints(userId: int, upd: PointsUpdate) returns (first: Option<Reward>)
      requires Valid()
      modifies this
      ensures Valid()
      ensures rewards == UpdatePoints(old(rewards), userId, upd)
      ensures first == FirstRowOf(rewards, userId)
      ensures users == old(users) && transactions == old(transactions)
      ensures reports == old(reports) && notifications == old(notifications)
    {
      var rows := rewards;
      var i := 0;
      while i < |rows|
        invariant 0 <= i <= |rows| == |rewards|
        invariant forall k :: 0 <= k < i ==> rows[k] == UpdateRow(rewards[k], userId, upd)
        invariant forall k :: i <= k < |rows| ==> rows[k] == rewards[k]
      {
        if rows[i].userId == userId {
          rows := rows[i := rows[i].(points := upd.ApplyTo(rows[i].points))];
        }
        i := i + 1;
      }
      assert rows == UpdatePoints(rewards, userId, upd);
      rewards := rows;
      first := FirstRowOf(rewards, userId);
    }

    /**
     * `updateRewardPoints`: adds the points to every row of the user and returns the first
     * of them. It records no transaction (see UpdateRewardPointsBreaksAgreement).
     */
    method UpdateRewardPoints(userId: int, pointsToAdd: int) returns (updated: Option<Reward>)
      requires Valid()
      modifies this
      ensures Valid()
      ensures rewards == UpdatePoints(old(rewards), userId, Add(pointsToAdd))
      ensures updated == FirstRowOf(rewards, userId)
      ensures users == old(users) && transactions == old(transactions)
      ensures reports == old(reports) && notifications == old(notifications)
    {
      updated := UpdateUserPoints(userId, Add(pointsToAdd));
    }

    /**
     * `saveReward`: inserts a NEW reward row holding the amount, whatever rows the user
     * already has, and one earned_collect transaction of the amount.
     */
    method SaveReward(userId: int, amount: int) returns (reward: Reward)
      requires Valid()
      modifies this
      ensures Valid()
      ensures reward == Reward(|old(rewards)| + 1, userId, "Waste Collection Reward",
        "Points earned from waste collection", None, amount, 1, true)
      ensures rewards == old(rewards) + [reward]
      ensures transactions == old(transactions)
        + [Transaction(|old(transactions)| + 1, userId, EarnedCollect, amount, "Points earned for collecting waste")]
      ensures users == old(users) && reports == old(reports) && notifications == old(notifications)
    {
      reward := Reward(|rewards| + 1, userId, "Waste Collection Reward", "Points earned from waste collection", None, amount, 1, true);
      rewards := rewards + [reward];
      var _ := CreateTransaction(userId, EarnedCollect, amount, "Points earned for collecting waste");
    }

    /**
     * `createReport`: stores a pending report, then makes sure the user has a reward row.
     * With at least 10 points on the first row, every row of the user drops by 10, one
     * 'redeemed' transaction of 10 and one 'reward' notification are appended, and the
     * report is returned. Otherwise the result is None and nothing else changes: the
     * pending report and any row just created stay.
     */
    method CreateReport(userId: int, location: string, wasteType: string, amount: string,
                        imageUrl: Option<string>, verificationResult: Option<string>)
      returns (result: Option<Report>)
      requires Valid()
      modifies this
      ensures Valid()
      ensures var report := Report(|old(reports)| + 1, userId, location, wasteType, amount, imageUrl, verificationResult, Pending, None);
        reports == old(reports) + [report] && (result.Some? ==> result.value == report)
      ensures users == old(users)
      ensures result.Some? <==> FirstPoints(old(rewards), userId) >= ReportCost
      ensures result.Some? ==> rewards == UpdatePoints(EnsureRow(old(rewards), userId), userId, Add(-ReportCost))
      ensures result.Some? ==>
        transactions == old(transactions)
          + [Transaction(|old(transactions)| + 1, userId, Redeemed, ReportCost, "Consumed points for reporting activity")]
      ensures result.Some? ==>
        notifications == old(notifications) + [Notification(|old(notifications)| + 1, userId, ReportNotice, "reward", false)]
      ensures result.None? ==>
        && rewards == EnsureRow(old(rewards), userId)
        && transactions == old(transactions)
        && notifications == old(notifications)
      ensures old(AllAgree(rewards, transactions)) ==> AllAgree(rewards, transactions)
    {
      var report := Report(|reports| + 1, userId, location, wasteType, amount, imageUrl, verificationResult, Pending, None);
      reports := reports + [report];
      var userReward := GetOrCreateReward(userId);
      if userReward.points < ReportCost {
        return None;
      }
      ChargeForReport(userId);
      result := Some(report);
    }

    /** The charge of `createReport` once u's row holds at least the cost. */
    method ChargeForReport(userId: int)
      requires Valid()
      requires FirstRowOf(rewards, userId).Some?
      modifies this
      ensures Valid()
      ensures rewards == UpdatePoints(old(rewards), userId, Add(-ReportCost))
      ensures transactions == old(transactions)
        + [Transaction(|old(transactions)| + 1, userId, Redeemed, ReportCost, "Consumed points for reporting activity")]
      ensures notifications == old(notifications) + [Notification(|old(notifications)| + 1, userId, ReportNotice, "reward", false)]
      ensures users == old(users) && reports == old(reports)
      ensures old(AllAgree(rewards, transactions)) ==> AllAgree(rewards, transactions)
    {
      ghost var rewards0, txs0 := rewards, transactions;
      var _ := UpdateUserPoints(userId, Add(-ReportCost));
      var t := CreateTransaction(userId, Redeemed, ReportCost, "Consumed points for reporting activity");
      var _ := CreateNotification(userId, ReportNotice, "reward");
      if AllAgree(rewards0, txs0) {
        ChargeKeepsAll(rewards0, txs0, userId, ReportCost, t);
      }
    }

    /**
     * `redeemReward`: first makes sure the user has a reward row. Id 0 sets every row of
     * the user to 0 and records the first row's former points as one redemption. Any other
     * id is a catalogue row whose points are its cost: if there is no such row, or the user's
     * first row holds less than the cost, the result is the error and only the lazily created
     * row (if any) remains; otherwise every row of the user drops by the cost and one
     * redemption of the cost is recorded. On success the first row of the user is returned.
     */
    method RedeemReward(userId: int, rewardId: int) returns (result: Result<Reward>)
      requires Valid()
      modifies this
      ensures Valid()
      ensures users == old(users) && reports == old(reports) && notifications == old(notifications)
      ensures rewardId == RedeemAllId ==>
        var had := FirstPoints(old(rewards), userId);
        && rewards == UpdatePoints(EnsureRow(old(rewards), userId), userId, SetTo(0))
        && transactions == old(transactions)
          + [Transaction(|old(transactions)| + 1, userId, Redeemed, had, "Redeemed all points: " + IntToString(had))]
        && result.Ok? && FirstRowOf(rewards, userId) == Some(result.value) && result.value.points == 0
      ensures rewardId != RedeemAllId ==>
        (RowById(EnsureRow(old(rewards), userId), rewardId).Some? <==> 1 <= rewardId <= |EnsureRow(old(rewards), userId)|)
      ensures var item := RowById(EnsureRow(old(rewards), userId), rewardId);
        rewardId != RedeemAllId && (item.None? || FirstPoints(old(rewards), userId) < item.value.points) ==>
          && result == Err(InsufficientPointsOrInvalidReward)
          && rewards == EnsureRow(old(rewards), userId)
          && transactions == old(transactions)
      ensures var item := RowById(EnsureRow(old(rewards), userId), rewardId);
        rewardId != RedeemAllId && item.Some? && item.value.points <= FirstPoints(old(rewards), userId) ==>
          && rewards == UpdatePoints(EnsureRow(old(rewards), userId), userId, Add(-item.value.points))
          && transactions == old(transactions)
            + [Transaction(|old(transactions)| + 1, userId, Redeemed, item.value.points, "Redeemed: " + item.value.name)]
          && result.Ok? && FirstRowOf(rewards, userId) == Some(result.value)
          && result.value.points == FirstPoints(old(rewards), userId) - item.value.points >= 0
      ensures old(AllAgree(rewards, transactions)) ==> AllAgree(rewards, transactions)
    {
      var userReward := GetOrCreateReward(userId);
      if rewardId == RedeemAllId {
        var updated := RedeemAll(userId, userReward);
        result := Ok(updated);
      } else {
        result := RedeemCatalogueRow(userId, rewardId, userReward);
      }
    }

    /** The `rewardId === 0` branch of `redeemReward`, once u's first row is `userReward`. */
    method RedeemAll(userId: int, userReward: Reward) returns (updated: Reward)
      requires Valid()
      requires FirstRowOf(rewards, userId) == Some(userReward)
      modifies this
      ensures Valid()
      ensures users == old(users) && reports == old(reports) && notifications == old(notifications)
      ensures rewards == UpdatePoints(old(rewards), userId, SetTo(0))
      ensures transactions == old(transactions)
        + [Transaction(|old(transactions)| + 1, userId, Redeemed, userReward.points,
                       "Redeemed all points: " + IntToString(userReward.points))]
      ensures FirstRowOf(rewards, userId) == Some(updated) && updated.points == 0
      ensures old(AllAgree(rewards, transactions)) ==> AllAgree(rewards, transactions)
    {
      ghost var rewards0, txs0 := rewards, transactions;
      FirstRowAfterUpdate(rewards, userId, SetTo(0));
      var first := UpdateUserPoints(userId, SetTo(0));
      var t := CreateTransaction(userId, Redeemed, userReward.points, "Redeemed all points: " + IntToString(userReward.points));
      if AllAgree(rewards0, txs0) {
        RedeemAllKeepsAll(rewards0, txs0, userId, t);
      }
      updated := first.value;
    }

    /**
     * The branch of `redeemReward` for a catalogue row, once u's first row is `userReward`:
     * the row with that id must exist and cost no more than `userReward` holds.
     */
    method RedeemCatalogueRow(userId: int, rewardId: int, userReward: Reward) returns (result: Result<Reward>)
      requires Valid()
      requires FirstRowOf(rewards, userId) == Some(userReward)
      modifies this
      ensures Valid()
      ensures users == old(users) && reports == old(reports) && notifications == old(notifications)
      ensures RowById(old(rewards), rewardId).Some? <==> 1 <= rewardId <= |old(rewards)|
      ensures RowById(old(rewards), rewardId).Some? ==> RowById(old(rewards), rewardId).value == old(rewards)[rewardId - 1]
      ensures var item := RowById(old(rewards), rewardId);
        item.None? || userReward.points < item.value.points ==>
          && result == Err(InsufficientPointsOrInvalidReward)
          && rewards == old(rewards)
          && transactions == old(transactions)
      ensures var item := RowById(old(rewards), rewardId);
        item.Some? && item.value.points <= userReward.points ==>
          && rewards == UpdatePoints(old(rewards), userId, Add(-item.value.points))
          && transactions == old(transactions)
            + [Transaction(|old(transactions)| + 1, userId, Redeemed, item.value.points, "Redeemed: " + item.value.name)]
          && result.Ok? && FirstRowOf(rewards, userId) == Some(result.value)
          && result.value.points == userReward.points - item.value.points >= 0
      ensures old(AllAgree(rewards, transactions)) ==> AllAgree(rewards, transactions)
    {
      RowByIdSerial(rewards, rewardId, 1);
      var item := RowById(rewards, rewardId);
      if item.None? || userReward.points < item.value.points {
        return Err(InsufficientPointsOrInvalidReward);
      }
      ghost var rewards0, txs0 := rewards, transactions;
      var cost := item.value.points;
      FirstRowAfterUpdate(rewards, userId, Add(-cost));
      var first := UpdateUserPoints(userId, Add(-cost));
      var t := CreateTransaction(userId, Redeemed, cost, "Redeemed: " + item.value.name);
      if AllAgree(rewards0, txs0) {
        ChargeKeepsAll(rewards0, txs0, userId, cost, t);
      }
      result := Ok(first.value);
    }

    /**
     * `updateTaskStatus`: sets the status of the report with that id, and its collector
     * when one is given; returns the updated report, if there was one.
     */
    method UpdateTaskStatus(reportId: int, newStatus: string, collectorId: Option<int>) returns (updated: Option<Report>)
      requires Valid()
      modifies this
      ensures Valid()
      ensures reports == SetStatus(old(reports), reportId, newStatus, collectorId)
      ensures updated == ReportById(reports, reportId)
      ensures users == old(users) && rewards == old(rewards)
      ensures transactions == old(transactions) && notifications == old(notifications)
    {
      var rows := reports;
      var i := 0;
      while i < |rows|
        invariant 0 <= i <= |rows| == |reports|
        invariant forall k :: 0 <= k < i ==> rows[k] == SetRow(reports[k], reportId, newStatus, collectorId)
        invariant forall k :: i <= k < |rows| ==> rows[k] == reports[k]
      {
        if rows[i].id == reportId {
          var collector := if collectorId.Some? then collectorId else rows[i].collectorId;
          rows := rows[i := rows[i].(status := newStatus, collectorId := collector)];
        }
        i := i + 1;
      }
      assert rows == SetStatus(reports, reportId, newStatus, collectorId);
      reports := rows;
      updated := ReportById(reports, reportId);
    }

    /** `updateReportStatus`: the same update with the status only. */
    method UpdateReportStatus(reportId: int, status: string) returns (updated: Option<Report>)
      requires Valid()
      modifies this
      ensures Valid()
      ensures reports == SetStatus(old(reports), reportId, status, None)
      ensures updated == ReportById(reports, reportId)
      ensures users == old(users) && rewards == old(rewards)
      ensures transactions == old(transactions) && notifications == old(notifications)
    {
      updated := UpdateTaskStatus(reportId, status, None);
    }

    /** `markNotificationAsRead`: sets isRead on the notification with that id. */
    method MarkNotificationAsRead(notificationId: int)
      requires Valid()
      modifies this
      ensures Valid()
      ensures notifications == MarkRead(old(notifications), notificationId)
      ensures forall u :: forall x :: x in UnreadNotifications(notifications, u) <==>
        x in UnreadNotifications(old(notifications), u) && x.id != notificationId
      ensures users == old(users) && rewards == old(rewards)
      ensures transactions == old(transactions) && reports == old(reports)
    {
      var rows := notifications;
      var i := 0;
      while i < |rows|
        invariant 0 <= i <= |rows| == |notifications|
        invariant forall k :: 0 <= k < i ==> rows[k] == MarkRow(notifications[k], notificationId)
        invariant forall k :: i <= k < |rows| ==> rows[k] == notifications[k]
      {
        if rows[i].id == notificationId {
          rows := rows[i := rows[i].(isRead := true)];
        }
        i := i + 1;
      }
      assert rows == MarkRead(notifications, notificationId);
      forall u ensures forall x :: x in UnreadNotifications(rows, u) <==>
        x in UnreadNotifications(notifications, u) && x.id != notificationId {
        MarkReadRemovesExactlyOne(notifications, notificationId, u);
      }
      notifications := rows;
    }
  }

  /**
   * The idempotence of `getOrCreateReward` as a caller sees it: two calls in a row return
   * the same row, and the second one changes nothing.
   */
  method GetOrCreateRewardTwice(store: LedgerStore, userId: int) returns (first: Reward, second: Reward)
    requires store.Valid()
    modifies store
    ensures store.Valid()
    ensures first == second
    ensures store.rewards == EnsureRow(old(store.rewards), userId)
    ensures store.transactions == old(store.transactions)
    ensures store.users == old(store.users) && store.reports == old(store.reports)
    ensures store.notifications == old(store.notifications)
  {
    first := store.GetOrCreateReward(userId);
    ghost var between := store.rewards;
    second := store.GetOrCreateReward(userId);
    assert store.rewards == between;
  }
}
