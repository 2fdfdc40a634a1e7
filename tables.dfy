/**
 * Row types of the tables the points ledger reads and writes (users, rewards,
 * transactions, reports, notifications), the transaction kinds, and the two
 * kind tests the ledger's queries use.
 */
module Tables {

  datatype Option<+T> = None | Some(value: T)

  /** The error `redeemReward` throws to its caller. */
  datatype LedgerError = InsufficientPointsOrInvalidReward

  datatype Result<+T> = Ok(value: T) | Err(error: LedgerError)

  datatype UserType = Volunteer | Organization

  /** A row of `users`; `id` is the serial key the store assigns. */
  datatype User = User(id: int, email: string, name: string, userType: UserType)

  /**
   * A row of `rewards`. The same table is both the per-user points row and the
   * catalogue that `redeemReward` spends against (a row's `points` is its cost).
   */
  datatype Reward = Reward(
    id: int,
    userId: int,
    name: string,
    collectionInfo: string,
    description: Option<string>,
    points: int,
    level: int,
    isAvailable: bool)

  /** The `type` column of `transactions`. */
  datatype TxKind = Earned | EarnedReport | EarnedCollect | Redeemed {
    /** The string stored in the column. */
    function Name(): string {
      match this
      case Earned => "earned"
      case EarnedReport => "earned_report"
      case EarnedCollect => "earned_collect"
      case Redeemed => "redeemed"
    }
  }

  /** A row of `transactions`; the timestamp column is left out (see README). */
  datatype Transaction = Transaction(id: int, userId: int, kind: TxKind, amount: int, description: string)

  datatype Report = Report(
    id: int,
    userId: int,
    location: string,
    wasteType: string,
    amount: string,
    imageUrl: Option<string>,
    verificationResult: Option<string>,
    status: string,
    collectorId: Option<int>)

  datatype Notification = Notification(id: int, userId: int, message: string, kind: string, isRead: bool)

  predicate StartsWith(s: string, prefix: string) {
    |prefix| <= |s| && s[..|prefix|] == prefix
  }

  /** The balance folds add a transaction whose type starts with "earned" and subtract any other. */
  predicate IsEarning(k: TxKind) {
    StartsWith(k.Name(), "earned")
  }

  /** The kinds the leaderboard and the reward totals sum: `type IN ('earned_report', 'earned_collect')`. */
  predicate OnLeaderboard(k: TxKind) {
    k.Name() == "earned_report" || k.Name() == "earned_collect"
  }

  /** What a transaction contributes to a balance fold. */
  function Signed(t: Transaction): (r: int)
    ensures t.kind == Redeemed ==> r == -t.amount
    ensures t.kind != Redeemed ==> r == t.amount
  {
    KindClassification(t.kind);
    if IsEarning(t.kind) then t.amount else -t.amount
  }

  /** The organisation grant ('earned') counts in balances but not on the leaderboard. */
  lemma KindClassification(k: TxKind)
    ensures IsEarning(k) <==> k != Redeemed
    ensures OnLeaderboard(k) <==> (k == EarnedReport || k == EarnedCollect)
  {
    match k
    case Earned => assert k.Name()[..6] == "earned";
    case EarnedReport => assert k.Name()[..6] == "earned";
    case EarnedCollect => assert k.Name()[..6] == "earned";
    case Redeemed => assert k.Name()[..6][0] != "earned"[0];
  }

  function DigitChar(d: nat): (c: char)
    requires d < 10
    ensures '0' <= c <= '9'
    ensures c as int - '0' as int == d
  {
    ['0', '1', '2', '3', '4', '5', '6', '7', '8', '9'][d]
  }

  /** The number a string of decimal digits stands for, most significant digit first. */
  function DecimalValue(s: string): int {
    if s == [] then 0 else 10 * DecimalValue(s[..|s| - 1]) + (s[|s| - 1] as int - '0' as int)
  }

  /** Decimal rendering of a number, as a template literal does. */
  function NatToString(n: nat): (s: string)
    ensures |s| >= 1
    ensures forall i :: 0 <= i < |s| ==> '0' <= s[i] <= '9'
    ensures DecimalValue(s) == n
    ensures s[0] == '0' <==> n == 0
    ensures |s| > 1 ==> s[0] != '0'
    decreases n
  {
    if n < 10 then [DigitChar(n)]
    else
      var high := NatToString(n / 10);
      var s := high + [DigitChar(n % 10)];
      assert s[..|s| - 1] == high;
      s
  }

  /** A leading minus sign for a negative number, then the digits of its magnitude. */
  function IntToString(n: int): (s: string)
    ensures |s| >= 1
    ensures (s[0] == '-') <==> n < 0
    ensures n >= 0 ==> DecimalValue(s) == n
    ensures n < 0 ==> DecimalValue(s[1..]) == -n
    ensures forall i :: (if n < 0 then 1 else 0) <= i < |s| ==> '0' <= s[i] <= '9'
    ensures n >= 0 ==> |s| > 1 ==> s[0] != '0'
    ensures n < 0 ==> |s| > 1 && s[1] != '0'
  {
    if n < 0 then
      var s := "-" + NatToString(-n);
      assert s[1..] == NatToString(-n);
      s
    else NatToString(n)
  }
}
