/**
 * `getAllRewards`, the leaderboard: the transactions of kind earned_report or
 * earned_collect, grouped by user, summed, ordered by the sum from highest to
 * lowest, each group given the user's name and the level ⌊sum/10⌋.
 *
 * The database orders by the sum alone; among equal sums the order it returns is
 * not fixed. This model orders equal sums by the user's first earning in the
 * table, and the contract of `Leaderboard` promises nothing about ties.
 */
module Leaderboard {
  import opened Tables
  import opened Balance

  datatype Entry = Entry(id: int, userId: int, userName: string, points: int, level: int)

  const UnknownUser := "Unknown User"

  /** The user row the LEFT JOIN on `users.id` finds, if any. */
  function UserById(users: seq<User>, u: int): (r: Option<User>)
    ensures r.Some? ==> r.value in users && r.value.id == u
    ensures r.None? ==> forall k :: 0 <= k < |users| ==> users[k].id != u
  {
    if users == [] then None
    else if users[0].id == u then Some(users[0])
    else UserById(users[1..], u)
  }

  /**
   * `reward.userName || 'Unknown User'`: a missing user and an empty name both show
   * as "Unknown User".
   */
  function DisplayName(users: seq<User>, u: int): (n: string)
    ensures n != ""
    ensures UserById(users, u).Some? && UserById(users, u).value.name != "" ==> n == UserById(users, u).value.name
    ensures UserById(users, u).Some? && UserById(users, u).value.name == "" ==> n == UnknownUser
    ensures UserById(users, u).None? ==> n == UnknownUser
  {
    match UserById(users, u)
    case Some(user) => if user.name != "" then user.name else UnknownUser
    case None => UnknownUser
  }

  ghost predicate HasEarned(txs: seq<Transaction>, u: int) {
    exists t :: t in txs && t.userId == u && OnLeaderboard(t.kind)
  }

  ghost predicate DistinctInts(s: seq<int>) {
    forall i, j :: 0 <= i < j < |s| ==> s[i] != s[j]
  }

  /**
   * The GROUP BY keys: the users with an earned_report or earned_collect transaction,
   * each once, in order of their first such transaction.
   */
  function EarnedUsers(txs: seq<Transaction>): (r: seq<int>)
    ensures DistinctInts(r)
    ensures forall u :: u in r <==> HasEarned(txs, u)
  {
    if txs == [] then []
    else
      var front := txs[..|txs| - 1];
      var t := txs[|txs| - 1];
      var rest := EarnedUsers(front);
      assert txs == front + [t];
      assert forall u :: HasEarned(txs, u) <==> HasEarned(front, u) || (t.userId == u && OnLeaderboard(t.kind)) by {
        forall u ensures HasEarned(txs, u) ==> HasEarned(front, u) || (t.userId == u && OnLeaderboard(t.kind)) {
          if HasEarned(txs, u) {
            var x :| x in txs && x.userId == u && OnLeaderboard(x.kind);
            assert x in front || x == t;
          }
        }
      }
      if OnLeaderboard(t.kind) && t.userId !in rest then rest + [t.userId] else rest
  }

  /** One group, as the final `map` shapes it: id and userId are both the user's id. */
  function EntryFor(users: seq<User>, txs: seq<Transaction>, u: int): Entry {
    var p := UserTotalRewards(txs, u);
    Entry(u, u, DisplayName(users, u), p, Level(p))
  }

  function Groups(users: seq<User>, txs: seq<Transaction>, us: seq<int>): (r: seq<Entry>)
    ensures |r| == |us|
    ensures forall k :: 0 <= k < |us| ==> r[k] == EntryFor(users, txs, us[k])
  {
    seq(|us|, i requires 0 <= i < |us| => EntryFor(users, txs, us[i]))
  }

  ghost predicate SortedDesc(es: seq<Entry>) {
    forall i, j :: 0 <= i < j < |es| ==> es[i].points >= es[j].points
  }

  ghost predicate DistinctUsers(es: seq<Entry>) {
    forall i, j :: 0 <= i < j < |es| ==> es[i].userId != es[j].userId
  }

  /** Insert e before the first entry it is not below. */
  function Insert(e: Entry, s: seq<Entry>): (r: seq<Entry>)
    ensures |r| == |s| + 1
    ensures forall x :: x in r <==> x == e || x in s
  {
    if s == [] then [e]
    else if e.points >= s[0].points then [e] + s
    else
      assert s == [s[0]] + s[1..];
      [s[0]] + Insert(e, s[1..])
  }

  lemma {:induction false} InsertSorted(e: Entry, s: seq<Entry>)
    requires SortedDesc(s)
    ensures SortedDesc(Insert(e, s))
  {
    if s != [] {
      if e.points >= s[0].points {
        assert forall x :: x in s ==> s[0].points >= x.points;
      } else {
        assert s == [s[0]] + s[1..];
        InsertSorted(e, s[1..]);
        assert forall x :: x in Insert(e, s[1..]) ==> s[0].points >= x.points;
      }
    }
  }

  lemma {:induction false} InsertDistinct(e: Entry, s: seq<Entry>)
    requires DistinctUsers(s)
    requires forall x :: x in s ==> x.userId != e.userId
    ensures DistinctUsers(Insert(e, s))
  {
    if s != [] && e.points < s[0].points {
      assert s == [s[0]] + s[1..];
      InsertDistinct(e, s[1..]);
      assert forall x :: x in Insert(e, s[1..]) ==> s[0].userId != x.userId;
    }
  }

  lemma {:induction false} InsertPermutes(e: Entry, s: seq<Entry>)
    ensures multiset(Insert(e, s)) == multiset(s) + multiset{e}
  {
    if s != [] && e.points < s[0].points {
      assert s == [s[0]] + s[1..];
      InsertPermutes(e, s[1..]);
    }
  }

  /** Insertion sort on the sum, highest first; equal sums keep their order. */
  function SortDesc(s: seq<Entry>): (r: seq<Entry>)
    ensures |r| == |s|
    ensures forall x :: x in r <==> x in s
  {
    if s == [] then []
    else
      assert s == [s[0]] + s[1..];
      Insert(s[0], SortDesc(s[1..]))
  }

  /** The sort orders by points, permutes its input, and keeps users distinct. */
  lemma {:induction false} SortDescCorrect(s: seq<Entry>)
    ensures SortedDesc(SortDesc(s))
    ensures multiset(SortDesc(s)) == multiset(s)
    ensures DistinctUsers(s) ==> DistinctUsers(SortDesc(s))
  {
    if s != [] {
      assert s == [s[0]] + s[1..];
      SortDescCorrect(s[1..]);
      InsertSorted(s[0], SortDesc(s[1..]));
      InsertPermutes(s[0], SortDesc(s[1..]));
      if DistinctUsers(s) {
        assert DistinctUsers(s[1..]);
        assert forall x :: x in s[1..] ==> x.userId != s[0].userId;
        InsertDistinct(s[0], SortDesc(s[1..]));
      }
    }
  }

  /** What grouping yields, before the sort: one entry per earning user, shaped by EntryFor. */
  lemma GroupsFacts(users: seq<User>, txs: seq<Transaction>)
    ensures DistinctUsers(Groups(users, txs, EarnedUsers(txs)))
    ensures forall x :: x in Groups(users, txs, EarnedUsers(txs)) ==> x == EntryFor(users, txs, x.userId)
    ensures forall u :: HasEarned(txs, u) ==> EntryFor(users, txs, u) in Groups(users, txs, EarnedUsers(txs))
    ensures forall x :: x in Groups(users, txs, EarnedUsers(txs)) ==> HasEarned(txs, x.userId)
  {
    var us := EarnedUsers(txs);
    var gs := Groups(users, txs, us);
    forall u | HasEarned(txs, u) ensures EntryFor(users, txs, u) in gs {
      var k :| 0 <= k < |us| && us[k] == u;
      assert gs[k] == EntryFor(users, txs, u);
    }
    forall x | x in gs ensures x == EntryFor(users, txs, x.userId) && HasEarned(txs, x.userId) {
      var k :| 0 <= k < |gs| && gs[k] == x;
      assert us[k] in us;
    }
  }

  /**
   * `getAllRewards()`: one entry per user with an earned_report or earned_collect
   * transaction, and for no one else; ordered by points, never increasing; each entry's
   * id is its userId, its points the user's earned total, its level ⌊points/10⌋,
   * and its name the joined user name or "Unknown User".
   */
  function Leaderboard(users: seq<User>, txs: seq<Transaction>): (r: seq<Entry>)
    ensures SortedDesc(r)
    ensures DistinctUsers(r)
    ensures forall u :: HasEarned(txs, u) <==> exists x :: x in r && x.userId == u
    ensures forall x :: x in r ==>
      && x.id == x.userId
      && x.points == UserTotalRewards(txs, x.userId)
      && x.level == Level(x.points)
      && x.userName == DisplayName(users, x.userId)
  {
    var gs := Groups(users, txs, EarnedUsers(txs));
    SortDescCorrect(gs);
    GroupsFacts(users, txs);
    SortDesc(gs)
  }

  /** SUM over a sequence of leaderboard entries. */
  function SumPoints(es: seq<Entry>): int {
    if es == [] then 0 else es[0].points + SumPoints(es[1..])
  }

  /** The users' earned totals summed over a list of users. */
  function TotalOver(txs: seq<Transaction>, us: seq<int>): int {
    if us == [] then 0 else UserTotalRewards(txs, us[0]) + TotalOver(txs, us[1..])
  }

  lemma {:induction false} SumInsert(e: Entry, s: seq<Entry>)
    ensures SumPoints(Insert(e, s)) == e.points + SumPoints(s)
  {
    if s != [] && e.points < s[0].points {
      SumInsert(e, s[1..]);
      assert ([s[0]] + Insert(e, s[1..]))[1..] == Insert(e, s[1..]);
    } else {
      assert ([e] + s)[1..] == s;
    }
  }

  lemma {:induction false} SumSort(s: seq<Entry>)
    ensures SumPoints(SortDesc(s)) == SumPoints(s)
  {
    if s != [] {
      SumSort(s[1..]);
      SumInsert(s[0], SortDesc(s[1..]));
    }
  }

  lemma {:induction false} SumGroups(users: seq<User>, txs: seq<Transaction>, us: seq<int>)
    ensures SumPoints(Groups(users, txs, us)) == TotalOver(txs, us)
  {
    if us != [] {
      assert Groups(users, txs, us)[1..] == Groups(users, txs, us[1..]);
      SumGroups(users, txs, us[1..]);
    }
  }

  lemma {:induction false} TotalOverConcat(txs: seq<Transaction>, a: seq<int>, b: seq<int>)
    ensures TotalOver(txs, a + b) == TotalOver(txs, a) + TotalOver(txs, b)
  {
    if a == [] {
      assert a + b == b;
    } else {
      assert (a + b)[1..] == a[1..] + b;
      TotalOverConcat(txs, a[1..], b);
    }
  }

  /** Recording t moves the sum over distinct users by t's amount iff t counts and its user is listed. */
  lemma {:induction false} TotalOverAppend(txs: seq<Transaction>, t: Transaction, us: seq<int>)
    requires DistinctInts(us)
    ensures TotalOver(txs + [t], us)
      == TotalOver(txs, us) + (if OnLeaderboard(t.kind) && t.userId in us then t.amount else 0)
  {
    if us != [] {
      assert DistinctInts(us[1..]);
      assert t.userId in us <==> t.userId == us[0] || t.userId in us[1..] by {
        assert us == [us[0]] + us[1..];
      }
      assert t.userId == us[0] ==> t.userId !in us[1..];
      TotalOverAppend(txs, t, us[1..]);
      UserTotalAfterAppend(txs, t, us[0]);
    }
  }

  /** A user with no earned_report or earned_collect transaction has an earned total of 0. */
  lemma {:induction false} NoEarningsZeroTotal(txs: seq<Transaction>, u: int)
    requires !HasEarned(txs, u)
    ensures UserTotalRewards(txs, u) == 0
  {
    if txs != [] {
      var n := |txs| - 1;
      assert txs == txs[..n] + [txs[n]];
      assert !HasEarned(txs[..n], u) by {
        forall x | x in txs[..n] ensures !(x.userId == u && OnLeaderboard(x.kind)) {
          assert x in txs;
        }
      }
      NoEarningsZeroTotal(txs[..n], u);
      UserTotalAfterAppend(txs[..n], txs[n], u);
    }
  }

  /** The per-user totals of the grouped users add up to the overall earned total. */
  lemma {:induction false} GroupTotalsAddUp(txs: seq<Transaction>)
    ensures TotalOver(txs, EarnedUsers(txs)) == TotalRewards(txs)
  {
    if txs != [] {
      var n := |txs| - 1;
      var front, t := txs[..n], txs[n];
      assert txs == front + [t];
      var rest := EarnedUsers(front);
      GroupTotalsAddUp(front);
      UserTotalAfterAppend(front, t, t.userId);
      TotalOverAppend(front, t, rest);
      if OnLeaderboard(t.kind) && t.userId !in rest {
        TotalOverConcat(txs, rest, [t.userId]);
        assert [t.userId][1..] == [];
        NoEarningsZeroTotal(front, t.userId);
      }
    }
  }

  /**
   * The leaderboard's points add up to `getTotalRewards()`: every earned_report and
   * earned_collect amount is counted once, in its user's entry.
   */
  lemma LeaderboardSumsToTotal(users: seq<User>, txs: seq<Transaction>)
    ensures SumPoints(Leaderboard(users, txs)) == TotalRewards(txs)
  {
    var us := EarnedUsers(txs);
    SumSort(Groups(users, txs, us));
    SumGroups(users, txs, us);
    GroupTotalsAddUp(txs);
  }
}
