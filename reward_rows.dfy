/**
 * The `rewards` table as a sequence of rows in insertion order, and the
 * whole-table operations the actions perform on it: selecting a user's rows,
 * lazily adding a user's first row, and the `UPDATE rewards ... WHERE userId = u`
 * statements, which touch every row of that user.
 */
module RewardRows {
  import opened Tables

  /** Points every lazily created row starts with, and the other fixed columns. */
  function DefaultRow(id: int, userId: int): Reward {
    Reward(id, userId, "Default Reward", "Default Collection Info", None, 0, 1, true)
  }

  /** `SELECT * FROM rewards WHERE userId = u`, in table order. */
  function RowsOf(rows: seq<Reward>, u: int): (r: seq<Reward>)
    ensures |r| <= |rows|
  {
    if rows == [] then []
    else
      var last := rows[|rows| - 1];
      RowsOf(rows[..|rows| - 1], u) + (if last.userId == u then [last] else [])
  }

  /** The selection holds exactly the rows of u. */
  lemma {:induction false} RowsOfMembers(rows: seq<Reward>, u: int)
    ensures forall x :: x in RowsOf(rows, u) <==> x in rows && x.userId == u
  {
    if rows != [] {
      var n := |rows| - 1;
      RowsOfMembers(rows[..n], u);
      assert rows == rows[..n] + [rows[n]];
    }
  }

  /** The row `getOrCreateReward` takes: the first one of the user, if any. */
  function FirstRowOf(rows: seq<Reward>, u: int): (r: Option<Reward>)
    ensures r.Some? ==> r.value in rows && r.value.userId == u
  {
    var mine := RowsOf(rows, u);
    if mine == [] then None
    else
      RowsOfMembers(rows, u);
      assert mine[0] in mine;
      Some(mine[0])
  }

  /** There is no first row exactly when no row belongs to u. */
  lemma FirstRowOfNone(rows: seq<Reward>, u: int)
    ensures FirstRowOf(rows, u).None? <==> forall i :: 0 <= i < |rows| ==> rows[i].userId != u
  {
    RowsOfMembers(rows, u);
    if FirstRowOf(rows, u).Some? {
      var k :| 0 <= k < |rows| && rows[k] == FirstRowOf(rows, u).value;
    } else if exists i :: 0 <= i < |rows| && rows[i].userId == u {
      var i :| 0 <= i < |rows| && rows[i].userId == u;
      assert rows[i] in RowsOf(rows, u);
    }
  }

  /** Points of the user's first row, 0 when the user has none (the row getOrCreateReward would add). */
  function FirstPoints(rows: seq<Reward>, u: int): int {
    match FirstRowOf(rows, u)
    case Some(r) => r.points
    case None => 0
  }

  /** The table after `getOrCreateReward(u)`: unchanged if u has a row, else one default row appended. */
  function EnsureRow(rows: seq<Reward>, u: int): (r: seq<Reward>)
    ensures FirstRowOf(rows, u).Some? ==> r == rows
    ensures FirstRowOf(rows, u).None? ==> r == rows + [DefaultRow(|rows| + 1, u)]
  {
    if FirstRowOf(rows, u).Some? then rows else rows + [DefaultRow(|rows| + 1, u)]
  }

  /** `SELECT * FROM rewards WHERE id = i`, first match. */
  function RowById(rows: seq<Reward>, id: int): (r: Option<Reward>)
    ensures r.Some? ==> r.value in rows && r.value.id == id
    ensures r.None? ==> forall k :: 0 <= k < |rows| ==> rows[k].id != id
  {
    if rows == [] then None
    else if rows[0].id == id then Some(rows[0])
    else RowById(rows[1..], id)
  }

  /**
   * A serial key numbers the rows `first`, `first + 1`, ... in table order, so the row
   * with a given id exists exactly when the id is in range, and it sits at id − first.
   */
  lemma {:induction false} RowByIdSerial(rows: seq<Reward>, id: int, first: int)
    requires forall k :: 0 <= k < |rows| ==> rows[k].id == first + k
    ensures RowById(rows, id).Some? <==> first <= id < first + |rows|
    ensures RowById(rows, id).Some? ==> RowById(rows, id).value == rows[id - first]
    decreases |rows|
  {
    if rows != [] && rows[0].id != id {
      RowByIdSerial(rows[1..], id, first + 1);
    }
  }

  /** The `SET points = ...` part of the updates: add a delta, or overwrite. */
  datatype PointsUpdate = Add(delta: int) | SetTo(points: int) {
    function ApplyTo(p: int): int {
      match this
      case Add(d) => p + d
      case SetTo(v) => v
    }
  }

  function UpdateRow(row: Reward, u: int, upd: PointsUpdate): Reward {
    if row.userId == u then row.(points := upd.ApplyTo(row.points)) else row
  }

  /** `UPDATE rewards SET points = upd(points) WHERE userId = u`. */
  function UpdatePoints(rows: seq<Reward>, u: int, upd: PointsUpdate): (r: seq<Reward>)
    ensures |r| == |rows|
  {
    seq(|rows|, i requires 0 <= i < |rows| => UpdateRow(rows[i], u, upd))
  }

  /**
   * The update changes no column but points: every row keeps its place, its id and its
   * owner, and a row of another user keeps its points too.
   */
  lemma UpdatePointsFrame(rows: seq<Reward>, u: int, upd: PointsUpdate)
    ensures forall k :: 0 <= k < |rows| ==> UpdatePoints(rows, u, upd)[k].(points := rows[k].points) == rows[k]
    ensures forall k :: 0 <= k < |rows| && rows[k].userId != u ==> UpdatePoints(rows, u, upd)[k] == rows[k]
  {
  }

  lemma RowsOfAppend(rows: seq<Reward>, x: Reward, u: int)
    ensures RowsOf(rows + [x], u) == RowsOf(rows, u) + (if x.userId == u then [x] else [])
  {
    assert (rows + [x])[..|rows|] == rows;
  }

  /**
   * An update by userId changes the points of each of u's rows as `upd` says, keeps
   * their order and every other column, and leaves every other user's rows as they were.
   */
  lemma {:induction false} UpdatePointsRows(rows: seq<Reward>, u: int, upd: PointsUpdate, v: int)
    ensures v != u ==> RowsOf(UpdatePoints(rows, u, upd), v) == RowsOf(rows, v)
    ensures |RowsOf(UpdatePoints(rows, u, upd), u)| == |RowsOf(rows, u)|
    ensures forall k :: 0 <= k < |RowsOf(rows, u)| ==>
      RowsOf(UpdatePoints(rows, u, upd), u)[k] == RowsOf(rows, u)[k].(points := upd.ApplyTo(RowsOf(rows, u)[k].points))
  {
    if rows != [] {
      var n := |rows| - 1;
      var front := rows[..n];
      assert UpdatePoints(rows, u, upd) == UpdatePoints(front, u, upd) + [UpdateRow(rows[n], u, upd)];
      assert rows == front + [rows[n]];
      UpdatePointsRows(front, u, upd, v);
      RowsOfAppend(UpdatePoints(front, u, upd), UpdateRow(rows[n], u, upd), v);
      RowsOfAppend(UpdatePoints(front, u, upd), UpdateRow(rows[n], u, upd), u);
      RowsOfAppend(front, rows[n], v);
      RowsOfAppend(front, rows[n], u);
    }
  }

  /** The first row of u after an update is u's old first row with updated points. */
  lemma FirstRowAfterUpdate(rows: seq<Reward>, u: int, upd: PointsUpdate)
    ensures FirstRowOf(UpdatePoints(rows, u, upd), u).Some? <==> FirstRowOf(rows, u).Some?
    ensures FirstRowOf(rows, u).Some? ==>
      var r := FirstRowOf(rows, u).value;
      FirstRowOf(UpdatePoints(rows, u, upd), u) == Some(r.(points := upd.ApplyTo(r.points)))
  {
    UpdatePointsRows(rows, u, upd, u);
  }

  /**
   * getOrCreateReward is idempotent: after it the user has a first row, the row added
   * (if any) is a default row with 0 points, and running it again changes nothing.
   */
  lemma {:induction false} EnsureRowIdempotent(rows: seq<Reward>, u: int)
    ensures FirstRowOf(EnsureRow(rows, u), u).Some?
    ensures FirstRowOf(rows, u).Some? ==> FirstRowOf(EnsureRow(rows, u), u) == FirstRowOf(rows, u)
    ensures FirstRowOf(rows, u).None? ==> FirstRowOf(EnsureRow(rows, u), u) == Some(DefaultRow(|rows| + 1, u))
    ensures EnsureRow(EnsureRow(rows, u), u) == EnsureRow(rows, u)
    ensures FirstPoints(EnsureRow(rows, u), u) == FirstPoints(rows, u)
  {
    if FirstRowOf(rows, u).None? {
      RowsOfAppend(rows, DefaultRow(|rows| + 1, u), u);
    }
  }

  /** Adding u's default row leaves every other user's rows alone. */
  lemma EnsureRowOthers(rows: seq<Reward>, u: int, v: int)
    requires v != u
    ensures RowsOf(EnsureRow(rows, u), v) == RowsOf(rows, v)
  {
    RowsOfAppend(rows, DefaultRow(|rows| + 1, u), v);
  }

  /**
   * The sufficiency check guards only the first row, while the deduction hits every
   * row of the user: a user whose first row holds 50 and second row 5 passes a check
   * against cost 10 and is left with a second row of -5.
   */
  lemma CheckedDeductionCanDriveOtherRowNegative()
    ensures var rows := [DefaultRow(1, 7).(points := 50), DefaultRow(2, 7).(points := 5)];
      && FirstPoints(rows, 7) >= 10
      && UpdatePoints(rows, 7, Add(-10))[1].points == -5
  {
    var rows := [DefaultRow(1, 7).(points := 50), DefaultRow(2, 7).(points := 5)];
    assert rows[..1] == [rows[0]];
    assert RowsOf(rows[..1], 7) == [rows[0]] by {
      assert rows[..1][..0] == [];
    }
  }
}
