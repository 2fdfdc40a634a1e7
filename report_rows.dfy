/**
 * The `reports` table: the status update of `updateTaskStatus` and
 * `updateReportStatus`. The code accepts any status string; the
 * pending → verified → collected life cycle is not enforced here.
 */
module ReportRows {
  import opened Tables

  const Pending := "pending"

  /** `SELECT * FROM reports WHERE id = i`, first match. */
  function ReportById(rows: seq<Report>, id: int): (r: Option<Report>)
    ensures r.Some? ==> r.value in rows && r.value.id == id
    ensures r.None? ==> forall k :: 0 <= k < |rows| ==> rows[k].id != id
  {
    if rows == [] then None
    else if rows[0].id == id then Some(rows[0])
    else ReportById(rows[1..], id)
  }

  /** The SET of `updateTaskStatus`: the status, and the collector only when one is given. */
  function SetRow(row: Report, id: int, status: string, collector: Option<int>): Report {
    if row.id == id then
      row.(status := status, collectorId := if collector.Some? then collector else row.collectorId)
    else row
  }

  /** `UPDATE reports SET ... WHERE id = i`. */
  function SetStatus(rows: seq<Report>, id: int, status: string, collector: Option<int>): (r: seq<Report>)
    ensures |r| == |rows|
  {
    seq(|rows|, i requires 0 <= i < |rows| => SetRow(rows[i], id, status, collector))
  }

  /**
   * The update changes only the status and the collector: every report keeps its place,
   * its id and every other column.
   */
  lemma SetStatusFrame(rows: seq<Report>, id: int, status: string, collector: Option<int>)
    ensures forall k :: 0 <= k < |rows| ==>
      SetStatus(rows, id, status, collector)[k].(status := rows[k].status, collectorId := rows[k].collectorId) == rows[k]
  {
  }

  /**
   * The report with that id (if any) comes back with the new status, and with the new
   * collector when one was given; every other report is left as it was.
   */
  lemma {:induction false} SetStatusEffect(rows: seq<Report>, id: int, status: string, collector: Option<int>)
    ensures ReportById(SetStatus(rows, id, status, collector), id).Some? <==> ReportById(rows, id).Some?
    ensures ReportById(rows, id).Some? ==>
      var before := ReportById(rows, id).value;
      var after := ReportById(SetStatus(rows, id, status, collector), id).value;
      && after == before.(status := status, collectorId := if collector.Some? then collector else before.collectorId)
    ensures forall k :: 0 <= k < |rows| && rows[k].id != id ==> SetStatus(rows, id, status, collector)[k] == rows[k]
  {
    if rows != [] && rows[0].id != id {
      assert SetStatus(rows, id, status, collector)[1..] == SetStatus(rows[1..], id, status, collector);
      SetStatusEffect(rows[1..], id, status, collector);
    }
  }
}
