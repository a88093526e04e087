/**
 * `RealmCenReportDao`: queries, insertion and deletion over the table of
 * symptom reports. The Realm table is a sequence of records in the order
 * Realm returns them; each query is a filter over it.
 */
module ReportDao {

  /** A symptom report as the app passes it in. */
  datatype CenReport = CenReport(
    id: string,
    report: string,
    keys: string,
    reportMimeType: string,
    date: int,
    isUser: bool)

  /** A stored report row. `date` is what `insert` sets; `timestamp` is the
      column `findByRange` filters on, which `insert` never sets. */
  datatype RealmCenReport = RealmCenReport(
    id: string,
    report: string,
    keys: string,
    reportMimeType: string,
    date: int,
    timestamp: int,
    isUser: bool)

  /** The `timestamp` a freshly created row keeps, since `insert` leaves it
      at its default. */
  const UnsetTimestamp: int := 0

  /** The row `insert` creates for `report`. */
  function Stored(report: CenReport): RealmCenReport {
    RealmCenReport(report.id, report.report, report.keys, report.reportMimeType,
                   report.date, UnsetTimestamp, report.isUser)
  }

  /** `loadAllById` on a table value: the rows whose `id` is one of `ids`,
      in table order. */
  function WithIds(table: seq<RealmCenReport>, ids: seq<string>): (r: seq<RealmCenReport>)
    ensures |r| <= |table|
    ensures forall x :: x in r <==> x in table && x.id in ids
    decreases |table|
  {
    if table == [] then []
    else
      var last := table[|table| - 1];
      assert table == table[..|table| - 1] + [last];
      WithIds(table[..|table| - 1], ids) + (if last.id in ids then [last] else [])
  }

  /** The table after `delete(report)`: every row with that `id` removed,
      the others kept in order. */
  function WithoutId(table: seq<RealmCenReport>, id: string): (r: seq<RealmCenReport>)
    ensures |r| <= |table|
    ensures forall x :: x in r <==> x in table && x.id != id
    decreases |table|
  {
    if table == [] then []
    else
      var last := table[|table| - 1];
      assert table == table[..|table| - 1] + [last];
      WithoutId(table[..|table| - 1], id) + (if last.id != id then [last] else [])
  }

  /** The rows whose `timestamp` lies in `[start, end]`, in table order. */
  function InRange(table: seq<RealmCenReport>, start: int, end: int): (r: seq<RealmCenReport>)
    ensures forall x :: x in r <==> x in table && start <= x.timestamp <= end
    decreases |table|
  {
    if table == [] then []
    else
      var last := table[|table| - 1];
      assert table == table[..|table| - 1] + [last];
      InRange(table[..|table| - 1], start, end) + (if start <= last.timestamp <= end then [last] else [])
  }

  /** After a delete, looking the id up finds nothing. */
  lemma {:induction false} LoadAfterDelete(table: seq<RealmCenReport>, id: string)
    ensures WithIds(WithoutId(table, id), [id]) == []
    decreases |table|
  {
    if table != [] {
      var init, last := table[..|table| - 1], table[|table| - 1];
      LoadAfterDelete(init, id);
      var kept := WithoutId(init, id);
      if last.id != id {
        assert WithoutId(table, id) == kept + [last];
        assert (kept + [last])[..|kept|] == kept;
      } else {
        assert WithoutId(table, id) == kept;
      }
    }
  }

  /** Deleting one id leaves every lookup of OTHER ids exactly as it was,
      rows and order alike. */
  lemma {:induction false} LoadOthersAfterDelete(table: seq<RealmCenReport>, id: string, ids: seq<string>)
    requires id !in ids
    ensures WithIds(WithoutId(table, id), ids) == WithIds(table, ids)
    decreases |table|
  {
    if table != [] {
      var init, last := table[..|table| - 1], table[|table| - 1];
      LoadOthersAfterDelete(init, id, ids);
      var kept := WithoutId(init, id);
      var found := WithIds(init, ids);
      assert WithIds(table, ids) == found + (if last.id in ids then [last] else []);
      if last.id != id {
        assert WithoutId(table, id) == kept + [last];
        assert (kept + [last])[..|kept|] == kept;
        assert WithIds(kept + [last], ids) == WithIds(kept, ids) + (if last.id in ids then [last] else []);
      } else {
        assert WithoutId(table, id) == kept;
      }
    }
  }

  /** After an insert, looking its id up finds the rows it found before and
      then the new row, carrying the report's fields. */
  lemma LoadAfterInsert(table: seq<RealmCenReport>, report: CenReport)
    ensures WithIds(table + [Stored(report)], [report.id]) == WithIds(table, [report.id]) + [Stored(report)]
  {
    assert (table + [Stored(report)])[..|table|] == table;
  }

  class RealmCenReportDao {
    /** The report table, in the order Realm returns its rows. */
    var table: seq<RealmCenReport>

    constructor (stored: seq<RealmCenReport>)
      ensures table == stored
    {
      table := stored;
    }

    /** `all(limit)`: every stored report; `limit` is not used. */
    function All(limit: int): (r: seq<RealmCenReport>)
      reads this
      ensures r == table
    {
      table
    }

    /** `loadAllById(ids)`: exactly the stored reports whose `id` is in `ids`,
        in table order. */
    function LoadAllById(ids: seq<string>): (r: seq<RealmCenReport>)
      reads this
      ensures forall x :: x in r <==> x in table && x.id in ids
      ensures r == WithIds(table, ids)
    {
      WithIds(table, ids)
    }

    /** `findByRange(start, end)` with `limit(1)`: at most one report, and it
        has `start <= timestamp <= end`; nothing is returned only when no
        stored report is in that range. */
    function FindByRange(start: int, end: int): (r: seq<RealmCenReport>)
      reads this
      ensures |r| <= 1
      ensures forall x :: x in r ==> x in table && start <= x.timestamp <= end
      ensures r == [] <==> forall x :: x in table ==> !(start <= x.timestamp <= end)
    {
      var hits := InRange(table, start, end);
      if hits == [] then []
      else
        assert hits[0] in hits;
        hits[..1]
    }

    /** `insert(report)`: one new row with the report's fields (and the
        default `timestamp`) after the existing rows, which are unchanged. */
    method Insert(report: CenReport)
      modifies this
      ensures table == old(table) + [Stored(report)]
      ensures |table| == |old(table)| + 1 && table[..|old(table)|] == old(table)
    {
      table := table + [Stored(report)];
    }

    /** `delete(report)`: every row with the report's `id` removed, all other
        rows kept in order. */
    method Delete(report: CenReport)
      modifies this
      ensures table == WithoutId(old(table), report.id)
      ensures forall x :: x in table <==> x in old(table) && x.id != report.id
    {
      table := WithoutId(table, report.id);
    }
  }
}
