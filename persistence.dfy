/** The row view of the data file: saving writes one three-field row per
    record, loading turns each row of at least three fields into a record.
    The CSV text encoding itself is not modelled; a file is its sequence of
    rows. */
module Persistence {
  import opened Records

  type Row = seq<string>

  /** The row saveCSVFile hands to the CSV writer for one record. */
  function RowOf(c: Course): Row
  {
    [c.cid, c.cname, c.cprereq]
  }

  /** The record readCSVFile builds from one row; extra fields are ignored. */
  function RecordOf(r: Row): Course
    requires |r| >= 3
  {
    Course(r[0], r[1], r[2])
  }

  /** Every row has the three fields readCSVFile indexes. */
  predicate Loadable(rows: seq<Row>)
  {
    forall k :: 0 <= k < |rows| ==> |rows[k]| >= 3
  }

  /** The rows written for a record sequence: one per record, in order. */
  function ToRows(d: seq<Course>): (rows: seq<Row>)
    ensures |rows| == |d|
    ensures forall k :: 0 <= k < |d| ==> rows[k] == RowOf(d[k])
  {
    if d == [] then [] else ToRows(d[..|d| - 1]) + [RowOf(d[|d| - 1])]
  }

  /** The records read from a sequence of rows: one per row, in order. */
  function FromRows(rows: seq<Row>): (d: seq<Course>)
    requires Loadable(rows)
    ensures |d| == |rows|
    ensures forall k :: 0 <= k < |rows| ==> d[k] == RecordOf(rows[k])
  {
    if rows == [] then [] else FromRows(rows[..|rows| - 1]) + [RecordOf(rows[|rows| - 1])]
  }

  /** Saving a collection and loading the file back gives the same records. */
  lemma SaveThenLoad(d: seq<Course>)
    ensures Loadable(ToRows(d))
    ensures FromRows(ToRows(d)) == d
  {
  }

  /** Loading rows of exactly three fields and saving them writes the same rows;
      rows with more fields lose the extras. */
  lemma LoadThenSave(rows: seq<Row>)
    requires Loadable(rows)
    ensures (forall k :: 0 <= k < |rows| ==> |rows[k]| == 3) <==> ToRows(FromRows(rows)) == rows
  {
    var back := ToRows(FromRows(rows));
    forall k | 0 <= k < |rows|
      ensures back[k] == RowOf(RecordOf(rows[k]))
    {
    }
    if forall k :: 0 <= k < |rows| ==> |rows[k]| == 3 {
      forall k | 0 <= k < |rows| ensures back[k] == rows[k] {
        assert rows[k] == [rows[k][0], rows[k][1], rows[k][2]];
      }
    }
  }
}
