/**
 * The stage file and what Redshift's COPY makes of it.
 *
 * A stage file is a CSV object: a header line followed by one line per
 * Reddit post. A line is modelled after CSV splitting, as its list of
 * fields; quoting and escaping are not modelled. A row of the warehouse
 * table is its `id` plus the other column values, in the table's own
 * column order; the merge looks only at `id`.
 */
module StageFile {
  import opened Wrappers

  /** One CSV record, already split at its commas. */
  type Line = seq<string>

  /** The columns of the `reddit` table, in the order the DDL declares them. */
  const TableColumns: seq<string> :=
    ["id", "title", "num_comments", "score", "author", "created_utc",
     "url", "upvote_ratio", "over_18", "edited", "spoiler", "stickied"]

  /** The fields of the stage file, in the order the extractor writes them (its header line). */
  const StageFileFields: seq<string> :=
    ["id", "title", "score", "num_comments", "author", "created_utc",
     "url", "upvote_ratio", "over_18", "edited", "spoiler", "stickied"]

  /** A table row: the key and the remaining column values in table order. */
  datatype Row = Row(id: string, payload: seq<string>)

  /** A row has one value per table column. */
  predicate WellFormed(r: Row) {
    |r.payload| == |TableColumns| - 1
  }

  /** The row's values, one per table column, in table order. */
  function Cells(r: Row): (cells: seq<string>)
    ensures |cells| == 1 + |r.payload| && cells[0] == r.id && cells[1..] == r.payload
  {
    [r.id] + r.payload
  }

  /** Position of `name` in a list of column names. */
  function IndexOf(names: seq<string>, name: string): (k: nat)
    requires name in names
    ensures k < |names| && names[k] == name
    ensures forall j :: 0 <= j < k ==> names[j] != name
  {
    if names[0] == name then 0 else 1 + IndexOf(names[1..], name)
  }

  /** The value a well-formed row holds in the table column called `column`. */
  function ColumnValue(r: Row, column: string): string
    requires WellFormed(r) && column in TableColumns
  {
    Cells(r)[IndexOf(TableColumns, column)]
  }

  /** The value a data line carries under the stage-file header `field`. */
  function FileValue(line: Line, field: string): string
    requires |line| == |StageFileFields| && field in StageFileFields
  {
    line[IndexOf(StageFileFields, field)]
  }

  // ---------------------------------------------------------------------
  // COPY as written: no column list, so field i of a line goes to table
  // column i.

  /** One data line loaded by position, as the COPY statement is written. */
  function PositionalRow(line: Line): (r: Option<Row>)
    ensures r.Some? <==> |line| == |TableColumns|
    ensures r.Some? ==> WellFormed(r.value) && Cells(r.value) == line
  {
    if |line| == |TableColumns| then Some(Row(line[0], line[1..])) else None
  }

  /**
   * Loading by position stores the extractor's `num_comments` value in the
   * `score` column and its `score` value in the `num_comments` column.
   */
  lemma PositionalCopySwapsScore(line: Line)
    requires |line| == |StageFileFields|
    ensures PositionalRow(line).Some?
    ensures ColumnValue(PositionalRow(line).value, "score") == FileValue(line, "num_comments")
    ensures ColumnValue(PositionalRow(line).value, "num_comments") == FileValue(line, "score")
    ensures FileValue(line, "score") != FileValue(line, "num_comments") ==>
              ColumnValue(PositionalRow(line).value, "score") != FileValue(line, "score")
  {
    assert IndexOf(TableColumns, "score") == 3;
    assert IndexOf(TableColumns, "num_comments") == 2;
    assert IndexOf(StageFileFields, "score") == 2;
    assert IndexOf(StageFileFields, "num_comments") == 3;
  }

  // ---------------------------------------------------------------------
  // COPY with the stage file's header as its column list: each field goes
  // to the table column of the same name.

  /** Position, in a stage-file line, of the value for table column `k`. */
  function SourcePosition(k: nat): (p: nat)
    requires k < |TableColumns|
    ensures p < |StageFileFields| && StageFileFields[p] == TableColumns[k]
  {
    assert TableColumns[k] in StageFileFields;
    IndexOf(StageFileFields, TableColumns[k])
  }

  /** The row whose column `k` holds the line's value at `SourcePosition(k)`. */
  function ReorderedRow(line: Line): (r: Row)
    requires |line| == |StageFileFields|
    ensures WellFormed(r)
    ensures forall k :: 0 <= k < |TableColumns| ==> Cells(r)[k] == line[SourcePosition(k)]
  {
    var payload := seq(|TableColumns| - 1, i requires 0 <= i < |TableColumns| - 1 => line[SourcePosition(i + 1)]);
    Row(line[SourcePosition(0)], payload)
  }

  /** Each table column of a reordered row holds the file value under the same name. */
  lemma ReorderedRowByName(line: Line, c: string)
    requires |line| == |StageFileFields| && c in TableColumns
    ensures ColumnValue(ReorderedRow(line), c) == FileValue(line, c)
  {
    var k := IndexOf(TableColumns, c);
    assert SourcePosition(k) == IndexOf(StageFileFields, c);
  }

  /** One data line loaded by column name. */
  function NamedRow(line: Line): (r: Option<Row>)
    ensures r.Some? <==> |line| == |StageFileFields|
    ensures r.Some? ==> WellFormed(r.value)
    ensures r.Some? ==> forall c :: c in TableColumns ==> ColumnValue(r.value, c) == FileValue(line, c)
  {
    if |line| != |StageFileFields| then None
    else
      assert forall c :: c in TableColumns ==> ColumnValue(ReorderedRow(line), c) == FileValue(line, c) by {
        forall c | c in TableColumns { ReorderedRowByName(line, c); }
      }
      Some(ReorderedRow(line))
  }

  // ---------------------------------------------------------------------
  // One line, either way.

  /** How COPY matches a line's fields to table columns. */
  datatype ColumnMatching =
    | ByPosition  // as written: no column list
    | ByName      // with the stage file's header as column list

  /** One data line loaded under `m`. Either way the key is the line's first field. */
  function LoadRow(m: ColumnMatching, line: Line): (r: Option<Row>)
    ensures r.Some? <==> |line| == |TableColumns|
    ensures r.Some? ==> WellFormed(r.value) && r.value.id == line[0]
  {
    match m
    case ByPosition => PositionalRow(line)
    case ByName =>
      assert IndexOf(TableColumns, "id") == 0 && IndexOf(StageFileFields, "id") == 0;
      NamedRow(line)
  }

  // ---------------------------------------------------------------------
  // The whole file.

  /** The lines COPY loads: `IGNOREHEADER 1` skips exactly the first line. */
  function DataLines(file: seq<Line>): (data: seq<Line>)
    ensures |data| == if file == [] then 0 else |file| - 1
    ensures forall i :: 0 <= i < |data| ==> data[i] == file[i + 1]
  {
    if file == [] then [] else file[1..]
  }

  /** Loads every line; COPY fails as a whole if one line has the wrong number of fields. */
  function LoadLines(m: ColumnMatching, lines: seq<Line>): (rows: Option<seq<Row>>)
    ensures rows.Some? <==> forall i :: 0 <= i < |lines| ==> |lines[i]| == |TableColumns|
    ensures rows.Some? ==> |rows.value| == |lines|
    ensures rows.Some? ==> forall i :: 0 <= i < |lines| ==> LoadRow(m, lines[i]) == Some(rows.value[i])
  {
    if lines == [] then Some([])
    else
      match LoadRow(m, lines[0])
      case None => None
      case Some(r) =>
        match LoadLines(m, lines[1..])
        case None => None
        case Some(rest) => Some([r] + rest)
  }

  /** The rows COPY takes from one stage-file object, or None if it rejects the object. */
  function CopyRows(m: ColumnMatching, file: seq<Line>): Option<seq<Row>>
  {
    LoadLines(m, DataLines(file))
  }

  /**
   * COPY receives the file's lines minus exactly one header line: row i of
   * the staging table is line i + 1 of the file, and the header's own
   * content plays no part.
   */
  lemma CopySkipsHeader(m: ColumnMatching, header: Line, data: seq<Line>)
    requires CopyRows(m, [header] + data).Some?
    ensures |CopyRows(m, [header] + data).value| == |data|
    ensures forall i :: 0 <= i < |data| ==> LoadRow(m, data[i]) == Some(CopyRows(m, [header] + data).value[i])
    ensures forall other: Line :: CopyRows(m, [other] + data) == CopyRows(m, [header] + data)
  {
    assert DataLines([header] + data) == data;
    forall other: Line ensures CopyRows(m, [other] + data) == CopyRows(m, [header] + data) {
      assert DataLines([other] + data) == data;
    }
  }

  // ---------------------------------------------------------------------
  // Every object under the COPY source.

  /** The number of data lines in `files`, headers not counted. */
  function DataLineCount(files: seq<seq<Line>>): nat
  {
    if files == [] then 0 else |DataLines(files[0])| + DataLineCount(files[1..])
  }

  /** The rows of each object in turn; one rejected object rejects them all. */
  function CopyEach(m: ColumnMatching, files: seq<seq<Line>>): (rows: Option<seq<Row>>)
    ensures rows.Some? <==> forall i :: 0 <= i < |files| ==> CopyRows(m, files[i]).Some?
    ensures rows.Some? ==> |rows.value| == DataLineCount(files)
  {
    if files == [] then Some([])
    else
      match CopyRows(m, files[0])
      case None => None
      case Some(first) =>
        match CopyEach(m, files[1..])
        case None => None
        case Some(rest) => Some(first + rest)
  }

  /**
   * The rows one COPY statement appends to the staging table, given the
   * objects whose keys start with its source path, in the order Redshift
   * reads them. A source path that matches no object is an error.
   */
  function CopyObjects(m: ColumnMatching, files: seq<seq<Line>>): (rows: Option<seq<Row>>)
    ensures rows.Some? <==> files != [] && forall i :: 0 <= i < |files| ==> CopyRows(m, files[i]).Some?
    ensures rows.Some? ==> |rows.value| == DataLineCount(files)
  {
    if files == [] then None else CopyEach(m, files)
  }

  /** A row is loaded from the objects exactly when it is loaded from one of them. */
  lemma {:induction false} CopyEachMembership(m: ColumnMatching, files: seq<seq<Line>>, r: Row)
    requires CopyEach(m, files).Some?
    ensures r in CopyEach(m, files).value <==> exists i :: 0 <= i < |files| && r in CopyRows(m, files[i]).value
  {
    if files != [] {
      var first, rest := CopyRows(m, files[0]).value, CopyEach(m, files[1..]).value;
      assert CopyEach(m, files).value == first + rest;
      CopyEachMembership(m, files[1..], r);
      if r in rest {
        var j :| 0 <= j < |files[1..]| && r in CopyRows(m, files[1..][j]).value;
        assert files[1..][j] == files[j + 1];
      }
      if exists i :: 0 <= i < |files| && r in CopyRows(m, files[i]).value {
        var i :| 0 <= i < |files| && r in CopyRows(m, files[i]).value;
        if i > 0 {
          assert files[1..][i - 1] == files[i];
        }
      }
    }
  }

  /** The rows of one COPY statement are the rows of the objects under its source path, and no others. */
  lemma CopyObjectsMembership(m: ColumnMatching, files: seq<seq<Line>>, r: Row)
    requires CopyObjects(m, files).Some?
    ensures r in CopyObjects(m, files).value <==> exists i :: 0 <= i < |files| && r in CopyRows(m, files[i]).value
  {
    CopyEachMembership(m, files, r);
  }

  /** When the source path matches a single object, COPY loads exactly that object's rows. */
  lemma CopyOneObject(m: ColumnMatching, file: seq<Line>)
    ensures CopyObjects(m, [file]) == CopyRows(m, file)
  {
    assert [file][1..] == [];
    assert CopyEach(m, []) == Some([]);
    match CopyRows(m, file)
    case None =>
    case Some(rows) => assert rows + [] == rows;
  }

  /** Two row lists hold the same ids at the same positions. */
  predicate SameIds(a: seq<Row>, b: seq<Row>)
  {
    |a| == |b| && forall i :: 0 <= i < |a| ==> a[i].id == b[i].id
  }

  /**
   * Loading by position and loading by name accept the same objects and
   * give the same ids in the same places: the key is the first field in
   * the stage file and the first column of the table.
   */
  lemma {:induction false} CopyEachIdsAgree(files: seq<seq<Line>>)
    ensures CopyEach(ByPosition, files).Some? <==> CopyEach(ByName, files).Some?
    ensures CopyEach(ByPosition, files).Some? ==>
              SameIds(CopyEach(ByPosition, files).value, CopyEach(ByName, files).value)
  {
    if files != [] {
      CopyEachIdsAgree(files[1..]);
      var lines := DataLines(files[0]);
      if LoadLines(ByPosition, lines).Some? {
        var p, n := LoadLines(ByPosition, lines).value, LoadLines(ByName, lines).value;
        assert SameIds(p, n) by {
          forall i | 0 <= i < |p| ensures p[i].id == n[i].id {
            assert LoadRow(ByPosition, lines[i]) == Some(p[i]);
            assert LoadRow(ByName, lines[i]) == Some(n[i]);
          }
        }
        if CopyEach(ByPosition, files[1..]).Some? {
          var p', n' := CopyEach(ByPosition, files[1..]).value, CopyEach(ByName, files[1..]).value;
          assert CopyEach(ByPosition, files).value == p + p';
          assert CopyEach(ByName, files).value == n + n';
        }
      }
    }
  }

  /** The same agreement for a whole COPY statement. */
  lemma CopyObjectsIdsAgree(files: seq<seq<Line>>)
    ensures CopyObjects(ByPosition, files).Some? <==> CopyObjects(ByName, files).Some?
    ensures CopyObjects(ByPosition, files).Some? ==>
              SameIds(CopyObjects(ByPosition, files).value, CopyObjects(ByName, files).value)
  {
    CopyEachIdsAgree(files);
  }
}
