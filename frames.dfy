/** Loaded report tables (pandas DataFrames) and the row lookups done on them. */
module Frames {
  import opened Results

  /** One row: column name to the cell's value, every value kept as a string. */
  type Row = map<string, string>

  datatype Frame = Frame(columns: set<string>, rows: seq<Row>)

  /** Every row has exactly the columns `columns`. */
  predicate AllRowsHave(rows: seq<Row>, columns: set<string>)
  {
    |rows| == 0 || (rows[0].Keys == columns && AllRowsHave(rows[1..], columns))
  }

  lemma {:induction false} RowHasColumns(rows: seq<Row>, columns: set<string>, i: nat)
    requires AllRowsHave(rows, columns) && i < |rows|
    ensures rows[i].Keys == columns
  {
    if i > 0 {
      RowHasColumns(rows[1..], columns, i - 1);
    }
  }

  /** A table as `pd.read_csv` loads it: every row has every column. */
  type Table = f: Frame | AllRowsHave(f.rows, f.columns) witness Frame({}, [])

  /** The cell of row `i` in column `col`. */
  function Cell(t: Table, i: nat, col: string): string
    requires i < |t.rows| && col in t.columns
  {
    RowHasColumns(t.rows, t.columns, i);
    t.rows[i][col]
  }

  /** `df[col].values`: the column's cells, one per row, in row order. */
  function Column(t: Table, col: string): (values: seq<string>)
    requires col in t.columns
    ensures |values| == |t.rows|
    ensures forall i :: 0 <= i < |t.rows| ==> values[i] == Cell(t, i, col)
  {
    seq(|t.rows|, i requires 0 <= i < |t.rows| => Cell(t, i, col))
  }

  /** `key in df[col].values` (and `df[col]` does not fail). */
  predicate HasKey(t: Table, col: string, key: string)
  {
    col in t.columns && key in Column(t, col)
  }

  /** The `field` cell of the first row of `rows` whose `keyCol` cell is `key`. */
  function FirstMatch(rows: seq<Row>, keyCol: string, key: string, field: string): Result<string>
  {
    if |rows| == 0 then Err(NoMatchingRow(key))
    else if keyCol in rows[0] && rows[0][keyCol] == key then
      (if field in rows[0] then Ok(rows[0][field]) else Err(MissingColumn(field)))
    else FirstMatch(rows[1..], keyCol, key, field)
  }

  /** `df.loc[df[keyCol] == key][field].values[0]`: the `field` cell of the first
      row whose `keyCol` cell is `key`. Pandas raises a KeyError for either
      column if it is missing (the key column first) and an IndexError when no
      row matches. */
  function Loc(t: Table, keyCol: string, key: string, field: string): Result<string>
  {
    if keyCol !in t.columns then Err(MissingColumn(keyCol))
    else if field !in t.columns then Err(MissingColumn(field))
    else FirstMatch(t.rows, keyCol, key, field)
  }

  lemma {:induction false} FirstMatchMeaning(rows: seq<Row>, columns: set<string>, keyCol: string, key: string, field: string)
    requires AllRowsHave(rows, columns) && keyCol in columns && field in columns
    ensures FirstMatch(rows, keyCol, key, field).Ok? <==>
      exists i :: 0 <= i < |rows| && keyCol in rows[i] && rows[i][keyCol] == key
    ensures FirstMatch(rows, keyCol, key, field).Ok? ==>
      exists i ::
        && 0 <= i < |rows|
        && keyCol in rows[i] && field in rows[i]
        && rows[i][keyCol] == key
        && FirstMatch(rows, keyCol, key, field).value == rows[i][field]
        && forall j :: 0 <= j < i ==> keyCol in rows[j] && rows[j][keyCol] != key
  {
    if |rows| > 0 {
      FirstMatchMeaning(rows[1..], columns, keyCol, key, field);
      assert forall i :: 1 <= i < |rows| ==> rows[i] == rows[1..][i - 1];
      if rows[0][keyCol] != key && FirstMatch(rows, keyCol, key, field).Ok? {
        var i :| && 0 <= i < |rows[1..]|
                 && keyCol in rows[1..][i] && field in rows[1..][i]
                 && rows[1..][i][keyCol] == key
                 && FirstMatch(rows[1..], keyCol, key, field).value == rows[1..][i][field]
                 && forall j :: 0 <= j < i ==> keyCol in rows[1..][j] && rows[1..][j][keyCol] != key;
        assert forall j :: 1 <= j < i + 1 ==> keyCol in rows[j] && rows[j][keyCol] != key;
        assert 0 <= i + 1 < |rows| && rows[i + 1][keyCol] == key;
      }
    }
  }

  /** `key in df[col].values` reads the rows directly. */
  lemma HasKeyRows(t: Table, col: string, key: string)
    requires col in t.columns
    ensures HasKey(t, col, key) <==> exists i :: 0 <= i < |t.rows| && col in t.rows[i] && t.rows[i][col] == key
  {
    var values := Column(t, col);
    if key in values {
      var i :| 0 <= i < |values| && values[i] == key;
      RowHasColumns(t.rows, t.columns, i);
      assert Cell(t, i, col) == t.rows[i][col];
    }
    if exists i :: 0 <= i < |t.rows| && col in t.rows[i] && t.rows[i][col] == key {
      var i :| 0 <= i < |t.rows| && col in t.rows[i] && t.rows[i][col] == key;
      assert values[i] == Cell(t, i, col) == key;
    }
  }

  /** The lookup succeeds exactly when both columns exist and some row has the
      key; it then gives the field of the first such row. */
  lemma LocMeaning(t: Table, keyCol: string, key: string, field: string)
    ensures Loc(t, keyCol, key, field).Ok? <==> keyCol in t.columns && field in t.columns && HasKey(t, keyCol, key)
    ensures Loc(t, keyCol, key, field).Ok? ==>
      exists i ::
        && 0 <= i < |t.rows|
        && Cell(t, i, keyCol) == key
        && Loc(t, keyCol, key, field).value == Cell(t, i, field)
        && forall j :: 0 <= j < i ==> Cell(t, j, keyCol) != key
  {
    if keyCol in t.columns && field in t.columns {
      FirstMatchMeaning(t.rows, t.columns, keyCol, key, field);
      HasKeyRows(t, keyCol, key);
      if Loc(t, keyCol, key, field).Ok? {
        var i :| && 0 <= i < |t.rows|
                 && keyCol in t.rows[i] && field in t.rows[i]
                 && t.rows[i][keyCol] == key
                 && FirstMatch(t.rows, keyCol, key, field).value == t.rows[i][field]
                 && forall j :: 0 <= j < i ==> keyCol in t.rows[j] && t.rows[j][keyCol] != key;
        assert Cell(t, i, keyCol) == key && Cell(t, i, field) == t.rows[i][field];
        forall j | 0 <= j < i ensures Cell(t, j, keyCol) != key {
          assert Cell(t, j, keyCol) == t.rows[j][keyCol];
        }
      }
    }
  }
}
