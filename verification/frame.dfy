/** The table `pd.read_csv` produces, `clean_data` (bhavcopy_app/reload_script.py:74-89) and the per-row
    `row.replace({np.nan: None})` done before each insert (bhavcopy_app/reload_script.py:187). */
module Frame {
  import opened Basics

  /** A cell as pandas holds it: a missing value (NaN), Python's None, a number, or text. */
  datatype Cell = NaN | Null | Num(value: real) | Str(text: string)

  datatype Table = Table(columns: seq<string>, rows: seq<seq<Cell>>)

  /** Every row has one cell per column, as in any DataFrame. */
  predicate Rectangular(t: Table)
  {
    forall i :: 0 <= i < |t.rows| ==> |t.rows[i]| == |t.columns|
  }

  /** `numeric_columns`. */
  const NumericColumns: seq<string> := ["TtlTrfVal", "TtlNbOfTxsExctd"]

  /** The lambda of `clean_data`: `float(x) if pd.notna(x) else None`. Python's `float` on
      text is the parameter `toFloat` (None when it raises). */
  function ToFloat(c: Cell, toFloat: string -> Option<real>): (r: Option<Cell>)
    ensures c.NaN? || c.Null? ==> r == Some(Null)
    ensures c.Num? ==> r == Some(c)
    ensures r.None? <==> c.Str? && toFloat(c.text).None?
    ensures r.Some? ==> r.value.Null? || r.value.Num?
  {
    match c
    case NaN => Some(Null)
    case Null => Some(Null)
    case Num(_) => Some(c)
    case Str(s) => match toFloat(s) { case Some(v) => Some(Num(v)) case None => None }
  }

  /** How `clean_data` treats the cell of column `name`. */
  function CleanCell(name: string, c: Cell, toFloat: string -> Option<real>): Option<Cell>
  {
    if name in NumericColumns then ToFloat(c, toFloat) else Some(c)
  }

  /** The cells of one row from column `j` on, cleaned; None when a conversion raises. */
  function CleanRow(columns: seq<string>, row: seq<Cell>, j: nat, toFloat: string -> Option<real>): (r: Option<seq<Cell>>)
    requires |row| == |columns| && j <= |row|
    ensures r.Some? <==> forall k :: j <= k < |row| ==> CleanCell(columns[k], row[k], toFloat).Some?
    ensures r.Some? ==> |r.value| == |row| - j
    ensures r.Some? ==> forall k :: j <= k < |row| ==> Some(r.value[k - j]) == CleanCell(columns[k], row[k], toFloat)
    decreases |row| - j
  {
    if j == |row| then Some([])
    else match CleanCell(columns[j], row[j], toFloat)
      case None => None
      case Some(c) =>
        match CleanRow(columns, row, j + 1, toFloat)
        case None => None
        case Some(rest) => Some([c] + rest)
  }

  /** Rows `i` onwards of the table, cleaned; None as soon as one row fails. */
  function CleanRows(t: Table, i: nat, toFloat: string -> Option<real>): (r: Option<seq<seq<Cell>>>)
    requires Rectangular(t) && i <= |t.rows|
    ensures r.Some? <==> forall k :: i <= k < |t.rows| ==> CleanRow(t.columns, t.rows[k], 0, toFloat).Some?
    ensures r.Some? ==> |r.value| == |t.rows| - i
    ensures r.Some? ==> forall k :: i <= k < |t.rows| ==> Some(r.value[k - i]) == CleanRow(t.columns, t.rows[k], 0, toFloat)
    decreases |t.rows| - i
  {
    if i == |t.rows| then Some([])
    else match CleanRow(t.columns, t.rows[i], 0, toFloat)
      case None => None
      case Some(row) =>
        match CleanRows(t, i + 1, toFloat)
        case None => None
        case Some(rest) => Some([row] + rest)
  }

  /** `clean_data(df)`: converts the cells of the columns `TtlTrfVal` and `TtlNbOfTxsExctd`
      (when present) and leaves every other column as it was; an unconvertible text cell in
      one of those columns raises, which is None here. */
  function CleanData(t: Table, toFloat: string -> Option<real>): (r: Option<Table>)
    requires Rectangular(t)
    ensures r.Some? ==> r.value.columns == t.columns && |r.value.rows| == |t.rows| && Rectangular(r.value)
    ensures r.Some? ==> forall i, j :: 0 <= i < |t.rows| && 0 <= j < |t.columns| ==>
              (t.columns[j] !in NumericColumns ==> r.value.rows[i][j] == t.rows[i][j])
              && (t.columns[j] in NumericColumns ==> Some(r.value.rows[i][j]) == ToFloat(t.rows[i][j], toFloat))
    ensures r.None? <==> (exists i, j :: 0 <= i < |t.rows| && 0 <= j < |t.columns| &&
                            t.columns[j] in NumericColumns && t.rows[i][j].Str? && toFloat(t.rows[i][j].text).None?)
  {
    match CleanRows(t, 0, toFloat)
    case None =>
      var i :| 0 <= i < |t.rows| && CleanRow(t.columns, t.rows[i], 0, toFloat).None?;
      var j :| 0 <= j < |t.columns| && CleanCell(t.columns[j], t.rows[i][j], toFloat).None?;
      None
    case Some(rows) =>
      CleanedCells(t, toFloat, rows);
      Some(Table(t.columns, rows))
  }

  /** Cell by cell, the cleaned table holds what `CleanCell` makes of the original. */
  lemma CleanedCells(t: Table, toFloat: string -> Option<real>, rows: seq<seq<Cell>>)
    requires Rectangular(t) && CleanRows(t, 0, toFloat) == Some(rows)
    ensures |rows| == |t.rows|
    ensures forall i :: 0 <= i < |t.rows| ==> |rows[i]| == |t.columns|
    ensures forall i, j :: 0 <= i < |t.rows| && 0 <= j < |t.columns| ==>
              Some(rows[i][j]) == CleanCell(t.columns[j], t.rows[i][j], toFloat)
  {
    forall i | 0 <= i < |t.rows|
      ensures |rows[i]| == |t.columns|
      ensures forall j :: 0 <= j < |t.columns| ==> Some(rows[i][j]) == CleanCell(t.columns[j], t.rows[i][j], toFloat)
    {
      assert Some(rows[i]) == CleanRow(t.columns, t.rows[i], 0, toFloat);
    }
  }

  /** `row.replace({np.nan: None})`. */
  function ReplaceNaN(row: seq<Cell>): (r: seq<Cell>)
    ensures |r| == |row|
    ensures forall j :: 0 <= j < |r| ==> !r[j].NaN?
    ensures forall j :: 0 <= j < |row| && !row[j].NaN? ==> r[j] == row[j]
    ensures forall j :: 0 <= j < |row| && row[j].NaN? ==> r[j] == Null
  {
    seq(|row|, j requires 0 <= j < |row| => if row[j].NaN? then Null else row[j])
  }

  /** A row without NaN is sent as it is, so replacing twice is replacing once. */
  lemma ReplaceNaNIdempotent(row: seq<Cell>)
    ensures (forall j :: 0 <= j < |row| ==> !row[j].NaN?) ==> ReplaceNaN(row) == row
    ensures ReplaceNaN(ReplaceNaN(row)) == ReplaceNaN(row)
  {
  }

  /** Cleaning never leaves a missing value in the converted columns, and the per-row
      replacement then removes every remaining one: the parameters sent to the database
      hold no NaN at all. */
  lemma NoNaNReachesTheDatabase(t: Table, toFloat: string -> Option<real>, i: nat)
    requires Rectangular(t) && CleanData(t, toFloat).Some? && i < |t.rows|
    ensures forall c :: c in ReplaceNaN(CleanData(t, toFloat).value.rows[i]) ==> !c.NaN?
  {
  }

  /** Cleaning is needed only for text cells: on a numeric column it maps every missing
      value to None, which the per-row replacement would have done anyway, so for a table
      without text in those columns the parameters are the same with or without it. */
  lemma CleanOnlyConvertsText(t: Table, toFloat: string -> Option<real>, i: nat)
    requires Rectangular(t) && i < |t.rows|
    requires forall k, j :: 0 <= k < |t.rows| && 0 <= j < |t.columns| && t.columns[j] in NumericColumns ==> !t.rows[k][j].Str?
    ensures CleanData(t, toFloat).Some?
    ensures ReplaceNaN(CleanData(t, toFloat).value.rows[i]) == ReplaceNaN(t.rows[i])
  {
    var r := CleanData(t, toFloat).value;
    assert forall j :: 0 <= j < |t.columns| ==> ReplaceNaN(r.rows[i])[j] == ReplaceNaN(t.rows[i])[j];
  }
}
