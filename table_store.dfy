/**
 * `TableManager` (`src/table_manager.py`): named data tables, the list of
 * known names, and the names of the table on show and of the one shown before
 * it. The Qt views, item models and stacked widget it also keeps are outside
 * the model; so is the signal plumbing, the slots are called directly.
 */
module TableStore {
  import opened Wrappers
  import opened Text
  import opened Frames
  import opened PeakMath
  import Reconstruction
  import Viewer

  /** Why an operation raised. */
  datatype TableError =
    | UnknownTable      // the explicit `ValueError` for a name not in `table_names`
    | DuplicateColumn   // the explicit `ValueError` of `add_column`
    | NonNumericData    // the explicit `ValueError` of `get_column_data`
    | LengthMismatch    // pandas' `ValueError` for a column of the wrong length
    | MissingKey        // a `KeyError` from a dict or a table lookup
    | OutOfRange        // an `IndexError` from a row or column position
    | NotANumber        // `float(...)` of something that is not one number
    | TooFewPoints      // numpy's `ValueError` for a gradient over fewer than two points

  /** The table of peaks and the table of fit options. */
  const GAUSS_TABLE := "gauss"
  const OPTIONS_TABLE := "options"

  /** The columns of a row added by `add_gaussian_to_table`, in order. */
  const GAUSS_ROW_COLUMNS: seq<string> := [REACTION, HEIGHT, CENTER, WIDTH, TYPE, COEFF_1]
  const REACTION := "reaction"
  const HEIGHT := "height"
  const CENTER := "center"
  const WIDTH := "width"
  const TYPE := "type"
  const COEFF_1 := "coeff_1"

  /** The name `add_gaussian_to_table` gives the peak added after `n` rows. */
  function ReactionName(n: nat): (name: string)
    ensures |name| > 9 && name[..9] == "Reaction_"
    ensures forall i :: 9 <= i < |name| ==> '0' <= name[i] <= '9'
  {
    "Reaction_" + NatToString(n + 1)
  }

  /** Different row counts give different reaction names. */
  lemma ReactionNameInjective(m: nat, n: nat)
    requires ReactionName(m) == ReactionName(n)
    ensures m == n
  {
    assert NatToString(m + 1) == ReactionName(m)[9..];
    assert NatToString(n + 1) == ReactionName(n)[9..];
    NatToStringInjective(m + 1, n + 1);
  }

  lemma GaussRowColumnsDistinct()
    ensures Combinatorics.Distinct(GAUSS_ROW_COLUMNS)
  {
    var names := GAUSS_ROW_COLUMNS;
    assert names[0][0] == 'r' && |names[0]| == 8 && names[1][0] == 'h' && |names[1]| == 6;
    assert names[2][0] == 'c' && |names[2]| == 6 && names[3][0] == 'w' && |names[3]| == 5;
    assert names[4][0] == 't' && |names[4]| == 4 && names[5][0] == 'c' && |names[5]| == 7;
    forall i, j | 0 <= i < j < |names| ensures names[i] != names[j] {
      assert names[i][0] != names[j][0] || |names[i]| != |names[j]|;
    }
  }

  /** The one-row table `add_gaussian_to_table` appends. */
  function GaussianRow(rows: nat, height: real, center: real, width: real, coeff: Cell): (row: Frame)
    ensures WellFormed(row) && Rows(row) == 1 && row.columns == GAUSS_ROW_COLUMNS
  {
    GaussRowColumnsDistinct();
    SingleRow(GAUSS_ROW_COLUMNS, [Str(ReactionName(rows)), Num(height), Num(center), Num(width), Str(GAUSS), coeff])
  }

  /** The cells of that row, column by column. */
  lemma GaussianRowCells(rows: nat, height: real, center: real, width: real, coeff: Cell)
    ensures var row := GaussianRow(rows, height, center, width, coeff);
      && Column(row, REACTION) == [Str(ReactionName(rows))] && Column(row, TYPE) == [Str(GAUSS)]
      && Column(row, HEIGHT) == [Num(height)] && Column(row, CENTER) == [Num(center)]
      && Column(row, WIDTH) == [Num(width)] && Column(row, COEFF_1) == [coeff]
  {
    var names := GAUSS_ROW_COLUMNS;
    assert names[0] == REACTION && names[1] == HEIGHT && names[2] == CENTER;
    assert names[3] == WIDTH && names[4] == TYPE && names[5] == COEFF_1;
  }

  /**
   * After `add_gaussian_to_table` the peak table has one more row; the new last
   * row is named `Reaction_<rows + 1>`, has type "gauss" and the given height,
   * center, width and coefficient, and the rows before it keep their cells.
   */
  lemma GaussianRowAppended(g: Frame, height: real, center: real, width: real, coeff: Cell)
    requires WellFormed(g)
    ensures var h := Concat(g, GaussianRow(Rows(g), height, center, width, coeff));
      && Rows(h) == Rows(g) + 1
      && (forall c :: c in GAUSS_ROW_COLUMNS ==> c in h.columns)
      && Column(h, REACTION)[Rows(g)] == Str(ReactionName(Rows(g)))
      && Column(h, TYPE)[Rows(g)] == Str(GAUSS)
      && Column(h, HEIGHT)[Rows(g)] == Num(height)
      && Column(h, CENTER)[Rows(g)] == Num(center)
      && Column(h, WIDTH)[Rows(g)] == Num(width)
      && Column(h, COEFF_1)[Rows(g)] == coeff
      && (forall c :: c in g.columns ==> c in h.columns && Column(h, c)[..Rows(g)] == Column(g, c))
  {
    var row := GaussianRow(Rows(g), height, center, width, coeff);
    ConcatOneRow(g, row);
    GaussianRowCells(Rows(g), height, center, width, coeff);
  }

  /**
   * What `add_gaussian_to_table` needs: a "gauss" table, and an "options"
   * table whose `coeff_1` column is one cell that `float` reads.
   */
  predicate GaussianReady(d: map<string, Frame>)
  {
    && GAUSS_TABLE in d && OPTIONS_TABLE in d && WellFormed(d[GAUSS_TABLE]) && WellFormed(d[OPTIONS_TABLE])
    && COEFF_1 in d[OPTIONS_TABLE].columns && Rows(d[OPTIONS_TABLE]) == 1
    && FloatCell(Column(d[OPTIONS_TABLE], COEFF_1)[0]).Some?
  }

  /**
   * Why `add_gaussian_to_table` raises, if it does: a missing table or column,
   * or a `coeff_1` column that is not one cell `float` reads.
   */
  function GaussianError(d: map<string, Frame>): (e: Option<TableError>)
    ensures e.None? <==> GaussianReady(d)
    ensures e.Some? ==> e.value in {MissingKey, NotANumber}
  {
    if GAUSS_TABLE !in d || OPTIONS_TABLE !in d || COEFF_1 !in d[OPTIONS_TABLE].columns then Some(MissingKey)
    else if !WellFormed(d[GAUSS_TABLE]) || !WellFormed(d[OPTIONS_TABLE]) then Some(MissingKey)
    else if Rows(d[OPTIONS_TABLE]) != 1 || FloatCell(Column(d[OPTIONS_TABLE], COEFF_1)[0]).None? then Some(NotANumber)
    else None
  }

  /** The "gauss" table after `add_gaussian_to_table`, whose `coeff_1` is `float` of the options cell. */
  function WithGaussian(d: map<string, Frame>, height: real, center: real, width: real): (g: Frame)
    requires GaussianReady(d)
    ensures WellFormed(g)
  {
    Concat(d[GAUSS_TABLE], GaussianRow(Rows(d[GAUSS_TABLE]), height, center, width, FloatCell(Column(d[OPTIONS_TABLE], COEFF_1)[0]).value))
  }

  /** Every stored table is well formed. */
  ghost predicate AllWellFormed(d: map<string, Frame>)
  {
    forall n :: n in d ==> WellFormed(d[n])
  }

  lemma StoreWellFormed(d: map<string, Frame>, name: string, f: Frame)
    requires AllWellFormed(d) && WellFormed(f)
    ensures AllWellFormed(d[name := f])
  {
  }

  class TableManager {
    const viewer: Viewer.CsvViewer
    var tableNames: seq<string>
    var data: map<string, Frame>
    var currentTableName: Option<string>
    var buferTableName: Option<string>

    /** The known names are exactly the stored tables, and the two remembered names are known. */
    ghost predicate Valid()
      reads this
    {
      && (forall n :: n in tableNames <==> n in data)
      && AllWellFormed(data)
      && (currentTableName.Some? ==> currentTableName.value in data)
      && (buferTableName.Some? ==> buferTableName.value in data)
    }

    /** `__init__`: one stored table per given name, nothing on show yet. */
    constructor(viewer: Viewer.CsvViewer, tableNames: seq<string>, tableDict: map<string, Frame>)
      requires forall n :: n in tableNames ==> n in tableDict && WellFormed(tableDict[n])
      ensures Valid()
      ensures this.viewer == viewer && this.tableNames == tableNames
      ensures data == map n | n in tableNames :: tableDict[n]
      ensures currentTableName == None && buferTableName == None
    {
      this.viewer := viewer;
      this.tableNames := tableNames;
      data := map n | n in tableNames :: tableDict[n];
      currentTableName := None;
      buferTableName := None;
    }

    /** `get_data`: the stored table, or an error for a name that is not known. */
    function GetData(name: string): (r: Result<Frame, TableError>)
      reads this
      requires Valid()
      ensures r.Ok? <==> name in tableNames
      ensures r.Ok? ==> r.value == data[name]
      ensures r.Err? ==> r.error == UnknownTable
    {
      if name !in tableNames then Err(UnknownTable) else Ok(data[name])
    }

    /** `update_table_data`: a new name is appended to the known names; the table is stored under the name. */
    method UpdateTableData(name: string, table: Frame)
      requires Valid() && WellFormed(table)
      modifies this
      ensures Valid()
      ensures tableNames == if name in old(tableNames) then old(tableNames) else old(tableNames) + [name]
      ensures data == old(data)[name := table]
      ensures currentTableName == old(currentTableName) && buferTableName == old(buferTableName)
    {
      if name !in tableNames {
        tableNames := tableNames + [name];
      }
      data := data[name := table];
    }

    /** `fill_table`: the table on show becomes the remembered one, and `name` goes on show. */
    method FillTable(name: string) returns (r: Outcome<TableError>)
      requires Valid()
      modifies this
      ensures Valid()
      ensures r.Fail? <==> name !in old(tableNames)
      ensures r.Fail? ==> r.error == UnknownTable && currentTableName == old(currentTableName) && buferTableName == old(buferTableName)
      ensures r.Pass? ==> buferTableName == old(currentTableName) && currentTableName == Some(name)
      ensures tableNames == old(tableNames) && data == old(data)
    {
      if name !in tableNames {
        return Fail(UnknownTable);
      }
      buferTableName := currentTableName;
      currentTableName := Some(name);
      return Pass;
    }

    /**
     * `add_column`: adds a new column to a known table; the other columns and
     * the other tables stay as they were. On a table without rows the list
     * sets the number of rows.
     */
    method AddColumn(table: string, column: string, values: seq<Cell>) returns (r: Outcome<TableError>)
      requires Valid()
      modifies this
      ensures Valid()
      ensures table !in old(tableNames) ==> r == Fail(UnknownTable)
      ensures table in old(tableNames) && column in old(data[table]).columns ==> r == Fail(DuplicateColumn)
      ensures table in old(tableNames) && column !in old(data[table]).columns && |values| != Rows(old(data[table])) && Rows(old(data[table])) != 0
        ==> r == Fail(LengthMismatch)
      ensures r.Fail? ==> data == old(data)
      ensures r.Pass? ==> table in old(tableNames) && column !in old(data[table]).columns
      ensures r.Pass? ==> |values| == Rows(old(data[table])) || Rows(old(data[table])) == 0
      ensures r.Pass? ==> data == old(data)[table := AssignColumn(old(data[table]), column, values)]
      ensures tableNames == old(tableNames) && currentTableName == old(currentTableName) && buferTableName == old(buferTableName)
    {
      if table !in tableNames {
        return Fail(UnknownTable);
      }
      if column in data[table].columns {
        return Fail(DuplicateColumn);
      }
      if |values| != Rows(data[table]) && Rows(data[table]) != 0 {
        return Fail(LengthMismatch);
      }
      data := data[table := AssignColumn(data[table], column, values)];
      return Pass;
    }

    /** `add_row`: appends the rows of `rows` under fresh row labels, then shows the table. */
    method AddRow(table: string, rows: Frame) returns (r: Outcome<TableError>)
      requires Valid() && WellFormed(rows)
      modifies this
      ensures Valid()
      ensures r.Fail? <==> table !in old(tableNames)
      ensures r.Fail? ==> r.error == UnknownTable && data == old(data)
      ensures r.Fail? ==> currentTableName == old(currentTableName) && buferTableName == old(buferTableName)
      ensures r.Pass? ==> data == old(data)[table := Concat(old(data[table]), rows)]
      ensures r.Pass? ==> buferTableName == old(currentTableName) && currentTableName == Some(table)
      ensures tableNames == old(tableNames)
    {
      if table !in tableNames {
        return Fail(UnknownTable);
      }
      data := data[table := Concat(data[table], rows)];
      r := FillTable(table);
    }

    /** `get_column_data`: the column as stored, when every cell of it reads as a number. */
    function GetColumnData(table: string, column: string): (r: Result<seq<Cell>, TableError>)
      reads this
      requires Valid()
      ensures r.Ok? <==> table in tableNames && column in data[table].columns && AllNumeric(Column(data[table], column))
      ensures r.Ok? ==> r.value == Column(data[table], column)
      ensures table !in tableNames ==> r == Err(UnknownTable)
      ensures table in tableNames && column in data[table].columns && !AllNumeric(Column(data[table], column)) ==> r == Err(NonNumericData)
    {
      if table !in tableNames then Err(UnknownTable)
      else if column !in data[table].columns then Err(MissingKey)
      else if AllNumeric(Column(data[table], column)) then Ok(Column(data[table], column))
      else Err(NonNumericData)
    }

    /**
     * `add_reaction_cumulative_func`: writes the per-slot curves and their
     * running total (`y + '_cumulative'`) into the table named after the loaded
     * file. `total` is the caller's `cumulative_func` after the in-place additions.
     */
    method AddReactionCumulativeFunc(k: Kernels, bestParams: seq<real>, bestCombination: seq<string>,
                                     xs: seq<real>, y: string, cumulative: seq<real>)
      returns (r: Outcome<TableError>, total: seq<real>)
      requires Valid() && 3 * |bestCombination| <= |bestParams| && |cumulative| == |xs|
      requires viewer.fileName.Some? && viewer.fileName.value in data ==> |xs| == Rows(data[viewer.fileName.value])
      modifies this
      ensures Valid()
      ensures r.Fail? <==> viewer.fileName.None? || viewer.fileName.value !in old(data)
      ensures r.Fail? ==> r.error == MissingKey && data == old(data) && total == cumulative
      ensures r.Pass? ==> data == old(data)[viewer.fileName.value :=
        Reconstruction.Reconstructed(k, old(data[viewer.fileName.value]), xs, bestCombination, bestParams, y, "_cumulative", cumulative)]
      ensures r.Pass? ==> total == Reconstruction.Total(k, xs, bestCombination, bestParams, cumulative)
      ensures tableNames == old(tableNames) && currentTableName == old(currentTableName) && buferTableName == old(buferTableName)
    {
      var target := viewer.fileName;
      if target.None? || target.value !in data {
        return Fail(MissingKey), cumulative;
      }
      var g;
      g, total := Reconstruction.WriteBack(k, data[target.value], xs, bestCombination, bestParams, y, "_cumulative", cumulative);
      data := data[target.value := g];
      r := Pass;
    }

    /**
     * `add_gaussian_to_table`: appends a Gaussian peak row to the "gauss" table
     * (named after the row count, with the single `coeff_1` value of the
     * "options" table), then shows the "gauss" table.
     */
    method AddGaussianToTable(height: real, center: real, width: real) returns (r: Outcome<TableError>)
      requires Valid()
      modifies this
      ensures Valid()
      ensures r.Fail? <==> !GaussianReady(old(data))
      ensures r.Fail? ==> data == old(data) && currentTableName == old(currentTableName) && buferTableName == old(buferTableName)
      ensures r.Pass? ==> data == old(data)[GAUSS_TABLE := WithGaussian(old(data), height, center, width)]
      ensures r.Pass? ==> buferTableName == old(currentTableName) && currentTableName == Some(GAUSS_TABLE)
      ensures tableNames == old(tableNames)
    {
      var e := GaussianError(data);
      if e.Some? {
        return Fail(e.value);
      }
      var gaus := WithGaussian(data, height, center, width);
      StoreWellFormed(data, GAUSS_TABLE, gaus);
      data := data[GAUSS_TABLE := gaus];
      r := FillTable(GAUSS_TABLE);
    }

    /** `delete_row`: drops the row at a Python position (negative counts from the end) of the table on show. */
    method DeleteRow(rowNumber: int) returns (r: Outcome<TableError>)
      requires Valid()
      modifies this
      ensures Valid()
      ensures tableNames == old(tableNames) && currentTableName == old(currentTableName) && buferTableName == old(buferTableName)
      ensures currentTableName.None? ==> r == Fail(MissingKey)
      ensures old(currentTableName).Some? ==>
        var t := old(currentTableName).value;
        && (r.Pass? <==> -(Rows(old(data[t])) as int) <= rowNumber < Rows(old(data[t])))
        && (r.Pass? ==> data == old(data)[t := DropRowAt(old(data[t]), PyPos(rowNumber, Rows(old(data[t]))))])
      ensures r.Fail? ==> data == old(data)
    {
      if currentTableName.None? {
        return Fail(MissingKey);
      }
      var t := currentTableName.value;
      var n := Rows(data[t]);
      if !(-(n as int) <= rowNumber < n) {
        return Fail(OutOfRange);
      }
      data := data[t := DropRowAt(data[t], PyPos(rowNumber, n))];
      return Pass;
    }

    /** `delete_column`: drops the column at a Python position of the table on show. */
    method DeleteColumn(columnNumber: int) returns (r: Outcome<TableError>)
      requires Valid()
      modifies this
      ensures Valid()
      ensures tableNames == old(tableNames) && currentTableName == old(currentTableName) && buferTableName == old(buferTableName)
      ensures currentTableName.None? ==> r == Fail(MissingKey)
      ensures old(currentTableName).Some? ==>
        var t := old(currentTableName).value;
        && (r.Pass? <==> -(|old(data[t]).columns| as int) <= columnNumber < |old(data[t]).columns|)
        && (r.Pass? ==> data == old(data)[t := DropColumnAt(old(data[t]), PyPos(columnNumber, |old(data[t]).columns|))])
      ensures r.Fail? ==> data == old(data)
    {
      if currentTableName.None? {
        return Fail(MissingKey);
      }
      var t := currentTableName.value;
      var n := |data[t].columns|;
      if !(-(n as int) <= columnNumber < n) {
        return Fail(OutOfRange);
      }
      data := data[t := DropColumnAt(data[t], PyPos(columnNumber, n))];
      return Pass;
    }
  }
}
