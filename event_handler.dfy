/**
 * `EventHandler` (`src/event_handler.py`): the button, table-click and mouse
 * handlers that read and write the loaded table and the peak table of the
 * earlier table manager. The widgets the handlers read their inputs from (the
 * combo boxes, the keyboard modifiers, the mouse position) are parameters;
 * plotting is outside the model.
 */
module Events {
  import opened Wrappers
  import opened Frames
  import opened PeakMath
  import Combinatorics
  import Reconstruction
  import Viewer
  import TableModel
  import TableStore
  import LegacyTables

  /** The keyboard modifiers Qt reports. */
  datatype Modifier = Control | Alt | Shift | Meta

  /** Why a sketched peak is not added. */
  datatype SketchError =
    | NotPressed                           // no press seen: `press_x` was never set
    | ColumnError(error: TableStore.TableError)  // `get_column_data` raised
    | EmptyColumn                          // `min` of an empty column raises
    | TextInColumn                         // `min`, `max` or `np.linspace` of a column holding text raises TypeError

  /** `v * -1`. */
  function Negated(v: seq<real>): (r: seq<real>)
    ensures |r| == |v| && forall i :: 0 <= i < |v| ==> r[i] + v[i] == 0.0
  {
    seq(|v|, i requires 0 <= i < |v| => -v[i])
  }

  /** The name of the derivative column of `y`. */
  function DiffColumnName(y: string): (name: string)
    ensures |name| == |y| + 5 && name[..|y|] == y && name[|y|..] == "_diff"
  {
    y + "_diff"
  }

  /** The width of a peak sketched by dragging from `pressX` to `releaseX`: twice the distance. */
  function SketchWidth(pressX: real, releaseX: real): (w: real)
    ensures w >= 0.0
    ensures w == 2.0 * (releaseX - pressX) || w == 2.0 * (pressX - releaseX)
    ensures w == 0.0 <==> pressX == releaseX
  {
    2.0 * (if releaseX >= pressX then releaseX - pressX else pressX - releaseX)
  }

  /** Dragging in either direction sketches the same width. */
  lemma SketchWidthSymmetric(a: real, b: real)
    ensures SketchWidth(a, b) == SketchWidth(b, a)
  {
  }

  /** The cell writes `update_gaussian_data` makes in row i: the fitted triple and the peak type. */
  function PeakAssign(bestParams: seq<real>, bestCombination: seq<string>, i: nat): (assigns: seq<(string, Cell)>)
    requires i < |bestCombination| && 3 * |bestCombination| <= |bestParams|
    ensures Names(assigns) == LegacyTables.PEAK_ROW_COLUMNS[1..]
    ensures |assigns| == 4
  {
    [(LegacyTables.HEIGHT, Num(bestParams[3 * i])), (LegacyTables.CENTER, Num(bestParams[3 * i + 1])),
     (LegacyTables.WIDTH, Num(bestParams[3 * i + 2])), (LegacyTables.TYPE, Str(bestCombination[i]))]
  }

  /** The cell writes of every slot, row by row. */
  function PeakAssigns(bestParams: seq<real>, bestCombination: seq<string>): (rows: seq<seq<(string, Cell)>>)
    requires 3 * |bestCombination| <= |bestParams|
    ensures |rows| == |bestCombination|
    ensures forall i :: 0 <= i < |rows| ==> rows[i] == PeakAssign(bestParams, bestCombination, i)
  {
    seq(|bestCombination|, i requires 0 <= i < |bestCombination| => PeakAssign(bestParams, bestCombination, i))
  }

  /**
   * After `update_gaussian_data`, row i (for i below the combination length)
   * holds the fitted height, center and width `bestParams[3i..3i+2]` and the
   * type `bestCombination[i]`.
   */
  lemma UpdatedPeakRows(f: Frame, bestParams: seq<real>, bestCombination: seq<string>)
    requires WellFormed(f) && 3 * |bestCombination| <= |bestParams|
    ensures var g := SetRows(f, PeakAssigns(bestParams, bestCombination));
      forall i :: 0 <= i < |bestCombination| ==>
        && Lookup(g, i, LegacyTables.HEIGHT) == Some(Num(bestParams[3 * i]))
        && Lookup(g, i, LegacyTables.CENTER) == Some(Num(bestParams[3 * i + 1]))
        && Lookup(g, i, LegacyTables.WIDTH) == Some(Num(bestParams[3 * i + 2]))
        && Lookup(g, i, LegacyTables.TYPE) == Some(Str(bestCombination[i]))
  {
    var rows := PeakAssigns(bestParams, bestCombination);
    forall i | 0 <= i < |bestCombination|
      ensures Lookup(SetRows(f, rows), i, LegacyTables.HEIGHT) == Some(Num(bestParams[3 * i]))
      ensures Lookup(SetRows(f, rows), i, LegacyTables.CENTER) == Some(Num(bestParams[3 * i + 1]))
      ensures Lookup(SetRows(f, rows), i, LegacyTables.WIDTH) == Some(Num(bestParams[3 * i + 2]))
      ensures Lookup(SetRows(f, rows), i, LegacyTables.TYPE) == Some(Str(bestCombination[i]))
    {
      var a := PeakAssign(bestParams, bestCombination, i);
      UpdatedPeakCell(f, bestParams, bestCombination, i, 0);
      UpdatedPeakCell(f, bestParams, bestCombination, i, 1);
      UpdatedPeakCell(f, bestParams, bestCombination, i, 2);
      UpdatedPeakCell(f, bestParams, bestCombination, i, 3);
      assert a[0] == (LegacyTables.HEIGHT, Num(bestParams[3 * i])) && a[1] == (LegacyTables.CENTER, Num(bestParams[3 * i + 1]));
      assert a[2] == (LegacyTables.WIDTH, Num(bestParams[3 * i + 2])) && a[3] == (LegacyTables.TYPE, Str(bestCombination[i]));
    }
  }

  /** The k-th write of slot i lands in row i. */
  lemma UpdatedPeakCell(f: Frame, bestParams: seq<real>, bestCombination: seq<string>, i: nat, k: nat)
    requires WellFormed(f) && 3 * |bestCombination| <= |bestParams| && i < |bestCombination| && k < 4
    ensures var a := PeakAssign(bestParams, bestCombination, i);
      Lookup(SetRows(f, PeakAssigns(bestParams, bestCombination)), i, a[k].0) == Some(a[k].1)
  {
    PeakAssignsDistinct(bestParams, bestCombination);
    SetRowsEffect(f, PeakAssigns(bestParams, bestCombination));
  }

  /** ... and every cell of the rows beyond the combination is unchanged. */
  lemma UpdatedPeakRowsKeepOthers(f: Frame, bestParams: seq<real>, bestCombination: seq<string>)
    requires WellFormed(f) && 3 * |bestCombination| <= |bestParams|
    ensures var g := SetRows(f, PeakAssigns(bestParams, bestCombination));
      forall l, c :: Lookup(f, l, c).Some? && !(0 <= l < |bestCombination|) ==> Lookup(g, l, c) == Lookup(f, l, c)
  {
    PeakAssignsDistinct(bestParams, bestCombination);
    SetRowsEffect(f, PeakAssigns(bestParams, bestCombination));
  }

  lemma PeakAssignsDistinct(bestParams: seq<real>, bestCombination: seq<string>)
    requires 3 * |bestCombination| <= |bestParams|
    ensures var rows := PeakAssigns(bestParams, bestCombination);
      forall r :: 0 <= r < |rows| ==> Combinatorics.Distinct(Names(rows[r]))
  {
    LegacyTables.PeakRowColumnsDistinct();
    assert Combinatorics.Distinct(LegacyTables.PEAK_ROW_COLUMNS[1..]);
  }

  class EventHandler {
    const viewer: Viewer.CsvViewer
    const tableManager: LegacyTables.TableManager
    /** The data coordinates of the last mouse press, once there was one. */
    var press: Option<(real, real)>

    predicate Valid()
      reads this, viewer, tableManager
    {
      tableManager.viewer == viewer && tableManager.Valid()
    }

    constructor(tableManager: LegacyTables.TableManager)
      requires tableManager.Valid()
      ensures Valid() && this.tableManager == tableManager && viewer == tableManager.viewer && press == None
    {
      this.tableManager := tableManager;
      viewer := tableManager.viewer;
      press := None;
    }

    /**
     * `get_init_params`: the Height, Center and Width of each peak row, in row
     * order. A missing column is an error once the table has a row.
     */
    method GetInitParams() returns (r: Result<seq<Cell>, TableStore.TableError>)
      requires Valid()
      ensures var g := tableManager.gaussianData;
        && (r.Ok? <==> Rows(g) == 0 || (LegacyTables.HEIGHT in g.columns && LegacyTables.CENTER in g.columns && LegacyTables.WIDTH in g.columns))
        && (r.Err? ==> r.error == TableStore.MissingKey)
        && (r.Ok? ==> |r.value| == 3 * Rows(g))
        && (r.Ok? ==> forall i :: 0 <= i < Rows(g) ==>
             && r.value[3 * i] == CellAt(g, i, LegacyTables.HEIGHT)
             && r.value[3 * i + 1] == CellAt(g, i, LegacyTables.CENTER)
             && r.value[3 * i + 2] == CellAt(g, i, LegacyTables.WIDTH))
    {
      var params := FlattenTriples(tableManager.gaussianData, LegacyTables.HEIGHT, LegacyTables.CENTER, LegacyTables.WIDTH);
      if params.None? {
        return Err(TableStore.MissingKey);
      }
      r := Ok(params.value);
    }

    /**
     * `update_gaussian_data`: for each slot i of the best combination, writes
     * the fitted triple and the type into row i of the peak table (`.at`, which
     * adds a missing row or column).
     */
    method UpdateGaussianData(bestParams: seq<real>, bestCombination: seq<string>)
      requires Valid() && 3 * |bestCombination| <= |bestParams|
      modifies tableManager
      ensures Valid()
      ensures tableManager.gaussianData == SetRows(old(tableManager.gaussianData), PeakAssigns(bestParams, bestCombination))
    {
      var rows: seq<seq<(string, Cell)>> := PeakAssigns(bestParams, bestCombination);
      // the four `.at` writes of each row: Height, Center, Width and Type in turn
      var g := WriteRows(tableManager.gaussianData, rows);
      tableManager.gaussianData := g;
    }

    /**
     * `add_reaction_cummulative_func`: the per-slot curves (non-gauss slots as
     * Fraser-Suzuki with asymmetry -1) and their running total
     * (`y + '_cummulative'`) are written into the loaded table.
     */
    method AddReactionCummulativeFunc(k: Kernels, bestParams: seq<real>, bestCombination: seq<string>,
                                      xs: seq<real>, y: string, cummulative: seq<real>)
      returns (total: seq<real>)
      requires Valid() && 3 * |bestCombination| <= |bestParams| && |cummulative| == |xs| && |xs| == Rows(viewer.df)
      modifies viewer
      ensures Valid()
      ensures viewer.df == Reconstruction.Reconstructed(k, old(viewer.df), xs, bestCombination, bestParams, y, "_cummulative", cummulative)
      ensures total == Reconstruction.Total(k, xs, bestCombination, bestParams, cummulative)
      ensures viewer.fileName == old(viewer.fileName) && viewer.filePath == old(viewer.filePath)
    {
      var g;
      g, total := Reconstruction.WriteBack(k, viewer.df, xs, bestCombination, bestParams, y, "_cummulative", cummulative);
      viewer.df := g;
    }

    /**
     * `handle_table_clicked`: with exactly Ctrl held deletes the clicked row,
     * with exactly Alt the clicked column, of the table on the current page;
     * with any other modifiers nothing changes.
     */
    method HandleTableClicked(modifiers: set<Modifier>, index: TableModel.ModelIndex, currentIndex: int)
      returns (r: Outcome<TableStore.TableError>)
      requires Valid()
      modifies tableManager, viewer
      ensures Valid()
      ensures viewer.fileName == old(viewer.fileName) && viewer.filePath == old(viewer.filePath)
      ensures modifiers != {Control} && modifiers != {Alt} ==>
        r == Pass && viewer.df == old(viewer.df) && tableManager.gaussianData == old(tableManager.gaussianData)
      ensures modifiers == {Control} && currentIndex == LegacyTables.PEAK_PAGE ==>
        var n := Rows(old(tableManager.gaussianData));
        && (r.Pass? <==> -(n as int) <= index.Row() < n)
        && (r.Pass? ==> viewer.df == old(viewer.df)
                        && tableManager.gaussianData == DropRowAt(old(tableManager.gaussianData), PyPos(index.Row(), n)))
      ensures modifiers == {Control} && currentIndex == LegacyTables.CSV_PAGE ==>
        var n := Rows(old(viewer.df));
        && (r.Pass? <==> -(n as int) <= index.Row() < n)
        && (r.Pass? ==> tableManager.gaussianData == old(tableManager.gaussianData)
                        && viewer.df == DropRowAt(old(viewer.df), PyPos(index.Row(), n)))
      ensures modifiers == {Alt} && currentIndex == LegacyTables.PEAK_PAGE ==>
        var n := |old(tableManager.gaussianData).columns|;
        && (r.Pass? <==> -(n as int) <= index.Column() < n)
        && (r.Pass? ==> viewer.df == old(viewer.df)
                        && tableManager.gaussianData == DropColumnAt(old(tableManager.gaussianData), PyPos(index.Column(), n)))
      ensures modifiers == {Alt} && currentIndex == LegacyTables.CSV_PAGE ==>
        var n := |old(viewer.df).columns|;
        && (r.Pass? <==> -(n as int) <= index.Column() < n)
        && (r.Pass? ==> tableManager.gaussianData == old(tableManager.gaussianData)
                        && viewer.df == DropColumnAt(old(viewer.df), PyPos(index.Column(), n)))
      ensures r.Fail? ==> viewer.df == old(viewer.df) && tableManager.gaussianData == old(tableManager.gaussianData)
    {
      if modifiers == {Control} {
        r := tableManager.DeleteRow(currentIndex, index.Row());
      } else if modifiers == {Alt} {
        r := tableManager.DeleteColumn(currentIndex, index.Column());
      } else {
        r := Pass;
      }
    }

    /** `on_press`: remembers where the mouse was pressed. */
    method OnPress(x: real, y: real)
      modifies this
      ensures press == Some((x, y))
    {
      press := Some((x, y));
    }

    /**
     * `on_release`: a Gaussian peak centred at the press point, as high as the
     * press point and `SketchWidth` wide, is added to the peak table, provided
     * the x column reads as numbers, is not empty and holds no text (the
     * column comes back as stored, and the preview's `min`, `max` and
     * `np.linspace` raise on text).
     */
    method OnRelease(releaseX: real, xColumn: string) returns (r: Result<real, SketchError>)
      requires Valid()
      modifies tableManager
      ensures Valid()
      ensures press.None? ==> r == Err(NotPressed)
      ensures press.Some? && tableManager.GetColumnData(xColumn).Err? ==> r == Err(ColumnError(tableManager.GetColumnData(xColumn).error))
      ensures press.Some? && tableManager.GetColumnData(xColumn).Ok? && tableManager.GetColumnData(xColumn).value == [] ==> r == Err(EmptyColumn)
      ensures press.Some? && tableManager.GetColumnData(xColumn).Ok? && !AllNum(tableManager.GetColumnData(xColumn).value) ==> r == Err(TextInColumn)
      ensures r.Err? ==> tableManager.gaussianData == old(tableManager.gaussianData)
      ensures r.Ok? ==> press.Some? && r.value == SketchWidth(press.value.0, releaseX)
      ensures r.Ok? ==> xColumn in viewer.df.columns && AllNum(Column(viewer.df, xColumn)) && Column(viewer.df, xColumn) != []
      ensures r.Ok? ==> (tableManager.gaussianData ==
        Concat(old(tableManager.gaussianData), LegacyTables.PeakRow(Rows(old(tableManager.gaussianData)), press.value.1, press.value.0, r.value)))
    {
      if press.None? {
        return Err(NotPressed);
      }
      var (pressX, pressY) := press.value;
      var width := SketchWidth(pressX, releaseX);
      var xData := tableManager.GetColumnData(xColumn);
      if xData.Err? {
        return Err(ColumnError(xData.error));
      }
      if xData.value == [] {
        return Err(EmptyColumn);
      }
      if !AllNum(xData.value) {
        return Err(TextInColumn);
      }
      tableManager.AddGaussianToTable(pressY, pressX, width);
      return Ok(width);
    }

    /**
     * `add_diff_button_pushed`: the negated gradient of the y column over the x
     * column (`gradient(ys, xs)` stands for `np.gradient`) becomes column
     * `y + '_diff'` of the loaded table; the other columns stay as they were.
     * `np.gradient` raises for a column of fewer than two points.
     */
    method AddDiffButtonPushed(gradient: (seq<real>, seq<real>) -> seq<real>, xName: string, yName: string)
      returns (r: Outcome<TableStore.TableError>)
      requires Valid()
      modifies viewer
      ensures Valid()
      ensures viewer.fileName == old(viewer.fileName) && viewer.filePath == old(viewer.filePath)
      ensures xName !in old(viewer.df).columns || yName !in old(viewer.df).columns ==> r == Fail(TableStore.MissingKey)
      ensures (&& xName in old(viewer.df).columns && yName in old(viewer.df).columns
               && AllNum(Column(old(viewer.df), xName)) && AllNum(Column(old(viewer.df), yName))
               && Rows(old(viewer.df)) < 2) ==> r == Fail(TableStore.TooFewPoints)
      ensures r.Fail? ==> viewer.df == old(viewer.df)
      ensures r.Pass? ==>
        && xName in old(viewer.df).columns && yName in old(viewer.df).columns && Rows(old(viewer.df)) >= 2
        && AllNum(Column(old(viewer.df), xName)) && AllNum(Column(old(viewer.df), yName))
        && var d := Negated(gradient(Reals(Column(old(viewer.df), yName)), Reals(Column(old(viewer.df), xName))));
           && |d| == Rows(old(viewer.df))
           && viewer.df == SetColumn(old(viewer.df), DiffColumnName(yName), Cells(d))
    {
      var df := viewer.df;
      if xName !in df.columns || yName !in df.columns {
        return Fail(TableStore.MissingKey);
      }
      var xs, ys := Column(df, xName), Column(df, yName);
      if !AllNum(xs) || !AllNum(ys) {
        return Fail(TableStore.NotANumber);
      }
      if Rows(df) < 2 {
        return Fail(TableStore.TooFewPoints);
      }
      var dyDx := Negated(gradient(Reals(ys), Reals(xs)));
      if |dyDx| != Rows(df) {
        return Fail(TableStore.LengthMismatch);
      }
      viewer.df := SetColumn(df, DiffColumnName(yName), Cells(dyDx));
      return Pass;
    }
  }
}
