/**
 * The earlier `TableManager` (`table_manager.py` at the repository root): the
 * loaded table lives in the viewer, a separate peak table holds the sketched
 * Gaussian peaks, and a stacked widget decides which of the two the delete
 * operations act on. The widget itself is outside the model; its current page
 * is a parameter.
 */
module LegacyTables {
  import opened Wrappers
  import opened Frames
  import opened PeakMath
  import Combinatorics
  import Reconstruction
  import Viewer
  import TableStore

  const REACTION := "Reaction"
  const HEIGHT := "Height"
  const CENTER := "Center"
  const WIDTH := "Width"
  const TYPE := "Type"

  /** The columns the peak table starts with. */
  const PEAK_COLUMNS: seq<string> := [REACTION, HEIGHT, CENTER, WIDTH]

  /** The columns of a row added by `add_gaussian_to_table`. */
  const PEAK_ROW_COLUMNS: seq<string> := [REACTION, HEIGHT, CENTER, WIDTH, TYPE]

  /** The stacked widget's pages: the loaded table first, the peak table second. */
  const CSV_PAGE := 0
  const PEAK_PAGE := 1

  lemma PeakRowColumnsDistinct()
    ensures Combinatorics.Distinct(PEAK_ROW_COLUMNS)
    ensures Combinatorics.Distinct(PEAK_COLUMNS)
  {
    var names := PEAK_ROW_COLUMNS;
    assert names[0][0] == 'R' && names[1][0] == 'H' && names[2][0] == 'C';
    assert names[3][0] == 'W' && names[4][0] == 'T';
    forall i, j | 0 <= i < j < |names| ensures names[i] != names[j] {
      assert names[i][0] != names[j][0];
    }
    assert PEAK_COLUMNS == names[..4];
  }

  /** The one-row table `add_gaussian_to_table` appends after `rows` rows. */
  function PeakRow(rows: nat, height: real, center: real, width: real): (row: Frame)
    ensures WellFormed(row) && Rows(row) == 1 && row.columns == PEAK_ROW_COLUMNS
  {
    PeakRowColumnsDistinct();
    SingleRow(PEAK_ROW_COLUMNS, [Str(TableStore.ReactionName(rows)), Num(height), Num(center), Num(width), Str(GAUSS)])
  }

  /** The cells of that row, column by column. */
  lemma PeakRowCells(rows: nat, height: real, center: real, width: real)
    ensures var row := PeakRow(rows, height, center, width);
      && Column(row, REACTION) == [Str(TableStore.ReactionName(rows))] && Column(row, TYPE) == [Str(GAUSS)]
      && Column(row, HEIGHT) == [Num(height)] && Column(row, CENTER) == [Num(center)] && Column(row, WIDTH) == [Num(width)]
  {
    var names := PEAK_ROW_COLUMNS;
    assert names[0] == REACTION && names[1] == HEIGHT && names[2] == CENTER;
    assert names[3] == WIDTH && names[4] == TYPE;
  }

  /**
   * After `add_gaussian_to_table` the peak table has one more row, named
   * `Reaction_<n + 1>` for the prior row count n, with the given height,
   * center and width and type "gauss"; the earlier rows keep their cells.
   */
  lemma PeakRowAppended(g: Frame, height: real, center: real, width: real)
    requires WellFormed(g)
    ensures var h := Concat(g, PeakRow(Rows(g), height, center, width));
      && Rows(h) == Rows(g) + 1
      && (forall c :: c in PEAK_ROW_COLUMNS ==> c in h.columns)
      && Column(h, REACTION)[Rows(g)] == Str(TableStore.ReactionName(Rows(g)))
      && Column(h, TYPE)[Rows(g)] == Str(GAUSS)
      && Column(h, HEIGHT)[Rows(g)] == Num(height)
      && Column(h, CENTER)[Rows(g)] == Num(center)
      && Column(h, WIDTH)[Rows(g)] == Num(width)
      && (forall c :: c in g.columns ==> c in h.columns && Column(h, c)[..Rows(g)] == Column(g, c))
  {
    ConcatOneRow(g, PeakRow(Rows(g), height, center, width));
    PeakRowCells(Rows(g), height, center, width);
  }

  class TableManager {
    const viewer: Viewer.CsvViewer
    var gaussianData: Frame

    predicate Valid()
      reads this, viewer
    {
      WellFormed(gaussianData) && viewer.Valid()
    }

    /** `__init__`: an empty peak table with the columns Reaction, Height, Center and Width. */
    constructor(viewer: Viewer.CsvViewer)
      requires viewer.Valid()
      ensures Valid() && this.viewer == viewer
      ensures gaussianData == Empty(PEAK_COLUMNS)
      ensures Rows(gaussianData) == 0 && gaussianData.columns == [REACTION, HEIGHT, CENTER, WIDTH]
    {
      this.viewer := viewer;
      PeakRowColumnsDistinct();
      gaussianData := Empty(PEAK_COLUMNS);
    }

    /** `get_column_data`: a column of the loaded table, when every cell of it reads as a number. */
    function GetColumnData(column: string): (r: Result<seq<Cell>, TableStore.TableError>)
      reads this, viewer
      requires Valid()
      ensures r.Ok? <==> column in viewer.df.columns && AllNumeric(Column(viewer.df, column))
      ensures r.Ok? ==> r.value == Column(viewer.df, column)
      ensures column !in viewer.df.columns ==> r == Err(TableStore.MissingKey)
      ensures column in viewer.df.columns && !AllNumeric(Column(viewer.df, column)) ==> r == Err(TableStore.NonNumericData)
    {
      if column !in viewer.df.columns then Err(TableStore.MissingKey)
      else if AllNumeric(Column(viewer.df, column)) then Ok(Column(viewer.df, column))
      else Err(TableStore.NonNumericData)
    }

    /**
     * `add_reaction_cummulative_func`: the per-slot curves and their running
     * total (`y + '_cummulative'`) are written into the loaded table. `total` is
     * the caller's `cummulative_func` after the in-place additions.
     */
    method AddReactionCummulativeFunc(k: Kernels, bestParams: seq<real>, bestCombination: seq<string>,
                                      xs: seq<real>, y: string, cummulative: seq<real>)
      returns (total: seq<real>)
      requires Valid() && 3 * |bestCombination| <= |bestParams| && |cummulative| == |xs| && |xs| == Rows(viewer.df)
      modifies viewer
      ensures Valid()
      ensures viewer.df == Reconstruction.Reconstructed(k, old(viewer.df), xs, bestCombination, bestParams, y, "_cummulative", cummulative)
      ensures total == Reconstruction.Total(k, xs, bestCombination, bestParams, cummulative)
      ensures viewer.fileName == old(viewer.fileName) && viewer.filePath == old(viewer.filePath)
    {
      var g;
      g, total := Reconstruction.WriteBack(k, viewer.df, xs, bestCombination, bestParams, y, "_cummulative", cummulative);
      viewer.df := g;
    }

    /** `add_gaussian_to_table`: appends a Gaussian peak row to the peak table under a fresh row label. */
    method AddGaussianToTable(height: real, center: real, width: real)
      requires Valid()
      modifies this
      ensures Valid()
      ensures gaussianData == Concat(old(gaussianData), PeakRow(Rows(old(gaussianData)), height, center, width))
    {
      gaussianData := Concat(gaussianData, PeakRow(Rows(gaussianData), height, center, width));
    }

    /**
     * `deleteRow`: on the first page drops the row at a Python position of the
     * loaded table, on the second page of the peak table; on any other page
     * nothing happens.
     */
    method DeleteRow(currentIndex: int, rowNumber: int) returns (r: Outcome<TableStore.TableError>)
      requires Valid()
      modifies this, viewer
      ensures Valid()
      ensures viewer.fileName == old(viewer.fileName) && viewer.filePath == old(viewer.filePath)
      ensures currentIndex == CSV_PAGE ==>
        && gaussianData == old(gaussianData)
        && (r.Pass? <==> -(Rows(old(viewer.df)) as int) <= rowNumber < Rows(old(viewer.df)))
        && (r.Pass? ==> viewer.df == DropRowAt(old(viewer.df), PyPos(rowNumber, Rows(old(viewer.df)))))
        && (r.Fail? ==> r.error == TableStore.OutOfRange && viewer.df == old(viewer.df))
      ensures currentIndex == PEAK_PAGE ==>
        && viewer.df == old(viewer.df)
        && (r.Pass? <==> -(Rows(old(gaussianData)) as int) <= rowNumber < Rows(old(gaussianData)))
        && (r.Pass? ==> gaussianData == DropRowAt(old(gaussianData), PyPos(rowNumber, Rows(old(gaussianData)))))
        && (r.Fail? ==> r.error == TableStore.OutOfRange && gaussianData == old(gaussianData))
      ensures currentIndex != CSV_PAGE && currentIndex != PEAK_PAGE ==>
        r == Pass && viewer.df == old(viewer.df) && gaussianData == old(gaussianData)
    {
      if currentIndex == CSV_PAGE {
        var n := Rows(viewer.df);
        if !(-(n as int) <= rowNumber < n) {
          return Fail(TableStore.OutOfRange);
        }
        viewer.df := DropRowAt(viewer.df, PyPos(rowNumber, n));
      } else if currentIndex == PEAK_PAGE {
        var n := Rows(gaussianData);
        if !(-(n as int) <= rowNumber < n) {
          return Fail(TableStore.OutOfRange);
        }
        gaussianData := DropRowAt(gaussianData, PyPos(rowNumber, n));
      }
      return Pass;
    }

    /**
     * `deleteColumn`: drops the column at a Python position of the table on the
     * current page; the other table is untouched, and on any other page nothing happens.
     */
    method DeleteColumn(currentIndex: int, columnNumber: int) returns (r: Outcome<TableStore.TableError>)
      requires Valid()
      modifies this, viewer
      ensures Valid()
      ensures viewer.fileName == old(viewer.fileName) && viewer.filePath == old(viewer.filePath)
      ensures currentIndex == CSV_PAGE ==>
        && gaussianData == old(gaussianData)
        && (r.Pass? <==> -(|old(viewer.df).columns| as int) <= columnNumber < |old(viewer.df).columns|)
        && (r.Pass? ==> viewer.df == DropColumnAt(old(viewer.df), PyPos(columnNumber, |old(viewer.df).columns|)))
        && (r.Fail? ==> r.error == TableStore.OutOfRange && viewer.df == old(viewer.df))
      ensures currentIndex == PEAK_PAGE ==>
        && viewer.df == old(viewer.df)
        && (r.Pass? <==> -(|old(gaussianData).columns| as int) <= columnNumber < |old(gaussianData).columns|)
        && (r.Pass? ==> gaussianData == DropColumnAt(old(gaussianData), PyPos(columnNumber, |old(gaussianData).columns|)))
        && (r.Fail? ==> r.error == TableStore.OutOfRange && gaussianData == old(gaussianData))
      ensures currentIndex != CSV_PAGE && currentIndex != PEAK_PAGE ==>
        r == Pass && viewer.df == old(viewer.df) && gaussianData == old(gaussianData)
    {
      if currentIndex == CSV_PAGE {
        var n := |viewer.df.columns|;
        if !(-(n as int) <= columnNumber < n) {
          return Fail(TableStore.OutOfRange);
        }
        viewer.df := DropColumnAt(viewer.df, PyPos(columnNumber, n));
      } else if currentIndex == PEAK_PAGE {
        var n := |gaussianData.columns|;
        if !(-(n as int) <= columnNumber < n) {
          return Fail(TableStore.OutOfRange);
        }
        gaussianData := DropColumnAt(gaussianData, PyPos(columnNumber, n));
      }
      return Pass;
    }
  }
}
