/**
 * `DataHandler` (`src/sub_handlers/data_handler.py`): reads the peak table and
 * the options table from the table store, lays the peak parameters and the
 * reaction coefficients out as flat vectors, builds the bounds the fit is
 * given, and writes fitted values back into the peak table. The request and
 * reply signals between the handler and the store are plain calls here.
 */
module DataHandling {
  import opened Wrappers
  import opened Frames
  import opened PeakMath
  import Combinatorics
  import TableStore

  const COEFF_A := "coeff_a"
  const COEFF_S1 := "coeff_s1"
  const COEFF_S2 := "coeff_s2"

  /** The columns `update_gaussian_data` writes in each row, in order. */
  const WRITTEN_COLUMNS: seq<string> :=
    [TableStore.HEIGHT, TableStore.CENTER, TableStore.WIDTH, TableStore.TYPE, COEFF_A, COEFF_S1, COEFF_S2]

  lemma WrittenColumnsDistinct()
    ensures Combinatorics.Distinct(WRITTEN_COLUMNS)
  {
    var names := WRITTEN_COLUMNS;
    assert names[0][0] == 'h' && names[1][0] == 'c' && |names[1]| == 6 && names[2][0] == 'w' && names[3][0] == 't';
    assert names[4][..7] == "coeff_a" && names[5][..7] == "coeff_s" && names[6][..7] == "coeff_s";
    assert |names[4]| == 7 && |names[5]| == 8 && names[5][7] == '1' && names[6][7] == '2';
    forall i, j | 0 <= i < j < |names| ensures names[i] != names[j] {
      if i == 1 && 4 <= j {
        assert |names[i]| != |names[j]|;
      } else if 4 <= i {
        assert names[i][6] != names[j][6] || names[i][7] != names[j][7];
      } else {
        assert names[i][0] != names[j][0];
      }
    }
  }

  /**
   * `get_init_params`: the height, center and width of each row of the peak
   * table, in row order. An unknown peak table is an error, and so is a
   * missing column once the table has a row.
   */
  method GetInitParams(store: TableStore.TableManager) returns (r: Result<seq<Cell>, TableStore.TableError>)
    requires store.Valid()
    ensures TableStore.GAUSS_TABLE !in store.tableNames ==> r == Err(TableStore.UnknownTable)
    ensures TableStore.GAUSS_TABLE in store.tableNames ==> var g := store.data[TableStore.GAUSS_TABLE];
      && (r.Ok? <==> Rows(g) == 0 || (TableStore.HEIGHT in g.columns && TableStore.CENTER in g.columns && TableStore.WIDTH in g.columns))
      && (r.Err? ==> r.error == TableStore.MissingKey)
      && (r.Ok? ==> |r.value| == 3 * Rows(g))
      && (r.Ok? ==> forall i :: 0 <= i < Rows(g) ==>
           && r.value[3 * i] == CellAt(g, i, TableStore.HEIGHT)
           && r.value[3 * i + 1] == CellAt(g, i, TableStore.CENTER)
           && r.value[3 * i + 2] == CellAt(g, i, TableStore.WIDTH))
  {
    var gaussianData := store.GetData(TableStore.GAUSS_TABLE);
    if gaussianData.Err? {
      return Err(gaussianData.error);
    }
    var params := FlattenTriples(gaussianData.value, TableStore.HEIGHT, TableStore.CENTER, TableStore.WIDTH);
    if params.None? {
      return Err(TableStore.MissingKey);
    }
    r := Ok(params.value);
  }

  /** The cell writes `update_gaussian_data` makes in row i. */
  function RowAssign(bestParams: seq<real>, bestCombination: seq<string>, coeffA: seq<real>, s1: seq<real>, s2: seq<real>, i: nat)
    : (assigns: seq<(string, Cell)>)
    requires i < |bestCombination| && 3 * |bestCombination| <= |bestParams|
    requires i < |coeffA| && i < |s1| && i < |s2|
    ensures Names(assigns) == WRITTEN_COLUMNS
  {
    [(TableStore.HEIGHT, Num(bestParams[3 * i])), (TableStore.CENTER, Num(bestParams[3 * i + 1])),
     (TableStore.WIDTH, Num(bestParams[3 * i + 2])), (TableStore.TYPE, Str(bestCombination[i])),
     (COEFF_A, Num(coeffA[i])), (COEFF_S1, Num(s1[i])), (COEFF_S2, Num(s2[i]))]
  }

  /** The cell writes of every slot, row by row. */
  function RowAssigns(bestParams: seq<real>, bestCombination: seq<string>, coeffA: seq<real>, s1: seq<real>, s2: seq<real>)
    : (rows: seq<seq<(string, Cell)>>)
    requires 3 * |bestCombination| <= |bestParams|
    requires |bestCombination| <= |coeffA| && |bestCombination| <= |s1| && |bestCombination| <= |s2|
    ensures |rows| == |bestCombination|
    ensures forall i :: 0 <= i < |rows| ==> rows[i] == RowAssign(bestParams, bestCombination, coeffA, s1, s2, i)
  {
    seq(|bestCombination|, i requires 0 <= i < |bestCombination| => RowAssign(bestParams, bestCombination, coeffA, s1, s2, i))
  }

  /**
   * `update_gaussian_data`: the peak table the store hands out is written in
   * place, row i getting the fitted triple, the type and the three
   * coefficients of slot i; the same table is returned. A peak table the
   * store does not know is an error.
   */
  method UpdateGaussianData(store: TableStore.TableManager, bestParams: seq<real>, bestCombination: seq<string>,
                            coeffA: seq<real>, s1: seq<real>, s2: seq<real>)
    returns (r: Result<Frame, TableStore.TableError>)
    requires store.Valid()
    requires 3 * |bestCombination| <= |bestParams|
    requires |bestCombination| <= |coeffA| && |bestCombination| <= |s1| && |bestCombination| <= |s2|
    modifies store
    ensures store.Valid()
    ensures r.Err? <==> TableStore.GAUSS_TABLE !in old(store.tableNames)
    ensures r.Err? ==> r.error == TableStore.UnknownTable && store.data == old(store.data)
    ensures r.Ok? ==> r.value == SetRows(old(store.data[TableStore.GAUSS_TABLE]), RowAssigns(bestParams, bestCombination, coeffA, s1, s2))
    ensures r.Ok? ==> store.data == old(store.data)[TableStore.GAUSS_TABLE := r.value]
    ensures store.tableNames == old(store.tableNames)
    ensures store.currentTableName == old(store.currentTableName) && store.buferTableName == old(store.buferTableName)
  {
    var data := store.GetData(TableStore.GAUSS_TABLE);
    if data.Err? {
      return Err(data.error);
    }
    // the seven `.at` writes of each row, in the order of WRITTEN_COLUMNS
    var g := WriteRows(data.value, RowAssigns(bestParams, bestCombination, coeffA, s1, s2));
    // the store's own frame is the one written to
    store.UpdateTableData(TableStore.GAUSS_TABLE, g);
    r := Ok(g);
  }

  lemma RowAssignsDistinct(bestParams: seq<real>, bestCombination: seq<string>, coeffA: seq<real>, s1: seq<real>, s2: seq<real>)
    requires 3 * |bestCombination| <= |bestParams|
    requires |bestCombination| <= |coeffA| && |bestCombination| <= |s1| && |bestCombination| <= |s2|
    ensures var rows := RowAssigns(bestParams, bestCombination, coeffA, s1, s2);
      forall r :: 0 <= r < |rows| ==> Combinatorics.Distinct(Names(rows[r]))
  {
    WrittenColumnsDistinct();
  }

  /** The k-th write of slot i lands in row i. */
  lemma UpdatedCell(f: Frame, bestParams: seq<real>, bestCombination: seq<string>, coeffA: seq<real>, s1: seq<real>, s2: seq<real>,
                    i: nat, k: nat)
    requires WellFormed(f) && 3 * |bestCombination| <= |bestParams|
    requires |bestCombination| <= |coeffA| && |bestCombination| <= |s1| && |bestCombination| <= |s2|
    requires i < |bestCombination| && k < 7
    ensures var a := RowAssign(bestParams, bestCombination, coeffA, s1, s2, i);
      Lookup(SetRows(f, RowAssigns(bestParams, bestCombination, coeffA, s1, s2)), i, a[k].0) == Some(a[k].1)
  {
    RowAssignsDistinct(bestParams, bestCombination, coeffA, s1, s2);
    SetRowsEffect(f, RowAssigns(bestParams, bestCombination, coeffA, s1, s2));
  }

  /**
   * After `update_gaussian_data`, row i (below the combination length) holds
   * `bestParams[3i..3i+2]` as height, center and width, `bestCombination[i]`
   * as type and the i-th entries of the three coefficient lists.
   */
  lemma UpdatedRows(f: Frame, bestParams: seq<real>, bestCombination: seq<string>, coeffA: seq<real>, s1: seq<real>, s2: seq<real>)
    requires WellFormed(f) && 3 * |bestCombination| <= |bestParams|
    requires |bestCombination| <= |coeffA| && |bestCombination| <= |s1| && |bestCombination| <= |s2|
    ensures var g := SetRows(f, RowAssigns(bestParams, bestCombination, coeffA, s1, s2));
      forall i :: 0 <= i < |bestCombination| ==>
        && Lookup(g, i, TableStore.HEIGHT) == Some(Num(bestParams[3 * i]))
        && Lookup(g, i, TableStore.CENTER) == Some(Num(bestParams[3 * i + 1]))
        && Lookup(g, i, TableStore.WIDTH) == Some(Num(bestParams[3 * i + 2]))
        && Lookup(g, i, TableStore.TYPE) == Some(Str(bestCombination[i]))
        && Lookup(g, i, COEFF_A) == Some(Num(coeffA[i]))
        && Lookup(g, i, COEFF_S1) == Some(Num(s1[i]))
        && Lookup(g, i, COEFF_S2) == Some(Num(s2[i]))
  {
    forall i | 0 <= i < |bestCombination|
      ensures var g := SetRows(f, RowAssigns(bestParams, bestCombination, coeffA, s1, s2));
        && Lookup(g, i, TableStore.HEIGHT) == Some(Num(bestParams[3 * i]))
        && Lookup(g, i, TableStore.CENTER) == Some(Num(bestParams[3 * i + 1]))
        && Lookup(g, i, TableStore.WIDTH) == Some(Num(bestParams[3 * i + 2]))
        && Lookup(g, i, TableStore.TYPE) == Some(Str(bestCombination[i]))
        && Lookup(g, i, COEFF_A) == Some(Num(coeffA[i]))
        && Lookup(g, i, COEFF_S1) == Some(Num(s1[i]))
        && Lookup(g, i, COEFF_S2) == Some(Num(s2[i]))
    {
      UpdatedCell(f, bestParams, bestCombination, coeffA, s1, s2, i, 0);
      UpdatedCell(f, bestParams, bestCombination, coeffA, s1, s2, i, 1);
      UpdatedCell(f, bestParams, bestCombination, coeffA, s1, s2, i, 2);
      UpdatedCell(f, bestParams, bestCombination, coeffA, s1, s2, i, 3);
      UpdatedCell(f, bestParams, bestCombination, coeffA, s1, s2, i, 4);
      UpdatedCell(f, bestParams, bestCombination, coeffA, s1, s2, i, 5);
      UpdatedCell(f, bestParams, bestCombination, coeffA, s1, s2, i, 6);
    }
  }

  /** ... and every cell of the rows beyond the combination is unchanged. */
  lemma UpdatedRowsKeepOthers(f: Frame, bestParams: seq<real>, bestCombination: seq<string>, coeffA: seq<real>, s1: seq<real>, s2: seq<real>)
    requires WellFormed(f) && 3 * |bestCombination| <= |bestParams|
    requires |bestCombination| <= |coeffA| && |bestCombination| <= |s1| && |bestCombination| <= |s2|
    ensures var g := SetRows(f, RowAssigns(bestParams, bestCombination, coeffA, s1, s2));
      forall l, c :: Lookup(f, l, c).Some? && !(0 <= l < |bestCombination|) ==> Lookup(g, l, c) == Lookup(f, l, c)
  {
    RowAssignsDistinct(bestParams, bestCombination, coeffA, s1, s2);
    SetRowsEffect(f, RowAssigns(bestParams, bestCombination, coeffA, s1, s2));
  }

  /**
   * The split of the coefficient vector in `compute_peaks_button_pushed`:
   * with n = |coefficients| / 3, the first n entries, the next n, and the rest.
   */
  function SplitCoefficients(coefficients: seq<real>): (parts: (seq<real>, seq<real>, seq<real>))
    ensures var n := |coefficients| / 3;
      && |parts.0| == n && |parts.1| == n && |parts.2| == |coefficients| - 2 * n
      && parts.0 + parts.1 + parts.2 == coefficients
  {
    var n := |coefficients| / 3;
    var parts := (coefficients[..n], coefficients[n..2 * n], coefficients[2 * n..]);
    assert parts.0 + parts.1 + parts.2 == coefficients;
    parts
  }

  /** Every entry of the coefficient vector lies in exactly the part its position says. */
  lemma SplitCoefficientsPositions(coefficients: seq<real>, j: nat)
    requires j < |coefficients|
    ensures var n := |coefficients| / 3;
      var parts := SplitCoefficients(coefficients);
      && (j < n ==> parts.0[j] == coefficients[j])
      && (n <= j < 2 * n ==> parts.1[j - n] == coefficients[j])
      && (2 * n <= j ==> parts.2[j - 2 * n] == coefficients[j])
  {
    var n := |coefficients| / 3;
    var parts := SplitCoefficients(coefficients);
    assert coefficients == parts.0 + parts.1 + parts.2;
    if j < n {
      assert (parts.0 + parts.1 + parts.2)[j] == parts.0[j];
    } else if j < 2 * n {
      assert (parts.0 + parts.1 + parts.2)[j] == parts.1[j - n];
    } else {
      assert (parts.0 + parts.1 + parts.2)[j] == parts.2[j - 2 * n];
    }
  }

  /** The combinations `compute_peaks_button_pushed` builds: all tuples over gauss, fraser and ads. */
  const PEAK_TYPES: seq<string> := [GAUSS, FRASER, ADS]

  function DataCombinations(n: nat): seq<seq<string>>
  {
    Combinatorics.Product(Combinatorics.Repeat(PEAK_TYPES, n))
  }

  /** 3^n combinations, no two equal, being exactly the length-n tuples over {gauss, fraser, ads}. */
  lemma DataCombinationsShape(n: nat)
    ensures |DataCombinations(n)| == Combinatorics.Pow(3, n)
    ensures Combinatorics.Distinct(DataCombinations(n))
    ensures forall e :: e in DataCombinations(n) <==>
      |e| == n && forall i :: 0 <= i < n ==> e[i] in PEAK_TYPES
  {
    Combinatorics.RepeatProduct(PEAK_TYPES, n);
    PeakTypesDistinct();
    Combinatorics.ProductDistinct(Combinatorics.Repeat(PEAK_TYPES, n));
  }

  lemma PeakTypesDistinct()
    ensures Combinatorics.Distinct(PEAK_TYPES)
  {
    var t := PEAK_TYPES;
    assert t[0][0] == 'g' && t[1][0] == 'f' && t[2][0] == 'a';
    forall i, j | 0 <= i < j < 3 ensures t[i] != t[j] {
      assert t[i][0] != t[j][0];
    }
  }

  /** The scale factors of `calculate_bounds` for height, center and width. */
  const LOWER_FACTORS: seq<real> := [0.0, 0.8, 0.6]
  const UPPER_FACTORS: seq<real> := [1.5, 1.2, 1.4]

  /** Each entry scaled by the factor for its place in its group of three. */
  function Scaled(factors: seq<real>, p: seq<real>): (r: seq<real>)
    requires |factors| == 3
    ensures |r| == |p|
  {
    seq(|p|, j requires 0 <= j < |p| => p[j] * factors[j % 3])
  }

  /**
   * `calculate_bounds`: for each group of three initial parameters (height,
   * center, width), lower bounds 0, 0.8 c and 0.6 w and upper bounds 1.5 h,
   * 1.2 c and 1.4 w.
   */
  method CalculateBounds(initialParams: seq<real>) returns (lowerBounds: seq<real>, upperBounds: seq<real>)
    requires |initialParams| % 3 == 0
    ensures lowerBounds == Scaled(LOWER_FACTORS, initialParams)
    ensures upperBounds == Scaled(UPPER_FACTORS, initialParams)
  {
    lowerBounds, upperBounds := [], [];
    var i := 0;
    while i < |initialParams|
      invariant 0 <= i <= |initialParams| && i % 3 == 0
      invariant lowerBounds == Scaled(LOWER_FACTORS, initialParams[..i])
      invariant upperBounds == Scaled(UPPER_FACTORS, initialParams[..i])
    {
      var group := initialParams[i..i + 3];
      lowerBounds := lowerBounds + [group[0] * 0.0];
      upperBounds := upperBounds + [group[0] * 1.5];
      lowerBounds := lowerBounds + [group[1] * 0.8];
      upperBounds := upperBounds + [group[1] * 1.2];
      lowerBounds := lowerBounds + [group[2] * 0.6];
      upperBounds := upperBounds + [group[2] * 1.4];
      i := i + 3;
    }
    assert initialParams[..i] == initialParams;
  }

  /** Every lower bound is at most its upper bound exactly when no initial parameter is negative. */
  lemma BoundsOrdered(initialParams: seq<real>)
    ensures (forall j :: 0 <= j < |initialParams| ==> Scaled(LOWER_FACTORS, initialParams)[j] <= Scaled(UPPER_FACTORS, initialParams)[j])
        <==> (forall j :: 0 <= j < |initialParams| ==> initialParams[j] >= 0.0)
  {
    var lo, up := Scaled(LOWER_FACTORS, initialParams), Scaled(UPPER_FACTORS, initialParams);
    forall j | 0 <= j < |initialParams| ensures lo[j] <= up[j] <==> initialParams[j] >= 0.0 {
      assert j % 3 == 0 || j % 3 == 1 || j % 3 == 2;
    }
  }

  /** The six constraint columns of the options table, bottom and top for a, s1 and s2. */
  const A_BOTTOM := "a_bottom_constraint"
  const A_TOP := "a_top_constraint"
  const S1_BOTTOM := "s1_bottom_constraint"
  const S1_TOP := "s1_top_constraint"
  const S2_BOTTOM := "s2_bottom_constraint"
  const S2_TOP := "s2_top_constraint"

  /**
   * Why `get_coeffs_and_bounds` raises, if it does, in the order the source
   * reaches each access: the peak table and its three coefficient columns,
   * then the options table and its `a_bottom_constraint` column, then the
   * first options row (IndexError), then the other five constraint columns.
   */
  function CoeffsError(d: map<string, Frame>): (e: Option<TableStore.TableError>)
    requires forall n :: n in d ==> WellFormed(d[n])
    ensures e.None? <==> CoeffTablesReadable(d)
  {
    if TableStore.GAUSS_TABLE !in d then Some(TableStore.MissingKey)
    else
      var g := d[TableStore.GAUSS_TABLE];
      if COEFF_A !in g.columns || COEFF_S1 !in g.columns || COEFF_S2 !in g.columns then Some(TableStore.MissingKey)
      else if TableStore.OPTIONS_TABLE !in d then Some(TableStore.MissingKey)
      else
        var o := d[TableStore.OPTIONS_TABLE];
        if A_BOTTOM !in o.columns then Some(TableStore.MissingKey)
        else if Rows(o) == 0 then Some(TableStore.OutOfRange)
        else if A_TOP !in o.columns || S1_BOTTOM !in o.columns || S1_TOP !in o.columns then Some(TableStore.MissingKey)
        else if S2_BOTTOM !in o.columns || S2_TOP !in o.columns then Some(TableStore.MissingKey)
        else None
  }

  /** Both tables, the three coefficient columns and the six constraint columns exist, and the options table has a row. */
  predicate CoeffTablesReadable(d: map<string, Frame>)
  {
    && TableStore.GAUSS_TABLE in d && TableStore.OPTIONS_TABLE in d
    && var g, o := d[TableStore.GAUSS_TABLE], d[TableStore.OPTIONS_TABLE];
    && COEFF_A in g.columns && COEFF_S1 in g.columns && COEFF_S2 in g.columns
    && A_BOTTOM in o.columns && A_TOP in o.columns && S1_BOTTOM in o.columns
    && S1_TOP in o.columns && S2_BOTTOM in o.columns && S2_TOP in o.columns
    && Rows(o) > 0
  }

  /**
   * An options table without rows raises IndexError at the first `iloc[0]`
   * once the peak table is complete and `a_bottom_constraint` exists, whatever
   * other constraint columns are missing.
   */
  lemma EmptyOptionsIndexError(d: map<string, Frame>)
    requires forall n :: n in d ==> WellFormed(d[n])
    requires TableStore.GAUSS_TABLE in d && TableStore.OPTIONS_TABLE in d
    requires COEFF_A in d[TableStore.GAUSS_TABLE].columns && COEFF_S1 in d[TableStore.GAUSS_TABLE].columns
    requires COEFF_S2 in d[TableStore.GAUSS_TABLE].columns
    requires A_BOTTOM in d[TableStore.OPTIONS_TABLE].columns && Rows(d[TableStore.OPTIONS_TABLE]) == 0
    ensures CoeffsError(d) == Some(TableStore.OutOfRange)
  {
  }

  /** The cells `get_coeffs_and_bounds` reads hold numbers. */
  predicate CoeffCellsNumeric(d: map<string, Frame>)
    requires forall n :: n in d ==> WellFormed(d[n])
    requires CoeffTablesReadable(d)
  {
    var g, o := d[TableStore.GAUSS_TABLE], d[TableStore.OPTIONS_TABLE];
    && AllNum(Column(g, COEFF_A)) && AllNum(Column(g, COEFF_S1)) && AllNum(Column(g, COEFF_S2))
    && CellAt(o, 0, A_BOTTOM).Num? && CellAt(o, 0, A_TOP).Num?
    && CellAt(o, 0, S1_BOTTOM).Num? && CellAt(o, 0, S1_TOP).Num?
    && CellAt(o, 0, S2_BOTTOM).Num? && CellAt(o, 0, S2_TOP).Num?
  }

  /** The (bottom, top) pair of one coefficient kind, from the first options row. */
  function OptionPair(o: Frame, bottom: string, top: string): (real, real)
    requires WellFormed(o) && bottom in o.columns && top in o.columns && Rows(o) > 0
    requires CellAt(o, 0, bottom).Num? && CellAt(o, 0, top).Num?
  {
    (CellAt(o, 0, bottom).value, CellAt(o, 0, top).value)
  }

  /** The parts laid end to end. */
  function Flatten(parts: seq<seq<real>>): (r: seq<real>)
  {
    if parts == [] then [] else Flatten(parts[..|parts| - 1]) + parts[|parts| - 1]
  }

  /** For each part, its pair repeated once per entry of the part, in part order. */
  function Spread(parts: seq<seq<real>>, pairs: seq<(real, real)>): (r: seq<(real, real)>)
    requires |parts| == |pairs|
  {
    if parts == [] then []
    else Spread(parts[..|parts| - 1], pairs[..|pairs| - 1]) + seq(|parts[|parts| - 1]|, _ => pairs[|pairs| - 1])
  }

  lemma {:induction false} SpreadLength(parts: seq<seq<real>>, pairs: seq<(real, real)>)
    requires |parts| == |pairs|
    ensures |Spread(parts, pairs)| == |Flatten(parts)|
  {
    if parts != [] {
      SpreadLength(parts[..|parts| - 1], pairs[..|pairs| - 1]);
    }
  }

  lemma {:induction false} FlattenUniform(parts: seq<seq<real>>, n: nat)
    requires forall t :: 0 <= t < |parts| ==> |parts[t]| == n
    ensures |Flatten(parts)| == |parts| * n
  {
    if parts != [] {
      FlattenUniform(parts[..|parts| - 1], n);
    }
  }

  /** When every part has n > 0 entries, entry j of the spread is the pair of part j / n. */
  lemma {:induction false} SpreadUniform(parts: seq<seq<real>>, pairs: seq<(real, real)>, n: nat)
    requires |parts| == |pairs| && n > 0
    requires forall t :: 0 <= t < |parts| ==> |parts[t]| == n
    ensures |Spread(parts, pairs)| == |parts| * n
    ensures forall j :: 0 <= j < |parts| * n ==> j / n < |parts| && Spread(parts, pairs)[j] == pairs[j / n]
  {
    SpreadLength(parts, pairs);
    FlattenUniform(parts, n);
    if parts != [] {
      var m := |parts| - 1;
      var front, last := parts[..m], pairs[m];
      SpreadUniform(front, pairs[..m], n);
      var head := Spread(front, pairs[..m]);
      var tail := seq(|parts[m]|, _ => last);
      assert Spread(parts, pairs) == head + tail;
      assert |head| == m * n && |tail| == n;
      assert |parts| * n == m * n + n;
      forall j | 0 <= j < |parts| * n ensures j / n < |parts| && (head + tail)[j] == pairs[j / n] {
        SpreadEntry(head, tail, pairs, m, n, j);
      }
    }
  }

  lemma SpreadEntry(head: seq<(real, real)>, tail: seq<(real, real)>, pairs: seq<(real, real)>, m: nat, n: nat, j: nat)
    requires n > 0 && |pairs| == m + 1 && |head| == m * n && |tail| == n && j < m * n + n
    requires forall k :: 0 <= k < m * n ==> k / n < m && head[k] == pairs[..m][k / n]
    requires forall k :: 0 <= k < n ==> tail[k] == pairs[m]
    ensures j / n <= m && (head + tail)[j] == pairs[j / n]
  {
    if j < m * n {
      assert (head + tail)[j] == head[j];
    } else {
      DivInSegment(j, n, m);
      assert (head + tail)[j] == tail[j - m * n];
    }
  }

  lemma DivBelow(j: int, n: int, m: int)
    requires n > 0 && 0 <= j < m * n
    ensures 0 <= j / n < m
  {
    DivInSegment(j, n, j / n);
    if j / n >= m {
      MulMonotone(m, j / n, n);
    }
  }

  lemma MulMonotone(a: int, b: int, n: nat)
    requires a <= b
    ensures a * n <= b * n
  {
  }

  lemma DivInSegment(j: int, n: int, t: int)
    requires n > 0 && t * n <= j < (t + 1) * n
    ensures j / n == t
  {
    var q, m := j / n, j % n;
    assert j == q * n + m && 0 <= m < n;
    if q < t {
      MulMonotone(q + 1, t, n);
    } else if q > t {
      MulMonotone(t + 1, q, n);
    }
  }

  /**
   * `get_coeffs_and_bounds`: the coefficient columns a, s1 and s2 of the peak
   * table, concatenated in that order, and beside every entry the
   * (bottom, top) pair of its kind from the options table.
   */
  method GetCoeffsAndBounds(store: TableStore.TableManager) returns (r: Result<(seq<real>, seq<(real, real)>), TableStore.TableError>)
    requires store.Valid()
    requires CoeffTablesReadable(store.data) ==> CoeffCellsNumeric(store.data)
    ensures r.Err? <==> CoeffsError(store.data).Some?
    ensures r.Err? ==> r.error == CoeffsError(store.data).value
    ensures r.Ok? ==>
      var g, o := store.data[TableStore.GAUSS_TABLE], store.data[TableStore.OPTIONS_TABLE];
      var n := Rows(g);
      var pairs := [OptionPair(o, A_BOTTOM, A_TOP), OptionPair(o, S1_BOTTOM, S1_TOP), OptionPair(o, S2_BOTTOM, S2_TOP)];
      && r.value.0 == Reals(Column(g, COEFF_A)) + Reals(Column(g, COEFF_S1)) + Reals(Column(g, COEFF_S2))
      && |r.value.1| == |r.value.0| == 3 * n
      && forall j :: 0 <= j < 3 * n ==> j / n < 3 && r.value.1[j] == pairs[j / n]
  {
    var e := CoeffsError(store.data);
    if e.Some? {
      return Err(e.value);
    }
    var g, o := store.data[TableStore.GAUSS_TABLE], store.data[TableStore.OPTIONS_TABLE];
    var coeffsDict := [Reals(Column(g, COEFF_A)), Reals(Column(g, COEFF_S1)), Reals(Column(g, COEFF_S2))];
    var boundsDict := [OptionPair(o, A_BOTTOM, A_TOP), OptionPair(o, S1_BOTTOM, S1_TOP), OptionPair(o, S2_BOTTOM, S2_TOP)];
    var currentCoeffs: seq<real> := [];
    var bounds: seq<(real, real)> := [];
    for t := 0 to 3
      invariant currentCoeffs == Flatten(coeffsDict[..t])
      invariant bounds == Spread(coeffsDict[..t], boundsDict[..t])
    {
      var coeffs := coeffsDict[t];
      currentCoeffs := currentCoeffs + coeffs;
      var (bottom, top) := boundsDict[t];
      var before := bounds;
      for i := 0 to |coeffs|
        invariant bounds == before + seq(i, _ => (bottom, top))
      {
        bounds := bounds + [(bottom, top)];
      }
      assert coeffsDict[..t + 1][..t] == coeffsDict[..t] && boundsDict[..t + 1][..t] == boundsDict[..t];
    }
    assert coeffsDict[..3] == coeffsDict && boundsDict[..3] == boundsDict;
    CoeffsLaidOut(g, coeffsDict, boundsDict);
    return Ok((currentCoeffs, bounds));
  }

  /** The three coefficient columns laid out, with their pairs spread beside them. */
  lemma CoeffsLaidOut(g: Frame, coeffsDict: seq<seq<real>>, boundsDict: seq<(real, real)>)
    requires WellFormed(g) && COEFF_A in g.columns && COEFF_S1 in g.columns && COEFF_S2 in g.columns
    requires AllNum(Column(g, COEFF_A)) && AllNum(Column(g, COEFF_S1)) && AllNum(Column(g, COEFF_S2))
    requires coeffsDict == [Reals(Column(g, COEFF_A)), Reals(Column(g, COEFF_S1)), Reals(Column(g, COEFF_S2))]
    requires |boundsDict| == 3
    ensures Flatten(coeffsDict) == coeffsDict[0] + coeffsDict[1] + coeffsDict[2]
    ensures |Spread(coeffsDict, boundsDict)| == |Flatten(coeffsDict)| == 3 * Rows(g)
    ensures forall j :: 0 <= j < 3 * Rows(g) ==> Spread(coeffsDict, boundsDict)[j] == boundsDict[j / Rows(g)]
  {
    assert coeffsDict[..2][..1] == coeffsDict[..1] && coeffsDict[..1][..0] == [];
    assert Flatten(coeffsDict) == Flatten(coeffsDict[..2]) + coeffsDict[2];
    assert Flatten(coeffsDict[..2]) == Flatten(coeffsDict[..1]) + coeffsDict[1];
    assert Flatten(coeffsDict[..1]) == coeffsDict[0];
    SpreadLength(coeffsDict, boundsDict);
    FlattenUniform(coeffsDict, Rows(g));
    if Rows(g) > 0 {
      SpreadUniform(coeffsDict, boundsDict, Rows(g));
    }
  }
}
