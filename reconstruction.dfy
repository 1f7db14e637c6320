/**
 * Writing a fitted peak set back into a data table: for every slot `i` a
 * column `<y>_reaction_<i>` holding that slot's curve, then one column with the
 * running total, as the three `add_reaction_cum(m)ulative_func` variants do.
 * Non-Gaussian slots are drawn as Fraser-Suzuki peaks with coefficient -1.
 */
module Reconstruction {
  import opened Text
  import opened Frames
  import opened PeakMath

  /** `y_column + '_reaction_' + str(i)`. */
  function ReactionColumnName(y: string, i: nat): (name: string)
    ensures |name| == |y| + 10 + |NatToString(i)|
    ensures name[..|y|] == y && name[|y|..|y| + 10] == "_reaction_"
  {
    y + "_reaction_" + NatToString(i)
  }

  /** Distinct slots write distinct columns. */
  lemma ReactionColumnNamesDistinct(y: string, i: nat, j: nat)
    requires ReactionColumnName(y, i) == ReactionColumnName(y, j)
    ensures i == j
  {
    var a, b := ReactionColumnName(y, i), ReactionColumnName(y, j);
    assert a[|y| + 10..] == NatToString(i);
    assert b[|y| + 10..] == NatToString(j);
    NatToStringInjective(i, j);
  }

  /** A cumulative column name never collides with a per-slot column name. */
  lemma TotalNameIsNoReactionName(y: string, suffix: string, i: nat)
    requires |suffix| > 1 && suffix[0] == '_' && suffix[1] != 'r'
    ensures y + suffix != ReactionColumnName(y, i)
  {
    assert (y + suffix)[|y| + 1] == suffix[1];
    assert ReactionColumnName(y, i)[|y|..|y| + 10][1] == 'r';
  }

  /** The coefficient list the write-back evaluates with: -1 for every slot. */
  function MinusOnes(n: nat): (c: seq<real>)
    ensures |c| == n && forall i :: 0 <= i < n ==> c[i] == -1.0
  {
    seq(n, _ => -1.0)
  }

  /** The curve of slot `i`: its Gaussian, or its Fraser-Suzuki peak with coefficient -1. */
  function SlotCurve(k: Kernels, xs: seq<real>, comb: seq<string>, params: seq<real>, i: nat): (curve: seq<real>)
    requires 3 * |comb| <= |params| && i < |comb|
    ensures SlotsCovered(comb, MinusOnes(|comb|), params)
    ensures |curve| == |xs| && forall j :: 0 <= j < |xs| ==> curve[j] == SlotAt(k, comb, MinusOnes(|comb|), params, i, xs[j])
  {
    if comb[i] == GAUSS then Gaussian(k, xs, params[3 * i], params[3 * i + 1], params[3 * i + 2])
    else FraserSuzuki(k, xs, params[3 * i], params[3 * i + 1], params[3 * i + 2], -1.0)
  }

  /** The names of the per-slot columns of slots `0 .. n - 1`, in slot order. */
  function SlotNames(y: string, n: nat): (names: seq<string>)
    ensures |names| == n && forall i :: 0 <= i < n ==> names[i] == ReactionColumnName(y, i)
  {
    seq(n, i requires 0 <= i => ReactionColumnName(y, i))
  }

  /** The curves of slots `0 .. n - 1` as columns, in slot order. */
  function SlotValues(k: Kernels, xs: seq<real>, comb: seq<string>, params: seq<real>, n: nat): (values: seq<seq<Cell>>)
    requires 3 * |comb| <= |params| && n <= |comb|
    ensures |values| == n && forall i :: 0 <= i < n ==> values[i] == Cells(SlotCurve(k, xs, comb, params, i))
    ensures forall i :: 0 <= i < n ==> |values[i]| == |xs|
  {
    seq(n, i requires 0 <= i < n => Cells(SlotCurve(k, xs, comb, params, i)))
  }

  /** The table after the per-slot columns of slots `0 .. n - 1` are written. */
  function SlotsWritten(k: Kernels, f: Frame, xs: seq<real>, comb: seq<string>, params: seq<real>, y: string, n: nat): (g: Frame)
    requires WellFormed(f) && |xs| == Rows(f) && 3 * |comb| <= |params| && n <= |comb|
    ensures WellFormed(g) && g.index == f.index
  {
    SetColumns(f, SlotNames(y, n), SlotValues(k, xs, comb, params, n))
  }

  /** Writing one more slot is one more column assignment. */
  lemma SlotsWrittenStep(k: Kernels, f: Frame, xs: seq<real>, comb: seq<string>, params: seq<real>, y: string, i: nat)
    requires WellFormed(f) && |xs| == Rows(f) && 3 * |comb| <= |params| && i < |comb|
    ensures SlotsWritten(k, f, xs, comb, params, y, i + 1)
      == SetColumn(SlotsWritten(k, f, xs, comb, params, y, i), ReactionColumnName(y, i), Cells(SlotCurve(k, xs, comb, params, i)))
  {
    assert SlotNames(y, i + 1)[..i] == SlotNames(y, i);
    assert SlotValues(k, xs, comb, params, i + 1)[..i] == SlotValues(k, xs, comb, params, i);
  }

  /** The running total after all slots: the initial vector plus `peaks` with coefficients -1. */
  function Total(k: Kernels, xs: seq<real>, comb: seq<string>, params: seq<real>, cum: seq<real>): (t: seq<real>)
    requires 3 * |comb| <= |params| && |cum| == |xs|
    ensures SlotsCovered(comb, MinusOnes(|comb|), params)
    ensures |t| == |xs|
  {
    assert SlotsCovered(comb, MinusOnes(|comb|), params);
    VecAdd(cum, PeaksSpec(k, xs, comb, MinusOnes(|comb|), params))
  }

  /** The table after the whole write-back: the slot columns, then `y + suffix` with the total. */
  function Reconstructed(k: Kernels, f: Frame, xs: seq<real>, comb: seq<string>, params: seq<real>, y: string, suffix: string, cum: seq<real>): (g: Frame)
    requires WellFormed(f) && |xs| == Rows(f) && 3 * |comb| <= |params| && |cum| == |xs|
    ensures WellFormed(g)
  {
    SetColumn(SlotsWritten(k, f, xs, comb, params, y, |comb|), y + suffix, Cells(Total(k, xs, comb, params, cum)))
  }

  /**
   * The loop shared by the write-back methods: adds each slot's curve as a
   * column and to the running total, then stores the total.
   */
  method WriteBack(k: Kernels, f: Frame, xs: seq<real>, comb: seq<string>, params: seq<real>, y: string, suffix: string, cum: seq<real>)
    returns (g: Frame, total: seq<real>)
    requires WellFormed(f) && |xs| == Rows(f) && 3 * |comb| <= |params| && |cum| == |xs|
    ensures g == Reconstructed(k, f, xs, comb, params, y, suffix, cum)
    ensures total == Total(k, xs, comb, params, cum)
  {
    assert SlotsCovered(comb, MinusOnes(|comb|), params);
    g, total := f, cum;
    for i := 0 to |comb|
      invariant g == SlotsWritten(k, f, xs, comb, params, y, i)
      invariant |total| == |xs|
      invariant forall j :: 0 <= j < |xs| ==> total[j] == cum[j] + SumAt(k, comb, MinusOnes(|comb|), params, i, xs[j])
    {
      var a0, a1, a2 := params[3 * i], params[3 * i + 1], params[3 * i + 2];
      var curve;
      if comb[i] == GAUSS {
        curve := Gaussian(k, xs, a0, a1, a2);
      } else {
        curve := FraserSuzuki(k, xs, a0, a1, a2, -1.0);
      }
      assert curve == SlotCurve(k, xs, comb, params, i);
      SlotsWrittenStep(k, f, xs, comb, params, y, i);
      g := SetColumn(g, ReactionColumnName(y, i), Cells(curve));
      total := VecAdd(total, curve);
    }
    TotalIsRunningSum(k, xs, comb, params, cum, total);
    g := SetColumn(g, y + suffix, Cells(total));
  }

  lemma TotalIsRunningSum(k: Kernels, xs: seq<real>, comb: seq<string>, params: seq<real>, cum: seq<real>, total: seq<real>)
    requires 3 * |comb| <= |params| && |cum| == |xs| && |total| == |xs|
    requires SlotsCovered(comb, MinusOnes(|comb|), params)
    requires forall j :: 0 <= j < |xs| ==> total[j] == cum[j] + SumAt(k, comb, MinusOnes(|comb|), params, |comb|, xs[j])
    ensures total == Total(k, xs, comb, params, cum)
  {
  }

  /** After slots `0 .. n - 1` are written, each slot's column holds its curve. */
  lemma SlotsWrittenSlots(k: Kernels, f: Frame, xs: seq<real>, comb: seq<string>, params: seq<real>, y: string, n: nat)
    requires WellFormed(f) && |xs| == Rows(f) && 3 * |comb| <= |params| && n <= |comb|
    ensures forall i :: 0 <= i < n ==>
      ReactionColumnName(y, i) in SlotsWritten(k, f, xs, comb, params, y, n).columns
      && Column(SlotsWritten(k, f, xs, comb, params, y, n), ReactionColumnName(y, i)) == Cells(SlotCurve(k, xs, comb, params, i))
  {
    var names := SlotNames(y, n);
    forall i, j | 0 <= i < j < n ensures names[i] != names[j] {
      if names[i] == names[j] {
        ReactionColumnNamesDistinct(y, i, j);
      }
    }
    forall i | 0 <= i < n
      ensures ReactionColumnName(y, i) in SlotsWritten(k, f, xs, comb, params, y, n).columns
      ensures Column(SlotsWritten(k, f, xs, comb, params, y, n), ReactionColumnName(y, i)) == Cells(SlotCurve(k, xs, comb, params, i))
    {
      SetColumnsWrites(f, names, SlotValues(k, xs, comb, params, n), i);
    }
  }

  /** ... and every other column of the table keeps its cells. */
  lemma SlotsWrittenOthers(k: Kernels, f: Frame, xs: seq<real>, comb: seq<string>, params: seq<real>, y: string, n: nat)
    requires WellFormed(f) && |xs| == Rows(f) && 3 * |comb| <= |params| && n <= |comb|
    ensures forall c :: c in f.columns && c !in SlotNames(y, n) ==>
      c in SlotsWritten(k, f, xs, comb, params, y, n).columns
      && Column(SlotsWritten(k, f, xs, comb, params, y, n), c) == Column(f, c)
  {
    forall c | c in f.columns && c !in SlotNames(y, n)
      ensures c in SlotsWritten(k, f, xs, comb, params, y, n).columns
      ensures Column(SlotsWritten(k, f, xs, comb, params, y, n), c) == Column(f, c)
    {
      SetColumnsOthers(f, SlotNames(y, n), SlotValues(k, xs, comb, params, n), c);
    }
  }

  /** The number in a cell, 0 for a cell that holds none. */
  function CellNumber(c: Cell): real
  {
    if c.Num? then c.value else 0.0
  }

  /** The sum, at row `j`, of the per-slot columns `0 .. n - 1`. */
  function SlotColumnsSum(g: Frame, y: string, n: nat, j: nat): real
    requires WellFormed(g) && j < Rows(g)
    requires forall i :: 0 <= i < n ==> ReactionColumnName(y, i) in g.columns
  {
    if n == 0 then 0.0 else SlotColumnsSum(g, y, n - 1, j) + CellNumber(Column(g, ReactionColumnName(y, n - 1))[j])
  }

  /** Every per-slot column of `g` holds its slot's curve. */
  predicate HoldsSlotCurves(k: Kernels, g: Frame, xs: seq<real>, comb: seq<string>, params: seq<real>, y: string)
    requires WellFormed(g) && 3 * |comb| <= |params|
  {
    forall i :: 0 <= i < |comb| ==>
      ReactionColumnName(y, i) in g.columns && Column(g, ReactionColumnName(y, i)) == Cells(SlotCurve(k, xs, comb, params, i))
  }

  lemma {:induction false} SlotColumnsSumIsPeaks(k: Kernels, g: Frame, xs: seq<real>, comb: seq<string>, params: seq<real>, y: string, n: nat, j: nat)
    requires WellFormed(g) && 3 * |comb| <= |params| && n <= |comb| && j < |xs| && j < Rows(g)
    requires HoldsSlotCurves(k, g, xs, comb, params, y)
    ensures SlotsCovered(comb, MinusOnes(|comb|), params)
    ensures SlotColumnsSum(g, y, n, j) == SumAt(k, comb, MinusOnes(|comb|), params, n, xs[j])
  {
    assert SlotsCovered(comb, MinusOnes(|comb|), params);
    if n > 0 {
      SlotColumnsSumIsPeaks(k, g, xs, comb, params, y, n - 1, j);
      assert Column(g, ReactionColumnName(y, n - 1)) == Cells(SlotCurve(k, xs, comb, params, n - 1));
    }
  }

  /** After the write-back, column `y_reaction_i` holds slot `i`'s curve. */
  lemma ReconstructedSlots(k: Kernels, f: Frame, xs: seq<real>, comb: seq<string>, params: seq<real>, y: string, suffix: string, cum: seq<real>)
    requires WellFormed(f) && |xs| == Rows(f) && 3 * |comb| <= |params| && |cum| == |xs|
    requires |suffix| > 1 && suffix[0] == '_' && suffix[1] != 'r'
    ensures HoldsSlotCurves(k, Reconstructed(k, f, xs, comb, params, y, suffix, cum), xs, comb, params, y)
  {
    SlotsWrittenSlots(k, f, xs, comb, params, y, |comb|);
    forall i | 0 <= i < |comb| ensures y + suffix != ReactionColumnName(y, i) {
      TotalNameIsNoReactionName(y, suffix, i);
    }
  }

  /**
   * After the write-back, column `y + suffix` holds the initial vector plus the
   * sum of all per-slot columns, which is `peaks` evaluated with coefficients -1.
   */
  lemma ReconstructedTotal(k: Kernels, f: Frame, xs: seq<real>, comb: seq<string>, params: seq<real>, y: string, suffix: string, cum: seq<real>)
    requires WellFormed(f) && |xs| == Rows(f) && 3 * |comb| <= |params| && |cum| == |xs|
    requires |suffix| > 1 && suffix[0] == '_' && suffix[1] != 'r'
    ensures var g := Reconstructed(k, f, xs, comb, params, y, suffix, cum);
      && y + suffix in g.columns
      && Column(g, y + suffix) == Cells(Total(k, xs, comb, params, cum))
      && HoldsSlotCurves(k, g, xs, comb, params, y)
      && forall j :: 0 <= j < |xs| ==> Column(g, y + suffix)[j] == Num(cum[j] + SlotColumnsSum(g, y, |comb|, j))
  {
    var g := Reconstructed(k, f, xs, comb, params, y, suffix, cum);
    assert Column(g, y + suffix) == Cells(Total(k, xs, comb, params, cum));
    ReconstructedSlots(k, f, xs, comb, params, y, suffix, cum);
    TotalColumnIsSum(k, g, xs, comb, params, y, Column(g, y + suffix), cum);
  }

  /** A column holding the running total holds, at every row, the initial value plus the sum of the slot columns. */
  lemma TotalColumnIsSum(k: Kernels, g: Frame, xs: seq<real>, comb: seq<string>, params: seq<real>, y: string, col: seq<Cell>, cum: seq<real>)
    requires WellFormed(g) && 3 * |comb| <= |params| && |cum| == |xs| && |xs| == Rows(g)
    requires HoldsSlotCurves(k, g, xs, comb, params, y)
    requires col == Cells(Total(k, xs, comb, params, cum))
    ensures forall j :: 0 <= j < |xs| ==> col[j] == Num(cum[j] + SlotColumnsSum(g, y, |comb|, j))
  {
    var total := Total(k, xs, comb, params, cum);
    var peaks := PeaksSpec(k, xs, comb, MinusOnes(|comb|), params);
    forall j | 0 <= j < |xs| ensures col[j] == Num(cum[j] + SlotColumnsSum(g, y, |comb|, j)) {
      SlotColumnsSumIsPeaks(k, g, xs, comb, params, y, |comb|, j);
      assert total[j] == cum[j] + peaks[j];
      assert peaks[j] == SumAt(k, comb, MinusOnes(|comb|), params, |comb|, xs[j]);
    }
  }

  /** The write-back changes no column other than the ones it names. */
  lemma ReconstructedOthers(k: Kernels, f: Frame, xs: seq<real>, comb: seq<string>, params: seq<real>, y: string, suffix: string, cum: seq<real>)
    requires WellFormed(f) && |xs| == Rows(f) && 3 * |comb| <= |params| && |cum| == |xs|
    ensures var g := Reconstructed(k, f, xs, comb, params, y, suffix, cum);
      && g.index == f.index
      && forall c :: c in f.columns && c != y + suffix && c !in SlotNames(y, |comb|) ==>
           c in g.columns && Column(g, c) == Column(f, c)
  {
    SlotsWrittenOthers(k, f, xs, comb, params, y, |comb|);
  }
}
