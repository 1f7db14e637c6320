/**
 * The data side of the peak-type and constraint dialog
 * (`src/sub_handlers/calculation_dialog_handler.py`): which constraints each
 * peak type carries, the initial values of the constraint fields, the
 * selected types and their cartesian product, and the flat bound lists the
 * fit is given. Widgets are replaced by the values they hold: a check box by
 * its checked flag, an input field by the number its text parses to.
 */
module CalculationDialog {
  import opened Wrappers
  import opened Frames
  import opened PeakMath
  import Text
  import Combinatorics
  import DataHandling

  /** `get_constraints`: the (bottom, top) constraint names of a peak type. */
  function GetConstraints(peakType: string): (pairs: seq<(string, string)>)
    ensures |pairs| == Weight(peakType)
  {
    if peakType == FRASER then [(DataHandling.A_BOTTOM, DataHandling.A_TOP)]
    else if peakType == ADS then [(DataHandling.S1_BOTTOM, DataHandling.S1_TOP), (DataHandling.S2_BOTTOM, DataHandling.S2_TOP)]
    else []
  }

  /** How many bound pairs a type contributes: one for fraser, two for ads, none otherwise. */
  function Weight(peakType: string): nat
  {
    if peakType == FRASER then 1 else if peakType == ADS then 2 else 0
  }

  /** The `bounds_keys` table of `extract_bounds_selected_combinations`. */
  const BOUNDS_KEYS: map<string, seq<(string, string)>> :=
    map[FRASER := [(DataHandling.A_BOTTOM, DataHandling.A_TOP)],
        ADS := [(DataHandling.S1_BOTTOM, DataHandling.S1_TOP), (DataHandling.S2_BOTTOM, DataHandling.S2_TOP)]]

  /** The two tables agree: `bounds_keys` lists exactly the types with constraints, with the same pairs. */
  lemma BoundsKeysAgree(peakType: string)
    ensures peakType in BOUNDS_KEYS ==> BOUNDS_KEYS[peakType] == GetConstraints(peakType)
    ensures peakType !in BOUNDS_KEYS <==> GetConstraints(peakType) == []
  {
    assert FRASER != ADS by { assert FRASER[0] != ADS[0]; }
  }

  /** The `constraint_to_column` table: each constraint reads its base from a coefficient column. */
  const CONSTRAINT_TO_COLUMN: map<string, string> :=
    map[DataHandling.A_BOTTOM := DataHandling.COEFF_A, DataHandling.A_TOP := DataHandling.COEFF_A,
        DataHandling.S1_BOTTOM := DataHandling.COEFF_S1, DataHandling.S1_TOP := DataHandling.COEFF_S1,
        DataHandling.S2_BOTTOM := DataHandling.COEFF_S2, DataHandling.S2_TOP := DataHandling.COEFF_S2]

  /** Every constraint a type carries has a column, and the two ends of a pair share it. */
  lemma ConstraintColumns(peakType: string, k: nat)
    requires k < |GetConstraints(peakType)|
    ensures var (bottom, top) := GetConstraints(peakType)[k];
      && bottom in CONSTRAINT_TO_COLUMN && top in CONSTRAINT_TO_COLUMN
      && CONSTRAINT_TO_COLUMN[bottom] == CONSTRAINT_TO_COLUMN[top]
  {
  }

  /** The fixed values the calibration button writes, by constraint name. */
  const CALIBRATION_VALUES: map<string, real> :=
    map[DataHandling.A_BOTTOM := -2.0, DataHandling.A_TOP := 2.0,
        DataHandling.S1_BOTTOM := 0.1, DataHandling.S2_BOTTOM := 0.1,
        DataHandling.S1_TOP := 35.0, DataHandling.S2_TOP := 35.0]

  /** What an input field is initialised with: a number, or the empty text. */
  datatype Shown = Value(v: real) | Blank

  /** `DataFrame.empty`: no rows or no columns. */
  predicate RowEmpty(row: Frame)
  {
    Rows(row) == 0 || |row.columns| == 0
  }

  /**
   * The base value can be read: the row is empty, or the constraint's column
   * is present and `float` reads its first cell as a number (a NaN, from a
   * missing cell or the text "nan", is not one).
   */
  predicate BaseReadable(constraint: string, row: Frame, constraintToColumn: Option<map<string, string>>)
    requires WellFormed(row)
  {
    || RowEmpty(row)
    || (&& constraintToColumn.Some? && constraint in constraintToColumn.value
        && constraintToColumn.value[constraint] in row.columns
        && FloatCell(CellAt(row, 0, constraintToColumn.value[constraint])).Some?
        && FloatCell(CellAt(row, 0, constraintToColumn.value[constraint])).value.Num?)
  }

  /** The base value: 0 for an empty row, otherwise the first-row value of the constraint's column. */
  function BaseValue(constraint: string, row: Frame, constraintToColumn: Option<map<string, string>>): real
    requires WellFormed(row) && BaseReadable(constraint, row, constraintToColumn)
  {
    if RowEmpty(row) then 0.0 else FloatCell(CellAt(row, 0, constraintToColumn.value[constraint])).value.value
  }

  /** A "bottom" constraint starts 20% below its base, any other 20% above. */
  function Scaled(constraint: string, base: real): real
  {
    if Text.HasInfix(constraint, "bottom") then base * 0.8 else base * 1.2
  }

  /**
   * `get_initial_values`: with a row and a column table, the scaled base
   * (whatever the calibration flag); in calibration without them, the fixed
   * calibration value, or the empty text for a name it does not list.
   */
  function GetInitialValues(constraint: string, reactionRow: Option<Frame>, constraintToColumn: Option<map<string, string>>,
                            calibration: bool): (r: Shown)
    requires reactionRow.Some? ==> WellFormed(reactionRow.value)
    requires calibration && reactionRow.Some? && constraintToColumn.Some? ==> BaseReadable(constraint, reactionRow.value, constraintToColumn)
    requires !calibration ==> reactionRow.Some? && BaseReadable(constraint, reactionRow.value, constraintToColumn)
    ensures r.Blank? <==> calibration && (reactionRow.None? || constraintToColumn.None?) && constraint !in CALIBRATION_VALUES
  {
    if calibration && reactionRow.Some? && constraintToColumn.Some? then
      Value(Scaled(constraint, BaseValue(constraint, reactionRow.value, constraintToColumn)))
    else if calibration then
      if constraint in CALIBRATION_VALUES then Value(CALIBRATION_VALUES[constraint]) else Blank
    else
      Value(Scaled(constraint, BaseValue(constraint, reactionRow.value, constraintToColumn)))
  }

  /** With a row and a column table the calibration flag changes nothing. */
  lemma CalibrationWithRowAgrees(constraint: string, row: Frame, constraintToColumn: map<string, string>)
    requires WellFormed(row) && BaseReadable(constraint, row, Some(constraintToColumn))
    ensures GetInitialValues(constraint, Some(row), Some(constraintToColumn), true)
         == GetInitialValues(constraint, Some(row), Some(constraintToColumn), false)
  {
  }

  /** An empty row starts every field at 0, outside calibration. */
  lemma EmptyRowStartsAtZero(constraint: string, row: Frame, constraintToColumn: Option<map<string, string>>)
    requires WellFormed(row) && RowEmpty(row)
    ensures GetInitialValues(constraint, Some(row), constraintToColumn, false) == Value(0.0)
  {
  }

  /** Each lower constraint's name contains "bottom", so its field starts 20% below the base. */
  lemma BottomNames()
    ensures Text.HasInfix(DataHandling.A_BOTTOM, "bottom")
    ensures Text.HasInfix(DataHandling.S1_BOTTOM, "bottom") && Text.HasInfix(DataHandling.S2_BOTTOM, "bottom")
  {
    assert Text.OccursAt(DataHandling.A_BOTTOM, "bottom", 2);
    assert Text.OccursAt(DataHandling.S1_BOTTOM, "bottom", 3);
    assert Text.OccursAt(DataHandling.S2_BOTTOM, "bottom", 3);
  }

  /** No upper constraint's name contains "bottom", so its field starts 20% above the base. */
  lemma TopNames()
    ensures !Text.HasInfix(DataHandling.A_TOP, "bottom")
    ensures !Text.HasInfix(DataHandling.S1_TOP, "bottom") && !Text.HasInfix(DataHandling.S2_TOP, "bottom")
  {
    NoB(DataHandling.A_TOP);
    NoB(DataHandling.S1_TOP);
    NoB(DataHandling.S2_TOP);
  }

  /** A string without the letter b does not contain "bottom". */
  lemma NoB(s: string)
    requires 'b' !in s
    ensures !Text.HasInfix(s, "bottom")
  {
    forall i | 0 <= i && i + |"bottom"| <= |s| ensures !Text.OccursAt(s, "bottom", i) {
      assert s[i..i + |"bottom"|][0] == s[i];
    }
  }

  /**
   * Outside calibration, the two fields of any constraint pair start in
   * order (bottom at most top) exactly when the base of their shared column
   * is not negative.
   */
  lemma InitialPairOrdered(peakType: string, k: nat, row: Frame)
    requires k < |GetConstraints(peakType)| && WellFormed(row)
    requires BaseReadable(GetConstraints(peakType)[k].0, row, Some(CONSTRAINT_TO_COLUMN))
    ensures var (bottom, top) := GetConstraints(peakType)[k];
      && BaseReadable(top, row, Some(CONSTRAINT_TO_COLUMN))
      && var base := BaseValue(bottom, row, Some(CONSTRAINT_TO_COLUMN));
         && GetInitialValues(bottom, Some(row), Some(CONSTRAINT_TO_COLUMN), false) == Value(base * 0.8)
         && GetInitialValues(top, Some(row), Some(CONSTRAINT_TO_COLUMN), false) == Value(base * 1.2)
         && (base * 0.8 <= base * 1.2 <==> base >= 0.0)
  {
    var (bottom, top) := GetConstraints(peakType)[k];
    ConstraintColumns(peakType, k);
    assert Text.HasInfix(bottom, "bottom") && !Text.HasInfix(top, "bottom") by {
      BottomNames();
      TopNames();
    }
    PairOrdered(bottom, top, row, CONSTRAINT_TO_COLUMN);
  }

  /** The same for any bottom/top pair of names that read the same column. */
  lemma PairOrdered(bottom: string, top: string, row: Frame, constraintToColumn: map<string, string>)
    requires WellFormed(row) && Text.HasInfix(bottom, "bottom") && !Text.HasInfix(top, "bottom")
    requires bottom in constraintToColumn && top in constraintToColumn && constraintToColumn[bottom] == constraintToColumn[top]
    requires BaseReadable(bottom, row, Some(constraintToColumn))
    ensures BaseReadable(top, row, Some(constraintToColumn))
    ensures var base := BaseValue(bottom, row, Some(constraintToColumn));
      && BaseValue(top, row, Some(constraintToColumn)) == base
      && GetInitialValues(bottom, Some(row), Some(constraintToColumn), false) == Value(base * 0.8)
      && GetInitialValues(top, Some(row), Some(constraintToColumn), false) == Value(base * 1.2)
      && (base * 0.8 <= base * 1.2 <==> base >= 0.0)
  {
  }

  /** In calibration without a row, every constraint pair starts strictly in order. */
  lemma CalibrationPairOrdered(peakType: string, k: nat)
    requires k < |GetConstraints(peakType)|
    ensures var (bottom, top) := GetConstraints(peakType)[k];
      && GetInitialValues(bottom, None, None, true).Value?
      && GetInitialValues(top, None, None, true).Value?
      && GetInitialValues(bottom, None, None, true).v < GetInitialValues(top, None, None, true).v
  {
  }

  /** The three check boxes of one reaction (`create_checkboxes` makes them all checked). */
  datatype Checkboxes = Checkboxes(gauss: bool, fraser: bool, ads: bool)

  const INITIAL_CHECKBOXES := Checkboxes(true, true, true)

  /** A peak type's place in the check-box order gauss, fraser, ads. */
  function Rank(peakType: string): nat
  {
    if peakType == GAUSS then 0 else if peakType == FRASER then 1 else 2
  }

  /** The checked types of one reaction, in check-box order. */
  function SelectedTypes(boxes: Checkboxes): (types: seq<string>)
    ensures forall t :: t in types <==> (t == GAUSS && boxes.gauss) || (t == FRASER && boxes.fraser) || (t == ADS && boxes.ads)
    ensures forall i, j :: 0 <= i < j < |types| ==> Rank(types[i]) < Rank(types[j])
  {
    assert GAUSS[0] == 'g' && FRASER[0] == 'f' && ADS[0] == 'a';
    (if boxes.gauss then [GAUSS] else []) + (if boxes.fraser then [FRASER] else []) + (if boxes.ads then [ADS] else [])
  }

  /** No type is selected twice. */
  lemma SelectedTypesDistinct(boxes: Checkboxes)
    ensures Combinatorics.Distinct(SelectedTypes(boxes))
  {
    var types := SelectedTypes(boxes);
    forall i, j | 0 <= i < j < |types| ensures types[i] != types[j] {
      assert Rank(types[i]) < Rank(types[j]);
    }
  }

  /** The selected lists in reaction order (`selected_peak_types`). */
  function SelectedLists(reactions: seq<string>, checkboxes: map<string, Checkboxes>): (lists: seq<seq<string>>)
    requires forall i :: 0 <= i < |reactions| ==> reactions[i] in checkboxes
    ensures |lists| == |reactions|
    ensures forall i :: 0 <= i < |reactions| ==> lists[i] == SelectedTypes(checkboxes[reactions[i]])
  {
    seq(|reactions|, i requires 0 <= i < |reactions| => SelectedTypes(checkboxes[reactions[i]]))
  }

  /** `extract_input_values`, data part: the selected types per reaction and their cartesian product. */
  function ExtractInputValues(reactions: seq<string>, checkboxes: map<string, Checkboxes>)
    : (r: (map<string, seq<string>>, seq<seq<string>>))
    requires forall i :: 0 <= i < |reactions| ==> reactions[i] in checkboxes
    ensures forall x :: x in r.0 <==> x in reactions
  {
    var selected := map x | x in reactions :: SelectedTypes(checkboxes[x]);
    (selected, Combinatorics.Product(SelectedLists(reactions, checkboxes)))
  }

  /**
   * The combinations are exactly the tuples that pick, for each reaction in
   * order, one of its checked types; there are as many as the product of the
   * list sizes, and no two are equal.
   */
  lemma ExtractedCombinations(reactions: seq<string>, checkboxes: map<string, Checkboxes>)
    requires forall i :: 0 <= i < |reactions| ==> reactions[i] in checkboxes
    ensures var (selected, combinations) := ExtractInputValues(reactions, checkboxes);
      && |combinations| == Combinatorics.ProductSize(SelectedLists(reactions, checkboxes))
      && Combinatorics.Distinct(combinations)
      && forall e :: e in combinations <==>
           |e| == |reactions| && forall i :: 0 <= i < |reactions| ==> e[i] in selected[reactions[i]]
  {
    var (selected, combinations) := ExtractInputValues(reactions, checkboxes);
    var lists := SelectedLists(reactions, checkboxes);
    forall e ensures e in combinations <==> Combinatorics.Picks(e, lists) {
      Combinatorics.ProductMember(lists, e);
    }
    forall i | 0 <= i < |lists| ensures Combinatorics.Distinct(lists[i]) {
      SelectedTypesDistinct(checkboxes[reactions[i]]);
    }
    Combinatorics.ProductDistinct(lists);
  }

  /** Both names of every pair are fields of `bounds`. */
  predicate KeysPresent(bounds: map<string, real>, keys: seq<(string, string)>)
  {
    forall k :: 0 <= k < |keys| ==> keys[k].0 in bounds && keys[k].1 in bounds
  }

  /** The bounds of a type with constraints were entered for this reaction. */
  predicate FuncCovered(reaction: string, func: string, coeffsBounds: map<string, map<string, map<string, real>>>)
  {
    func in BOUNDS_KEYS ==>
      reaction in coeffsBounds && func in coeffsBounds[reaction] && KeysPresent(coeffsBounds[reaction][func], BOUNDS_KEYS[func])
  }

  predicate FuncsCovered(reaction: string, funcs: seq<string>, coeffsBounds: map<string, map<string, map<string, real>>>)
  {
    forall j :: 0 <= j < |funcs| ==> FuncCovered(reaction, funcs[j], coeffsBounds)
  }

  predicate Covered(selected: seq<(string, seq<string>)>, coeffsBounds: map<string, map<string, map<string, real>>>)
  {
    forall i :: 0 <= i < |selected| ==> FuncsCovered(selected[i].0, selected[i].1, coeffsBounds)
  }

  /** The (bottom, top) values of each pair, in order. */
  function PairValues(bounds: map<string, real>, keys: seq<(string, string)>): (r: seq<(real, real)>)
    requires KeysPresent(bounds, keys)
    ensures |r| == |keys|
  {
    seq(|keys|, k requires 0 <= k < |keys| && KeysPresent(bounds, keys) => (bounds[keys[k].0], bounds[keys[k].1]))
  }

  /** The pairs one selected type contributes. */
  function FuncBounds(reaction: string, func: string, coeffsBounds: map<string, map<string, map<string, real>>>): seq<(real, real)>
    requires FuncCovered(reaction, func, coeffsBounds)
  {
    if func in BOUNDS_KEYS then PairValues(coeffsBounds[reaction][func], BOUNDS_KEYS[func]) else []
  }

  /** The pairs of one reaction's selected types, type by type. */
  function FuncsBounds(reaction: string, funcs: seq<string>, coeffsBounds: map<string, map<string, map<string, real>>>)
    : seq<(real, real)>
    requires FuncsCovered(reaction, funcs, coeffsBounds)
  {
    if funcs == [] then []
    else FuncsBounds(reaction, funcs[..|funcs| - 1], coeffsBounds) + FuncBounds(reaction, funcs[|funcs| - 1], coeffsBounds)
  }

  /** The pairs of every reaction, reaction by reaction. */
  function SelectedBounds(selected: seq<(string, seq<string>)>, coeffsBounds: map<string, map<string, map<string, real>>>)
    : seq<(real, real)>
    requires Covered(selected, coeffsBounds)
  {
    if selected == [] then []
    else
      var last := selected[|selected| - 1];
      SelectedBounds(selected[..|selected| - 1], coeffsBounds) + FuncsBounds(last.0, last.1, coeffsBounds)
  }

  /**
   * `extract_bounds_selected_combinations`: for each reaction in order, for
   * each of its selected types in order, the (bottom, top) values of the
   * type's constraint pairs.
   */
  method ExtractBoundsSelectedCombinations(selected: seq<(string, seq<string>)>,
                                           coeffsBounds: map<string, map<string, map<string, real>>>)
    returns (result: seq<(real, real)>)
    requires Covered(selected, coeffsBounds)
    ensures result == SelectedBounds(selected, coeffsBounds)
  {
    result := [];
    for i := 0 to |selected|
      invariant result == SelectedBounds(selected[..i], coeffsBounds)
    {
      var (reaction, functions) := selected[i];
      assert FuncsCovered(reaction, functions, coeffsBounds);
      result := AppendFuncs(result, reaction, functions, coeffsBounds);
      SelectedBoundsStep(selected, i, coeffsBounds);
    }
    assert selected[..|selected|] == selected;
  }

  /** The loop over one reaction's selected types: each type appends the values of its constraint pairs. */
  method AppendFuncs(result: seq<(real, real)>, reaction: string, functions: seq<string>,
                     coeffsBounds: map<string, map<string, map<string, real>>>)
    returns (extended: seq<(real, real)>)
    requires FuncsCovered(reaction, functions, coeffsBounds)
    ensures extended == result + FuncsBounds(reaction, functions, coeffsBounds)
  {
    extended := result;
    for j := 0 to |functions|
      invariant FuncsCovered(reaction, functions[..j], coeffsBounds)
      invariant extended == result + FuncsBounds(reaction, functions[..j], coeffsBounds)
    {
      var func := functions[j];
      assert FuncCovered(reaction, func, coeffsBounds);
      var mid := extended;
      if func in BOUNDS_KEYS {
        extended := AppendPairs(extended, coeffsBounds[reaction][func], BOUNDS_KEYS[func]);
      }
      assert extended == mid + FuncBounds(reaction, func, coeffsBounds);
      FuncsBoundsStep(reaction, functions, j, coeffsBounds);
    }
    assert functions[..|functions|] == functions;
  }

  /** The innermost loop: each (bottom, top) name pair of `keys` appends its two values to `result`. */
  method AppendPairs(result: seq<(real, real)>, bounds: map<string, real>, keys: seq<(string, string)>)
    returns (extended: seq<(real, real)>)
    requires KeysPresent(bounds, keys)
    ensures extended == result + PairValues(bounds, keys)
  {
    extended := result;
    for k := 0 to |keys|
      invariant extended == result + PairValues(bounds, keys[..k])
    {
      var (bottomKey, topKey) := keys[k];
      PairValuesStep(bounds, keys, k);
      extended := extended + [(bounds[bottomKey], bounds[topKey])];
    }
    assert keys[..|keys|] == keys;
  }

  lemma PairValuesStep(bounds: map<string, real>, keys: seq<(string, string)>, k: nat)
    requires KeysPresent(bounds, keys) && k < |keys|
    ensures KeysPresent(bounds, keys[..k]) && KeysPresent(bounds, keys[..k + 1])
    ensures PairValues(bounds, keys[..k + 1]) == PairValues(bounds, keys[..k]) + [(bounds[keys[k].0], bounds[keys[k].1])]
  {
  }

  lemma FuncsBoundsStep(reaction: string, funcs: seq<string>, j: nat, coeffsBounds: map<string, map<string, map<string, real>>>)
    requires FuncsCovered(reaction, funcs, coeffsBounds) && j < |funcs|
    ensures FuncsCovered(reaction, funcs[..j], coeffsBounds) && FuncsCovered(reaction, funcs[..j + 1], coeffsBounds)
    ensures FuncsBounds(reaction, funcs[..j + 1], coeffsBounds)
         == FuncsBounds(reaction, funcs[..j], coeffsBounds) + FuncBounds(reaction, funcs[j], coeffsBounds)
  {
    assert funcs[..j + 1][..j] == funcs[..j];
  }

  lemma SelectedBoundsStep(selected: seq<(string, seq<string>)>, i: nat, coeffsBounds: map<string, map<string, map<string, real>>>)
    requires Covered(selected, coeffsBounds) && i < |selected|
    ensures Covered(selected[..i], coeffsBounds) && Covered(selected[..i + 1], coeffsBounds)
    ensures SelectedBounds(selected[..i + 1], coeffsBounds)
         == SelectedBounds(selected[..i], coeffsBounds) + FuncsBounds(selected[i].0, selected[i].1, coeffsBounds)
  {
    assert selected[..i + 1][..i] == selected[..i];
  }

  /** The number of pairs of one reaction's types. */
  function FuncsWeight(funcs: seq<string>): nat
  {
    if funcs == [] then 0 else FuncsWeight(funcs[..|funcs| - 1]) + Weight(funcs[|funcs| - 1])
  }

  /** The number of pairs over all reactions. */
  function SelectedWeight(selected: seq<(string, seq<string>)>): nat
  {
    if selected == [] then 0 else SelectedWeight(selected[..|selected| - 1]) + FuncsWeight(selected[|selected| - 1].1)
  }

  lemma {:induction false} FuncsBoundsLength(reaction: string, funcs: seq<string>, coeffsBounds: map<string, map<string, map<string, real>>>)
    requires FuncsCovered(reaction, funcs, coeffsBounds)
    ensures |FuncsBounds(reaction, funcs, coeffsBounds)| == FuncsWeight(funcs)
  {
    if funcs != [] {
      FuncsBoundsLength(reaction, funcs[..|funcs| - 1], coeffsBounds);
      BoundsKeysAgree(funcs[|funcs| - 1]);
    }
  }

  /** One pair per selected fraser, two per selected ads, none per gauss. */
  lemma {:induction false} SelectedBoundsLength(selected: seq<(string, seq<string>)>, coeffsBounds: map<string, map<string, map<string, real>>>)
    requires Covered(selected, coeffsBounds)
    ensures |SelectedBounds(selected, coeffsBounds)| == SelectedWeight(selected)
  {
    if selected != [] {
      var last := selected[|selected| - 1];
      SelectedBoundsLength(selected[..|selected| - 1], coeffsBounds);
      FuncsBoundsLength(last.0, last.1, coeffsBounds);
    }
  }

  /** The (lower, upper) pairs of one reaction's parameters, in order. */
  function ParamPairs(params: seq<(string, (real, real))>): (r: seq<(real, real)>)
    ensures |r| == |params|
  {
    seq(|params|, k requires 0 <= k < |params| => params[k].1)
  }

  /** The pairs of every reaction, reaction by reaction. */
  function FlatPairs(boundsDict: seq<(string, seq<(string, (real, real))>)>): seq<(real, real)>
  {
    if boundsDict == [] then [] else FlatPairs(boundsDict[..|boundsDict| - 1]) + ParamPairs(boundsDict[|boundsDict| - 1].1)
  }

  /**
   * `extract_peaks_bounds`: the lower ends and the upper ends of every
   * parameter pair, reaction by reaction and parameter by parameter.
   */
  method ExtractPeaksBounds(boundsDict: seq<(string, seq<(string, (real, real))>)>)
    returns (lowerBounds: seq<real>, upperBounds: seq<real>)
    ensures |lowerBounds| == |upperBounds| == |FlatPairs(boundsDict)|
    ensures forall k :: 0 <= k < |lowerBounds| ==> (lowerBounds[k], upperBounds[k]) == FlatPairs(boundsDict)[k]
  {
    lowerBounds, upperBounds := [], [];
    for i := 0 to |boundsDict|
      invariant |lowerBounds| == |upperBounds| == |FlatPairs(boundsDict[..i])|
      invariant forall k :: 0 <= k < |lowerBounds| ==> (lowerBounds[k], upperBounds[k]) == FlatPairs(boundsDict[..i])[k]
    {
      var params := boundsDict[i].1;
      var done := |lowerBounds|;
      for p := 0 to |params|
        invariant |lowerBounds| == |upperBounds| == done + p
        invariant forall k :: 0 <= k < done ==> (lowerBounds[k], upperBounds[k]) == FlatPairs(boundsDict[..i])[k]
        invariant forall k :: 0 <= k < p ==> (lowerBounds[done + k], upperBounds[done + k]) == params[k].1
      {
        var (lower, upper) := params[p].1;
        lowerBounds := lowerBounds + [lower];
        upperBounds := upperBounds + [upper];
      }
      assert boundsDict[..i + 1][..i] == boundsDict[..i];
      assert FlatPairs(boundsDict[..i + 1]) == FlatPairs(boundsDict[..i]) + ParamPairs(params);
    }
    assert boundsDict[..|boundsDict|] == boundsDict;
  }

  /**
   * When every reaction has n parameters, the pairs of reaction i fill
   * positions i * n up to (i + 1) * n of the flat lists, in parameter order.
   */
  lemma {:induction false} FlatPairsUniform(boundsDict: seq<(string, seq<(string, (real, real))>)>, n: nat)
    requires forall i :: 0 <= i < |boundsDict| ==> |boundsDict[i].1| == n
    ensures |FlatPairs(boundsDict)| == |boundsDict| * n
    ensures forall i :: 0 <= i < |boundsDict| ==>
      (i + 1) * n <= |boundsDict| * n && FlatPairs(boundsDict)[i * n..(i + 1) * n] == ParamPairs(boundsDict[i].1)
  {
    if boundsDict != [] {
      var m := |boundsDict| - 1;
      FlatPairsUniform(boundsDict[..m], n);
      var head, tail := FlatPairs(boundsDict[..m]), ParamPairs(boundsDict[m].1);
      assert FlatPairs(boundsDict) == head + tail;
      BlockLimits(m, |boundsDict|, n);
      forall i | 0 <= i < |boundsDict|
        ensures (i + 1) * n <= |boundsDict| * n && (head + tail)[i * n..(i + 1) * n] == ParamPairs(boundsDict[i].1)
      {
        BlockLimits(i, |boundsDict|, n);
        if i < m {
          assert head[i * n..(i + 1) * n] == ParamPairs(boundsDict[..m][i].1);
          ConcatSlicePrefix(head, tail, i * n, (i + 1) * n);
          assert boundsDict[..m][i] == boundsDict[i];
        } else {
          ConcatSliceSuffix(head, tail);
        }
      }
    }
  }

  /** Where block i of `count` blocks of n begins and ends. */
  lemma BlockLimits(i: nat, count: nat, n: nat)
    requires i < count
    ensures (i + 1) * n == i * n + n && count * n == (count - 1) * n + n
    ensures i + 1 < count ==> (i + 1) * n <= (count - 1) * n
    ensures i + 1 == count ==> i * n == (count - 1) * n
    ensures (i + 1) * n <= count * n
  {
    DataHandling.MulMonotone(i + 1, count, n);
    if i + 1 < count {
      DataHandling.MulMonotone(i + 1, count - 1, n);
    }
  }

  lemma ConcatSlicePrefix<T>(head: seq<T>, tail: seq<T>, lo: nat, hi: nat)
    requires lo <= hi <= |head|
    ensures (head + tail)[lo..hi] == head[lo..hi]
  {
  }

  lemma ConcatSliceSuffix<T>(head: seq<T>, tail: seq<T>)
    ensures (head + tail)[|head|..|head| + |tail|] == tail
  {
  }
}
