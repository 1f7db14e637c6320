/**
 * The part of a pandas DataFrame the application uses: ordered column labels,
 * ordered integer row labels and one list of cells per column, with the
 * operations it applies (column assignment, `drop`, `concat`, `.at` and `.iat`).
 */
module Frames {
  import opened Wrappers
  import opened Text
  import Combinatorics

  /** A cell: a number, a text, or a missing value (NaN / None). */
  datatype Cell = Num(value: real) | Str(text: string) | Missing

  /** A DataFrame, stored column by column: `data[c][r]` is the cell of row `r` in column `columns[c]`. */
  datatype Frame = Frame(columns: seq<string>, index: seq<int>, data: seq<seq<Cell>>)

  /** Every column has one cell per row; column names and row labels are unique. */
  predicate WellFormed(f: Frame)
  {
    && |f.data| == |f.columns|
    && (forall c :: 0 <= c < |f.data| ==> |f.data[c]| == |f.index|)
    && Combinatorics.Distinct(f.columns)
    && Combinatorics.Distinct(f.index)
  }

  function Rows(f: Frame): nat
  {
    |f.index|
  }

  /** The position of the first occurrence of `x` in `s` (`list.index`). */
  function PosOf<T(==)>(s: seq<T>, x: T): (p: nat)
    requires x in s
    ensures p < |s| && s[p] == x
    ensures forall i :: 0 <= i < p ==> s[i] != x
  {
    if s[0] == x then 0 else 1 + PosOf(s[1..], x)
  }

  lemma PosOfAppend<T>(s: seq<T>, y: T, x: T)
    requires x in s
    ensures x in s + [y] && PosOf(s + [y], x) == PosOf(s, x)
  {
    assert (s + [y])[PosOf(s, x)] == x;
  }

  lemma PosOfDistinct<T>(s: seq<T>, i: nat)
    requires Combinatorics.Distinct(s) && i < |s|
    ensures PosOf(s, s[i]) == i
  {
  }

  /** `df[name]`. */
  function Column(f: Frame, name: string): (col: seq<Cell>)
    requires WellFormed(f) && name in f.columns
    ensures |col| == Rows(f)
  {
    f.data[PosOf(f.columns, name)]
  }

  /** The cell in row position `r` of column `name` (`df[name].iloc[r]`). */
  function CellAt(f: Frame, r: nat, name: string): Cell
    requires WellFormed(f) && name in f.columns && r < Rows(f)
  {
    Column(f, name)[r]
  }

  /** `df.at[key, name]`, or None when the row label or the column is absent. */
  function Lookup(f: Frame, key: int, name: string): Option<Cell>
    requires WellFormed(f)
  {
    if key in f.index && name in f.columns then Some(Column(f, name)[PosOf(f.index, key)]) else None
  }

  /** `pd.RangeIndex(n)`: the labels 0, 1, ..., n - 1. */
  function AutoIndex(n: nat): (r: seq<int>)
    ensures |r| == n && Combinatorics.Distinct(r)
    ensures forall i :: 0 <= i < n ==> r[i] == i
  {
    seq(n, i => i)
  }

  /** `pd.DataFrame(columns=names)`: no rows. */
  function Empty(names: seq<string>): (f: Frame)
    requires Combinatorics.Distinct(names)
    ensures WellFormed(f) && f.columns == names && Rows(f) == 0
  {
    Frame(names, [], seq(|names|, _ => []))
  }

  /** A column of missing values. */
  function Missings(n: nat): (r: seq<Cell>)
    ensures |r| == n && forall i :: 0 <= i < n ==> r[i] == Missing
  {
    seq(n, _ => Missing)
  }

  /** A vector of numbers stored as a column. */
  function Cells(v: seq<real>): (r: seq<Cell>)
    ensures |r| == |v| && forall i :: 0 <= i < |v| ==> r[i] == Num(v[i])
  {
    seq(|v|, i requires 0 <= i < |v| => Num(v[i]))
  }

  /** Each column has one cell per row of `f`. */
  predicate FitsRows(f: Frame, values: seq<seq<Cell>>)
  {
    forall i :: 0 <= i < |values| ==> |values[i]| == Rows(f)
  }

  /** `df[names[0]] = values[0]`, then `df[names[1]] = values[1]`, and so on. */
  function SetColumns(f: Frame, names: seq<string>, values: seq<seq<Cell>>): (g: Frame)
    requires WellFormed(f) && |names| == |values| && FitsRows(f, values)
    ensures WellFormed(g) && g.index == f.index
    decreases |names|
  {
    if |names| == 0 then f
    else
      var m := |names| - 1;
      var g := SetColumns(f, names[..m], values[..m]);
      SetColumn(g, names[m], values[m])
  }

  /** The columns `SetColumns` does not name keep their cells. */
  lemma {:induction false} SetColumnsOthers(f: Frame, names: seq<string>, values: seq<seq<Cell>>, c: string)
    requires WellFormed(f) && |names| == |values| && FitsRows(f, values)
    requires c in f.columns && c !in names
    ensures c in SetColumns(f, names, values).columns && Column(SetColumns(f, names, values), c) == Column(f, c)
    decreases |names|
  {
    if |names| > 0 {
      var m := |names| - 1;
      assert c !in names[..m] && c != names[m];
      SetColumnsOthers(f, names[..m], values[..m], c);
    }
  }

  /** With distinct names, column `names[i]` ends up holding `values[i]`. */
  lemma {:induction false} SetColumnsWrites(f: Frame, names: seq<string>, values: seq<seq<Cell>>, i: nat)
    requires WellFormed(f) && |names| == |values| && FitsRows(f, values)
    requires Combinatorics.Distinct(names) && i < |names|
    ensures names[i] in SetColumns(f, names, values).columns && Column(SetColumns(f, names, values), names[i]) == values[i]
    decreases |names|
  {
    var m := |names| - 1;
    if i < m {
      assert names[..m][i] == names[i] && values[..m][i] == values[i];
      assert names[i] != names[m];
      SetColumnsWrites(f, names[..m], values[..m], i);
    }
  }

  /** `df[name] = values` with a list of the frame's length: replaces the column in place, or appends it as the last column. */
  function SetColumn(f: Frame, name: string, values: seq<Cell>): (g: Frame)
    requires WellFormed(f) && |values| == Rows(f)
    ensures WellFormed(g) && g.index == f.index
    ensures name in f.columns ==> g.columns == f.columns
    ensures name !in f.columns ==> g.columns == f.columns + [name]
    ensures name in g.columns && Column(g, name) == values
    ensures forall c :: c in f.columns && c != name ==> c in g.columns && Column(g, c) == Column(f, c)
  {
    if name in f.columns then
      f.(data := f.data[PosOf(f.columns, name) := values])
    else
      var g := Frame(f.columns + [name], f.index, f.data + [values]);
      assert g.columns[|f.columns|] == name && name !in f.columns;
      assert forall c :: c in f.columns ==> PosOf(g.columns, c) == PosOf(f.columns, c) by {
        forall c | c in f.columns ensures PosOf(g.columns, c) == PosOf(f.columns, c) {
          PosOfAppend(f.columns, name, c);
        }
      }
      assert Combinatorics.Distinct(g.columns);
      g
  }

  /**
   * `df[name] = values` for any list pandas accepts: one of the frame's
   * length, or, on a frame without rows, a list of any length, whose length
   * then sets the rows (labelled 0..n-1, the other columns missing).
   */
  function AssignColumn(f: Frame, name: string, values: seq<Cell>): (g: Frame)
    requires WellFormed(f) && (|values| == Rows(f) || Rows(f) == 0)
    ensures WellFormed(g) && g.index == (if Rows(f) == 0 then AutoIndex(|values|) else f.index)
    ensures g.columns == if name in f.columns then f.columns else f.columns + [name]
    ensures name in g.columns && Column(g, name) == values
    ensures forall c :: c in f.columns && c != name ==>
      c in g.columns && Column(g, c) == if Rows(f) == 0 then Missings(|values|) else Column(f, c)
  {
    if Rows(f) == 0 then SetColumn(Unfilled(f.columns, |values|), name, values) else SetColumn(f, name, values)
  }

  /** The enlargement pandas makes of a frame without rows: n rows labelled 0..n-1, every cell missing. */
  function Unfilled(names: seq<string>, n: nat): (f: Frame)
    requires Combinatorics.Distinct(names)
    ensures WellFormed(f) && f.columns == names && f.index == AutoIndex(n)
    ensures forall c :: c in names ==> Column(f, c) == Missings(n)
  {
    Frame(names, AutoIndex(n), seq(|names|, _ => Missings(n)))
  }

  function RemoveAt<T>(s: seq<T>, p: nat): (r: seq<T>)
    requires p < |s|
    ensures |r| == |s| - 1
    ensures forall i :: 0 <= i < p ==> r[i] == s[i]
    ensures forall i :: p <= i < |r| ==> r[i] == s[i + 1]
  {
    s[..p] + s[p + 1..]
  }

  lemma RemoveAtDistinct<T>(s: seq<T>, p: nat)
    requires p < |s| && Combinatorics.Distinct(s)
    ensures Combinatorics.Distinct(RemoveAt(s, p))
    ensures forall x :: x in RemoveAt(s, p) <==> x in s && x != s[p]
  {
    var r := RemoveAt(s, p);
    forall x | x in s && x != s[p] ensures x in r {
      var i :| 0 <= i < |s| && s[i] == x;
      if i < p { assert r[i] == x; } else { assert r[i - 1] == x; }
    }
  }

  /**
   * `df.drop(df.index[p])`. pandas drops every row carrying that label; in a
   * well-formed frame the labels are unique, so that is the row at position `p`.
   */
  function DropRowAt(f: Frame, p: nat): (g: Frame)
    requires WellFormed(f) && p < Rows(f)
    ensures WellFormed(g) && g.columns == f.columns && Rows(g) == Rows(f) - 1
    ensures g.index == RemoveAt(f.index, p)
    ensures forall c :: c in f.columns ==> Column(g, c) == RemoveAt(Column(f, c), p)
  {
    RemoveAtDistinct(f.index, p);
    Frame(f.columns, RemoveAt(f.index, p), seq(|f.data|, c requires 0 <= c < |f.data| => RemoveAt(f.data[c], p)))
  }

  /** In a sequence without repeats, removing position p moves every later element one place down. */
  lemma RemoveAtPosOf<T>(s: seq<T>, p: nat, x: T)
    requires p < |s| && Combinatorics.Distinct(s) && x in s && x != s[p]
    ensures x in RemoveAt(s, p)
    ensures PosOf(RemoveAt(s, p), x) == if PosOf(s, x) < p then PosOf(s, x) else PosOf(s, x) - 1
  {
    RemoveAtDistinct(s, p);
    var r, q := RemoveAt(s, p), PosOf(s, x);
    if q < p { assert r[q] == x; PosOfDistinct(r, q); }
    else { assert r[q - 1] == x; PosOfDistinct(r, q - 1); }
  }

  lemma DataAfterRemoveAt<T>(s: seq<T>, p: nat, q: nat)
    requires p < |s| && q < |s| && q != p
    ensures (if q < p then q else q - 1) < |RemoveAt(s, p)|
    ensures RemoveAt(s, p)[if q < p then q else q - 1] == s[q]
  {
  }

  /** `df.drop(columns=[df.columns[p]])`: the other columns keep their order and cells. */
  function DropColumnAt(f: Frame, p: nat): (g: Frame)
    requires WellFormed(f) && p < |f.columns|
    ensures WellFormed(g) && g.index == f.index
    ensures g.columns == RemoveAt(f.columns, p)
    ensures f.columns[p] !in g.columns
    ensures forall c :: c in f.columns && c != f.columns[p] ==> c in g.columns && Column(g, c) == Column(f, c)
  {
    var g := Frame(RemoveAt(f.columns, p), f.index, RemoveAt(f.data, p));
    DroppedColumnWellFormed(f, p);
    forall c | c in f.columns && c != f.columns[p]
      ensures c in g.columns && Column(g, c) == Column(f, c)
    {
      DroppedColumnKeeps(f, p, c);
    }
    g
  }

  lemma DroppedColumnWellFormed(f: Frame, p: nat)
    requires WellFormed(f) && p < |f.columns|
    ensures WellFormed(Frame(RemoveAt(f.columns, p), f.index, RemoveAt(f.data, p)))
    ensures f.columns[p] !in RemoveAt(f.columns, p)
  {
    RemoveAtDistinct(f.columns, p);
  }

  lemma DroppedColumnKeeps(f: Frame, p: nat, c: string)
    requires WellFormed(f) && p < |f.columns| && c in f.columns && c != f.columns[p]
    requires WellFormed(Frame(RemoveAt(f.columns, p), f.index, RemoveAt(f.data, p)))
    ensures c in RemoveAt(f.columns, p)
    ensures Column(Frame(RemoveAt(f.columns, p), f.index, RemoveAt(f.data, p)), c) == Column(f, c)
  {
    RemoveAtPosOf(f.columns, p, c);
    DataAfterRemoveAt(f.data, p, PosOf(f.columns, c));
  }

  /** The columns of `b` that `a` does not have, in `b`'s order. */
  function NewColumns(a: seq<string>, b: seq<string>): (r: seq<string>)
    ensures forall c :: c in r <==> c in b && c !in a
  {
    if b == [] then [] else (if b[0] in a then [] else [b[0]]) + NewColumns(a, b[1..])
  }

  lemma {:induction false} NewColumnsDistinct(a: seq<string>, b: seq<string>)
    requires Combinatorics.Distinct(b)
    ensures Combinatorics.Distinct(NewColumns(a, b))
  {
    if b != [] {
      NewColumnsDistinct(a, b[1..]);
      Combinatorics.DistinctConcat(if b[0] in a then [] else [b[0]], NewColumns(a, b[1..]));
    }
  }

  /** The column `name` of `f`, or missing values where `f` has no such column. */
  function ColumnOrMissing(f: Frame, name: string): (col: seq<Cell>)
    requires WellFormed(f)
    ensures |col| == Rows(f)
  {
    if name in f.columns then Column(f, name) else Missings(Rows(f))
  }

  /** The union of the columns of `f` and `g`: those of `f` first, then the new ones of `g`. */
  function UnionColumns(f: Frame, g: Frame): (cols: seq<string>)
    requires WellFormed(f) && WellFormed(g)
    ensures Combinatorics.Distinct(cols)
    ensures forall c :: c in cols <==> c in f.columns || c in g.columns
    ensures |f.columns| <= |cols| && cols[..|f.columns|] == f.columns
  {
    NewColumnsDistinct(f.columns, g.columns);
    Combinatorics.DistinctConcat(f.columns, NewColumns(f.columns, g.columns));
    f.columns + NewColumns(f.columns, g.columns)
  }

  /**
   * `pd.concat([f, g], ignore_index=True)`: the rows of `f`, then those of `g`,
   * under fresh labels 0..n-1, over the union of the columns; a row has missing
   * values in the columns its frame lacked.
   */
  function Concat(f: Frame, g: Frame): (h: Frame)
    requires WellFormed(f) && WellFormed(g)
    ensures WellFormed(h) && Rows(h) == Rows(f) + Rows(g)
    ensures h.columns == UnionColumns(f, g)
    ensures h.index == AutoIndex(Rows(f) + Rows(g))
    ensures forall c :: c in h.columns ==> Column(h, c) == ColumnOrMissing(f, c) + ColumnOrMissing(g, c)
  {
    var cols := UnionColumns(f, g);
    var h := Frame(cols, AutoIndex(Rows(f) + Rows(g)),
      seq(|cols|, c requires 0 <= c < |cols| => ColumnOrMissing(f, cols[c]) + ColumnOrMissing(g, cols[c])));
    assert forall c :: c in cols ==> h.data[PosOf(cols, c)] == ColumnOrMissing(f, c) + ColumnOrMissing(g, c);
    h
  }

  /**
   * Appending a one-row frame: every earlier row keeps its cells in the
   * earlier columns, and the new last row holds the one-row frame's cells.
   */
  lemma ConcatOneRow(f: Frame, row: Frame)
    requires WellFormed(f) && WellFormed(row) && Rows(row) == 1
    ensures var h := Concat(f, row);
      && Rows(h) == Rows(f) + 1
      && (forall c :: c in f.columns ==> c in h.columns && Column(h, c)[..Rows(f)] == Column(f, c))
      && (forall c :: c in row.columns ==> c in h.columns && Column(h, c)[Rows(f)] == Column(row, c)[0])
      && (forall c :: c in h.columns && c !in row.columns ==> Column(h, c)[Rows(f)] == Missing)
  {
    var h := Concat(f, row);
    forall c | c in f.columns ensures Column(h, c)[..Rows(f)] == Column(f, c) {
      assert Column(h, c) == Column(f, c) + ColumnOrMissing(row, c);
    }
  }

  /** A one-row frame with row label 0 (`pd.DataFrame({name: [value], ...})`). */
  function SingleRow(names: seq<string>, values: seq<Cell>): (f: Frame)
    requires Combinatorics.Distinct(names) && |values| == |names|
    ensures WellFormed(f) && f.columns == names && Rows(f) == 1 && f.index == [0]
    ensures forall i :: 0 <= i < |names| ==> Column(f, names[i]) == [values[i]]
  {
    var f := Frame(names, [0], seq(|names|, i requires 0 <= i < |names| => [values[i]]));
    assert forall i :: 0 <= i < |names| ==> PosOf(names, names[i]) == i by {
      forall i | 0 <= i < |names| ensures PosOf(names, names[i]) == i { PosOfDistinct(names, i); }
    }
    f
  }

  /** A new last row labelled `key`, missing in every column. */
  function AppendRow(f: Frame, key: int): (g: Frame)
    requires WellFormed(f) && key !in f.index
    ensures WellFormed(g) && g.columns == f.columns && g.index == f.index + [key]
    ensures forall c :: c in f.columns ==> Column(g, c) == Column(f, c) + [Missing]
  {
    var g := Frame(f.columns, f.index + [key], seq(|f.data|, c requires 0 <= c < |f.data| => f.data[c] + [Missing]));
    assert forall i, j :: 0 <= i < j < |g.index| ==> g.index[i] != g.index[j] by {
      forall i, j | 0 <= i < j < |g.index| ensures g.index[i] != g.index[j] {
        if j == |f.index| { assert g.index[i] in f.index; }
      }
    }
    g
  }

  /** The frame with column `name` added, missing everywhere, when it is absent. */
  function WithColumn(f: Frame, name: string): (g: Frame)
    requires WellFormed(f)
    ensures WellFormed(g) && g.index == f.index && name in g.columns
    ensures forall c :: c in f.columns ==> c in g.columns
    ensures forall l, c :: Lookup(f, l, c).Some? ==> Lookup(g, l, c) == Lookup(f, l, c)
  {
    if name in f.columns then f else SetColumn(f, name, Missings(Rows(f)))
  }

  /** The frame with a last row labelled `key`, missing everywhere, when that label is absent. */
  function WithRow(f: Frame, key: int): (g: Frame)
    requires WellFormed(f)
    ensures WellFormed(g) && g.columns == f.columns && key in g.index
    ensures forall l :: l in f.index ==> l in g.index
    ensures forall l, c :: Lookup(f, l, c).Some? ==> Lookup(g, l, c) == Lookup(f, l, c)
  {
    if key in f.index then f
    else
      var g := AppendRow(f, key);
      assert forall l :: l in f.index ==> PosOf(g.index, l) == PosOf(f.index, l) by {
        forall l | l in f.index ensures PosOf(g.index, l) == PosOf(f.index, l) {
          PosOfAppend(f.index, key, l);
        }
      }
      g
  }

  /** Overwrites the cell of an existing row and column. */
  function WithCell(f: Frame, key: int, name: string, v: Cell): (g: Frame)
    requires WellFormed(f) && key in f.index && name in f.columns
    ensures WellFormed(g) && g.columns == f.columns && g.index == f.index
    ensures Lookup(g, key, name) == Some(v)
    ensures forall l, c :: Lookup(f, l, c).Some? && (l != key || c != name) ==> Lookup(g, l, c) == Lookup(f, l, c)
  {
    var c := PosOf(f.columns, name);
    var r := PosOf(f.index, key);
    f.(data := f.data[c := f.data[c][r := v]])
  }

  /**
   * `df.at[key, name] = v`. As in pandas, a missing column is first added
   * (missing everywhere) and a missing row label is appended as a new last row.
   */
  function SetAt(f: Frame, key: int, name: string, v: Cell): (g: Frame)
    requires WellFormed(f)
    ensures WellFormed(g)
    ensures Lookup(g, key, name) == Some(v)
    ensures forall c :: c in f.columns ==> c in g.columns
    ensures forall l :: l in f.index ==> l in g.index
    ensures forall l, c :: Lookup(f, l, c).Some? && (l != key || c != name) ==> Lookup(g, l, c) == Lookup(f, l, c)
  {
    WithCell(WithRow(WithColumn(f, name), key), key, name, v)
  }

  /** Sets the cells of one row, assignment after assignment (a run of `df.at[key, name] = v`). */
  function SetRow(f: Frame, key: int, assigns: seq<(string, Cell)>): (g: Frame)
    requires WellFormed(f)
    ensures WellFormed(g)
    decreases |assigns|
  {
    if assigns == [] then f else SetRow(SetAt(f, key, assigns[0].0, assigns[0].1), key, assigns[1..])
  }

  /** Row `i` of the result gets the assignments `rows[i]`, for i = 0, 1, ... in turn. */
  function SetRows(f: Frame, rows: seq<seq<(string, Cell)>>): (g: Frame)
    requires WellFormed(f)
    ensures WellFormed(g)
  {
    if rows == [] then f else SetRow(SetRows(f, rows[..|rows| - 1]), |rows| - 1, rows[|rows| - 1])
  }

  /** One more row of assignments is one more `SetRow`. */
  lemma SetRowsStep(f: Frame, rows: seq<seq<(string, Cell)>>, i: nat)
    requires WellFormed(f) && i < |rows|
    ensures SetRows(f, rows[..i + 1]) == SetRow(SetRows(f, rows[..i]), i, rows[i])
  {
    assert rows[..i + 1][..i] == rows[..i];
  }

  /**
   * The write loop of the peak-table updates: the assignment list `rows[i]`
   * goes into row i, one row after the other, as a run of `.at` writes does.
   */
  method WriteRows(f: Frame, rows: seq<seq<(string, Cell)>>) returns (g: Frame)
    requires WellFormed(f)
    ensures WellFormed(g) && g == SetRows(f, rows)
  {
    g := f;
    for i := 0 to |rows|
      invariant WellFormed(g) && g == SetRows(f, rows[..i])
    {
      SetRowsStep(f, rows, i);
      g := SetRow(g, i, rows[i]);
    }
    assert rows[..|rows|] == rows;
  }

  /** Cells of other rows, and cells the assignment list does not name, keep their value. */
  lemma {:induction false} SetRowKeeps(f: Frame, key: int, assigns: seq<(string, Cell)>, l: int, c: string)
    requires WellFormed(f) && Lookup(f, l, c).Some?
    requires l != key || forall k :: 0 <= k < |assigns| ==> assigns[k].0 != c
    ensures Lookup(SetRow(f, key, assigns), l, c) == Lookup(f, l, c)
    decreases |assigns|
  {
    if assigns != [] {
      SetRowKeeps(SetAt(f, key, assigns[0].0, assigns[0].1), key, assigns[1..], l, c);
    }
  }

  /** The column names an assignment list writes, in order. */
  function Names(assigns: seq<(string, Cell)>): (names: seq<string>)
    ensures |names| == |assigns| && forall i :: 0 <= i < |assigns| ==> names[i] == assigns[i].0
  {
    seq(|assigns|, i requires 0 <= i < |assigns| => assigns[i].0)
  }

  /** After the row assignments, each named column of that row holds its assigned value. */
  lemma {:induction false} SetRowWrites(f: Frame, key: int, assigns: seq<(string, Cell)>, k: nat)
    requires WellFormed(f) && k < |assigns|
    requires Combinatorics.Distinct(Names(assigns))
    ensures Lookup(SetRow(f, key, assigns), key, assigns[k].0) == Some(assigns[k].1)
    decreases |assigns|
  {
    var f1 := SetAt(f, key, assigns[0].0, assigns[0].1);
    var names := Names(assigns);
    if k == 0 {
      forall i | 0 <= i < |assigns[1..]| ensures assigns[1..][i].0 != assigns[0].0 {
        assert names[0] != names[i + 1];
      }
      SetRowKeeps(f1, key, assigns[1..], key, assigns[0].0);
    } else {
      assert Names(assigns[1..]) == names[1..];
      SetRowWrites(f1, key, assigns[1..], k - 1);
    }
  }

  /** Label `i < |rows|` gets row `i`'s assignments; rows with other labels keep every cell. */
  lemma {:induction false} SetRowsEffect(f: Frame, rows: seq<seq<(string, Cell)>>)
    requires WellFormed(f)
    requires forall r :: 0 <= r < |rows| ==> Combinatorics.Distinct(Names(rows[r]))
    ensures forall r, k :: 0 <= r < |rows| && 0 <= k < |rows[r]| ==> Lookup(SetRows(f, rows), r, rows[r][k].0) == Some(rows[r][k].1)
    ensures forall l, c :: Lookup(f, l, c).Some? && !(0 <= l < |rows|) ==> Lookup(SetRows(f, rows), l, c) == Lookup(f, l, c)
  {
    if rows != [] {
      var n := |rows| - 1;
      var pre := rows[..n];
      var g := SetRows(f, pre);
      SetRowsEffect(f, pre);
      assert SetRows(f, rows) == SetRow(g, n, rows[n]);
      forall r, k | 0 <= r < |rows| && 0 <= k < |rows[r]|
        ensures Lookup(SetRows(f, rows), r, rows[r][k].0) == Some(rows[r][k].1)
      {
        if r == n {
          SetRowWrites(g, n, rows[n], k);
        } else {
          assert pre[r] == rows[r];
          SetRowKeeps(g, n, rows[n], r, rows[r][k].0);
        }
      }
      forall l, c | Lookup(f, l, c).Some? && !(0 <= l < |rows|)
        ensures Lookup(SetRows(f, rows), l, c) == Lookup(f, l, c)
      {
        SetRowKeeps(g, n, rows[n], l, c);
      }
    }
  }

  /** Python's index normalisation for `iat`: a negative position counts from the end. */
  function PyPos(i: int, n: nat): (p: nat)
    requires -(n as int) <= i < n
    ensures p < n && (i >= 0 ==> p == i) && (i < 0 ==> p == n + i)
  {
    if i < 0 then n + i else i
  }

  /** `df.iat[r, c] = v` at positions `r`, `c`. */
  function WithCellAt(f: Frame, r: nat, c: nat, v: Cell): (g: Frame)
    requires WellFormed(f) && r < Rows(f) && c < |f.columns|
    ensures WellFormed(g) && g.columns == f.columns && g.index == f.index
    ensures g.data[c][r] == v
    ensures forall c', r' :: 0 <= c' < |f.columns| && 0 <= r' < Rows(f) && (c' != c || r' != r) ==> g.data[c'][r'] == f.data[c'][r']
  {
    f.(data := f.data[c := f.data[c][r := v]])
  }

  /** pandas' `to_numeric(cell, errors='coerce')` gives a number, not NaN. */
  predicate IsNumericCell(cell: Cell)
  {
    match cell
    case Num(_) => true
    case Str(s) => IsPandasNumber(s)
    case Missing => false
  }

  /** `pd.to_numeric(col, errors='coerce').notna().all()`. */
  predicate AllNumeric(col: seq<Cell>)
  {
    forall i :: 0 <= i < |col| ==> IsNumericCell(col[i])
  }

  /** Every cell holds a number. */
  predicate AllNum(col: seq<Cell>)
  {
    forall i :: 0 <= i < |col| ==> col[i].Num?
  }

  /**
   * Python's `float(cell)`: a number stays, a missing cell is NaN, and a text
   * is read by `float`. None stands for the ValueError of an unreadable text,
   * and also for an infinity, which no cell holds.
   */
  function FloatCell(cell: Cell): (r: Option<Cell>)
    ensures r.Some? ==> !r.value.Str?
    ensures cell.Num? || cell.Missing? ==> r == Some(cell)
    ensures cell.Str? && r.Some? && r.value.Num? ==> PyFloat(cell.text) == Some(Finite(r.value.value))
    ensures cell.Str? && r == Some(Missing) ==> PyFloat(cell.text) == Some(NaN)
    ensures cell.Str? && r.None? ==> PyFloat(cell.text).None? || PyFloat(cell.text).value.Infinity?
  {
    match cell
    case Str(s) =>
      (match PyFloat(s)
       case Some(Finite(v)) => Some(Num(v))
       case Some(NaN) => Some(Missing)
       case _ => None)
    case _ => Some(cell)
  }

  /** `float` of a text cell holding a float literal, with whitespace around it, is the literal's value. */
  lemma FloatCellReadsLiteral(pre: string, t: string, post: string)
    requires IsFloatLiteral(t)
    requires forall i :: 0 <= i < |pre| ==> IsSpace(pre[i])
    requires forall i :: 0 <= i < |post| ==> IsSpace(post[i])
    ensures FloatCell(Str(pre + t + post)) == Some(Num(LiteralValue(t)))
  {
    PyFloatReadsPaddedLiteral(pre, t, post);
  }

  /** `col.values` for a column of numbers. */
  function Reals(col: seq<Cell>): (v: seq<real>)
    requires AllNum(col)
    ensures |v| == |col| && Cells(v) == col
  {
    seq(|col|, i requires 0 <= i < |col| => col[i].value)
  }

  /**
   * The loop of `get_init_params`: for each row in order, the cells of the
   * three named columns, appended to one flat list. A missing column raises
   * KeyError (None) at the first row, so a table without rows gives the
   * empty list whatever its columns.
   */
  method FlattenTriples(f: Frame, first: string, second: string, third: string) returns (r: Option<seq<Cell>>)
    requires WellFormed(f)
    ensures r.Some? <==> Rows(f) == 0 || (first in f.columns && second in f.columns && third in f.columns)
    ensures r.Some? ==> |r.value| == 3 * Rows(f)
    ensures r.Some? ==> forall i :: 0 <= i < Rows(f) ==>
      r.value[3 * i] == CellAt(f, i, first) && r.value[3 * i + 1] == CellAt(f, i, second) && r.value[3 * i + 2] == CellAt(f, i, third)
  {
    var params := [];
    for i := 0 to Rows(f)
      invariant |params| == 3 * i
      invariant i > 0 ==> first in f.columns && second in f.columns && third in f.columns
      invariant forall j :: 0 <= j < i ==>
        params[3 * j] == CellAt(f, j, first) && params[3 * j + 1] == CellAt(f, j, second) && params[3 * j + 2] == CellAt(f, j, third)
    {
      if !(first in f.columns && second in f.columns && third in f.columns) {
        return None;
      }
      params := params + [CellAt(f, i, first), CellAt(f, i, second), CellAt(f, i, third)];
    }
    return Some(params);
  }
}
