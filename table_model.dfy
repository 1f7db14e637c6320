/**
 * `PandasModel`, the Qt item model over one data table: its dimensions, the
 * cells and headers it shows, and the two cell editors `set_data` (stores the
 * value as given) and `setData` (stores the value's text with `,` turned into `.`).
 */
module TableModel {
  import opened Wrappers
  import opened Text
  import opened Frames

  /** A `QModelIndex`: an invalid one, or a cell position. */
  datatype ModelIndex = Invalid | At(row: nat, column: nat)
  {
    /** `index.row()`: -1 for an invalid index. */
    function Row(): int
    {
      if At? then row else -1
    }

    /** `index.column()`: -1 for an invalid index. */
    function Column(): int
    {
      if At? then column else -1
    }
  }

  /** The item-data roles the model distinguishes. */
  datatype Role = DisplayRole | EditRole | OtherRole

  datatype Orientation = Horizontal | Vertical

  /** A header: a column name, or a row label. */
  datatype Header = ColumnName(name: string) | RowLabel(rowLabel: int)

  /** `df.iat[row, col]` accepts Python positions, negative ones counted from the end. */
  predicate IatInRange(f: Frame, row: int, col: int)
  {
    -(Rows(f) as int) <= row < Rows(f) && -(|f.columns| as int) <= col < |f.columns|
  }

  /** The table after `df.iat[row, col] = v`. */
  function SetIat(f: Frame, row: int, col: int, v: Cell): (g: Frame)
    requires WellFormed(f) && IatInRange(f, row, col)
    ensures WellFormed(g) && g.columns == f.columns && g.index == f.index
    ensures g.data[PyPos(col, |f.columns|)][PyPos(row, Rows(f))] == v
    ensures forall c, r :: 0 <= c < |f.columns| && 0 <= r < Rows(f) && (c != PyPos(col, |f.columns|) || r != PyPos(row, Rows(f))) ==>
      g.data[c][r] == f.data[c][r]
  {
    WithCellAt(f, PyPos(row, Rows(f)), PyPos(col, |f.columns|), v)
  }

  class PandasModel {
    var data: Frame

    predicate Valid()
      reads this
    {
      WellFormed(data)
    }

    constructor(data: Frame)
      requires WellFormed(data)
      ensures Valid() && this.data == data
    {
      this.data := data;
    }

    /** `rowCount`. */
    function RowCount(): (n: nat)
      reads this
      ensures n == |data.index|
    {
      Rows(data)
    }

    /** `columnCount`. */
    function ColumnCount(): (n: nat)
      reads this
      ensures n == |data.columns|
    {
      |data.columns|
    }

    /** `data`: the cell at a valid index for the display role, None otherwise. */
    function Data(index: ModelIndex, role: Role): (r: Option<Cell>)
      reads this
      requires Valid()
      requires index.At? ==> index.row < RowCount() && index.column < ColumnCount()
      ensures r.Some? <==> index.At? && role == DisplayRole
      ensures r.Some? ==> r.value == data.data[index.column][index.row]
    {
      if index.At? && role == DisplayRole then Some(data.data[index.column][index.row]) else None
    }

    /** `headerData`: a column name across the top, a row label down the side, only for the display role. */
    function HeaderData(section: nat, orientation: Orientation, role: Role): (r: Option<Header>)
      reads this
      requires role == DisplayRole && orientation == Horizontal ==> section < ColumnCount()
      requires role == DisplayRole && orientation == Vertical ==> section < RowCount()
      ensures r.Some? <==> role == DisplayRole
      ensures r.Some? && orientation == Horizontal ==> r.value == ColumnName(data.columns[section])
      ensures r.Some? && orientation == Vertical ==> r.value == RowLabel(data.index[section])
    {
      if role != DisplayRole then None
      else if orientation == Horizontal then Some(ColumnName(data.columns[section]))
      else Some(RowLabel(data.index[section]))
    }

    /**
     * `set_data`: for the edit role, stores `value` unchanged at the index's
     * position (an invalid index addresses row -1, column -1: the last cell).
     */
    method SetDataVerbatim(index: ModelIndex, value: Cell, role: Role) returns (ok: bool)
      requires Valid()
      requires role == EditRole ==> IatInRange(data, index.Row(), index.Column())
      modifies this
      ensures Valid()
      ensures ok <==> role == EditRole
      ensures ok ==> data == SetIat(old(data), index.Row(), index.Column(), value)
      ensures !ok ==> data == old(data)
    {
      if role == EditRole {
        data := SetIat(data, index.Row(), index.Column(), value);
        return true;
      }
      return false;
    }

    /**
     * `setData`: for the edit role, stores the value's text with every `,`
     * replaced by `.` (a decimal comma becomes a decimal point).
     */
    method SetData(index: ModelIndex, value: string, role: Role) returns (ok: bool)
      requires Valid()
      requires role == EditRole ==> IatInRange(data, index.Row(), index.Column())
      modifies this
      ensures Valid()
      ensures ok <==> role == EditRole
      ensures ok ==> data == SetIat(old(data), index.Row(), index.Column(), Str(ReplaceChar(value, ',', '.')))
      ensures ok ==> data.data[PyPos(index.Column(), ColumnCount())][PyPos(index.Row(), RowCount())] == Str(ReplaceChar(value, ',', '.'))
      ensures !ok ==> data == old(data)
    {
      if role == EditRole {
        var text := ReplaceChar(value, ',', '.');
        data := SetIat(data, index.Row(), index.Column(), Str(text));
        return true;
      }
      return false;
    }
  }
}
