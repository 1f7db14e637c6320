/**
 * The earlier `PandasModel` (`pandas_model.py` at the repository root): the
 * same reads, a header only across the top, and one guarded cell editor that
 * stores the value unchanged.
 */
module LegacyTableModel {
  import opened Wrappers
  import opened Frames
  import TableModel

  class PandasModel {
    var data: Frame

    predicate Valid()
      reads this
    {
      WellFormed(data)
    }

    constructor(data: Frame)
      requires WellFormed(data)
      ensures Valid() && this.data == data
    {
      this.data := data;
    }

    /** `rowCount`. */
    function RowCount(): (n: nat)
      reads this
      ensures n == |data.index|
    {
      Rows(data)
    }

    /** `columnCount`. */
    function ColumnCount(): (n: nat)
      reads this
      ensures n == |data.columns|
    {
      |data.columns|
    }

    /** `data`: the cell at a valid index for the display role, None otherwise. */
    function Data(index: TableModel.ModelIndex, role: TableModel.Role): (r: Option<Cell>)
      reads this
      requires Valid()
      requires index.At? ==> index.row < RowCount() && index.column < ColumnCount()
      ensures r.Some? <==> index.At? && role == TableModel.DisplayRole
      ensures r.Some? ==> r.value == data.data[index.column][index.row]
    {
      if index.At? && role == TableModel.DisplayRole then Some(data.data[index.column][index.row]) else None
    }

    /** `headerData`: a column name for the horizontal header and the display role; nothing otherwise. */
    function HeaderData(col: nat, orientation: TableModel.Orientation, role: TableModel.Role): (r: Option<string>)
      reads this
      requires orientation == TableModel.Horizontal && role == TableModel.DisplayRole ==> col < ColumnCount()
      ensures r.Some? <==> orientation == TableModel.Horizontal && role == TableModel.DisplayRole
      ensures r.Some? ==> r.value == data.columns[col]
    {
      if orientation == TableModel.Horizontal && role == TableModel.DisplayRole then Some(data.columns[col]) else None
    }

    /**
     * `setData`: stores `value` unchanged, and only for a valid index, the edit
     * role and a row inside the table.
     */
    method SetData(index: TableModel.ModelIndex, value: Cell, role: TableModel.Role) returns (ok: bool)
      requires Valid()
      requires index.At? && role == TableModel.EditRole && index.row < RowCount() ==> index.column < ColumnCount()
      modifies this
      ensures Valid()
      ensures ok <==> index.At? && role == TableModel.EditRole && index.row < old(RowCount())
      ensures ok ==> data == WithCellAt(old(data), index.row, index.column, value)
      ensures !ok ==> data == old(data)
    {
      if index.At? {
        if role == TableModel.EditRole {
          var row := index.row;
          if 0 <= row < Rows(data) {
            var column := index.column;
            data := WithCellAt(data, row, column, value);
            return true;
          }
        }
      }
      return false;
    }
  }
}
