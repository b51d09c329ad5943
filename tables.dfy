/**
 * One table of the data set (MyTable): a name, metadata holding the column
 * list inferred from the first row, and the stored rows, appended one by one
 * while the data set is built.
 */
module Tables {
  import opened Wrappers
  import opened CaseFold
  import opened Rows

  /** A column of the metadata; its data type is always dbunit's UNKNOWN. */
  datatype Column = Column(columnName: string)

  /** DefaultTableMetaData: the table name and the columns, null when the table had no rows. */
  datatype TableMetaData = TableMetaData(tableName: string, columns: Option<seq<Column>>)

  /** The errors MyTable.getValue can raise. */
  datatype DataSetError =
    | RowOutOfBounds(row: int)    // RowOutOfBoundsException, raised for a row at or past the end
    | IndexOutOfBounds(row: int)  // what ArrayList.get raises for a negative row

  /** The column names the metadata carries. */
  function ColumnNames(meta: TableMetaData): Option<seq<string>> {
    match meta.columns
    case None => None
    case Some(cs) => Some(seq(|cs|, i requires 0 <= i < |cs| => cs[i].columnName))
  }

  /** MyTable.createMeta: one column per name, in order; no columns when there are no names. */
  method CreateMeta(name: string, columnNames: Option<seq<string>>) returns (meta: TableMetaData)
    ensures meta.tableName == name
    ensures ColumnNames(meta) == columnNames
  {
    var columns: Option<seq<Column>> := None;
    if columnNames.Some? {
      var names := columnNames.value;
      var cs := new Column[|names|];
      for i := 0 to |names|
        invariant forall j :: 0 <= j < i ==> cs[j].columnName == names[j]
      {
        cs[i] := Column(names[i]);
      }
      columns := Some(cs[..]);
      assert ColumnNames(TableMetaData(name, columns)).value == names;
    }
    meta := TableMetaData(name, columns);
  }

  /**
   * The value of a table: its own name, the name its metadata reports, the
   * column names its metadata carries, and the stored rows.
   */
  datatype TableValue = TableValue(name: string, metaName: string, columns: Option<seq<string>>, rows: seq<map<string, Value>>)

  /** The column list a table gets: the first row's names in their original case, none without rows. */
  function InferredColumns(rows: seq<Row>): Option<seq<string>> {
    if |rows| > 0 then Some(Keys(rows[0])) else None
  }

  /** The stored rows: each input row folded, in input order. */
  function FoldedRows(rows: seq<Row>): (r: seq<map<string, Value>>)
    ensures |r| == |rows|
    ensures forall i :: 0 <= i < |rows| ==> r[i] == Folded(rows[i])
  {
    if rows == [] then [] else FoldedRows(rows[..|rows| - 1]) + [Folded(rows[|rows| - 1])]
  }

  /** The table createTable builds from a name and its parsed rows. */
  function TableOf(name: string, rows: seq<Row>): TableValue {
    TableValue(name, name, InferredColumns(rows), FoldedRows(rows))
  }

  /** MyTable. */
  class Table {
    const name: string
    const meta: TableMetaData
    var data: seq<map<string, Value>>

    /** MyTable(name, columnNames): no rows yet, metadata from createMeta. */
    constructor (name: string, columnNames: Option<seq<string>>)
      ensures this.name == name && meta.tableName == name
      ensures ColumnNames(meta) == columnNames
      ensures data == []
    {
      var m := CreateMeta(name, columnNames);
      this.name := name;
      meta := m;
      data := [];
    }

    /** What the table's accessors observe. */
    function Snapshot(): TableValue
      reads this
    {
      TableValue(name, meta.tableName, ColumnNames(meta), data)
    }

    /** MyTable.getRowCount. */
    function RowCount(): nat
      reads this
    {
      |data|
    }

    /** MyTable.getTableMetaData. */
    function GetTableMetaData(): TableMetaData {
      meta
    }

    /**
     * MyTable.getValue: bounds-checked row access, then a case-insensitive
     * column lookup that gives null for a column the row does not have.
     */
    function GetValue(row: int, column: string): (r: Result<Value, DataSetError>)
      reads this
      ensures r.Success? <==> 0 <= row < RowCount()
      ensures r == Failure(RowOutOfBounds(row)) <==> row >= RowCount()
      ensures r.Success? ==> (r.value != Null <==> Upper(column) in data[row] && data[row][Upper(column)] != Null)
    {
      if |data| <= row then Failure(RowOutOfBounds(row))
      else if row < 0 then Failure(IndexOutOfBounds(row))
      else Success(Lookup(data[row], Upper(column)))
    }

    /** MyTable.addRow: appends the row with its keys upper-cased. */
    method AddRow(values: Row)
      modifies this
      ensures data == old(data) + [Folded(values)]
    {
      var converted := ConvertMap(values);
      data := data + [converted];
    }

    /**
     * A table built from parsed rows: its columns are the first row's names,
     * it has one row per input row, and reading a cell gives the last value
     * whose name folds to the column's.
     */
    lemma ReadsBuiltRows(tableName: string, rows: seq<Row>)
      requires Snapshot() == TableOf(tableName, rows)
      ensures name == tableName && GetTableMetaData().tableName == tableName
      ensures |rows| == 0 ==> ColumnNames(GetTableMetaData()) == None
      ensures |rows| > 0 ==> ColumnNames(GetTableMetaData()) == Some(Keys(rows[0]))
      ensures RowCount() == |rows|
      ensures forall row, column :: 0 <= row < |rows| ==>
                GetValue(row, column) == Success(LastMatch(rows[row], Upper(column)))
      ensures forall row, column :: row >= |rows| ==>
                GetValue(row, column) == Failure(RowOutOfBounds(row))
    {
      forall row, column | 0 <= row < |rows|
        ensures GetValue(row, column) == Success(LastMatch(rows[row], Upper(column)))
      {
        FoldedLookup(rows[row], Upper(column));
      }
    }

    /** Column lookup ignores case: asking with the folded name gives the same answer. */
    lemma GetValueIgnoresCase(row: int, column: string)
      ensures GetValue(row, column) == GetValue(row, Upper(column))
    {
      UpperIdempotent(column);
    }
  }

  /**
   * The table-building half of createTable: a new MyTable whose columns come
   * from the first row, then one addRow per row, in order.
   */
  method NewTable(name: string, rows: seq<Row>) returns (table: Table)
    ensures fresh(table)
    ensures table.Snapshot() == TableOf(name, rows)
  {
    table := new Table(name, InferredColumns(rows));
    for i := 0 to |rows|
      modifies table
      invariant table.data == FoldedRows(rows[..i])
    {
      assert rows[..i + 1][..i] == rows[..i];
      table.AddRow(rows[i]);
    }
    assert rows[..|rows|] == rows;
  }
}
