/**
 * YamlDataSet: the case-insensitive data set built from a parsed fixture
 * document, a mapping from table name to a list of rows.
 */
module YamlDataSets {
  import opened Wrappers
  import opened CaseFold
  import opened Rows
  import opened Tables

  /** A parsed fixture document: (table name, rows) entries in document order. */
  type Document = seq<(string, seq<Row>)>

  /**
   * The tables a document yields: each entry stored under its upper-cased
   * name; an entry whose name folds to the key of an earlier one replaces it.
   */
  function Build(doc: Document): (tables: map<string, TableValue>)
  {
    if doc == [] then map[]
    else
      var name := Upper(doc[|doc| - 1].0);
      Build(doc[..|doc| - 1])[name := TableOf(name, doc[|doc| - 1].1)]
  }

  /** Entry i is the last one whose name folds to its folded name. */
  ghost predicate IsLatest(doc: Document, i: int) {
    0 <= i < |doc| &&
    forall j :: i < j < |doc| ==> Upper(doc[j].0) != Upper(doc[i].0)
  }

  /** The data set has exactly one table per folded entry name. */
  lemma {:induction false} BuildKeys(doc: Document)
    ensures Build(doc).Keys == set i | 0 <= i < |doc| :: Upper(doc[i].0)
  {
    if doc != [] {
      var init := doc[..|doc| - 1];
      BuildKeys(init);
      assert forall i :: 0 <= i < |init| ==> init[i] == doc[i];
    }
  }

  /** The table stored under a folded name is built from the last entry with that name. */
  lemma {:induction false} BuildLatestWins(doc: Document, i: int)
    requires IsLatest(doc, i)
    ensures Upper(doc[i].0) in Build(doc)
    ensures Build(doc)[Upper(doc[i].0)] == TableOf(Upper(doc[i].0), doc[i].1)
  {
    if i < |doc| - 1 {
      var init := doc[..|doc| - 1];
      assert init[i] == doc[i];
      assert IsLatest(init, i);
      BuildLatestWins(init, i);
    }
  }

  /** Every stored table comes from some last entry with that folded name. */
  lemma {:induction false} BuildHasLatest(doc: Document, key: string)
    requires key in Build(doc)
    ensures exists i :: IsLatest(doc, i) && Upper(doc[i].0) == key
  {
    var last := |doc| - 1;
    if Upper(doc[last].0) == key {
      assert IsLatest(doc, last);
    } else {
      var init := doc[..last];
      BuildHasLatest(init, key);
      var i :| IsLatest(init, i) && Upper(init[i].0) == key;
      assert init[i] == doc[i];
      assert IsLatest(doc, i);
    }
  }

  /** Every table is stored under its own name, and that name is folded. */
  lemma {:induction false} BuildNamesFolded(doc: Document)
    ensures forall k :: k in Build(doc) ==> HasNoLowerCase(k) && Build(doc)[k].name == k && Build(doc)[k].metaName == k
  {
    if doc != [] {
      BuildNamesFolded(doc[..|doc| - 1]);
    }
  }

  /**
   * A table with two rows, the second with a column the first lacks: the
   * column list is the first row's, and the extra value is still readable
   * by name.
   */
  lemma UsersExample()
    ensures var rows := [[("id", Scalar("1")), ("name", Scalar("Ann"))],
                         [("id", Scalar("2")), ("name", Scalar("Bo")), ("note", Scalar("x"))]];
      var tables := Build([("users", rows)]);
      && tables.Keys == {"USERS"}
      && tables["USERS"].columns == Some(["id", "name"])
      && |tables["USERS"].rows| == 2
      && Lookup(tables["USERS"].rows[0], Upper("note")) == Null
      && Lookup(tables["USERS"].rows[1], Upper("Note")) == Scalar("x")
  {
    var rows := [[("id", Scalar("1")), ("name", Scalar("Ann"))],
                 [("id", Scalar("2")), ("name", Scalar("Bo")), ("note", Scalar("x"))]];
    var doc := [("users", rows)];
    assert Upper("users") == "USERS";
    assert Upper("note") == "NOTE" == Upper("Note");
    assert Upper("id") == "ID" && Upper("name") == "NAME";
    assert Keys(rows[0]) == ["id", "name"];
    FoldedLookup(rows[0], "NOTE");
    FoldedLookup(rows[1], "NOTE");
  }

  /** YamlDataSet. */
  class YamlDataSet {
    var tables: map<string, Table>
    ghost const source: Document

    /** The value of every table, by folded name. */
    function Contents(): map<string, TableValue>
      reads this, tables.Values
    {
      map k | k in tables :: tables[k].Snapshot()
    }

    /** No table object is stored under two names. */
    predicate DistinctTables()
      reads this
    {
      forall k1, k2 :: k1 in tables && k2 in tables && k1 != k2 ==> tables[k1] != tables[k2]
    }

    /** The tables are those the source document yields, one object per name. */
    ghost predicate Valid()
      reads this, tables.Values
    {
      DistinctTables() && Contents() == Build(source)
    }

    /** YamlDataSet(source), given the parsed document: one createTable per entry, in order. */
    constructor (doc: Document)
      ensures source == doc && Valid()
      ensures tables.Keys == set i | 0 <= i < |doc| :: Upper(doc[i].0)
      ensures forall k :: k in tables ==> fresh(tables[k])
    {
      source := doc;
      tables := map[];
      new;
      for i := 0 to |doc|
        invariant Contents() == Build(doc[..i])
        invariant forall k :: k in tables ==> fresh(tables[k])
        invariant DistinctTables()
      {
        var table := CreateTable(Upper(doc[i].0), doc[i].1);
        UpperIdempotent(doc[i].0);
        assert doc[..i + 1][..i] == doc[..i];
      }
      assert doc[..|doc|] == doc;
      BuildKeys(doc);
    }

    /** createTable: builds the table from its rows and stores it under its upper-cased name. */
    method CreateTable(name: string, rows: seq<Row>) returns (table: Table)
      modifies this
      ensures fresh(table)
      ensures tables == old(tables)[Upper(name) := table]
      ensures table.Snapshot() == TableOf(name, rows)
      ensures Contents() == old(Contents())[Upper(name) := TableOf(name, rows)]
    {
      table := NewTable(name, rows);
      tables := tables[Upper(name) := table];
    }

    /** getTable: the table under the folded name, or null. */
    function GetTable(tableName: string): Option<Table>
      reads this
    {
      if Upper(tableName) in tables then Some(tables[Upper(tableName)]) else None
    }

    /** getTableMetaData: the metadata of the table getTable finds, or null. */
    function GetTableMetaData(tableName: string): (meta: Option<TableMetaData>)
      reads this
      ensures meta.Some? <==> GetTable(tableName).Some?
      ensures meta.Some? ==> meta.value == GetTable(tableName).value.GetTableMetaData()
    {
      var myTable := GetTable(tableName);
      if myTable.Some? then Some(myTable.value.GetTableMetaData()) else None
    }

    /** isCaseSensitiveTableNames. */
    function IsCaseSensitiveTableNames(): bool {
      false
    }

    /** getTableNames: every folded name once, in an order the model leaves open. */
    method GetTableNames() returns (names: seq<string>)
      ensures |names| == |tables|
      ensures forall i :: 0 <= i < |names| ==> names[i] in tables
      ensures forall k :: k in tables ==> k in names
      ensures forall i, j :: 0 <= i < j < |names| ==> names[i] != names[j]
    {
      names := [];
      var remaining := tables.Keys;
      while remaining != {}
        invariant remaining <= tables.Keys
        invariant forall i :: 0 <= i < |names| ==> names[i] in tables && names[i] !in remaining
        invariant forall k :: k in tables ==> k in names || k in remaining
        invariant forall i, j :: 0 <= i < j < |names| ==> names[i] != names[j]
        invariant |names| + |remaining| == |tables|
        decreases |remaining|
      {
        var k :| k in remaining;
        names := names + [k];
        remaining := remaining - {k};
      }
    }

    /** getTables: one table per folded name, in an order the model leaves open. */
    method GetTables() returns (ts: seq<Table>)
      ensures |ts| == |tables|
      ensures forall t :: t in ts ==> t in tables.Values
      ensures forall k :: k in tables ==> tables[k] in ts
      ensures DistinctTables() ==> forall i, j :: 0 <= i < j < |ts| ==> ts[i] != ts[j]
    {
      var names := GetTableNames();
      var byName := tables;
      ts := seq(|names|, i requires 0 <= i < |names| => byName[names[i]]);
      forall k | k in tables
        ensures tables[k] in ts
      {
        var i :| 0 <= i < |names| && names[i] == k;
        assert ts[i] == tables[k];
      }
    }

    /** After construction every table name is upper case and is the folded name of some document entry. */
    lemma TableNamesAreFolded()
      requires Valid()
      ensures forall k :: k in tables ==> HasNoLowerCase(k) && exists i :: 0 <= i < |source| && Upper(source[i].0) == k
    {
      BuildKeys(source);
      BuildNamesFolded(source);
      assert Contents().Keys == tables.Keys;
    }

    /**
     * Table names are case-insensitive: names equal up to case find the same
     * table, the folded name among them, and the data set says so.
     */
    lemma TableNamesIgnoreCase(a: string, b: string)
      requires Upper(a) == Upper(b)
      ensures GetTable(a) == GetTable(b) == GetTable(Upper(a))
      ensures !IsCaseSensitiveTableNames()
    {
      UpperIdempotent(a);
    }

    /** getTable finds a table exactly when some entry of the document has that folded name. */
    lemma GetTableFindsDocumentEntry(tableName: string)
      requires Valid()
      ensures GetTable(tableName).Some? <==> exists i :: 0 <= i < |source| && Upper(source[i].0) == Upper(tableName)
    {
      BuildKeys(source);
      assert Contents().Keys == tables.Keys;
    }

    /** getTable with an entry's name finds the table built from the last entry with that folded name. */
    lemma GetTableBuiltFromLatest(i: int)
      requires Valid()
      requires IsLatest(source, i)
      ensures GetTable(source[i].0).Some?
      ensures GetTable(source[i].0).value.Snapshot() == TableOf(Upper(source[i].0), source[i].1)
    {
      BuildLatestWins(source, i);
      assert Upper(source[i].0) in Contents();
    }

    /**
     * The table getTable finds for an entry is the one built from the last
     * entry with that folded name: its name is folded, its columns are that
     * entry's first-row names, it has one row per input row, and reading a
     * cell gives the last value whose name folds to the column's.
     */
    lemma GetTableReadsLatestEntry(i: int)
      requires Valid()
      requires IsLatest(source, i)
      ensures GetTable(source[i].0).Some?
      ensures var t := GetTable(source[i].0).value; var rows := source[i].1;
        && t.name == Upper(source[i].0)
        && t.GetTableMetaData().tableName == Upper(source[i].0)
        && (|rows| == 0 ==> ColumnNames(t.GetTableMetaData()) == None)
        && (|rows| > 0 ==> ColumnNames(t.GetTableMetaData()) == Some(Keys(rows[0])))
        && t.RowCount() == |rows|
        && (forall row, column :: 0 <= row < |rows| ==>
              t.GetValue(row, column) == Success(LastMatch(rows[row], Upper(column))))
        && (forall row, column :: row >= |rows| ==>
              t.GetValue(row, column) == Failure(RowOutOfBounds(row)))
    {
      GetTableBuiltFromLatest(i);
      GetTable(source[i].0).value.ReadsBuiltRows(Upper(source[i].0), source[i].1);
    }
  }
}
