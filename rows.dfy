/**
 * Rows of a table. The parser hands each row over as a mapping from column
 * name to value, in document order; the data set stores it with every key
 * upper-cased (MyTable.convertMap).
 */
module Rows {
  import opened CaseFold

  /** A cell value, carried through untouched; Null is Java's null. */
  datatype Value = Null | Scalar(text: string)

  /** One parsed row: its (column name, value) entries in document order. */
  type Row = seq<(string, Value)>

  /** The column names of a row, in document order and in their original case. */
  function Keys(row: Row): seq<string> {
    seq(|row|, i requires 0 <= i < |row| => row[i].0)
  }

  /** Map.get: the value stored under the key, or null when the key is absent. */
  function Lookup(m: map<string, Value>, key: string): Value {
    if key in m then m[key] else Null
  }

  /**
   * Reference reading of a row under a folded key: the value of the last
   * entry whose name folds to that key, or null when there is none.
   */
  function LastMatch(row: Row, key: string): Value
    decreases |row|
  {
    if row == [] then Null
    else if Upper(row[|row| - 1].0) == key then row[|row| - 1].1
    else LastMatch(row[..|row| - 1], key)
  }

  /**
   * The stored form of a row: every key upper-cased; of two entries whose
   * names fold to the same key, the later one is kept.
   */
  function Folded(row: Row): (m: map<string, Value>)
    ensures forall k :: k in m ==> HasNoLowerCase(k)
    ensures forall i :: 0 <= i < |row| ==> Upper(row[i].0) in m
    ensures |m| <= |row|
  {
    if row == [] then map[]
    else Folded(row[..|row| - 1])[Upper(row[|row| - 1].0) := row[|row| - 1].1]
  }

  /** MyTable.convertMap: fills a fresh map with the row's entries under upper-cased keys. */
  method ConvertMap(values: Row) returns (ret: map<string, Value>)
    ensures ret == Folded(values)
  {
    ret := map[];
    for i := 0 to |values|
      invariant ret == Folded(values[..i])
    {
      assert values[..i + 1][..i] == values[..i];
      ret := ret[Upper(values[i].0) := values[i].1];
    }
    assert values[..|values|] == values;
  }

  /** The stored keys are exactly the folded names of the row's entries. */
  lemma {:induction false} FoldedKeys(row: Row)
    ensures Folded(row).Keys == set i | 0 <= i < |row| :: Upper(row[i].0)
  {
    if row != [] {
      var init := row[..|row| - 1];
      FoldedKeys(init);
      assert forall i :: 0 <= i < |init| ==> init[i] == row[i];
    }
  }

  /** Reading the stored row under a key gives the last entry that folds to that key. */
  lemma {:induction false} FoldedLookup(row: Row, key: string)
    ensures Lookup(Folded(row), key) == LastMatch(row, key)
  {
    if row != [] {
      FoldedLookup(row[..|row| - 1], key);
    }
  }

  /** The entry at index i is the last one whose name folds to its folded name. */
  ghost predicate IsLastOfFold(row: Row, i: int) {
    0 <= i < |row| &&
    forall j :: i < j < |row| ==> Upper(row[j].0) != Upper(row[i].0)
  }

  /** LastMatch finds the last entry with the folded name. */
  lemma {:induction false} LastMatchFinds(row: Row, i: int)
    requires IsLastOfFold(row, i)
    ensures LastMatch(row, Upper(row[i].0)) == row[i].1
    decreases |row|
  {
    if i < |row| - 1 {
      var init := row[..|row| - 1];
      assert init[i] == row[i];
      assert IsLastOfFold(init, i);
      LastMatchFinds(init, i);
    }
  }

  /**
   * Each entry's value is stored under its upper-cased name, unless a later
   * entry's name folds to the same key: then that later value survives.
   */
  lemma FoldedKeepsLastValue(row: Row, i: int)
    requires IsLastOfFold(row, i)
    ensures Upper(row[i].0) in Folded(row)
    ensures Folded(row)[Upper(row[i].0)] == row[i].1
  {
    FoldedLookup(row, Upper(row[i].0));
    LastMatchFinds(row, i);
  }

  /** Whatever is stored under a key came from an entry whose name folds to it. */
  lemma {:induction false} FoldedValueHasSource(row: Row, key: string)
    requires key in Folded(row)
    ensures exists i :: 0 <= i < |row| && Upper(row[i].0) == key && Folded(row)[key] == row[i].1
  {
    var last := |row| - 1;
    if Upper(row[last].0) != key {
      var init := row[..last];
      FoldedValueHasSource(init, key);
      var i :| 0 <= i < |init| && Upper(init[i].0) == key && Folded(init)[key] == init[i].1;
      assert row[i] == init[i];
    }
  }
}
