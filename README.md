# YamlDataSet in Dafny

A model of the in-memory fixture data set of deltaspike-dbunit. `YamlDataSet` takes a
parsed YAML fixture document, which maps table names to lists of rows. It turns that
document into a set of tables whose names and columns are case-insensitive. Each table
(`MyTable` in the source, `Tables.Table` here) has three parts:

- a name;
- metadata, with the column list taken from the first row;
- the rows, each stored with its column names upper-cased.

The comparison engine reads the data set through `getTable`, `getTableMetaData`,
`getTableNames`, `getTables`, `getValue` and `getRowCount`.

Layout:

- `wrappers.dfy`: `Option` (Java's `null`) and `Result` (a value or the exception thrown).
- `case_fold.dfy`: `Upper`, the ASCII model of `String.toUpperCase`, and its idempotence.
- `rows.dfy`: cell values and parsed rows; `Folded` specifies `convertMap`, and the
  method `ConvertMap` is its loop. `LastMatch` is an independent reference reading of a
  row under a folded key.
- `tables.dfy`: column metadata (`CreateMeta`), the class `Table` (`MyTable`) with
  `AddRow`, `GetValue`, `RowCount` and `GetTableMetaData`, and the table value `TableOf`
  that building one yields.
- `yaml_data_set.dfy`: the class `YamlDataSet`, with its constructor loop, `CreateTable`
  and the accessors. `Build` is the pure definition of the whole construction.
  The lemmas tie what the accessors return to the input document.

The constructor is proved to leave `Contents() == Build(doc)`. Everything the accessors
promise after construction follows from the lemmas about `Build`.

Modelling choices:

- A row is the sequence of (column name, value) entries of the parsed map, in its
  iteration order, with distinct names, as a Java `Map` holds them. The YAML parser
  hands over insertion-ordered maps, so that order decides both the first row's column
  order and which of two names that fold to the same key wins. The document is the
  sequence of (table name, rows) entries of the parsed top-level map, in the same way.
  The model does not rely on the names being distinct; with repeated names the later
  entry wins, as it would in the loop.
- `Value` has a `Null` case. Java's `Map.get` returns `null` both for an absent key and
  for a key mapped to `null`, and `GetValue` reproduces that.
- `getValue` with a negative row passes the `RowOutOfBoundsException` guard. It then
  fails inside `ArrayList.get` with an `IndexOutOfBoundsException`, modelled as the
  error `IndexOutOfBounds`. No precondition excludes negative rows.

Behaviour of the code that the model keeps:

- A later table whose name folds to the same key replaces the earlier one without any
  error (YamlDataSet.java:41 and :100).
- `getTable` of an unknown name returns `null` (`None`); it raises nothing
  (YamlDataSet.java:104-106), and `getTableMetaData` does the same (:108-114).
- A table's name, its metadata's table name and every name `getTableNames` returns are
  the upper-cased name, not the name as written in the document (YamlDataSet.java:41,
  :55 and :116-118).
- A table with no rows has no column list at all (`null`), not an empty one
  (YamlDataSet.java:59-60 and :97).
- A column present only in a later row is stored and readable by name, but is not in the
  column list (YamlDataSet.java:79 and :97).

## Model

| member | source | states |
|---|---|---|
| CaseFold.UpperChar | deltaspike-dbunit/src/main/java/com/github/deltaspikedbunit/dataset/YamlDataSet.java:41 | a folded character is never a lower-case letter; other characters are kept and a-z move to A-Z |
| CaseFold.Upper | deltaspike-dbunit/src/main/java/com/github/deltaspikedbunit/dataset/YamlDataSet.java:41 | folding keeps the length, folds each character in place and leaves no lower-case letter |
| CaseFold.UpperKeepsUpper | deltaspike-dbunit/src/main/java/com/github/deltaspikedbunit/dataset/YamlDataSet.java:100 | a name with no lower-case letter is its own folded form |
| CaseFold.UpperIdempotent | deltaspike-dbunit/src/main/java/com/github/deltaspikedbunit/dataset/YamlDataSet.java:100 | folding twice is folding once, so upper-casing the already folded table name again does not change the key |
| CaseFold.UpperIgnoresCase | deltaspike-dbunit/src/main/java/com/github/deltaspikedbunit/dataset/YamlDataSet.java:105 | two names fold to the same key exactly when, position by position, they are equal or differ only in the case of an ASCII letter |
| Rows.Folded | deltaspike-dbunit/src/main/java/com/github/deltaspikedbunit/dataset/YamlDataSet.java:86-91 | every key of a converted row is upper case, every input name's folded form is a key, and there are no more keys than entries |
| Rows.ConvertMap | deltaspike-dbunit/src/main/java/com/github/deltaspikedbunit/dataset/YamlDataSet.java:86-91 | the loop that fills a fresh map with upper-cased keys produces exactly the converted row `Folded(values)` |
| Rows.FoldedKeys | deltaspike-dbunit/src/main/java/com/github/deltaspikedbunit/dataset/YamlDataSet.java:86-91 | the keys of a converted row are exactly the folded names of its entries |
| Rows.FoldedLookup | deltaspike-dbunit/src/main/java/com/github/deltaspikedbunit/dataset/YamlDataSet.java:79-91 | reading a converted row under a key agrees with the reference reading: the last entry whose name folds to that key, or null |
| Rows.LastMatchFinds | deltaspike-dbunit/src/main/java/com/github/deltaspikedbunit/dataset/YamlDataSet.java:88-90 | the reference reading under an entry's folded name gives that entry's value when no later entry folds to the same name |
| Rows.FoldedKeepsLastValue | deltaspike-dbunit/src/main/java/com/github/deltaspikedbunit/dataset/YamlDataSet.java:88-90 | each value is stored under its upper-cased name unless a later colliding entry overwrote it; of colliding entries the last survives |
| Rows.FoldedValueHasSource | deltaspike-dbunit/src/main/java/com/github/deltaspikedbunit/dataset/YamlDataSet.java:88-90 | every stored value comes from an input entry whose name folds to its key |
| Tables.CreateMeta | deltaspike-dbunit/src/main/java/com/github/deltaspikedbunit/dataset/YamlDataSet.java:58-66 | the metadata carries the table name and one column per given name, in order; no column list when the names are null |
| Tables.FoldedRows | deltaspike-dbunit/src/main/java/com/github/deltaspikedbunit/dataset/YamlDataSet.java:98-99 | the stored rows are one converted row per input row, in input order |
| Tables.NewTable | deltaspike-dbunit/src/main/java/com/github/deltaspikedbunit/dataset/YamlDataSet.java:97-99 | a fresh table with the given name, metadata reporting that name, columns from the first row's names (none without rows), and the converted input rows, in order |
| Tables.Table.constructor | deltaspike-dbunit/src/main/java/com/github/deltaspikedbunit/dataset/YamlDataSet.java:52-56 | a new table has the given name, no rows, and metadata with that name and the given column names |
| Tables.Table.AddRow | deltaspike-dbunit/src/main/java/com/github/deltaspikedbunit/dataset/YamlDataSet.java:82-84 | appends exactly the converted row and changes nothing else |
| Tables.Table.GetValue | deltaspike-dbunit/src/main/java/com/github/deltaspikedbunit/dataset/YamlDataSet.java:76-80 | succeeds exactly for rows 0 to getRowCount()-1; RowOutOfBounds exactly for a row at or past the end; otherwise non-null exactly when the row holds a non-null value under the folded column |
| Tables.Table.GetValueIgnoresCase | deltaspike-dbunit/src/main/java/com/github/deltaspikedbunit/dataset/YamlDataSet.java:79 | getValue(r, c) equals getValue(r, upper(c)) |
| Tables.Table.ReadsBuiltRows | deltaspike-dbunit/src/main/java/com/github/deltaspikedbunit/dataset/YamlDataSet.java:68-80 | for a table built from given rows: its name and its metadata's table name are the given name, columns are the first row's names (null for no rows), the row count is the number of input rows, each cell reads the last value whose name folds to the column, and rows past the end fail |
| YamlDataSets.BuildKeys | deltaspike-dbunit/src/main/java/com/github/deltaspikedbunit/dataset/YamlDataSet.java:38-42 | the table keys are exactly the upper-cased names of the document's entries |
| YamlDataSets.BuildLatestWins | deltaspike-dbunit/src/main/java/com/github/deltaspikedbunit/dataset/YamlDataSet.java:100 | the table under a folded name is built from the last entry with that folded name; earlier ones are overwritten |
| YamlDataSets.BuildHasLatest | deltaspike-dbunit/src/main/java/com/github/deltaspikedbunit/dataset/YamlDataSet.java:38-42 | every stored table comes from the last document entry with its folded name |
| YamlDataSets.BuildNamesFolded | deltaspike-dbunit/src/main/java/com/github/deltaspikedbunit/dataset/YamlDataSet.java:41 | every key is upper case and is both the stored table's name and its metadata's table name |
| YamlDataSets.UsersExample | deltaspike-dbunit/src/main/java/com/github/deltaspikedbunit/dataset/YamlDataSet.java:96-100 | a users table with a second row holding an extra column: one table USERS with columns [id, name] and two rows; row 0 has no note, and row 1's note is readable by name |
| YamlDataSets.YamlDataSet.constructor | deltaspike-dbunit/src/main/java/com/github/deltaspikedbunit/dataset/YamlDataSet.java:35-43 | after the loop over the entries the tables are `Build(doc)`, keyed by exactly the folded entry names, each a fresh table object and no object stored under two names |
| YamlDataSets.YamlDataSet.CreateTable | deltaspike-dbunit/src/main/java/com/github/deltaspikedbunit/dataset/YamlDataSet.java:96-102 | stores a fresh table built from the rows (name and metadata name as given, first-row columns, converted rows) under the folded name, replacing any earlier one, and leaves every other table as it was |
| YamlDataSets.YamlDataSet.GetTableMetaData | deltaspike-dbunit/src/main/java/com/github/deltaspikedbunit/dataset/YamlDataSet.java:108-114 | null exactly when getTable finds nothing, otherwise that table's metadata |
| YamlDataSets.YamlDataSet.GetTableNames | deltaspike-dbunit/src/main/java/com/github/deltaspikedbunit/dataset/YamlDataSet.java:116-118 | as many names as tables, each a key of the table map, every key present and none repeated |
| YamlDataSets.YamlDataSet.GetTables | deltaspike-dbunit/src/main/java/com/github/deltaspikedbunit/dataset/YamlDataSet.java:120-122 | as many tables as keys, each a stored table and every stored table present; when no table is stored under two names (as after construction), none is repeated |
| YamlDataSets.YamlDataSet.TableNamesAreFolded | deltaspike-dbunit/src/main/java/com/github/deltaspikedbunit/dataset/YamlDataSet.java:116-118 | after construction every table name is upper case and is the folded name of some document entry |
| YamlDataSets.YamlDataSet.TableNamesIgnoreCase | deltaspike-dbunit/src/main/java/com/github/deltaspikedbunit/dataset/YamlDataSet.java:104-106 | names equal up to case find the same table as their folded form, and isCaseSensitiveTableNames is false |
| YamlDataSets.YamlDataSet.GetTableFindsDocumentEntry | deltaspike-dbunit/src/main/java/com/github/deltaspikedbunit/dataset/YamlDataSet.java:104-106 | getTable finds a table exactly when some document entry has the same folded name; otherwise null, not an error |
| YamlDataSets.YamlDataSet.GetTableBuiltFromLatest | deltaspike-dbunit/src/main/java/com/github/deltaspikedbunit/dataset/YamlDataSet.java:104-106 | getTable with an entry's name returns the table built from the last entry with that folded name |
| YamlDataSets.YamlDataSet.GetTableReadsLatestEntry | deltaspike-dbunit/src/main/java/com/github/deltaspikedbunit/dataset/YamlDataSet.java:68-80 | through getTable, the found table and its metadata carry the folded name, the metadata has the first row's columns, there is one row per input row, cells read the last value folding to the column, and rows past the end give RowOutOfBounds |

## Left out

- YAML parsing and the stream (`new Yaml().load(source)`): the constructor takes the parsed document. A document of the wrong shape makes Java throw a `ClassCastException`; that case is not modelled.
- `String.toUpperCase` is locale- and Unicode-aware (for example, one character can become two). `Upper` folds only ASCII a-z.
- Column data types: every dbunit `Column` is built with `DataType.UNKNOWN`, so `Column` carries only its name. `DefaultTableMetaData`'s own behaviour is dbunit code and is not part of this model.
- `iterator` and `reverseIterator` wrap `getTables()` in dbunit's `DefaultTableIterator`, which is not part of this model.
- YamlDataSets.YamlDataSet.GetTables: does not state that its order matches getTableNames'. HashMap iteration order is unspecified, so both methods leave the order open.
- `null` inputs (a `null` document, which is what an empty YAML stream parses to, or a `null` table name, column name, row list or row) make Java throw a `NullPointerException`. Dafny values cannot be `null`, so these cases do not arise.
- `int` overflow of the row index is not modelled; rows are unbounded integers.
- `getRowCount` (`Tables.Table.RowCount`), `isCaseSensitiveTableNames` (`YamlDataSets.YamlDataSet.IsCaseSensitiveTableNames`), `getTable` (`YamlDataSets.YamlDataSet.GetTable`) and `MyTable.getTableMetaData` (`Tables.Table.GetTableMetaData`) carry no contract of their own. Their meaning is stated by other members:
  - `Tables.Table.ReadsBuiltRows` and `Tables.Table.GetValue` for the row count;
  - `YamlDataSets.YamlDataSet.TableNamesIgnoreCase` for case-insensitivity;
  - `YamlDataSets.YamlDataSet.GetTableFindsDocumentEntry`, `YamlDataSets.YamlDataSet.GetTableBuiltFromLatest` and `YamlDataSets.YamlDataSet.GetTableReadsLatestEntry` for what `getTable` finds;
  - `YamlDataSets.YamlDataSet.GetTableMetaData`, `Tables.Table.ReadsBuiltRows` and `YamlDataSets.YamlDataSet.GetTableReadsLatestEntry` for a table's metadata.
- Once the data set is built, nothing in the model stops a caller from calling `Table.AddRow` or `YamlDataSet.CreateTable` and breaking `Valid()`. In Java these cannot be reached from outside the package: `MyTable` and `createTable` are package-private, and `getTable` returns an `ITable` with no `addRow`. The model does not enforce that the data set stays unchanged after construction.
- `ExpectedDatabase` is an annotation declaration with default values only. Its expectation-merging and modifier-chain rules are not implemented in this source, so there is nothing to model.
