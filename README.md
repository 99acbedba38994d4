# MySQLDiff differencing engine, modelled in Dafny

MySQLDiff compares two MySQL databases and prints one SQL script for each
side. The script for database 1 brings it up to database 2, and the script
for database 2 brings it up to database 1. Tables that only one side has are
created on the other side and filled with their rows. Columns that only one
side of a shared table has are added to the other side with
`ALTER TABLE … ADD COLUMN … AFTER …` (or `FIRST`). Rows that only one side
has, compared as whole rows, are inserted there. Nothing is ever dropped,
deleted or updated.

The project models the class `MySQLDiff` in `lib/mysqldiff/mysqldiff.rb`:

- **`wrappers.dfy`**: `Option`, standing for Ruby's nil.
- **`ruby_core.dfy`** (module `RubyCore`): the Ruby array operations the engine relies on:
  - `reject { include? }` is `Without`;
  - `&` is `Intersect`;
  - `|` is `Union` and `Dedup`;
  - `index` is `Index`, and `at` with its negative indices is `At`;
  - `join` is `Join`;
  - `=~ /int/` is `Matches`.

  What each comes with:
  - `Without`: membership in both directions, multiplicity, order, and an empty result when `b` covers `a`;
  - `Intersect`: membership in both directions, no repeats, and `a`'s order;
  - `Dedup`: membership in both directions, no repeats, the order of `s`, first occurrences kept, and no change to a list without repeats;
  - `Union`: membership in both directions and no repeats; for an `a` without repeats it is `a` followed by `b`'s new elements;
  - `Index`: found exactly when present, at the first occurrence;
  - `At`: a definition only, whose use is proved in `Sql.PredecessorRule`;
  - `Join`: its one-item-more step and its separator count;
  - `Matches`: success exactly when the pattern occurs somewhere.
- **`sql.dfy`** (module `Sql`): the statement text.
  - `map_values`;
  - the INSERT of `to_insert`;
  - the column lines and CREATE TABLE of `create_table`;
  - the ALTER lines of `compare_columns`, including the predecessor lookup `at(index(c) - 1)`.
- **`mysqldiff.dfy`** (module `Diff`): the differ itself.
  - Spec functions give the text each comparison appends (`Db1Text`, `Db2Text` and their parts), the layouts it records (`LayoutsAfter`) and what `run` prints (`Assemble`).
  - `class MySqlDiff` has the Ruby object's state: the two configurations, the two output buffers and `@columns`.
  - Its methods do what the Ruby methods do, step by step and in the same order. Each is proved to append exactly the text its spec function gives and to record exactly the layouts `LayoutsAfter` gives.
  - The buffers are objects of class `Buffer`, because the Ruby helpers receive the output String by reference and append to it with `<<`.
- **`properties.dfy`** (module `DiffProperties`): what that text and those layouts amount to:
  - the table partition;
  - the layout recorded for every kind of table;
  - the ALTER placement, including the wrap-round of the first column;
  - the blank line carried over by the misspelt reset of `changes`;
  - the row difference with multiplicities;
  - identical databases giving `-- Databases Synchronized.`;
  - the shape of the printed report.

Modelling decisions:

- **Database reads.** A database is a `Snapshot`: what `show tables`, `DESCRIBE t` and `SELECT * FROM t` return.
  - A table name is a string. Under Ruby 1.8 a `show tables` row interpolates and compares as its one string.
  - A DESCRIBE row is a `ColumnEntry` of six optional strings, and two entries are equal only when all six agree.
  - A SELECT row is a map from column name to optional value, compared as a whole, as Ruby compares hashes.
- **`escape_string`.** `@db1.escape_string` is a function parameter `escape` that the model does not interpret. It is always database 1's connection, as in the source.
- **The predecessor.** The predecessor of a column added in `compare_columns` is `src.at(src.index(c) - 1)`, as written. For a column that comes first in its table, the index is -1, which Ruby reads as the LAST entry of the table. So such a column is placed AFTER the last column rather than FIRST. `FIRST` is written only when the predecessor's name is nil.
- **The misspelt `changes` reset.** The second `changes = false` in `compare_columns` assigns a misspelt variable. So database 2 gets a blank line after its ALTERs whenever either side needed a column (`AlterBlock2`).
- **Rendering details kept from the source.**
  - `" FIRST"` has no `;`.
  - `DEFAULT NULL` is written for any column whose Null is `YES`, primary key or not.
  - A `NO` column outside the primary key gets `" DEFAULT "` followed by the default's text, which is empty for nil.
  - Extra is written, after a space, unless it is the empty string.
- **Report text.** `Run` returns the text `run` prints from line 44 on. `puts` adds a newline unless the text already ends with one.

## Model

| member | source | states |
|---|---|---|
| `RubyCore.Without` | lib/mysqldiff/mysqldiff.rb:124-125 | `a.reject { b.include? }` keeps only elements of `a` not in `b` and is no longer than `a` |
| `RubyCore.WithoutMultiplicity` | lib/mysqldiff/mysqldiff.rb:198-211 | each element keeps its number of copies in `a`, unless `b` holds it, in which case none is kept |
| `RubyCore.WithoutMembership` | lib/mysqldiff/mysqldiff.rb:157-158 | an element is kept exactly when it is in `a` and not in `b` |
| `RubyCore.WithoutInOrder` | lib/mysqldiff/mysqldiff.rb:161 | what `reject` keeps stays in `a`'s order, a subsequence of `a` |
| `RubyCore.WithoutCovered` | lib/mysqldiff/mysqldiff.rb:124-125 | when every element of `a` occurs in `b`, nothing is left |
| `RubyCore.Intersect` | lib/mysqldiff/mysqldiff.rb:139 | `a & b` holds exactly the elements in both, each once |
| `RubyCore.IntersectInOrder` | lib/mysqldiff/mysqldiff.rb:139 | `a & b` keeps `a`'s order |
| `RubyCore.Dedup` | lib/mysqldiff/mysqldiff.rb:187 | the elements of `s`, and only those, each once |
| `RubyCore.DedupInOrder` | lib/mysqldiff/mysqldiff.rb:187 | the result keeps the order of `s`, a subsequence of `s` |
| `RubyCore.DedupFirstOccurrences` | lib/mysqldiff/mysqldiff.rb:187 | first occurrences are kept: of two elements of the result, the one whose first occurrence in `s` is earlier comes first |
| `RubyCore.DedupOfDistinct` | lib/mysqldiff/mysqldiff.rb:187 | a list without repeats is left as it is |
| `RubyCore.Union` | lib/mysqldiff/mysqldiff.rb:187 | the union of `a` and `b` holds exactly the elements of either, each once |
| `RubyCore.UnionExtends` | lib/mysqldiff/mysqldiff.rb:187 | for an `a` without repeats, the union of `a` and `b` is `a` followed by `b`'s new elements in `b`'s order, each once |
| `RubyCore.Index` | lib/mysqldiff/mysqldiff.rb:163 | `index` finds `x` exactly when it occurs, at its first position |
| `RubyCore.JoinSeparators` | lib/mysqldiff/mysqldiff.rb:233 | joining comma-free items with `,` puts one comma between each pair and no other |
| `RubyCore.MatchesIffOccurs` | lib/mysqldiff/mysqldiff.rb:244 | `=~ /int/` succeeds exactly when "int" occurs somewhere in the type |
| `Sql.FormatValueByType` | lib/mysqldiff/mysqldiff.rb:241-251 | nil gives NULL; a value is written raw under a type containing "int"; under any other type it is escaped and quoted |
| `Sql.InsertArity` | lib/mysqldiff/mysqldiff.rb:232-235 | names and values come from the same layout, one each per column in the same order, with equal comma counts when the items are comma-free |
| `Sql.OnlyInserts` | lib/mysqldiff/mysqldiff.rb:235 | one statement per row, each an INSERT into the table |
| `Sql.ModifierRules` | lib/mysqldiff/mysqldiff.rb:264-267 | when each of primary key, DEFAULT NULL, DEFAULT value and Extra is written, both directions, with the texts used |
| `Sql.ModifiersText` | lib/mysqldiff/mysqldiff.rb:264-267 | the modifiers appear in the order the four conditional appends write them |
| `Sql.CreateTableShape` | lib/mysqldiff/mysqldiff.rb:256-269 | CREATE TABLE opens with the table name and ends with `\n);\n\n`; one definition per DESCRIBE row starting with tab, name and type |
| `Sql.PredecessorRule` | lib/mysqldiff/mysqldiff.rb:163 | the predecessor is the entry before the column's first occurrence, or the last entry for a column at index 0 |
| `Sql.InsertStatements` | lib/mysqldiff/mysqldiff.rb:222-225 | definition of the INSERT of each row, in row order; see `Sql.InsertStatementsSnoc`, `Sql.OnlyInserts` |
| `Sql.AlterLines` | lib/mysqldiff/mysqldiff.rb:161-169 | definition of the ALTER of each missing column, in order; see `Sql.AlterLinesSnoc`, `DiffProperties.OneAlter` |
| `Sql.InsertStatementsSnoc` | lib/mysqldiff/mysqldiff.rb:222-225 | one more row appends one more INSERT at the end |
| `Sql.AlterLinesSnoc` | lib/mysqldiff/mysqldiff.rb:161-169 | one more missing column appends one more ALTER at the end |
| `RubyCore.At` | lib/mysqldiff/mysqldiff.rb:163 | definition of `Array#at`, negative indices counting from the end; see `Sql.PredecessorRule` |
| `RubyCore.Join` | lib/mysqldiff/mysqldiff.rb:233 | definition of `Array#join`; see `RubyCore.JoinSnoc`, `RubyCore.JoinSeparators` |
| `RubyCore.JoinSnoc` | lib/mysqldiff/mysqldiff.rb:233 | joining one item more adds the separator, unless the list was empty, then the item |
| `RubyCore.Matches` | lib/mysqldiff/mysqldiff.rb:245 | definition of `=~` for a plain pattern; see `RubyCore.MatchesIffOccurs` |
| `Sql.Text` | lib/mysqldiff/mysqldiff.rb:263 | definition of `"#{v}"`, nil giving empty text; see `Sql.ModifierRules`, `Sql.InsertArity` |
| `Sql.Lookup` | lib/mysqldiff/mysqldiff.rb:246-248 | definition of `row[v[0]]`, nil for a nil or absent name; see `Sql.FormatValueByType` |
| `Sql.IsIntType` | lib/mysqldiff/mysqldiff.rb:244-245 | definition of `case v[1] when /int/`, nil never matching; see `Sql.FormatValueByType` |
| `Sql.ColumnNames` | lib/mysqldiff/mysqldiff.rb:233 | definition of `map` taking each entry's name; see `Sql.InsertArity` |
| `Diff.Section` | lib/mysqldiff/mysqldiff.rb:44-47 | definition of one `use` line and buffer as `puts` writes them; see `DiffProperties.UseMarkers`, `DiffProperties.SynchronizedMarker` |
| `Sql.FormatValue` | lib/mysqldiff/mysqldiff.rb:243-248 | definition of one value of `map_values`; see `Sql.FormatValueByType` |
| `Sql.ValueList` | lib/mysqldiff/mysqldiff.rb:242-250 | definition of the `columns.map` of `map_values`, one literal per column; see `Sql.InsertArity` |
| `Sql.MapValues` | lib/mysqldiff/mysqldiff.rb:241-251 | definition of `map_values`; see `Sql.InsertArity` |
| `Sql.InsertStatement` | lib/mysqldiff/mysqldiff.rb:232-235 | definition of the INSERT text; see `Sql.InsertArity`, `Sql.OnlyInserts` |
| `Sql.Modifiers` | lib/mysqldiff/mysqldiff.rb:264-267 | definition of the column modifiers; see `Sql.ModifierRules`, `Sql.ModifiersText` |
| `Sql.ColumnDefinitions` | lib/mysqldiff/mysqldiff.rb:261-267 | definition of one column line per DESCRIBE row, in order; see `Sql.CreateTableShape` |
| `Sql.ColumnDefinition` | lib/mysqldiff/mysqldiff.rb:263-267 | definition of one column line; see `Sql.CreateTableShape` |
| `Sql.CreateTableText` | lib/mysqldiff/mysqldiff.rb:258-269 | definition of the CREATE TABLE text; see `Sql.CreateTableShape` |
| `Sql.Predecessor` | lib/mysqldiff/mysqldiff.rb:163 | definition of `at(index(c) - 1)`; see `Sql.PredecessorRule` |
| `Sql.AlterLine` | lib/mysqldiff/mysqldiff.rb:163-167 | definition of one ALTER line; see `DiffProperties.ColumnAddedAfterPredecessor`, `DiffProperties.FirstColumnWrapsAround` |
| `Diff.InsertBlock` | lib/mysqldiff/mysqldiff.rb:219-227 | definition of the rows' INSERTs and their blank line; see `DiffProperties.RowDifference` |
| `Diff.AlterBlock1` | lib/mysqldiff/mysqldiff.rb:161-170 | definition of database 1's ALTERs; see `DiffProperties.FirstColumnWrapsAround` |
| `Diff.AlterBlock2` | lib/mysqldiff/mysqldiff.rb:172-182 | definition of database 2's ALTERs, blank line carried over by the misspelt reset; see `DiffProperties.BlankLineCarriesOver` |
| `Diff.OneSidedText` | lib/mysqldiff/mysqldiff.rb:128-136 | definition of the text for one-sided tables; see `Diff.MySqlDiff.AddTables` |
| `Diff.SharedText1` | lib/mysqldiff/mysqldiff.rb:140-146 | definition of database 1's text for shared tables; see `DiffProperties.SharedTextOfIdentical` |
| `Diff.SharedText2` | lib/mysqldiff/mysqldiff.rb:140-146 | definition of database 2's text for shared tables; see `DiffProperties.SharedTextOfIdentical` |
| `Diff.Db1Text` | lib/mysqldiff/mysqldiff.rb:119-147 | definition of everything `compare_schema` writes for database 1; see `DiffProperties.IdenticalDatabases` |
| `Diff.Db2Text` | lib/mysqldiff/mysqldiff.rb:119-147 | definition of everything `compare_schema` writes for database 2; see `DiffProperties.IdenticalDatabases` |
| `Diff.Adopt` | lib/mysqldiff/mysqldiff.rb:128-136 | definition of the layouts recorded for one-sided tables; see `DiffProperties.AdoptLookup` |
| `Diff.Merge` | lib/mysqldiff/mysqldiff.rb:187 | definition of the layouts recorded for shared tables; see `DiffProperties.MergeLookup` |
| `Diff.LayoutsAfter` | lib/mysqldiff/mysqldiff.rb:119-147 | definition of `@columns` after `compare_schema`; see `DiffProperties.LayoutsAfterSchema` |
| `Diff.Puts` | lib/mysqldiff/mysqldiff.rb:45 | `puts` writes the text and then a newline unless it already ends with one: the result extends the text by at most one character and ends with a newline |
| `Diff.Assemble` | lib/mysqldiff/mysqldiff.rb:44-50 | definition of the report; see `DiffProperties.UseMarkers`, `DiffProperties.SynchronizedMarker` |
| `Diff.Buffer.Append` | lib/mysqldiff/mysqldiff.rb:164 | `<<` appends to the string and changes nothing else |
| `Diff.MySqlDiff.constructor` | lib/mysqldiff/mysqldiff.rb:14-27 | empty buffers and layouts; equal configurations leave both databases unset |
| `Diff.MySqlDiff.CreateTable` | lib/mysqldiff/mysqldiff.rb:256-272 | appends exactly the CREATE TABLE text for the DESCRIBE rows and returns those rows |
| `Diff.MySqlDiff.EmitColumn` | lib/mysqldiff/mysqldiff.rb:263-267 | appends exactly one column definition |
| `Diff.MySqlDiff.InsertData` | lib/mysqldiff/mysqldiff.rb:219-227 | appends one INSERT per row in order, then a blank line if there were rows |
| `Diff.MySqlDiff.ToInsert` | lib/mysqldiff/mysqldiff.rb:232-236 | appends one INSERT whose names and values both come from `@columns[table]` |
| `Diff.MySqlDiff.EmitAlter` | lib/mysqldiff/mysqldiff.rb:163-167 | appends one ALTER placed after the predecessor, or FIRST |
| `Diff.MySqlDiff.AlterEach` | lib/mysqldiff/mysqldiff.rb:161-169 | appends one ALTER per missing column in order and sets `changes` once any is written |
| `Diff.MySqlDiff.CompareColumns` | lib/mysqldiff/mysqldiff.rb:152-188 | appends `AlterBlock1`/`AlterBlock2` to the two scripts and records the union of `t1_cols` and `t2_cols` |
| `Diff.MySqlDiff.CompareData` | lib/mysqldiff/mysqldiff.rb:193-213 | appends to each side an INSERT for every row the other has and it lacks, then a blank line if any |
| `Diff.MySqlDiff.AddTable` | lib/mysqldiff/mysqldiff.rb:129-130 | CREATE TABLE then INSERTs for one table, recording its DESCRIBE rows as its layout |
| `Diff.MySqlDiff.AddTables` | lib/mysqldiff/mysqldiff.rb:128-136 | does that for every one-sided table in order, building `OneSidedText` and `Adopt` |
| `Diff.MySqlDiff.CompareTable` | lib/mysqldiff/mysqldiff.rb:140-146 | compares the columns, then the data, of one shared table |
| `Diff.MySqlDiff.CompareShared` | lib/mysqldiff/mysqldiff.rb:139-146 | does that for every shared table in order, building `SharedText1`/`SharedText2` and `Merge` |
| `Diff.MySqlDiff.CompareSchema` | lib/mysqldiff/mysqldiff.rb:119-147 | appends exactly `Db1Text` and `Db2Text` and leaves the layouts `LayoutsAfter` gives |
| `Diff.MySqlDiff.Run` | lib/mysqldiff/mysqldiff.rb:29-51 | nothing at all, and nothing read, without both databases; otherwise the comparison, then the report `Assemble` gives |
| `Diff.SameDatabaseTwice` | lib/mysqldiff/mysqldiff.rb:20-30 | a differ built from one configuration twice prints nothing |
| `DiffProperties.TablePartition` | lib/mysqldiff/mysqldiff.rb:124-139 | a table is one-sided for db1, one-sided for db2 or shared exactly by membership; each list keeps its order; `in_both` has no repeats |
| `DiffProperties.AdoptLookup` | lib/mysqldiff/mysqldiff.rb:129 | a created table's layout is the source's DESCRIBE; other entries stay |
| `DiffProperties.MergeLookup` | lib/mysqldiff/mysqldiff.rb:187 | a shared table's layout becomes the union of `t1_cols` and `t2_cols`; other entries stay |
| `DiffProperties.LayoutsAfterSchema` | lib/mysqldiff/mysqldiff.rb:128-146 | after the comparison: other side's DESCRIBE for one-sided tables, the union for shared ones, and unchanged for unlisted ones |
| `DiffProperties.SharedLayout` | lib/mysqldiff/mysqldiff.rb:187 | the shared layout is db1's columns followed by db2's new ones, and holds every column of either |
| `DiffProperties.OneAlter` | lib/mysqldiff/mysqldiff.rb:161-169 | one missing column gives exactly its own ALTER line |
| `DiffProperties.ColumnAddedAfterPredecessor` | lib/mysqldiff/mysqldiff.rb:173-182 | `[id,name,age]` against `[id,name]`: nothing for db1; for db2 `ADD COLUMN age int(11) AFTER name;` and a blank line |
| `DiffProperties.FirstColumnWrapsAround` | lib/mysqldiff/mysqldiff.rb:161-170 | a missing first column is placed AFTER the last column, not FIRST |
| `DiffProperties.BlankLineCarriesOver` | lib/mysqldiff/mysqldiff.rb:170-182 | when only db1 lacked a column, db2 still gets a lone blank line |
| `DiffProperties.RowDifference` | lib/mysqldiff/mysqldiff.rb:193-213 | the missing rows keep their multiplicity and order, one INSERT each, and none when every row is present |
| `DiffProperties.SharedTextOfIdentical` | lib/mysqldiff/mysqldiff.rb:140-146 | shared tables with equal columns and rows write nothing |
| `DiffProperties.IdenticalDatabases` | lib/mysqldiff/mysqldiff.rb:119-147 | identical databases give two empty scripts and the synchronized report |
| `DiffProperties.IdenticalDatabasesRun` | lib/mysqldiff/mysqldiff.rb:44-50 | two different configurations of identical databases print `-- Databases Synchronized.` then `-- Done.` |
| `DiffProperties.UseMarkers` | lib/mysqldiff/mysqldiff.rb:44-50 | `use db1;` leads exactly when script 1 is non-empty, `use db2;` follows exactly when script 2 is, and `-- Done.` is always last |
| `DiffProperties.SynchronizedMarker` | lib/mysqldiff/mysqldiff.rb:49 | the report is the synchronized one exactly when both scripts are empty; after the two sections comes `-- Databases Synchronized.` then `-- Done.` when both are empty, and `-- Done.` alone otherwise |

## Left out

- Connecting (`connect`, lines 56-73), with its defaults for host, port, user and password: a database is given as a snapshot of what it returns.
- Reassigning `@db1`/`@db2` to connections, so the configurations are constants of the class.
- `lock_table` and `unlock_table` (lines 79-99): the differ never calls them.
- `query` error handling (lines 104-114): a failed query prints to stderr and exits. The model has no process exit. It requires instead that every listed table can be described and selected from (`Complete`, and the `in` preconditions of the helpers).
- `to_array` / `to_hash` on results: snapshots hold rows already in those forms.
- `escape_string` is a parameter, not an implementation of MySQL's escaping.
- The banner (lines 32-35, with `Time.now`) and the blank line of line 40: `Run` returns the text printed from line 44 on.
- Printing to standard output is modelled as returning that text. The stderr message of line 21 is not modelled.
- `@debug` (line 15): it is only read by `connect`.
