/**
 * The differencing engine of MySQLDiff: it compares two databases, given here
 * as snapshots of what `show tables`, `DESCRIBE` and `SELECT *` return, and
 * appends to two buffers the SQL that brings each side up to the other.
 */
module Diff {
  import opened Wrappers
  import opened RubyCore
  import opened Sql

  /** What the differ reads from one database. */
  datatype Snapshot = Snapshot(
    tables: seq<string>,                         // `show tables`
    describe: map<string, seq<ColumnEntry>>,     // `DESCRIBE t`
    rows: map<string, seq<Row>>)                 // `SELECT * FROM t`, one hash per row

  /** Every table the snapshot lists can be described and selected from. */
  predicate Complete(s: Snapshot) {
    forall t :: t in s.tables ==> t in s.describe && t in s.rows
  }

  function DescribeOf(s: Snapshot, t: string): seq<ColumnEntry> {
    if t in s.describe then s.describe[t] else []
  }

  function RowsOf(s: Snapshot, t: string): seq<Row> {
    if t in s.rows then s.rows[t] else []
  }

  type Layouts = map<string, seq<ColumnEntry>>

  // ---------------------------------------------------------------------
  // The text the engine appends, as functions of the two snapshots.
  // ---------------------------------------------------------------------

  /** `insert_data` / one half of `compare_data`: an INSERT per row, then a blank line if there was any. */
  function InsertBlock(table: string, layout: seq<ColumnEntry>, rows: seq<Row>, escape: string -> string): string {
    Concat(InsertStatements(table, layout, rows, escape)) + (if rows != [] then "\n" else "")
  }

  /** For each table that only the other side has: its CREATE TABLE, then its rows. */
  function OneSidedText(tables: seq<string>, source: Snapshot, escape: string -> string): string {
    if tables == [] then ""
    else
      var t := tables[|tables| - 1];
      OneSidedText(tables[..|tables| - 1], source, escape)
        + CreateTableText(t, DescribeOf(source, t))
        + InsertBlock(t, DescribeOf(source, t), RowsOf(source, t), escape)
  }

  /** The ALTERs `compare_columns` writes for database 1: entries of `c2` missing from `c1`, placed after their predecessor in `c2`. */
  function AlterBlock1(table: string, c1: seq<ColumnEntry>, c2: seq<ColumnEntry>): string {
    var adds := Without(c2, c1);
    Concat(AlterLines(table, adds, c2)) + (if adds != [] then "\n" else "")
  }

  /**
   * The ALTERs for database 2. The blank line after them is written when
   * EITHER side needed columns: the flag set by the first loop is never
   * reset, as the reset assigns a misspelt variable.
   */
  function AlterBlock2(table: string, c1: seq<ColumnEntry>, c2: seq<ColumnEntry>): string {
    var adds := Without(c1, c2);
    Concat(AlterLines(table, adds, c1)) + (if adds != [] || Without(c2, c1) != [] then "\n" else "")
  }

  /** For each table both sides have: the ALTERs and the missing rows for database 1. */
  function SharedText1(tables: seq<string>, s1: Snapshot, s2: Snapshot, escape: string -> string): string {
    if tables == [] then ""
    else
      var t := tables[|tables| - 1];
      var c1, c2 := DescribeOf(s1, t), DescribeOf(s2, t);
      SharedText1(tables[..|tables| - 1], s1, s2, escape)
        + AlterBlock1(t, c1, c2)
        + InsertBlock(t, Union(c1, c2), Without(RowsOf(s2, t), RowsOf(s1, t)), escape)
  }

  /** The same for database 2. */
  function SharedText2(tables: seq<string>, s1: Snapshot, s2: Snapshot, escape: string -> string): string {
    if tables == [] then ""
    else
      var t := tables[|tables| - 1];
      var c1, c2 := DescribeOf(s1, t), DescribeOf(s2, t);
      SharedText2(tables[..|tables| - 1], s1, s2, escape)
        + AlterBlock2(t, c1, c2)
        + InsertBlock(t, Union(c1, c2), Without(RowsOf(s1, t), RowsOf(s2, t)), escape)
  }

  /** Everything `compare_schema` appends to the script for database 1. */
  function Db1Text(s1: Snapshot, s2: Snapshot, escape: string -> string): string {
    OneSidedText(Without(s2.tables, s1.tables), s2, escape)
      + SharedText1(Intersect(s1.tables, s2.tables), s1, s2, escape)
  }

  /** Everything `compare_schema` appends to the script for database 2. */
  function Db2Text(s1: Snapshot, s2: Snapshot, escape: string -> string): string {
    OneSidedText(Without(s1.tables, s2.tables), s1, escape)
      + SharedText2(Intersect(s1.tables, s2.tables), s1, s2, escape)
  }

  /** The layouts recorded for one-sided tables: the source side's DESCRIBE rows. */
  function Adopt(m: Layouts, tables: seq<string>, source: Snapshot): Layouts {
    if tables == [] then m
    else
      var t := tables[|tables| - 1];
      Adopt(m, tables[..|tables| - 1], source)[t := DescribeOf(source, t)]
  }

  /** The layouts recorded for shared tables: `t1_cols | t2_cols`. */
  function Merge(m: Layouts, tables: seq<string>, s1: Snapshot, s2: Snapshot): Layouts {
    if tables == [] then m
    else
      var t := tables[|tables| - 1];
      Merge(m, tables[..|tables| - 1], s1, s2)[t := Union(DescribeOf(s1, t), DescribeOf(s2, t))]
  }

  /** `@columns` after `compare_schema`, starting from `m`. */
  function LayoutsAfter(m: Layouts, s1: Snapshot, s2: Snapshot): Layouts {
    var inBoth := Intersect(s1.tables, s2.tables);
    Merge(Adopt(Adopt(m, Without(s2.tables, s1.tables), s2), Without(s1.tables, s2.tables), s1), inBoth, s1, s2)
  }

  // ---------------------------------------------------------------------
  // What `run` prints after the banner.
  // ---------------------------------------------------------------------

  /** Ruby's `puts s`: a newline is added unless `s` already ends with one. */
  function Puts(s: string): (r: string)
    ensures s <= r && |r| <= |s| + 1
    ensures |r| > 0 && r[|r| - 1] == '\n'
    ensures s != [] && s[|s| - 1] == '\n' ==> r == s
  {
    if s != [] && s[|s| - 1] == '\n' then s else s + "\n"
  }

  /** A `use` line when the buffer has statements, then the buffer as `puts` writes it. */
  function Section(use: string, buffer: string): string {
    (if buffer != "" then use else "") + Puts(buffer)
  }

  /** `run`, lines 44 to 50. */
  function Assemble(db1Output: string, db2Output: string): string {
    Section("use db1;\n\n", db1Output) + Section("use db2;\n\n", db2Output)
      + (if db1Output == "" && db2Output == "" then "-- Databases Synchronized.\n" else "")
      + "-- Done.\n"
  }

  /** What `run` prints after the banner for two databases with nothing to do: two empty `puts`, then the two comments. */
  const SYNCHRONIZED := "\n" + "\n" + "-- Databases Synchronized.\n" + "-- Done.\n"

  // ---------------------------------------------------------------------
  // The differ itself.
  // ---------------------------------------------------------------------

  /** A Ruby string the differ appends to with `<<`; the helpers are handed it by reference. */
  class Buffer {
    var text: string

    constructor()
      ensures text == ""
    {
      text := "";
    }

    /** `output << s`. */
    method Append(s: string)
      modifies this
      ensures text == old(text) + s
    {
      text := text + s;
    }
  }

  class MySqlDiff<Config(==)> {
    const db1: Option<Config>
    const db2: Option<Config>
    const db1Output: Buffer
    const db2Output: Buffer
    var columns: Layouts

    /** The two scripts are two separate strings. */
    predicate Valid() {
      db1Output != db2Output
    }

    /** Two equal configurations leave the differ without databases, so that `Run` does nothing. */
    constructor(db1: Option<Config>, db2: Option<Config>)
      ensures Valid() && fresh(db1Output) && fresh(db2Output)
      ensures db1Output.text == "" && db2Output.text == "" && columns == map[]
      ensures db1 == db2 ==> this.db1 == None && this.db2 == None
      ensures db1 != db2 ==> this.db1 == db1 && this.db2 == db2
    {
      columns := map[];
      db1Output := new Buffer();
      db2Output := new Buffer();
      if db1 == db2 {
        this.db1, this.db2 := None, None;
      } else {
        this.db1, this.db2 := db1, db2;
      }
    }

    /** `create_table`: writes the CREATE TABLE for `table` as `source` describes it and returns the DESCRIBE rows. */
    method CreateTable(output: Buffer, source: Snapshot, table: string) returns (cols: seq<ColumnEntry>)
      requires table in source.describe
      modifies output
      ensures cols == source.describe[table]
      ensures output.text == old(output.text) + CreateTableText(table, cols)
    {
      cols := source.describe[table];
      ghost var definitions := ColumnDefinitions(cols);
      var head := "CREATE TABLE " + table + " (\n";
      ghost var start := output.text;
      output.Append(head);
      ghost var prefix := output.text;
      for i := 0 to |cols|
        invariant output.text == prefix + Join(definitions[..i], ",\n")
      {
        ghost var sofar := Join(definitions[..i], ",\n");
        ghost var sep := if i > 0 then ",\n" else "";
        if i > 0 {
          output.Append(",\n");
        }
        assert output.text == prefix + sofar + sep;
        EmitColumn(output, cols[i]);
        JoinStep(prefix, definitions, i, ",\n");
      }
      assert definitions[..|cols|] == definitions;
      ghost var body := Join(definitions, ",\n");
      output.Append("\n);\n\n");
      Regroup3(start, head, body, "\n);\n\n");
    }

    /** One column line of `create_table`, written piece by piece. */
    method EmitColumn(output: Buffer, c: ColumnEntry)
      modifies output
      ensures output.text == old(output.text) + ColumnDefinition(c)
    {
      var head := "\t" + Text(c.field) + " " + Text(c.sqlType);
      ghost var start := output.text;
      ghost var pk := if c.key == Some("PRI") then " primary key" else "";
      ghost var dn := if c.nullable == Some("YES") then " DEFAULT NULL" else "";
      ghost var df := if c.nullable == Some("NO") && c.key != Some("PRI") then " DEFAULT " + Text(c.defaultValue) else "";
      ghost var ex := if c.extra != Some("") then " " + Text(c.extra) else "";
      output.Append(head);
      if c.key == Some("PRI") {
        output.Append(" primary key");
      }
      assert output.text == start + head + pk;
      if c.nullable == Some("YES") {
        output.Append(" DEFAULT NULL");
      }
      assert output.text == start + head + pk + dn;
      if c.nullable == Some("NO") && c.key != Some("PRI") {
        output.Append(" DEFAULT " + Text(c.defaultValue));
      }
      assert output.text == start + head + pk + dn + df;
      if c.extra != Some("") {
        output.Append(" " + Text(c.extra));
      }
      assert output.text == start + head + pk + dn + df + ex;
      ModifiersText(c);
      Regroup3(start + head, pk, dn, df);
      Regroup(start + head, pk + dn + df, ex);
      Regroup(start, head, pk + dn + df + ex);
    }

    /** `insert_data`: an INSERT for every row of `table` in `source`, then a blank line if there was one. */
    method InsertData(output: Buffer, source: Snapshot, table: string, escape: string -> string)
      requires table in source.rows && table in columns
      modifies output
      ensures output.text == old(output.text) + InsertBlock(table, columns[table], source.rows[table], escape)
    {
      var result := source.rows[table];
      ghost var start := output.text;
      var changes := false;
      for i := 0 to |result|
        invariant output.text == start + Concat(InsertStatements(table, columns[table], result[..i], escape))
        invariant changes == (i > 0)
      {
        ghost var sofar := InsertStatements(table, columns[table], result[..i], escape);
        ToInsert(output, table, result[i], escape);
        changes := true;
        assert result[..i + 1] == result[..i] + [result[i]];
        InsertStatementsSnoc(table, columns[table], result[..i], result[i], escape);
        ConcatSnoc(sofar, InsertStatement(table, columns[table], result[i], escape));
        Regroup(start, Concat(sofar), InsertStatement(table, columns[table], result[i], escape));
      }
      assert result[..|result|] == result;
      if changes {
        output.Append("\n");
        Regroup(start, Concat(InsertStatements(table, columns[table], result, escape)), "\n");
      }
    }

    /** `to_insert`: one INSERT of `row`, names and values both taken from `@columns[table]`. */
    method ToInsert(output: Buffer, table: string, row: Row, escape: string -> string)
      requires table in columns
      modifies output
      ensures output.text == old(output.text) + InsertStatement(table, columns[table], row, escape)
    {
      var names := Join(ColumnNames(columns[table]), ",");
      var values := MapValues(row, columns[table], escape);
      output.Append("INSERT INTO " + table + " (" + names + ") VALUES (" + values + ");\n");
    }

    /** The `each` loop of `compare_columns` over the entries to add: one ALTER each, and `changes` set once one is written. */
    method AlterEach(output: Buffer, table: string, adds: seq<ColumnEntry>, src: seq<ColumnEntry>, changesBefore: bool)
      returns (changes: bool)
      requires forall c :: c in adds ==> c in src
      modifies output
      ensures output.text == old(output.text) + Concat(AlterLines(table, adds, src))
      ensures changes == (changesBefore || adds != [])
    {
      ghost var start := output.text;
      changes := changesBefore;
      for i := 0 to |adds|
        invariant output.text == start + Concat(AlterLines(table, adds[..i], src))
        invariant changes == (changesBefore || i > 0)
      {
        ghost var sofar := AlterLines(table, adds[..i], src);
        EmitAlter(output, table, adds[i], src);
        changes := true;
        assert adds[..i + 1] == adds[..i] + [adds[i]];
        AlterLinesSnoc(table, adds[..i], adds[i], src);
        ConcatSnoc(sofar, AlterLine(table, adds[i], src));
        Regroup(start, Concat(sofar), AlterLine(table, adds[i], src));
      }
      assert adds[..|adds|] == adds;
    }

    /** One ALTER of `compare_columns`: the predecessor is `src.at(src.index(c) - 1)`. */
    method EmitAlter(output: Buffer, table: string, c: ColumnEntry, src: seq<ColumnEntry>)
      requires c in src
      modifies output
      ensures output.text == old(output.text) + AlterLine(table, c, src)
    {
      var previousCol := At(src, Index(src, c).value - 1).value;
      output.Append("ALTER TABLE " + table + " ADD COLUMN " + Text(c.field) + " " + Text(c.sqlType));
      if previousCol.field.Some? {
        output.Append(" AFTER " + previousCol.field.value + ";");
      }
      if previousCol.field.None? {
        output.Append(" FIRST");
      }
      output.Append("\n");
    }

    /** `compare_columns`: ALTERs each side, then records `t1_cols | t2_cols` as the table's layout. */
    method CompareColumns(table: string, s1: Snapshot, s2: Snapshot)
      requires Valid() && table in s1.describe && table in s2.describe
      modifies this, db1Output, db2Output
      ensures db1Output.text == old(db1Output.text) + AlterBlock1(table, s1.describe[table], s2.describe[table])
      ensures db2Output.text == old(db2Output.text) + AlterBlock2(table, s1.describe[table], s2.describe[table])
      ensures columns == old(columns)[table := Union(s1.describe[table], s2.describe[table])]
    {
      var t1Cols := s1.describe[table];
      var t2Cols := s2.describe[table];
      var addToT2 := Without(t1Cols, t2Cols);
      var addToT1 := Without(t2Cols, t1Cols);

      ghost var start1, start2 := db1Output.text, db2Output.text;
      ghost var lines1 := Concat(AlterLines(table, addToT1, t2Cols));
      ghost var lines2 := Concat(AlterLines(table, addToT2, t1Cols));

      var changes := false;
      changes := AlterEach(db1Output, table, addToT1, t2Cols, changes);
      if changes {
        db1Output.Append("\n");
        Regroup(start1, lines1, "\n");
      }
      assert db1Output.text == start1 + AlterBlock1(table, t1Cols, t2Cols);

      // The source resets a misspelt variable here, so `changes` keeps its value.
      var chnages := false;
      changes := AlterEach(db2Output, table, addToT2, t1Cols, changes);
      if changes {
        db2Output.Append("\n");
        Regroup(start2, lines2, "\n");
      }
      assert db2Output.text == start2 + AlterBlock2(table, t1Cols, t2Cols);

      columns := columns[table := Union(t1Cols, t2Cols)];
    }

    /** `compare_data`: every row of one side that the other lacks, whole row compared, becomes an INSERT there. */
    method CompareData(table: string, s1: Snapshot, s2: Snapshot, escape: string -> string)
      requires Valid() && table in s1.rows && table in s2.rows && table in columns
      modifies db1Output, db2Output
      ensures db2Output.text == old(db2Output.text) + InsertBlock(table, columns[table], Without(s1.rows[table], s2.rows[table]), escape)
      ensures db1Output.text == old(db1Output.text) + InsertBlock(table, columns[table], Without(s2.rows[table], s1.rows[table]), escape)
    {
      var data1 := s1.rows[table];
      var data2 := s2.rows[table];
      ghost var layout := columns[table];
      ghost var start1, start2 := db1Output.text, db2Output.text;

      var changes := false;
      for i := 0 to |data1|
        invariant db2Output.text == start2 + Concat(InsertStatements(table, layout, Without(data1[..i], data2), escape))
        invariant changes == (Without(data1[..i], data2) != [])
        invariant db1Output.text == start1
      {
        var row := data1[i];
        ghost var sofar := InsertStatements(table, layout, Without(data1[..i], data2), escape);
        assert data1[..i + 1][..i] == data1[..i];
        if !(row in data2) {
          ToInsert(db2Output, table, row, escape);
          changes := true;
          InsertStatementsSnoc(table, layout, Without(data1[..i], data2), row, escape);
          ConcatSnoc(sofar, InsertStatement(table, layout, row, escape));
          Regroup(start2, Concat(sofar), InsertStatement(table, layout, row, escape));
        }
      }
      assert data1[..|data1|] == data1;
      if changes {
        db2Output.Append("\n");
        Regroup(start2, Concat(InsertStatements(table, layout, Without(data1, data2), escape)), "\n");
      }

      changes := false;
      for i := 0 to |data2|
        invariant db1Output.text == start1 + Concat(InsertStatements(table, layout, Without(data2[..i], data1), escape))
        invariant changes == (Without(data2[..i], data1) != [])
        invariant db2Output.text == start2 + InsertBlock(table, layout, Without(data1, data2), escape)
      {
        var row := data2[i];
        ghost var sofar := InsertStatements(table, layout, Without(data2[..i], data1), escape);
        assert data2[..i + 1][..i] == data2[..i];
        if !(row in data1) {
          ToInsert(db1Output, table, row, escape);
          changes := true;
          InsertStatementsSnoc(table, layout, Without(data2[..i], data1), row, escape);
          ConcatSnoc(sofar, InsertStatement(table, layout, row, escape));
          Regroup(start1, Concat(sofar), InsertStatement(table, layout, row, escape));
        }
      }
      assert data2[..|data2|] == data2;
      if changes {
        db1Output.Append("\n");
        Regroup(start1, Concat(InsertStatements(table, layout, Without(data2, data1), escape)), "\n");
      }
    }

    /** The body of those loops: `@columns[table] = create_table(output, db, table)`, then `insert_data(output, db, table)`. */
    method AddTable(output: Buffer, source: Snapshot, table: string, escape: string -> string)
      requires table in source.describe && table in source.rows
      modifies this, output
      ensures output.text == old(output.text)
        + CreateTableText(table, source.describe[table])
        + InsertBlock(table, source.describe[table], source.rows[table], escape)
      ensures columns == old(columns)[table := source.describe[table]]
    {
      var cols := CreateTable(output, source, table);
      columns := columns[table := cols];
      InsertData(output, source, table, escape);
    }

    /** The `each` loops of `compare_schema` over one-sided tables: create each table in `output`, then copy its rows. */
    method AddTables(output: Buffer, source: Snapshot, tables: seq<string>, escape: string -> string)
      requires Complete(source) && forall t :: t in tables ==> t in source.tables
      modifies this, output
      ensures output.text == old(output.text) + OneSidedText(tables, source, escape)
      ensures columns == Adopt(old(columns), tables, source)
    {
      ghost var start := output.text;
      for i := 0 to |tables|
        invariant output.text == start + OneSidedText(tables[..i], source, escape)
        invariant columns == Adopt(old(columns), tables[..i], source)
      {
        var table := tables[i];
        ghost var sofar := OneSidedText(tables[..i], source, escape);
        assert tables[..i + 1][..i] == tables[..i];
        AddTable(output, source, table, escape);
        Regroup3(start, sofar, CreateTableText(table, source.describe[table]),
          InsertBlock(table, source.describe[table], source.rows[table], escape));
      }
      assert tables[..|tables|] == tables;
    }

    /** The body of the `in_both` loop: `compare_columns(table)`, then `compare_data(table)`. */
    method CompareTable(table: string, s1: Snapshot, s2: Snapshot, escape: string -> string)
      requires Valid()
      requires table in s1.describe && table in s2.describe && table in s1.rows && table in s2.rows
      modifies this, db1Output, db2Output
      ensures db1Output.text == old(db1Output.text)
        + AlterBlock1(table, s1.describe[table], s2.describe[table])
        + InsertBlock(table, Union(s1.describe[table], s2.describe[table]), Without(s2.rows[table], s1.rows[table]), escape)
      ensures db2Output.text == old(db2Output.text)
        + AlterBlock2(table, s1.describe[table], s2.describe[table])
        + InsertBlock(table, Union(s1.describe[table], s2.describe[table]), Without(s1.rows[table], s2.rows[table]), escape)
      ensures columns == old(columns)[table := Union(s1.describe[table], s2.describe[table])]
    {
      CompareColumns(table, s1, s2);
      CompareData(table, s1, s2, escape);
    }

    /** The `in_both` loop of `compare_schema`. */
    method CompareShared(tables: seq<string>, s1: Snapshot, s2: Snapshot, escape: string -> string)
      requires Valid()
      requires forall t :: t in tables ==> t in s1.describe && t in s2.describe && t in s1.rows && t in s2.rows
      modifies this, db1Output, db2Output
      ensures db1Output.text == old(db1Output.text) + SharedText1(tables, s1, s2, escape)
      ensures db2Output.text == old(db2Output.text) + SharedText2(tables, s1, s2, escape)
      ensures columns == Merge(old(columns), tables, s1, s2)
    {
      ghost var start1, start2 := db1Output.text, db2Output.text;
      for i := 0 to |tables|
        invariant db1Output.text == start1 + SharedText1(tables[..i], s1, s2, escape)
        invariant db2Output.text == start2 + SharedText2(tables[..i], s1, s2, escape)
        invariant columns == Merge(old(columns), tables[..i], s1, s2)
      {
        var table := tables[i];
        ghost var sofar1 := SharedText1(tables[..i], s1, s2, escape);
        ghost var sofar2 := SharedText2(tables[..i], s1, s2, escape);
        assert tables[..i + 1][..i] == tables[..i];
        CompareTable(table, s1, s2, escape);
        ghost var c1, c2 := s1.describe[table], s2.describe[table];
        ghost var r1, r2 := s1.rows[table], s2.rows[table];
        Regroup3(start1, sofar1, AlterBlock1(table, c1, c2), InsertBlock(table, Union(c1, c2), Without(r2, r1), escape));
        Regroup3(start2, sofar2, AlterBlock2(table, c1, c2), InsertBlock(table, Union(c1, c2), Without(r1, r2), escape));
      }
      assert tables[..|tables|] == tables;
    }

    /** `compare_schema`: one-sided tables are created and filled, shared tables are altered and topped up. */
    method CompareSchema(s1: Snapshot, s2: Snapshot, escape: string -> string)
      requires Valid() && Complete(s1) && Complete(s2)
      modifies this, db1Output, db2Output
      ensures db1Output.text == old(db1Output.text) + Db1Text(s1, s2, escape)
      ensures db2Output.text == old(db2Output.text) + Db2Text(s1, s2, escape)
      ensures columns == LayoutsAfter(old(columns), s1, s2)
    {
      var tables1 := s1.tables;
      var tables2 := s2.tables;

      var addToDb2 := Without(tables1, tables2);
      var addToDb1 := Without(tables2, tables1);
      ghost var start1, start2 := db1Output.text, db2Output.text;

      AddTables(db1Output, s2, addToDb1, escape);
      AddTables(db2Output, s1, addToDb2, escape);

      var inBoth := Intersect(tables1, tables2);
      CompareShared(inBoth, s1, s2, escape);
      Regroup(start1, OneSidedText(addToDb1, s2, escape), SharedText1(inBoth, s1, s2, escape));
      Regroup(start2, OneSidedText(addToDb2, s1, escape), SharedText2(inBoth, s1, s2, escape));
    }

    /**
     * `run` after the banner: nothing at all when the configurations were
     * equal; otherwise the comparison, then the two scripts as printed.
     */
    method Run(s1: Snapshot, s2: Snapshot, escape: string -> string) returns (printed: string)
      requires Valid()
      requires db1.Some? && db2.Some? ==> Complete(s1) && Complete(s2)
      modifies this, db1Output, db2Output
      ensures db1.None? || db2.None? ==>
        printed == "" && db1Output.text == old(db1Output.text) && db2Output.text == old(db2Output.text)
        && columns == old(columns)
      ensures db1.Some? && db2.Some? ==>
        db1Output.text == old(db1Output.text) + Db1Text(s1, s2, escape)
        && db2Output.text == old(db2Output.text) + Db2Text(s1, s2, escape)
        && columns == LayoutsAfter(old(columns), s1, s2)
        && printed == Assemble(db1Output.text, db2Output.text)    {
      if db1.None? || db2.None? {
        return "";
      }
      CompareSchema(s1, s2, escape);
      printed := Assemble(db1Output.text, db2Output.text);
    }
  }

  /** A differ built for one database twice prints nothing. */
  method SameDatabaseTwice<Config(==)>(config: Config, s: Snapshot, escape: string -> string) returns (printed: string)
    ensures printed == ""
  {
    var differ := new MySqlDiff<Config>(Some(config), Some(config));
    printed := differ.Run(s, s, escape);
  }
}
