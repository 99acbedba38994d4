/**
 * What the differ's output and recorded layouts amount to, stated over the
 * text functions the differ's methods are proved against.
 */
module DiffProperties {
  import opened Wrappers
  import opened RubyCore
  import opened Sql
  import opened Diff

  // ---------------------------------------------------------------------
  // Tables: created on one side, or compared on both.
  // ---------------------------------------------------------------------

  /**
   * Every table lands in exactly one of the three lists `compare_schema`
   * builds: only in database 2, only in database 1, or in both; each list
   * keeps its database's order, and `in_both` names a table once.
   */
  lemma TablePartition(t1: seq<string>, t2: seq<string>, t: string)
    ensures t in Without(t2, t1) <==> t in t2 && t !in t1
    ensures t in Without(t1, t2) <==> t in t1 && t !in t2
    ensures t in Intersect(t1, t2) <==> t in t1 && t in t2
    ensures Subsequence(Without(t2, t1), t2) && Subsequence(Without(t1, t2), t1)
    ensures Subsequence(Intersect(t1, t2), t1) && NoDuplicates(Intersect(t1, t2))
  {
    WithoutMembership(t2, t1, t);
    WithoutMembership(t1, t2, t);
    WithoutInOrder(t2, t1);
    WithoutInOrder(t1, t2);
    IntersectInOrder(t1, t2);
  }

  /** Adopting the tables of `tables` records the source's DESCRIBE for each and leaves every other entry alone. */
  lemma {:induction false} AdoptLookup(m: Layouts, tables: seq<string>, source: Snapshot, t: string)
    ensures t in tables ==> t in Adopt(m, tables, source) && Adopt(m, tables, source)[t] == DescribeOf(source, t)
    ensures t !in tables ==> (t in Adopt(m, tables, source) <==> t in m)
    ensures t !in tables && t in m ==> Adopt(m, tables, source)[t] == m[t]
  {
    if tables != [] {
      var init := tables[..|tables| - 1];
      AdoptLookup(m, init, source, t);
      assert tables == init + [tables[|tables| - 1]];
    }
  }

  /** Merging records `t1_cols | t2_cols` for each listed table and leaves every other entry alone. */
  lemma {:induction false} MergeLookup(m: Layouts, tables: seq<string>, s1: Snapshot, s2: Snapshot, t: string)
    ensures t in tables ==>
      t in Merge(m, tables, s1, s2) && Merge(m, tables, s1, s2)[t] == Union(DescribeOf(s1, t), DescribeOf(s2, t))
    ensures t !in tables ==> (t in Merge(m, tables, s1, s2) <==> t in m)
    ensures t !in tables && t in m ==> Merge(m, tables, s1, s2)[t] == m[t]
  {
    if tables != [] {
      var init, last := tables[..|tables| - 1], tables[|tables| - 1];
      MergeLookup(m, init, s1, s2, t);
      assert tables == init + [last];
      var prev := Merge(m, init, s1, s2);
      assert Merge(m, tables, s1, s2) == prev[last := Union(DescribeOf(s1, last), DescribeOf(s2, last))];
    }
  }

  /**
   * The layout `compare_schema` leaves for a table: the other side's DESCRIBE
   * for a table only one side has, `t1_cols | t2_cols` for a shared one, and
   * whatever was there before for a table neither side lists.
   */
  lemma LayoutsAfterSchema(m: Layouts, s1: Snapshot, s2: Snapshot, t: string)
    ensures t in s2.tables && t !in s1.tables ==>
      t in LayoutsAfter(m, s1, s2) && LayoutsAfter(m, s1, s2)[t] == DescribeOf(s2, t)
    ensures t in s1.tables && t !in s2.tables ==>
      t in LayoutsAfter(m, s1, s2) && LayoutsAfter(m, s1, s2)[t] == DescribeOf(s1, t)
    ensures t in s1.tables && t in s2.tables ==>
      t in LayoutsAfter(m, s1, s2) && LayoutsAfter(m, s1, s2)[t] == Union(DescribeOf(s1, t), DescribeOf(s2, t))
    ensures t !in s1.tables && t !in s2.tables ==>
      (t in LayoutsAfter(m, s1, s2) <==> t in m) && (t in m ==> LayoutsAfter(m, s1, s2)[t] == m[t])
  {
    TablePartition(s1.tables, s2.tables, t);
    var onlyIn2, onlyIn1 := Without(s2.tables, s1.tables), Without(s1.tables, s2.tables);
    var m1 := Adopt(m, onlyIn2, s2);
    var m2 := Adopt(m1, onlyIn1, s1);
    AdoptLookup(m, onlyIn2, s2, t);
    AdoptLookup(m1, onlyIn1, s1, t);
    MergeLookup(m2, Intersect(s1.tables, s2.tables), s1, s2, t);
  }

  /**
   * A shared table's layout is database 1's columns followed by the columns
   * only database 2 has, in database 2's order, each once.
   */
  lemma SharedLayout(c1: seq<ColumnEntry>, c2: seq<ColumnEntry>)
    requires NoDuplicates(c1)
    ensures Union(c1, c2) == c1 + Dedup(Without(c2, c1))
    ensures forall c :: c in c1 || c in c2 <==> c in Union(c1, c2)
  {
    UnionExtends(c1, c2);
  }

  // ---------------------------------------------------------------------
  // Columns.
  // ---------------------------------------------------------------------

  const ID := ColumnEntry(Some("id"), Some("int(11)"), Some("NO"), Some("PRI"), None, Some("auto_increment"))
  const NAME := ColumnEntry(Some("name"), Some("varchar(255)"), Some("YES"), Some(""), None, Some(""))
  const AGE := ColumnEntry(Some("age"), Some("int(11)"), Some("YES"), Some(""), None, Some(""))

  /** A single missing column gives a single ALTER line, then the blank line. */
  lemma OneAlter(table: string, c: ColumnEntry, src: seq<ColumnEntry>)
    requires c in src
    ensures Concat(AlterLines(table, [c], src)) == AlterLine(table, c, src)
  {
    var line := AlterLine(table, c, src);
    assert AlterLines(table, [c], src) == [line];
    assert [line][..0] == [];
  }

  lemma MissingAge()
    ensures Without([ID, NAME, AGE], [ID, NAME]) == [AGE]
    ensures Without([ID, NAME], [ID, NAME, AGE]) == []
  {
    var c1, c2 := [ID, NAME, AGE], [ID, NAME];
    WithoutCovered(c2, c1);
    assert c1[..2] == c2;
    WithoutCovered(c2, c2);
    assert AGE !in c2;
  }

  /** A column only database 1 has is added to database 2 after the column that precedes it in database 1. */
  lemma ColumnAddedAfterPredecessor()
    ensures AlterBlock1("users", [ID, NAME, AGE], [ID, NAME]) == ""
    ensures AlterBlock2("users", [ID, NAME, AGE], [ID, NAME])
      == "ALTER TABLE " + "users" + " ADD COLUMN " + "age" + " " + "int(11)" + " AFTER " + "name" + ";" + "\n" + "\n"
  {
    var c1 := [ID, NAME, AGE];
    MissingAge();
    PredecessorRule(c1, AGE, 2);
    OneAlter("users", AGE, c1);
    assert AlterBlock2("users", c1, [ID, NAME]) == AlterLine("users", AGE, c1) + "\n";
  }

  lemma MissingId()
    ensures Without([ID, NAME], [NAME]) == [ID]
  {
    var c1, c2 := [NAME], [ID, NAME];
    assert c2[..1] == [ID] && c2[..1][..0] == [];
    assert ID !in c1;
  }

  /**
   * The first column, when missing from the other side, wraps round to the
   * LAST column as its predecessor, since `at(-1)` is the last entry; it is
   * placed AFTER that column, not FIRST.
   */
  lemma FirstColumnWrapsAround()
    ensures AlterBlock1("users", [NAME], [ID, NAME])
      == "ALTER TABLE " + "users" + " ADD COLUMN " + "id" + " " + "int(11)" + " AFTER " + "name" + ";" + "\n" + "\n"
  {
    var c2 := [ID, NAME];
    MissingId();
    PredecessorRule(c2, ID, 0);
    OneAlter("users", ID, c2);
    assert AlterBlock1("users", [NAME], c2) == AlterLine("users", ID, c2) + "\n";
  }

  /**
   * The blank line after database 2's ALTERs follows database 1's: the reset
   * of `changes` goes to a misspelt variable, so a table where only
   * database 1 lacked a column still gets a lone blank line for database 2.
   */
  lemma BlankLineCarriesOver()
    ensures AlterBlock2("users", [ID], [ID, NAME]) == "\n"
  {
    var c1, c2 := [ID], [ID, NAME];
    WithoutCovered(c1, c2);
    assert NAME in Without(c2, c1) by {
      WithoutMembership(c2, c1, NAME);
    }
  }

  // ---------------------------------------------------------------------
  // Rows.
  // ---------------------------------------------------------------------

  /**
   * `compare_data` sends a row to the side that lacks it, whole row compared:
   * one INSERT for each copy of a row absent from the other side, in order,
   * and none for a row present there.
   */
  lemma {:induction false} RowDifference(table: string, layout: seq<ColumnEntry>, have: seq<Row>, other: seq<Row>, escape: string -> string)
    ensures forall row :: multiset(Without(other, have))[row] == if row in have then 0 else multiset(other)[row]
    ensures Subsequence(Without(other, have), other)
    ensures |InsertStatements(table, layout, Without(other, have), escape)| == |Without(other, have)|
    ensures forall k :: 0 <= k < |Without(other, have)| ==>
      InsertStatements(table, layout, Without(other, have), escape)[k]
        == InsertStatement(table, layout, Without(other, have)[k], escape)
    ensures (forall row :: row in other ==> row in have) ==> InsertBlock(table, layout, Without(other, have), escape) == ""
  {
    forall row {
      WithoutMultiplicity(other, have, row);
    }
    WithoutInOrder(other, have);
    if forall row :: row in other ==> row in have {
      WithoutCovered(other, have);
      assert InsertStatements(table, layout, [], escape) == [];
    }
  }

  // ---------------------------------------------------------------------
  // Two identical databases.
  // ---------------------------------------------------------------------

  lemma {:induction false} SharedTextOfIdentical(tables: seq<string>, s: Snapshot, escape: string -> string)
    ensures SharedText1(tables, s, s, escape) == "" && SharedText2(tables, s, s, escape) == ""
  {
    if tables != [] {
      var t := tables[|tables| - 1];
      SharedTextOfIdentical(tables[..|tables| - 1], s, escape);
      var c, r := DescribeOf(s, t), RowsOf(s, t);
      WithoutCovered(c, c);
      WithoutCovered(r, r);
      assert AlterLines(t, [], c) == [];
      assert InsertStatements(t, Union(c, c), [], escape) == [];
    }
  }

  /** Comparing a database with an identical one writes nothing to either script. */
  lemma IdenticalDatabases(s: Snapshot, escape: string -> string)
    ensures Db1Text(s, s, escape) == "" && Db2Text(s, s, escape) == ""
    ensures Assemble(Db1Text(s, s, escape), Db2Text(s, s, escape)) == SYNCHRONIZED
  {
    WithoutCovered(s.tables, s.tables);
    SharedTextOfIdentical(Intersect(s.tables, s.tables), s, escape);
    assert Db1Text(s, s, escape) == "" && Db2Text(s, s, escape) == "";
    assert Puts("") == "\n";
  }

  /** Two different configurations of identical databases: `run` reports them synchronized. */
  method IdenticalDatabasesRun<Config(==)>(c1: Config, c2: Config, s: Snapshot, escape: string -> string)
    returns (printed: string)
    requires c1 != c2 && Complete(s)
    ensures printed == SYNCHRONIZED
  {
    var differ := new MySqlDiff<Config>(Some(c1), Some(c2));
    printed := differ.Run(s, s, escape);
    IdenticalDatabases(s, escape);
  }

  // ---------------------------------------------------------------------
  // What `run` prints.
  // ---------------------------------------------------------------------

  /**
   * The printed text starts with `use db1;` exactly when database 1's script
   * has statements, `use db2;` follows database 1's section exactly when
   * database 2's has, and `-- Done.` is the last line in every case.
   */
  lemma UseMarkers(o1: string, o2: string)
    ensures "use db1;\n\n" <= Assemble(o1, o2) <==> o1 != ""
    ensures |Section("use db1;\n\n", o1)| <= |Assemble(o1, o2)|
    ensures "use db2;\n\n" <= Assemble(o1, o2)[|Section("use db1;\n\n", o1)|..] <==> o2 != ""
    ensures |Assemble(o1, o2)| >= 9 && Assemble(o1, o2)[|Assemble(o1, o2)| - 9..] == "-- Done.\n"
  {
    var first := Section("use db1;\n\n", o1);
    var second := Section("use db2;\n\n", o2);
    var tail := (if o1 == "" && o2 == "" then "-- Databases Synchronized.\n" else "") + "-- Done.\n";
    assert Assemble(o1, o2) == first + (second + tail);
    assert Assemble(o1, o2)[|first|..] == second + tail;
    if o1 == "" {
      assert Assemble(o1, o2)[0] == '\n';
    }
    if o2 == "" {
      assert (second + tail)[0] == '\n';
    }
  }

  /** What follows the two sections of the report. */
  lemma AssembleTail(o1: string, o2: string)
    ensures |Section("use db1;\n\n", o1)| + |Section("use db2;\n\n", o2)| <= |Assemble(o1, o2)|
    ensures Assemble(o1, o2)[|Section("use db1;\n\n", o1)| + |Section("use db2;\n\n", o2)|..]
      == (if o1 == "" && o2 == "" then "-- Databases Synchronized.\n" else "") + "-- Done.\n"
  {
    var first := Section("use db1;\n\n", o1);
    var second := Section("use db2;\n\n", o2);
    var tail := (if o1 == "" && o2 == "" then "-- Databases Synchronized.\n" else "") + "-- Done.\n";
    assert Assemble(o1, o2) == (first + second) + tail;
  }

  /** `-- Databases Synchronized.` and nothing else is printed exactly when both scripts are empty. */
  lemma SynchronizedMarker(o1: string, o2: string)
    ensures Assemble(o1, o2) == SYNCHRONIZED <==> o1 == "" && o2 == ""
    ensures |Section("use db1;\n\n", o1)| + |Section("use db2;\n\n", o2)| <= |Assemble(o1, o2)|
    ensures o1 != "" || o2 != "" ==>
      Assemble(o1, o2)[|Section("use db1;\n\n", o1)| + |Section("use db2;\n\n", o2)|..] == "-- Done.\n"
    ensures o1 == "" && o2 == "" ==>
      Assemble(o1, o2)[|Section("use db1;\n\n", o1)| + |Section("use db2;\n\n", o2)|..]
        == "-- Databases Synchronized.\n" + "-- Done.\n"
  {
    var first := Section("use db1;\n\n", o1);
    var second := Section("use db2;\n\n", o2);
    AssembleTail(o1, o2);
    if o1 != "" {
      assert first[0] == 'u';
      assert Assemble(o1, o2)[0] != SYNCHRONIZED[0];
    } else if o2 != "" {
      assert first == "\n" && second[0] == 'u';
      assert Assemble(o1, o2)[1] != SYNCHRONIZED[1];
    } else {
      assert Puts("") == "\n";
    }
  }
}
