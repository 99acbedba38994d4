/**
 * The statement builder: how the differ renders DESCRIBE rows and SELECT
 * rows as SQL text (`map_values`, the text of `to_insert`, `create_table`
 * and the ALTER lines of `compare_columns`).
 */
module Sql {
  import opened Wrappers
  import opened RubyCore

  /**
   * One row of `DESCRIBE t`: `[Field, Type, Null, Key, Default, Extra]`, each
   * a string or nil. Two entries are the same column only if all six agree.
   */
  datatype ColumnEntry = ColumnEntry(
    field: Option<string>,
    sqlType: Option<string>,
    nullable: Option<string>,
    key: Option<string>,
    defaultValue: Option<string>,
    extra: Option<string>)

  /** One row of `SELECT * FROM t` as `each_hash` gives it: column name to value or nil. */
  type Row = map<string, Option<string>>

  /** String interpolation `"#{v}"`: nil renders as nothing. */
  function Text(v: Option<string>): string {
    if v.Some? then v.value else ""
  }

  /** `row[name]`: nil for a nil name or a name the row lacks. */
  function Lookup(row: Row, name: Option<string>): Option<string> {
    if name.Some? && name.value in row then row[name.value] else None
  }

  /** `case type when /int/`: the type string contains "int"; nil never matches. */
  predicate IsIntType(sqlType: Option<string>) {
    sqlType.Some? && Matches(sqlType.value, "int")
  }

  /** The literal `map_values` writes for one column of a row. */
  function FormatValue(row: Row, column: ColumnEntry, escape: string -> string): string {
    var v := Lookup(row, column.field);
    if IsIntType(column.sqlType) then
      if v.Some? then v.value else "NULL"
    else if v.None? then "NULL"
    else "'" + escape(v.value) + "'"
  }

  /**
   * The type dispatch, stated with "contains" as an occurrence of the word:
   * a nil value is NULL either way; a present value is written raw under a
   * type holding "int" and quoted after escaping under any other type.
   */
  lemma FormatValueByType(row: Row, column: ColumnEntry, escape: string -> string)
    ensures Lookup(row, column.field).None? ==> FormatValue(row, column, escape) == "NULL"
    ensures column.sqlType.Some? && (exists i :: OccursAt(column.sqlType.value, "int", i))
            && Lookup(row, column.field).Some?
            ==> FormatValue(row, column, escape) == Lookup(row, column.field).value
    ensures !(column.sqlType.Some? && (exists i :: OccursAt(column.sqlType.value, "int", i)))
            && Lookup(row, column.field).Some?
            ==> FormatValue(row, column, escape) == "'" + escape(Lookup(row, column.field).value) + "'"
  {
    if column.sqlType.Some? {
      MatchesIffOccurs(column.sqlType.value, "int");
    }
  }

  /** The column names of a layout, `layout.map { |c| c[0] }`. */
  function ColumnNames(layout: seq<ColumnEntry>): seq<string> {
    seq(|layout|, i requires 0 <= i < |layout| => Text(layout[i].field))
  }

  /** The literals of one row, one per layout column, same order. */
  function ValueList(row: Row, layout: seq<ColumnEntry>, escape: string -> string): seq<string> {
    seq(|layout|, i requires 0 <= i < |layout| => FormatValue(row, layout[i], escape))
  }

  /** `map_values(row, layout)`. */
  function MapValues(row: Row, layout: seq<ColumnEntry>, escape: string -> string): string {
    Join(ValueList(row, layout, escape), ",")
  }

  /** The statement `to_insert` appends. */
  function InsertStatement(table: string, layout: seq<ColumnEntry>, row: Row, escape: string -> string): string {
    "INSERT INTO " + table + " (" + Join(ColumnNames(layout), ",") + ") VALUES ("
      + MapValues(row, layout, escape) + ");\n"
  }

  /**
   * Names and values come from the same layout, position by position, so the
   * two lists have one entry per layout column; when no name and no value
   * holds a comma, the two comma-separated parts have equally many commas.
   */
  lemma InsertArity(table: string, layout: seq<ColumnEntry>, row: Row, escape: string -> string)
    ensures |ColumnNames(layout)| == |ValueList(row, layout, escape)| == |layout|
    ensures forall i :: 0 <= i < |layout| ==>
      ColumnNames(layout)[i] == Text(layout[i].field)
      && ValueList(row, layout, escape)[i] == FormatValue(row, layout[i], escape)
    ensures (forall i :: 0 <= i < |layout| ==> ',' !in ColumnNames(layout)[i] && ',' !in ValueList(row, layout, escape)[i])
            ==> Occurrences(Join(ColumnNames(layout), ","), ',')
                == Occurrences(MapValues(row, layout, escape), ',')
                == (if layout == [] then 0 else |layout| - 1)
  {
    var names, values := ColumnNames(layout), ValueList(row, layout, escape);
    if forall i :: 0 <= i < |layout| ==> ',' !in names[i] && ',' !in values[i] {
      JoinSeparators(names, ',');
      JoinSeparators(values, ',');
    }
  }

  /** The INSERT statements for a list of rows, one per row, in order. */
  function InsertStatements(table: string, layout: seq<ColumnEntry>, rows: seq<Row>, escape: string -> string): seq<string> {
    seq(|rows|, i requires 0 <= i < |rows| => InsertStatement(table, layout, rows[i], escape))
  }

  lemma InsertStatementsSnoc(table: string, layout: seq<ColumnEntry>, rows: seq<Row>, row: Row, escape: string -> string)
    ensures InsertStatements(table, layout, rows + [row], escape)
      == InsertStatements(table, layout, rows, escape) + [InsertStatement(table, layout, row, escape)]
  {
  }

  /** Every statement the builder writes for rows is an INSERT into that table, and there is one per row. */
  lemma OnlyInserts(table: string, layout: seq<ColumnEntry>, rows: seq<Row>, escape: string -> string)
    ensures |InsertStatements(table, layout, rows, escape)| == |rows|
    ensures forall s :: s in InsertStatements(table, layout, rows, escape) ==> "INSERT INTO " + table + " (" <= s
  {
  }

  /** What may follow `<name> <type>` on a CREATE TABLE column line. */
  datatype Modifier = PrimaryKey | DefaultNull | DefaultTo(value: string) | Extra(text: string)

  /** The modifiers of one column, in the order `create_table` writes them. */
  function Modifiers(c: ColumnEntry): seq<Modifier> {
    (if c.key == Some("PRI") then [PrimaryKey] else [])
    + (if c.nullable == Some("YES") then [DefaultNull] else [])
    + (if c.nullable == Some("NO") && c.key != Some("PRI") then [DefaultTo(Text(c.defaultValue))] else [])
    + (if c.extra != Some("") then [Extra(Text(c.extra))] else [])
  }

  function RenderModifier(m: Modifier): string {
    match m
    case PrimaryKey => " primary key"
    case DefaultNull => " DEFAULT NULL"
    case DefaultTo(v) => " DEFAULT " + v
    case Extra(t) => " " + t
  }

  function RenderModifiers(ms: seq<Modifier>): string {
    Concat(seq(|ms|, i requires 0 <= i < |ms| => RenderModifier(ms[i])))
  }

  lemma RenderModifiersAppend(ms: seq<Modifier>, ns: seq<Modifier>)
    ensures RenderModifiers(ms + ns) == RenderModifiers(ms) + RenderModifiers(ns)
  {
    var rm := seq(|ms|, i requires 0 <= i < |ms| => RenderModifier(ms[i]));
    var rn := seq(|ns|, i requires 0 <= i < |ns| => RenderModifier(ns[i]));
    assert seq(|ms + ns|, i requires 0 <= i < |ms + ns| => RenderModifier((ms + ns)[i])) == rm + rn;
    ConcatAppend(rm, rn);
  }

  /**
   * When each modifier is present: "primary key" exactly for Key "PRI";
   * DEFAULT NULL exactly for Null "YES", primary key or not; a DEFAULT with the
   * default's text (empty for nil) exactly for Null "NO" outside the primary
   * key; the Extra text exactly when Extra is not the empty string.
   */
  lemma ModifierRules(c: ColumnEntry)
    ensures PrimaryKey in Modifiers(c) <==> c.key == Some("PRI")
    ensures DefaultNull in Modifiers(c) <==> c.nullable == Some("YES")
    ensures (exists v :: DefaultTo(v) in Modifiers(c)) <==> c.nullable == Some("NO") && c.key != Some("PRI")
    ensures forall v :: DefaultTo(v) in Modifiers(c) ==> v == Text(c.defaultValue)
    ensures (exists t :: Extra(t) in Modifiers(c)) <==> c.extra != Some("")
    ensures forall t :: Extra(t) in Modifiers(c) ==> t == Text(c.extra)
    ensures |Modifiers(c)| <= 4
  {
    var p: seq<Modifier> := if c.key == Some("PRI") then [PrimaryKey] else [];
    var n: seq<Modifier> := if c.nullable == Some("YES") then [DefaultNull] else [];
    var v: seq<Modifier> := if c.nullable == Some("NO") && c.key != Some("PRI") then [DefaultTo(Text(c.defaultValue))] else [];
    var e: seq<Modifier> := if c.extra != Some("") then [Extra(Text(c.extra))] else [];
    assert Modifiers(c) == p + n + v + e;
    assert forall m :: m in Modifiers(c) <==> m in p || m in n || m in v || m in e;
    if c.nullable == Some("NO") && c.key != Some("PRI") {
      assert DefaultTo(Text(c.defaultValue)) in v;
    }
    if c.extra != Some("") {
      assert Extra(Text(c.extra)) in e;
    }
  }

  /** A modifier that may be absent renders as its text or as nothing. */
  lemma RenderOptional(present: bool, m: Modifier)
    ensures RenderModifiers(if present then [m] else []) == if present then RenderModifier(m) else ""
  {
    var ms: seq<Modifier> := if present then [m] else [];
    var rs := seq(|ms|, i requires 0 <= i < |ms| => RenderModifier(ms[i]));
    if present {
      assert rs == [RenderModifier(m)];
      assert rs[..0] == [];
      assert Concat(rs) == Concat([]) + RenderModifier(m);
    } else {
      assert rs == [];
    }
  }

  /** The modifiers written one after another, as `create_table` appends them. */
  lemma ModifiersText(c: ColumnEntry)
    ensures RenderModifiers(Modifiers(c))
      == (if c.key == Some("PRI") then " primary key" else "")
         + (if c.nullable == Some("YES") then " DEFAULT NULL" else "")
         + (if c.nullable == Some("NO") && c.key != Some("PRI") then " DEFAULT " + Text(c.defaultValue) else "")
         + (if c.extra != Some("") then " " + Text(c.extra) else "")
  {
    var p: seq<Modifier> := if c.key == Some("PRI") then [PrimaryKey] else [];
    var n: seq<Modifier> := if c.nullable == Some("YES") then [DefaultNull] else [];
    var v: seq<Modifier> := if c.nullable == Some("NO") && c.key != Some("PRI") then [DefaultTo(Text(c.defaultValue))] else [];
    var e: seq<Modifier> := if c.extra != Some("") then [Extra(Text(c.extra))] else [];
    assert Modifiers(c) == p + n + v + e;
    RenderModifiersAppend(p + n + v, e);
    RenderModifiersAppend(p + n, v);
    RenderModifiersAppend(p, n);
    RenderOptional(c.key == Some("PRI"), PrimaryKey);
    RenderOptional(c.nullable == Some("YES"), DefaultNull);
    RenderOptional(c.nullable == Some("NO") && c.key != Some("PRI"), DefaultTo(Text(c.defaultValue)));
    RenderOptional(c.extra != Some(""), Extra(Text(c.extra)));
  }

  /** One column line of `create_table`. */
  function ColumnDefinition(c: ColumnEntry): string {
    "\t" + Text(c.field) + " " + Text(c.sqlType) + RenderModifiers(Modifiers(c))
  }

  function ColumnDefinitions(cols: seq<ColumnEntry>): seq<string> {
    seq(|cols|, i requires 0 <= i < |cols| => ColumnDefinition(cols[i]))
  }

  /** The text `create_table` appends for a table with the given DESCRIBE rows. */
  function CreateTableText(table: string, cols: seq<ColumnEntry>): string {
    "CREATE TABLE " + table + " (\n" + Join(ColumnDefinitions(cols), ",\n") + "\n);\n\n"
  }

  /**
   * The statement opens with the table name, closes the column list, and the
   * column lines are separated by ",\n": joined pieces number |cols|, one per
   * DESCRIBE row in order, each starting with a tab, the name and the type.
   */
  lemma CreateTableShape(table: string, cols: seq<ColumnEntry>)
    ensures "CREATE TABLE " + table + " (\n" <= CreateTableText(table, cols)
    ensures |CreateTableText(table, cols)| >= 5
    ensures CreateTableText(table, cols)[|CreateTableText(table, cols)| - 5..] == "\n);\n\n"
    ensures |ColumnDefinitions(cols)| == |cols|
    ensures forall i :: 0 <= i < |cols| ==>
      "\t" + Text(cols[i].field) + " " + Text(cols[i].sqlType) <= ColumnDefinitions(cols)[i]
  {
    var t := CreateTableText(table, cols);
    var head := "CREATE TABLE " + table + " (\n" + Join(ColumnDefinitions(cols), ",\n");
    assert t == head + "\n);\n\n";
    assert t[|t| - 5..] == "\n);\n\n";
  }

  /**
   * `src.at(src.index(c) - 1)`: the entry before the first occurrence of `c`;
   * for a column that comes first, index -1 wraps round to the LAST entry.
   */
  function Predecessor(src: seq<ColumnEntry>, c: ColumnEntry): ColumnEntry
    requires c in src
  {
    At(src, Index(src, c).value - 1).value
  }

  lemma PredecessorRule(src: seq<ColumnEntry>, c: ColumnEntry, k: nat)
    requires k < |src| && src[k] == c
    requires forall j :: 0 <= j < k ==> src[j] != c
    ensures k > 0 ==> Predecessor(src, c) == src[k - 1]
    ensures k == 0 ==> Predecessor(src, c) == src[|src| - 1]
  {
    assert Index(src, c).value == k;
  }

  /** One ALTER line of `compare_columns`: AFTER the predecessor's name, or FIRST (no `;`) when that name is nil. */
  function AlterLine(table: string, c: ColumnEntry, src: seq<ColumnEntry>): string
    requires c in src
  {
    var previous := Predecessor(src, c);
    "ALTER TABLE " + table + " ADD COLUMN " + Text(c.field) + " " + Text(c.sqlType)
      + (if previous.field.Some? then " AFTER " + previous.field.value + ";" else " FIRST")
      + "\n"
  }

  /** The ALTER lines for the entries to add, one each, in order. */
  function AlterLines(table: string, adds: seq<ColumnEntry>, src: seq<ColumnEntry>): seq<string>
    requires forall c :: c in adds ==> c in src
  {
    seq(|adds|, i requires 0 <= i < |adds| => AlterLine(table, adds[i], src))
  }

  lemma AlterLinesSnoc(table: string, adds: seq<ColumnEntry>, c: ColumnEntry, src: seq<ColumnEntry>)
    requires forall x :: x in adds ==> x in src
    requires c in src
    ensures AlterLines(table, adds + [c], src) == AlterLines(table, adds, src) + [AlterLine(table, c, src)]
  {
  }
}
