/**
 * The record `Logger::log` writes and the parameterised INSERT statement it
 * prepares for it: the column schema fixed by the constructor, the record
 * keys, the comma-joined column and `:key` placeholder lists, and the value
 * bindings.
 */
module Inserts {
  import opened Wrappers
  import Php

  /** A column of the log table as the constructor declares it. */
  datatype Column = Column(name: string, sqlType: string, length: Option<nat>, default: Option<string>,
                           autoIncrement: bool, primary: bool, unique: bool, notNull: bool)

  /** The fixed schema of every log table, in declaration order. */
  function Schema(): seq<Column> {
    [ Column("id", "bigint", Some(20), None, true, true, true, true),
      Column("level", "varchar", Some(16), Some("notice"), false, false, false, false),
      Column("message", "text", None, None, false, false, false, true),
      Column("context", "text", None, None, false, false, false, true),
      Column("created_at", "datetime", None, None, false, false, false, false),
      Column("created_by", "bigint", Some(20), None, false, false, false, false) ]
  }

  /** The column called `name` in a column list, as `getColumn` looks it up. */
  function ColumnNamed(columns: seq<Column>, name: string): (c: Option<Column>)
    ensures c.Some? ==> c.value in columns && c.value.name == name
    decreases |columns|
  {
    if columns == [] then None
    else if columns[0].name == name then Some(columns[0])
    else ColumnNamed(columns[1..], name)
  }

  /** The lookup fails exactly when no column has that name. */
  lemma {:induction false} ColumnNamedMissing(columns: seq<Column>, name: string)
    ensures ColumnNamed(columns, name).None? <==> forall i :: 0 <= i < |columns| ==> columns[i].name != name
    decreases |columns|
  {
    if columns != [] {
      ColumnNamedMissing(columns[1..], name);
      assert forall i :: 0 < i < |columns| ==> columns[i] == columns[1..][i - 1];
    }
  }

  /** A lookup that misses the first column goes on with the rest. */
  lemma ColumnNamedSkip(columns: seq<Column>, name: string)
    requires columns != [] && columns[0].name != name
    ensures ColumnNamed(columns, name) == ColumnNamed(columns[1..], name)
  {
  }

  /** Each schema column is found under its own name. */
  lemma SchemaColumns()
    ensures ColumnNamed(Schema(), "id") == Some(Schema()[0])
    ensures ColumnNamed(Schema(), "level") == Some(Schema()[1])
    ensures ColumnNamed(Schema(), "message") == Some(Schema()[2])
    ensures ColumnNamed(Schema(), "context") == Some(Schema()[3])
    ensures ColumnNamed(Schema(), "created_at") == Some(Schema()[4])
    ensures ColumnNamed(Schema(), "created_by") == Some(Schema()[5])
  {
    var cs := Schema();
    assert "message"[0] != "context"[0] && "created_at"[8] != "created_by"[8];
    SixColumns(cs[0], cs[1], cs[2], cs[3], cs[4], cs[5]);
    assert cs == [cs[0], cs[1], cs[2], cs[3], cs[4], cs[5]];
  }

  /** In six columns with distinct names, each is found under its own name. */
  lemma SixColumns(a: Column, b: Column, c: Column, d: Column, e: Column, f: Column)
    requires a.name != b.name && a.name != c.name && a.name != d.name && a.name != e.name && a.name != f.name
    requires b.name != c.name && b.name != d.name && b.name != e.name && b.name != f.name
    requires c.name != d.name && c.name != e.name && c.name != f.name
    requires d.name != e.name && d.name != f.name && e.name != f.name
    ensures var cs := [a, b, c, d, e, f];
      ColumnNamed(cs, a.name) == Some(a) && ColumnNamed(cs, b.name) == Some(b) &&
      ColumnNamed(cs, c.name) == Some(c) && ColumnNamed(cs, d.name) == Some(d) &&
      ColumnNamed(cs, e.name) == Some(e) && ColumnNamed(cs, f.name) == Some(f)
  {
    var cs := [a, b, c, d, e, f];
    var t1, t2, t3, t4, t5 := [b, c, d, e, f], [c, d, e, f], [d, e, f], [e, f], [f];
    assert cs[1..] == t1 && t1[1..] == t2 && t2[1..] == t3 && t3[1..] == t4 && t4[1..] == t5;
    ColumnNamedSkip(cs, b.name);
    ColumnNamedSkip(cs, c.name);
    ColumnNamedSkip(t1, c.name);
    ColumnNamedSkip(cs, d.name);
    ColumnNamedSkip(t1, d.name);
    ColumnNamedSkip(t2, d.name);
    ColumnNamedSkip(cs, e.name);
    ColumnNamedSkip(t1, e.name);
    ColumnNamedSkip(t2, e.name);
    ColumnNamedSkip(t3, e.name);
    ColumnNamedSkip(cs, f.name);
    ColumnNamedSkip(t1, f.name);
    ColumnNamedSkip(t2, f.name);
    ColumnNamedSkip(t3, f.name);
    ColumnNamedSkip(t4, f.name);
  }

  /** A value bound to a statement parameter. */
  datatype Field = Text(text: string) | Integer(value: int)

  /** A PHP array of column name to value, in insertion order. */
  type Record = seq<(string, Field)>

  /** The columns every record carries, in the order `log` adds them. */
  const BaseKeys: seq<string> := ["level", "message", "context", "created_at"]

  /**
   * The record `log` builds: level, message, the encoded context and the
   * creation time, then `created_by` when an author has been prepared.
   */
  function BuildRecord(level: string, message: string, encodedContext: string, createdAt: string,
                       createdBy: Option<int>): Record
  {
    [("level", Text(level)), ("message", Text(message)), ("context", Text(encodedContext)),
     ("created_at", Text(createdAt))] +
    (if createdBy.Some? then [("created_by", Integer(createdBy.value))] else [])
  }

  /** The `:key` placeholder of each key, position by position. */
  function Placeholders(keys: seq<string>): (ps: seq<string>)
    ensures |ps| == |keys| && forall i :: 0 <= i < |keys| ==> ps[i] == ":" + keys[i]
  {
    seq(|keys|, i requires 0 <= i < |keys| => ":" + keys[i])
  }

  /** `INSERT INTO <table>(<columns>) VALUES(<placeholders>)`. */
  function InsertSql(table: string, keys: seq<string>): string {
    "INSERT INTO " + table + "(" + Php.Implode(", ", keys) + ") VALUES(" + Php.Implode(", ", Placeholders(keys)) + ")"
  }

  /** One `bindValue` call: the placeholder, the value, and the declared type of its column. */
  datatype Binding = Binding(placeholder: string, value: Field, sqlType: string)

  /** A prepared statement with the values bound to it. */
  datatype Statement = Statement(sql: string, bindings: seq<Binding>)

  /** Every key of the record names one of the columns. */
  predicate FitsSchema(columns: seq<Column>, rec: Record) {
    forall i :: 0 <= i < |rec| ==> ColumnNamed(columns, rec[i].0).Some?
  }

  /** The bindings for a record, one per field, in record order. */
  function Bindings(columns: seq<Column>, rec: Record): (bs: seq<Binding>)
    requires FitsSchema(columns, rec)
    ensures |bs| == |rec|
  {
    seq(|rec|, i requires 0 <= i < |rec| && FitsSchema(columns, rec) =>
      Binding(":" + rec[i].0, rec[i].1, ColumnNamed(columns, rec[i].0).value.sqlType))
  }

  /**
   * The statement `log` prepares, binds and executes for a record: each
   * binding goes to the placeholder the VALUES list has at its position,
   * and carries that field's value.
   */
  function InsertStatement(columns: seq<Column>, table: string, rec: Record): (st: Statement)
    requires FitsSchema(columns, rec)
    ensures |st.bindings| == |rec|
    ensures forall i :: 0 <= i < |rec| ==>
              st.bindings[i].placeholder == Placeholders(Php.ArrayKeys(rec))[i] && st.bindings[i].value == rec[i].1
  {
    Statement(InsertSql(table, Php.ArrayKeys(rec)), Bindings(columns, rec))
  }

  /** The first loop of `log`: one column name and one `:key` placeholder per key. */
  method ColumnLists(keys: seq<string>) returns (column: seq<string>, param: seq<string>)
    ensures column == keys
    ensures param == Placeholders(keys)
  {
    column, param := [], [];
    for i := 0 to |keys|
      invariant column == keys[..i]
      invariant |param| == i && forall j :: 0 <= j < i ==> param[j] == ":" + keys[j]
    {
      column := column + [keys[i]];
      param := param + [":" + keys[i]];
    }
  }

  /** The second loop of `log`: each field bound to its placeholder with its column's type. */
  method BindValues(columns: seq<Column>, rec: Record) returns (bound: seq<Binding>)
    requires FitsSchema(columns, rec)
    ensures bound == Bindings(columns, rec)
  {
    bound := [];
    for i := 0 to |rec|
      invariant |bound| == i
      invariant forall j :: 0 <= j < i ==> bound[j] == Bindings(columns, rec)[j]
    {
      var column := ColumnNamed(columns, rec[i].0);
      bound := bound + [Binding(":" + rec[i].0, rec[i].1, column.value.sqlType)];
    }
  }

  // ---------------------------------------------------------------------
  // Properties of the record and the statement.

  /** `name` is a column, and not the auto-increment one. */
  predicate Writable(columns: seq<Column>, name: string) {
    ColumnNamed(columns, name).Some? && !ColumnNamed(columns, name).value.autoIncrement
  }

  /** A record of four or five writable fields fits the columns, and writes no auto-increment column. */
  lemma WritableFields(columns: seq<Column>, rec: Record)
    requires 4 <= |rec| <= 5
    requires Writable(columns, rec[0].0) && Writable(columns, rec[1].0)
    requires Writable(columns, rec[2].0) && Writable(columns, rec[3].0)
    requires |rec| == 5 ==> Writable(columns, rec[4].0)
    ensures FitsSchema(columns, rec)
    ensures forall i :: 0 <= i < |rec| ==> !ColumnNamed(columns, rec[i].0).value.autoIncrement
  {
    assert forall i :: 0 <= i < |rec| ==> Writable(columns, rec[i].0);
  }

  /**
   * The record's keys are the four base columns, followed by `created_by`
   * exactly when an author was prepared; they are distinct, each names a
   * schema column, and none is the auto-increment `id`.
   */
  lemma RecordShape(level: string, message: string, encodedContext: string, createdAt: string, createdBy: Option<int>)
    ensures var rec := BuildRecord(level, message, encodedContext, createdAt, createdBy);
      Php.ArrayKeys(rec) == BaseKeys + (if createdBy.Some? then ["created_by"] else []) &&
      FitsSchema(Schema(), rec) &&
      (forall i, j :: 0 <= i < j < |rec| ==> rec[i].0 != rec[j].0) &&
      (forall i :: 0 <= i < |rec| ==> !ColumnNamed(Schema(), rec[i].0).value.autoIncrement) &&
      (createdBy.Some? ==> rec[4] == ("created_by", Integer(createdBy.value)))
  {
    RecordKeys(level, message, encodedContext, createdAt, createdBy);
    RecordFits(level, message, encodedContext, createdAt, createdBy);
  }

  /** The keys of the record, in order, and the author's field. */
  lemma RecordKeys(level: string, message: string, encodedContext: string, createdAt: string, createdBy: Option<int>)
    ensures var rec := BuildRecord(level, message, encodedContext, createdAt, createdBy);
      Php.ArrayKeys(rec) == BaseKeys + (if createdBy.Some? then ["created_by"] else []) &&
      (forall i, j :: 0 <= i < j < |rec| ==> rec[i].0 != rec[j].0) &&
      (createdBy.Some? ==> rec[4] == ("created_by", Integer(createdBy.value)))
  {
  }

  /** Every field of the record is bound with a schema column, none of them the auto-increment one. */
  lemma RecordFits(level: string, message: string, encodedContext: string, createdAt: string, createdBy: Option<int>)
    ensures var rec := BuildRecord(level, message, encodedContext, createdAt, createdBy);
      FitsSchema(Schema(), rec) &&
      (forall i :: 0 <= i < |rec| ==> !ColumnNamed(Schema(), rec[i].0).value.autoIncrement)
  {
    var rec := BuildRecord(level, message, encodedContext, createdAt, createdBy);
    assert rec[0].0 == "level" && rec[1].0 == "message" && rec[2].0 == "context" && rec[3].0 == "created_at";
    assert createdBy.Some? ==> rec[4].0 == "created_by";
    SchemaColumns();
    WritableFields(Schema(), rec);
  }

  /**
   * The bindings of a record: level, message, context and created_at are
   * bound in that order as text with the types of their columns, and an
   * armed author follows as `:created_by` with the `bigint` type; without
   * an author there are only the four base bindings.
   */
  lemma AuthorBinding(level: string, message: string, encodedContext: string, createdAt: string, createdBy: Option<int>)
    ensures var rec := BuildRecord(level, message, encodedContext, createdAt, createdBy);
      FitsSchema(Schema(), rec) &&
      var bs := Bindings(Schema(), rec);
      |bs| == (if createdBy.Some? then 5 else 4) &&
      bs[..4] == [Binding(":level", Text(level), "varchar"), Binding(":message", Text(message), "text"),
                  Binding(":context", Text(encodedContext), "text"), Binding(":created_at", Text(createdAt), "datetime")] &&
      (createdBy.Some? ==> bs[4] == Binding(":created_by", Integer(createdBy.value), "bigint"))
  {
    RecordFits(level, message, encodedContext, createdAt, createdBy);
    SchemaColumns();
    TypedBindings(Schema(), level, message, encodedContext, createdAt, createdBy);
  }

  /** The column called `name` has SQL type `t`. */
  predicate TypedAs(columns: seq<Column>, name: string, t: string) {
    ColumnNamed(columns, name).Some? && ColumnNamed(columns, name).value.sqlType == t
  }

  /** The bindings of a record, given the types of the columns its keys name. */
  lemma TypedBindings(columns: seq<Column>, level: string, message: string, encodedContext: string, createdAt: string,
                      createdBy: Option<int>)
    requires FitsSchema(columns, BuildRecord(level, message, encodedContext, createdAt, createdBy))
    requires TypedAs(columns, "level", "varchar")
    requires TypedAs(columns, "message", "text")
    requires TypedAs(columns, "context", "text")
    requires TypedAs(columns, "created_at", "datetime")
    requires createdBy.Some? ==> TypedAs(columns, "created_by", "bigint")
    ensures var bs := Bindings(columns, BuildRecord(level, message, encodedContext, createdAt, createdBy));
      |bs| == (if createdBy.Some? then 5 else 4) &&
      bs[..4] == [Binding(":level", Text(level), "varchar"), Binding(":message", Text(message), "text"),
                  Binding(":context", Text(encodedContext), "text"), Binding(":created_at", Text(createdAt), "datetime")] &&
      (createdBy.Some? ==> bs[4] == Binding(":created_by", Integer(createdBy.value), "bigint"))
  {
    var rec := BuildRecord(level, message, encodedContext, createdAt, createdBy);
    var bs := Bindings(columns, rec);
    FieldBinding(columns, rec, 0, "level", Text(level), "varchar");
    FieldBinding(columns, rec, 1, "message", Text(message), "text");
    FieldBinding(columns, rec, 2, "context", Text(encodedContext), "text");
    FieldBinding(columns, rec, 3, "created_at", Text(createdAt), "datetime");
    assert ":" + "level" == ":level" && ":" + "message" == ":message";
    assert ":" + "context" == ":context" && ":" + "created_at" == ":created_at";
    assert bs[..4] == [bs[0], bs[1], bs[2], bs[3]];
    if createdBy.Some? {
      FieldBinding(columns, rec, 4, "created_by", Integer(createdBy.value), "bigint");
      assert ":" + "created_by" == ":created_by";
    }
  }

  /**
   * The two statements for the same entry with and without an author:
   * the one with an author adds `created_by` to the column list and binds
   * it as `bigint` after the four base bindings, which both share.
   */
  lemma AuthorStatements(table: string, level: string, message: string, encodedContext: string, createdAt: string,
                         author: int)
    ensures FitsSchema(Schema(), BuildRecord(level, message, encodedContext, createdAt, Some(author)))
    ensures FitsSchema(Schema(), BuildRecord(level, message, encodedContext, createdAt, None))
    ensures var first := InsertStatement(Schema(), table, BuildRecord(level, message, encodedContext, createdAt, Some(author)));
      var second := InsertStatement(Schema(), table, BuildRecord(level, message, encodedContext, createdAt, None));
      first.sql == InsertSql(table, BaseKeys + ["created_by"]) &&
      second.sql == InsertSql(table, BaseKeys) &&
      |first.bindings| == 5 && first.bindings[4] == Binding(":created_by", Integer(author), "bigint") &&
      second.bindings == first.bindings[..4]
  {
    RecordShape(level, message, encodedContext, createdAt, Some(author));
    AuthorBinding(level, message, encodedContext, createdAt, Some(author));
    RecordShape(level, message, encodedContext, createdAt, None);
    AuthorBinding(level, message, encodedContext, createdAt, None);
    var second := Bindings(Schema(), BuildRecord(level, message, encodedContext, createdAt, None));
    assert second == second[..4];
    assert BaseKeys + [] == BaseKeys;
  }

  /** A field bound to a column of type `t` gets the `:key` placeholder, its value and `t`. */
  lemma FieldBinding(columns: seq<Column>, rec: Record, i: nat, key: string, value: Field, t: string)
    requires FitsSchema(columns, rec) && i < |rec| && rec[i] == (key, value) && TypedAs(columns, key, t)
    ensures Bindings(columns, rec)[i] == Binding(":" + key, value, t)
  {
    assert Bindings(columns, rec)[i] == Binding(":" + rec[i].0, rec[i].1, ColumnNamed(columns, rec[i].0).value.sqlType);
  }

  /**
   * The placeholder list is the column list with a colon before each
   * column: at the level of the joined text it is exactly one character per
   * column longer, and at the level of the lists the i-th placeholder is
   * ":" followed by the i-th column.
   */
  lemma {:induction false} PlaceholderListLength(keys: seq<string>)
    requires |keys| > 0
    ensures |Php.Implode(", ", Placeholders(keys))| == |Php.Implode(", ", keys)| + |keys|
  {
    Php.ImplodeLength(", ", keys);
    Php.ImplodeLength(", ", Placeholders(keys));
    TotalPlaceholders(keys);
  }

  lemma {:induction false} TotalPlaceholders(keys: seq<string>)
    ensures Php.TotalLength(Placeholders(keys)) == Php.TotalLength(keys) + |keys|
    decreases |keys|
  {
    if keys != [] {
      assert Placeholders(keys)[1..] == Placeholders(keys[1..]);
      TotalPlaceholders(keys[1..]);
    }
  }

  /**
   * The statement for four columns: the column list and the placeholder
   * list name the same columns in the same order, the placeholders with a colon.
   */
  lemma {:induction false} InsertSqlFour(table: string, a: string, b: string, c: string, d: string)
    ensures InsertSql(table, [a, b, c, d]) ==
      "INSERT INTO " + table + "(" + (a + ", " + b + ", " + c + ", " + d) +
      ") VALUES(" + ((":" + a) + ", " + (":" + b) + ", " + (":" + c) + ", " + (":" + d)) + ")"
  {
    JoinFour(", ", a, b, c, d);
    var ps := Placeholders([a, b, c, d]);
    assert ps == [":" + a, ":" + b, ":" + c, ":" + d];
    JoinFour(", ", ps[0], ps[1], ps[2], ps[3]);
  }

  /** One more column extends both lists in step. */
  lemma {:induction false} InsertSqlSnoc(table: string, keys: seq<string>, k: string)
    requires |keys| > 0
    ensures InsertSql(table, keys + [k]) ==
      "INSERT INTO " + table + "(" + (Php.Implode(", ", keys) + ", " + k) +
      ") VALUES(" + (Php.Implode(", ", Placeholders(keys)) + ", " + (":" + k)) + ")"
  {
    Php.ImplodeSnoc(", ", keys, k);
    assert Placeholders(keys + [k]) == Placeholders(keys) + [":" + k];
    Php.ImplodeSnoc(", ", Placeholders(keys), ":" + k);
  }

  lemma JoinFour(sep: string, a: string, b: string, c: string, d: string)
    ensures Php.Implode(sep, [a, b, c, d]) == a + sep + b + sep + c + sep + d
  {
    assert [c, d][1..] == [d];
    assert Php.Implode(sep, [c, d]) == c + sep + d;
    assert [b, c, d][1..] == [c, d];
    assert Php.Implode(sep, [b, c, d]) == b + sep + (c + sep + d);
    assert [a, b, c, d][1..] == [b, c, d];
  }
}
