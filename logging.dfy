/**
 * The `Logger` object and the database it writes to. The logger's own
 * state is its table name (empty until `setTable` succeeds), the single-shot
 * author `createdBy`, and the cached `lastInsertId`; the database is
 * abstracted to the set of existing tables, the `createTable` calls made,
 * and the INSERT statements executed.
 */
module Logging {
  import opened Wrappers
  import TableNames
  import Inserts
  import Rows
  import Interpolation
  import Php

  /** The value of `lastInsertId`: PHP null before any configured log, `false`, or an id. */
  datatype LastId = Unset | NoInsert | Id(value: int)

  /** The database as far as the logger can observe it. */
  class Database {
    var tables: set<string>
    var created: seq<(string, seq<Inserts.Column>, Option<string>)>
    var executed: seq<Inserts.Statement>

    constructor (existing: set<string>)
      ensures tables == existing && created == [] && executed == []
    {
      tables, created, executed := existing, [], [];
    }

    /** `hasTable(name)`. */
    predicate HasTable(name: string)
      reads this
    {
      name in tables
    }

    /** `createTable(name, columns, collate)`: the table exists afterwards, and the call is recorded. */
    method CreateTable(name: string, columns: seq<Inserts.Column>, collate: Option<string>)
      modifies this
      ensures tables == old(tables) + {name}
      ensures created == old(created) + [(name, columns, collate)]
      ensures executed == old(executed)
    {
      tables := tables + {name};
      created := created + [(name, columns, collate)];
    }

    /** Prepare, bind and execute a statement. */
    method Execute(statement: Inserts.Statement)
      modifies this
      ensures executed == old(executed) + [statement]
      ensures tables == old(tables) && created == old(created)
    {
      executed := executed + [statement];
    }
  }

  class Logger {
    const db: Database
    /** The column list the constructor declares; `setColumns` never changes it. */
    const columns: seq<Inserts.Column> := Inserts.Schema()
    var name: string
    var createdBy: Option<int>
    var lastInsertId: LastId

    /** `new Logger($pdo)`: the fixed schema, no table yet, no author, no insert. */
    constructor (db: Database)
      ensures this.db == db && columns == Inserts.Schema()
      ensures name == "" && createdBy == None && lastInsertId == Unset
    {
      this.db := db;
      name := "";
      createdBy := None;
      lastInsertId := Unset;
    }

    /** `empty($this->name)` is false: a table has been set. */
    predicate Configured()
      reads this
    {
      !TableNames.PhpEmpty(name)
    }

    /**
     * `setTable($name, $collate)`: throws exception 1103 and changes nothing
     * when the sanitised name is empty by PHP's rule; otherwise sets the
     * physical name and creates that table, with the logger's columns,
     * exactly when it does not exist.
     */
    method SetTable(table: string, collate: Option<string>) returns (thrown: Option<TableNames.Error>)
      modifies this`name, db
      ensures thrown.Some? <==> TableNames.TableName(table).Err?
      ensures thrown.Some? ==> thrown.value == TableNames.MissingName && name == old(name)
      ensures thrown.None? ==> name == TableNames.TableName(table).value && Configured()
      ensures db.tables == TableNames.TablesAfter(old(db.tables), table)
      ensures db.created == old(db.created) +
                (if TableNames.CreatesTable(old(db.tables), table) then [(name, columns, collate)] else [])
      ensures db.executed == old(db.executed)
    {
      var sanitized := TableNames.Sanitize(table);
      if TableNames.PhpEmpty(sanitized) {
        return Some(TableNames.MissingName);
      }
      name := sanitized + TableNames.Suffix;
      TableNames.TableNameShape(table);
      if db.HasTable(name) {
        return None;
      }
      db.CreateTable(name, columns, collate);
      thrown := None;
    }

    /** `setColumns($columns)`: the schema is fixed, so this changes nothing. */
    method SetColumns(newColumns: seq<Inserts.Column>)
      ensures unchanged(this)
    {
    }

    /** `prepareCreatedBy($createdBy)`: arms the author for the next configured log. */
    method PrepareCreatedBy(author: int)
      modifies this`createdBy
      ensures createdBy == Some(author)
    {
      createdBy := Some(author);
    }

    /**
     * `log($level, $message, $context)`. On a logger without a table it
     * changes nothing. Otherwise it builds the record (with `created_by`
     * when an author was armed, which disarms it), executes the INSERT for
     * it, and leaves `lastInsertId` at `false` unless the execute succeeded.
     * The encoded context, the time, the execute outcome and the driver's
     * last id are supplied by the caller.
     */
    method Log(level: string, message: string, encodedContext: string, createdAt: string,
               executeSucceeds: bool, driverId: int)
      modifies this`createdBy, this`lastInsertId, db
      ensures db.tables == old(db.tables) && db.created == old(db.created)
      ensures !old(Configured()) ==>
                createdBy == old(createdBy) && lastInsertId == old(lastInsertId) && db.executed == old(db.executed)
      ensures old(Configured()) ==>
                createdBy == None &&
                db.executed == old(db.executed) +
                  [Inserts.InsertStatement(columns, name, Inserts.BuildRecord(level, message, encodedContext, createdAt, old(createdBy)))] &&
                lastInsertId == (if executeSucceeds then Id(driverId) else NoInsert)
    {
      if TableNames.PhpEmpty(name) {
        return;
      }
      lastInsertId := NoInsert;
      var record := Inserts.BuildRecord(level, message, encodedContext, createdAt, createdBy);
      Inserts.RecordShape(level, message, encodedContext, createdAt, createdBy);
      createdBy := None;
      var column, param := Inserts.ColumnLists(Php.ArrayKeys(record));
      var sql := "INSERT INTO " + name + "(" + Php.Implode(", ", column) + ") VALUES(" + Php.Implode(", ", param) + ")";
      var bound := Inserts.BindValues(columns, record);
      db.Execute(Inserts.Statement(sql, bound));
      if executeSucceeds {
        lastInsertId := Id(driverId);
      }
    }

    /** `lastInsertId()`. */
    method LastInsertId() returns (r: LastId)
      ensures r == lastInsertId
    {
      r := lastInsertId;
    }

    /** `getLogs($condition)`: the select it issues and the array it builds from the fetched rows. */
    method GetLogs(condition: Rows.Condition, fetched: seq<Rows.Fetched>) returns (query: Rows.Select, rows: Rows.IdArray<Rows.Entry>)
      ensures query == Rows.Select(name, "*", Rows.ListCondition(condition))
      ensures rows == Rows.Collected(fetched)
    {
      var c := condition;
      if |c| == 0 {
        c := c["ORDER BY" := Rows.Clause("id Desc")];
      }
      query := Rows.Select(name, "*", c);
      rows := Rows.CollectRows(fetched);
    }

    /** `getLogById($id)`: the select it issues and the entry, or null unless exactly one row matched. */
    method GetLogById(id: int, fetched: seq<Rows.Fetched>) returns (query: Rows.Select, entry: Option<Rows.Entry>)
      ensures query == Rows.Select(name, "*", Rows.ByIdCondition(id))
      ensures entry == Rows.ById(fetched)
    {
      query := Rows.Select(name, "*", Rows.ByIdCondition(id));
      if |fetched| != 1 {
        return query, None;
      }
      entry := Some(Rows.PostProcess(fetched[0]));
    }
  }

  // ---------------------------------------------------------------------
  // Sequences of calls, as a client of the logger sees them.

  /**
   * An author prepared once is attached to the next log only: the first
   * INSERT carries `created_by`, the one after it does not.
   */
  method CreatedBySingleShot(existing: set<string>, table: string, author: int,
                             level: string, message: string, encodedContext: string, createdAt: string)
    returns (first: Inserts.Statement, second: Inserts.Statement, armed: Option<int>)
    requires TableNames.TableName(table).Ok?
    ensures first.sql == Inserts.InsertSql(TableNames.TableName(table).value, Inserts.BaseKeys + ["created_by"])
    ensures |first.bindings| == 5 && first.bindings[4] == Inserts.Binding(":created_by", Inserts.Integer(author), "bigint")
    ensures second.sql == Inserts.InsertSql(TableNames.TableName(table).value, Inserts.BaseKeys)
    ensures second.bindings == first.bindings[..4]
    ensures armed == None
  {
    var db := new Database(existing);
    var logger := new Logger(db);
    var thrown := logger.SetTable(table, None);
    var t, cs := logger.name, logger.columns;
    logger.PrepareCreatedBy(author);
    Inserts.RecordFits(level, message, encodedContext, createdAt, Some(author));
    logger.Log(level, message, encodedContext, createdAt, true, 1);
    first := db.executed[|db.executed| - 1];
    assert first == Inserts.InsertStatement(cs, t, Inserts.BuildRecord(level, message, encodedContext, createdAt, Some(author)));
    Inserts.RecordFits(level, message, encodedContext, createdAt, None);
    logger.Log(level, message, encodedContext, createdAt, true, 2);
    second := db.executed[|db.executed| - 1];
    assert second == Inserts.InsertStatement(cs, t, Inserts.BuildRecord(level, message, encodedContext, createdAt, None));
    armed := logger.createdBy;
    Inserts.AuthorStatements(t, level, message, encodedContext, createdAt, author);
  }

  /**
   * Logging before any table is set does nothing: no statement runs, the
   * last insert id stays unset, and a prepared author stays armed.
   */
  method LogBeforeSetTable(author: int, level: string, message: string, encodedContext: string, createdAt: string,
                           executeSucceeds: bool)
    returns (executed: seq<Inserts.Statement>, last: LastId, armed: Option<int>)
    ensures executed == [] && last == Unset && armed == Some(author)
  {
    var db := new Database({});
    var logger := new Logger(db);
    logger.PrepareCreatedBy(author);
    logger.Log(level, message, encodedContext, createdAt, executeSucceeds, 7);
    executed := db.executed;
    last := logger.LastInsertId();
    armed := logger.createdBy;
  }

  /**
   * A failed execute leaves `lastInsertId()` at false even after an
   * earlier successful insert.
   */
  method FailedInsertClearsLastId(existing: set<string>, table: string, id: int,
                                  level: string, message: string, encodedContext: string, createdAt: string)
    returns (afterSuccess: LastId, afterFailure: LastId)
    requires TableNames.TableName(table).Ok?
    ensures afterSuccess == Id(id) && afterFailure == NoInsert
  {
    var db := new Database(existing);
    var logger := new Logger(db);
    var thrown := logger.SetTable(table, None);
    logger.Log(level, message, encodedContext, createdAt, true, id);
    afterSuccess := logger.LastInsertId();
    logger.Log(level, message, encodedContext, createdAt, false, id + 1);
    afterFailure := logger.LastInsertId();
  }

  /**
   * Calling `setTable` twice with the same name creates the table at most
   * once: the second call finds it and leaves the tables as they were.
   */
  method SetTableTwice(existing: set<string>, table: string, collate: Option<string>)
    returns (createdByFirst: nat, createdBySecond: nat, tablesAfterFirst: set<string>, tablesAfterSecond: set<string>)
    ensures createdByFirst <= 1 && createdBySecond == 0
    ensures tablesAfterSecond == tablesAfterFirst == TableNames.TablesAfter(existing, table)
  {
    var db := new Database(existing);
    var logger := new Logger(db);
    var thrown := logger.SetTable(table, collate);
    createdByFirst, tablesAfterFirst := |db.created|, db.tables;
    TableNames.SetTableIdempotent(existing, table);
    thrown := logger.SetTable(table, collate);
    createdBySecond, tablesAfterSecond := |db.created| - createdByFirst, db.tables;
  }
}
