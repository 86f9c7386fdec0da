# codesaur Logger, modelled in Dafny

This project models the `Logger` class of the codesaur PHP logger
(`src/Logger.php`). The logger writes leveled log entries into a SQL table
and reads them back. The model covers:

- how `setTable` turns a caller's name into a physical table name, and when it
  creates that table;
- the logger's own state: the table name, the single-shot author
  (`createdBy`), and the cached `lastInsertId`;
- the record `log` builds and the parameterised `INSERT` statement it prepares;
- `interpolate`, which is PHP's `strtr` with a table of `{{ key }}` placeholders;
- the row post-processing done on the read side by `getLogs` and `getLogById`.

Modules and files:

- `wrappers.dfy` (`Wrappers`): `Option` and `Result`.
- `table_names.dfy` (`TableNames`): sanitising, the PHP `empty()` test, the `_log`
  suffix, exception 1103, and the create-if-absent decision.
- `php.dfy` (`Php`): `array_keys`, `implode`, the decimal form of an integer, and the `(int)` cast of a string.
- `interpolation.dfy` (`Interpolation`): context values, `strtr` with an array of
  pairs (longest key first, no rescanning), and `interpolate`.
- `inserts.dfy` (`Inserts`): the column schema, the record, the column and
  placeholder lists, the bindings, and the INSERT text.
- `rows.dfy` (`Rows`): query conditions, row post-processing, the `id`-keyed
  result array of `getLogs`, and the single-row guard of `getLogById`.
- `logging.dfy` (`Logging`): the `Logger` class, an abstract `Database`, and short
  call sequences that show how the state behaves for a client.

The database is a `Database` object with three parts: the set of existing
tables, the `createTable` calls made, and the INSERT statements executed.
Some inputs come from code this model does not contain. The caller supplies them
as parameters of `Log`:

- the `json_encode` result;
- the `date()` timestamp;
- whether `execute()` succeeded;
- the driver's `lastInsertId()`.

On the read side, the fetched rows and what `json_decode` made of each row's
context are inputs, and the model says what is computed from them.

The model follows `src/Logger.php` as written; in particular:

- `setColumns` is a silent no-op (src/Logger.php:61-64). It does not throw.
- When `json_encode` or `json_decode` fails, no sentinel object is
  substituted. A `null` decode is kept as the stored context, and the message is
  interpolated against an empty array (src/Logger.php:139-140).
- `created_by` comes from `prepareCreatedBy`, a field that the next configured
  `log` consumes and clears. It is not read from the environment.
- Before any configured `log`, `lastInsertId()` returns PHP `null` (the
  property is never initialised). This is `LastId.Unset`, which is different from `false`
  (`LastId.NoInsert`).

## Model

| member | source | states |
|---|---|---|
| TableNames.Allowed | src/Logger.php:47 | the character class [A-Za-z0-9_-] the filter keeps (characterised by SanitizeChar) |
| TableNames.PhpEmpty | src/Logger.php:48 | PHP's `empty()` on a string: true of "" and "0" only (characterised by TableNameRejects) |
| TableNames.Sanitize | src/Logger.php:47 | the filtered name is never longer than the input and holds only characters of [A-Za-z0-9_-] |
| TableNames.TableName | src/Logger.php:47-52 | setTable's decision: exception 1103 when the filtered name is empty by PHP's rule, otherwise the physical name `<filtered>_log` (characterised by TableNameRejects and TableNameShape) |
| TableNames.CreatesTable | src/Logger.php:53-57 | setTable creates a table exactly when the name is accepted and not among the existing tables |
| TableNames.TablesAfter | src/Logger.php:53-57 | the existing tables after setTable: the new physical name is added only when the table is created |
| TableNames.SanitizeConcat | src/Logger.php:47 | filtering works character by character and keeps order: it distributes over concatenation |
| TableNames.SanitizeChar | src/Logger.php:47 | a single character is kept exactly when it is in [A-Za-z0-9_-] |
| TableNames.SanitizeCount | src/Logger.php:47 | each allowed character keeps all its occurrences, and every other character keeps none |
| TableNames.SanitizeClean | src/Logger.php:47 | a name made only of allowed characters is unchanged |
| TableNames.SanitizeIdempotent | src/Logger.php:47 | filtering twice gives the same result as filtering once |
| TableNames.SanitizeEmptyIff | src/Logger.php:47-48 | the filtered name is empty exactly when the input has no allowed character |
| TableNames.TableNameRejects | src/Logger.php:47-52 | setTable throws 1103 with its message exactly when the input has no allowed character or its only allowed character is one `0`; otherwise the name is the filtered input plus `_log` |
| TableNames.AcceptsCleanName | src/Logger.php:47-52 | a name of allowed characters other than "" and "0" is accepted as `<name>_log` |
| TableNames.TableNameShape | src/Logger.php:47-52 | an accepted physical name ends in `_log`, is not empty by PHP's rule, and has only allowed characters |
| TableNames.SetTableIdempotent | src/Logger.php:53-57 | after one setTable, the same call creates nothing and leaves the table set as it is; the set changes only when a table is created |
| Php.ArrayKeys | src/Logger.php:94 | `array_keys($record)`: one key per entry, the i-th key being the i-th entry's key |
| Php.Implode | src/Logger.php:98-99 | `implode(', ', ...)`: the parts joined with the separator between neighbours (characterised by ImplodeLength and ImplodeSnoc) |
| Php.IntCast | src/Logger.php:135-137 | the `(int)` cast: leading whitespace, an optional sign, then the leading digits; no digits gives 0 (characterised by IntCastDecimal) |
| Php.ImplodeLength | src/Logger.php:98-99 | a joined list has the parts' total length plus one separator between each pair of neighbours |
| Php.ImplodeSnoc | src/Logger.php:98-99 | joining one more part appends the separator and that part |
| Php.IntCastDecimal | src/Logger.php:135-137 | the `(int)` cast of an integer's decimal text gives back that integer |
| Php.DecimalZero | src/Logger.php:136 | an integer's decimal text is never empty, and it is "0" only for zero |
| Interpolation.Placeholder | src/Logger.php:121 | the `{{ key }}` form of a context key: six characters longer than the key, and different keys give different placeholders (characterised by KeyOfPlaceholder and PlaceholderInjective) |
| Interpolation.KeyOfPlaceholder | src/Logger.php:121 | the key is recovered from its placeholder by dropping the `{{ ` and ` }}` around it |
| Interpolation.PlaceholderInjective | src/Logger.php:121 | two keys with the same placeholder are the same key |
| Interpolation.Scan | src/Logger.php:124 | strtr's left-to-right scan into kept characters and longest matched keys; every matched key is a key of the table |
| Interpolation.Render | src/Logger.php:124 | the scan's pieces written out, each matched key replaced by its value |
| Interpolation.Strtr | src/Logger.php:124 | `strtr($message, $replace)`: the scan rendered (characterised by ScanCoversInput, StrtrNoKey and StrtrNoRescan) |
| Interpolation.LongestKeyAt | src/Logger.php:124 | the match strtr takes at a position is a key, and no longer prefix there is a key |
| Interpolation.ScanCoversInput | src/Logger.php:124 | strtr's scan divides the message into kept characters and matched keys; together they are exactly the message, in order |
| Interpolation.StrtrNoKey | src/Logger.php:124 | a subject in which no key occurs comes back unchanged |
| Interpolation.StrtrEmpty | src/Logger.php:124 | strtr with no pairs returns its subject |
| Interpolation.StrtrNoRescan | src/Logger.php:124 | a matched key becomes its replacement, and scanning resumes after the key, so the inserted text is never scanned |
| Interpolation.StrtrSingleAfter | src/Logger.php:124 | with one pair, the text before the key's only occurrence is kept and the key is replaced |
| Interpolation.Replacements | src/Logger.php:118-123 | the table maps `{{ key }}` to the value's text for every non-array entry, and holds nothing else |
| Interpolation.Interpolated | src/Logger.php:116-125 | `interpolate`'s result: strtr applied with the placeholder table of the context |
| Interpolation.Interpolate | src/Logger.php:116-125 | the foreach loop builds exactly that table, and the result is strtr applied with it |
| Interpolation.InterpolateOnlyScalarPlaceholders | src/Logger.php:116-125 | every substitution replaces the placeholder of a scalar entry with that entry's text; the rest of the message passes through in order |
| Interpolation.InterpolateUnchanged | src/Logger.php:116-125 | a message with no placeholder of a scalar entry is returned unchanged |
| Interpolation.InterpolateArraysOnly | src/Logger.php:119-121 | a context whose values are all arrays leaves every message unchanged |
| Interpolation.InterpolateExample | src/Logger.php:116-125 | "hi {{ k }}" with k = "v" gives "hi v" |
| Interpolation.InterpolateArrayKept | src/Logger.php:120 | "{{ x }}" with x an array stays "{{ x }}" |
| Interpolation.InterpolateNoRescanExample | src/Logger.php:124 | with a = "{{ b }}" and b = "x", "{{ a }}" gives "{{ b }}", not "x" |
| Inserts.Schema | src/Logger.php:35-42 | the six columns the constructor declares, with their types, lengths, the `notice` default and the flags of `id` |
| Inserts.ColumnNamed | src/Logger.php:103 | `getColumn($name)` on the logger's columns: a column found is one of them and has that name |
| Inserts.ColumnNamedMissing | src/Logger.php:103 | the lookup fails exactly when no column has that name |
| Inserts.SchemaColumns | src/Logger.php:35-42 | each declared column is found under its own name |
| Inserts.BuildRecord | src/Logger.php:82-91 | the record `log` builds: level, message, encoded context and time, then `created_by` when an author is armed (characterised by RecordShape) |
| Inserts.RecordKeys | src/Logger.php:82-91 | the record keys are the four base keys then `created_by` exactly when an author is armed, with no key twice |
| Inserts.RecordFits | src/Logger.php:82-103 | every record key names a declared column, and none is the auto-increment `id` |
| Inserts.RecordShape | src/Logger.php:82-91 | the record keys are level, message, context, created_at, then created_by exactly when an author is armed (with its value); the keys are distinct schema columns, and none is auto-increment |
| Inserts.ColumnLists | src/Logger.php:93-97 | the loop's column list is the key list, and its i-th parameter is ":" followed by the i-th key |
| Inserts.PlaceholderListLength | src/Logger.php:93-99 | the joined placeholder list is longer than the joined column list by one character per column |
| Inserts.Placeholders | src/Logger.php:96 | the `:key` parameter of each key, position by position |
| Inserts.InsertSql | src/Logger.php:98-101 | the INSERT text: table, the joined column list and the joined placeholder list (characterised by InsertSqlFour, InsertSqlSnoc and PlaceholderListLength) |
| Inserts.Bindings | src/Logger.php:102-104 | one binding per record field, in record order; characterised by BindValues, FieldBinding and AuthorBinding |
| Inserts.InsertStatement | src/Logger.php:98-104 | the statement `log` executes: each binding goes to the placeholder the VALUES list has at its position and carries that field's value |
| Inserts.FieldBinding | src/Logger.php:103 | a field is bound to `:key` with its value and the declared type of its column |
| Inserts.InsertSqlFour | src/Logger.php:98-101 | for four keys, the statement is `INSERT INTO t(a, b, c, d) VALUES(:a, :b, :c, :d)` |
| Inserts.InsertSqlSnoc | src/Logger.php:98-101 | one more key extends the column list with `, k` and the placeholder list with `, :k` |
| Inserts.TypedBindings | src/Logger.php:82-104 | given the declared column types, the bindings are `:level` (varchar), `:message`, `:context` (text) and `:created_at` (datetime) with the record's values, then `:created_by` (bigint) when an author is armed |
| Inserts.AuthorBinding | src/Logger.php:82-104 | for the declared schema: bindings 0-3 are the four base bindings with their values and types; an armed author adds a fifth binding `:created_by` as `bigint`; without one there are exactly four |
| Inserts.AuthorStatements | src/Logger.php:82-104 | the statement with an author lists `created_by` as an extra column and binds it as `bigint` after the four base bindings; the statement without one has exactly those four |
| Inserts.BindValues | src/Logger.php:102-104 | the loop binds each record field, in record order, to `:key` with the declared type of its column |
| Rows.EmptyValue | src/Logger.php:136 | PHP's `empty()` on a nullable column value: true of NULL, "" and "0" (characterised by ReadBack) |
| Rows.PostProcess | src/Logger.php:135-140 | the per-row post-processing of getLogs and getLogById: id cast to int, a non-empty author cast to int, context decoded, message interpolated with it (characterised by ReadBack) |
| Rows.ListCondition | src/Logger.php:130-132 | an empty condition becomes `ORDER BY id Desc`; any other condition is passed on as given |
| Rows.ByIdCondition | src/Logger.php:148-152 | the condition of getLogById: `WHERE id=:id`, `LIMIT 1`, `:id` bound to the id |
| Rows.ReadBack | src/Logger.php:134-140 | a stored integer id and author read back as the same integers; an author of 0 or none stays uncast; the message is interpolated with the decoded context, and is unchanged when decoding gives null |
| Rows.Put | src/Logger.php:141 | `$rows[$id] = $record`: overwrite in place when the id is present, append otherwise (characterised by PutProperties) |
| Rows.PutKeepsOthers | src/Logger.php:141 | the assignment leaves every pair under another id as it was |
| Rows.PutKeys | src/Logger.php:141 | `$rows[$id] = $record` leaves the key list unchanged when the id is present, and appends the id when it is new |
| Rows.PutAppends | src/Logger.php:141 | assigning a new id appends the pair at the end of the array |
| Rows.PutStores | src/Logger.php:141 | after the assignment the record is stored under its id |
| Rows.PutProperties | src/Logger.php:141 | `$rows[$id] = $record` keeps keys distinct, adds exactly that key, stores the value, leaves every pair under another key as it was, and appends when the key is new |
| Rows.AssignedKeys | src/Logger.php:134-142 | assigning pairs in turn leaves distinct keys, exactly the keys assigned |
| Rows.AssignedInOrder | src/Logger.php:134-142 | assigning pairs with distinct keys yields those pairs in the order they came |
| Rows.Collected | src/Logger.php:134-143 | the array getLogs returns: each post-processed row assigned under its id, in fetch order (characterised by CollectedKeys and CollectedInOrder) |
| Rows.CollectRows | src/Logger.php:134-142 | the fetch loop stores each post-processed row under its id, in fetch order |
| Rows.CollectedKeys | src/Logger.php:134-143 | the result holds no id twice, and its keys are exactly the fetched rows' ids |
| Rows.CollectedInOrder | src/Logger.php:130-143 | when the fetched ids are distinct, the result lists the entries in fetch order, so the default `id Desc` order reaches the caller |
| Rows.ById | src/Logger.php:153-165 | the result is null unless exactly one row came back; otherwise it is that row post-processed |
| Logging.Database.HasTable | src/Logger.php:53 | `hasTable`: the table is among the existing tables |
| Logging.Database.CreateTable | src/Logger.php:57 | `createTable` adds the table and records the call with its column list and collation, and runs no statement |
| Logging.Database.Execute | src/Logger.php:101-106 | prepare, bind and execute append the statement and change no table |
| Logging.Logger.constructor | src/Logger.php:31-43 | a new logger has the fixed schema, no table name, no author and an unset last id |
| Logging.Logger.Configured | src/Logger.php:76 | `!empty($this->name)`: a table has been set |
| Logging.Logger.SetTable | src/Logger.php:45-59 | a rejected name throws 1103 and changes nothing; an accepted name becomes the logger's name, and the table is created with the logger's columns exactly when it did not exist |
| Logging.Logger.SetColumns | src/Logger.php:61-64 | changes nothing |
| Logging.Logger.PrepareCreatedBy | src/Logger.php:66-69 | arms the author |
| Logging.Logger.Log | src/Logger.php:74-109 | on an unconfigured logger, changes nothing; otherwise executes the INSERT for the record (with the armed author), disarms the author, and leaves lastInsertId false unless execute succeeded |
| Logging.Logger.LastInsertId | src/Logger.php:111-114 | returns the cached last id |
| Logging.Logger.GetLogs | src/Logger.php:127-144 | selects from the logger's table, using `ORDER BY id Desc` when the condition is empty, and returns the id-keyed array of post-processed rows |
| Logging.Logger.GetLogById | src/Logger.php:146-166 | selects the row whose id matches with LIMIT 1, and returns null unless exactly one row came back |
| Logging.CreatedBySingleShot | src/Logger.php:66-104 | after prepareCreatedBy, the next INSERT lists `created_by` and binds it to the author as `bigint`; the INSERT after it has only the four base columns and exactly the first one's four base bindings |
| Logging.LogBeforeSetTable | src/Logger.php:74-78 | before setTable, log runs no statement, leaves the last id unset and leaves an armed author armed |
| Logging.FailedInsertClearsLastId | src/Logger.php:80-108 | a failed execute sets lastInsertId back to false, even after an earlier successful insert |
| Logging.SetTableTwice | src/Logger.php:45-57 | when setTable is called twice with the same name, the second call creates no table and changes no tables |

## Left out

- PDO and the `TableTrait` collaborator (`hasTable`, `createTable`, `selectFrom`,
  `prepare`, `getColumn`, `getName`, the `__initial` hook): their code is not part
  of this model. `Database` stands for them, holding the existing tables, the
  `createTable` calls and the executed statements.
- Stored rows and SQL evaluation of WHERE, LIMIT and ORDER BY: these happen in the
  database. The read operations take the fetched rows as input. The row count
  `getLogById` tests is the number of rows fetched.
- `json_encode` and `json_decode`: these are library calls. The encoded context is a `Log`
  parameter, and the decoded context is part of each fetched row. `json_encode`
  returning `false` is not modelled. A decode that yields a non-array value is not
  modelled either (`interpolate` would reject it).
- `date('Y-m-d H:i:s')`: this is the wall clock. `created_at` is a `Log` parameter.
- `Column` objects from the external DataObject package, and `getDataType` binding codes: a
  binding records the column's declared SQL type instead of a PDO type code.
- The PSR-3 level methods inherited from `AbstractLogger` (`info`, `notice`, ...):
  they only forward to `log`, and the level is modelled as a string.
- Php.IntCast: strings with a fraction or an exponent and 64-bit saturation are not
  modelled. Integers are unbounded.
- Interpolation.CtxValue: a scalar carries its string form. PHP's conversion of ints,
  floats, booleans, null and objects to text is not modelled. Context keys are
  strings, while PHP also allows integer keys.
- Interpolation.Strtr: keys here are never empty, so PHP's handling of an empty key is
  not modelled.
- Strings are sequences of characters, not bytes. For valid UTF-8 text the
  character filter and `strtr` behave the same either way.
- Read operations on a logger without a table: what `getName()` returns then is
  decided by `TableTrait`. The model queries with the empty name.
- `example/index.php`: it is a bootstrap script made of I/O (connection, globals, output).
