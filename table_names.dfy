/**
 * Table-name handling of `Logger::setTable`: the caller's name is filtered to
 * the characters of the class [A-Za-z0-9_-], rejected when PHP's `empty()`
 * holds of what is left, and otherwise suffixed with `_log`.
 */
module TableNames {
  import opened Wrappers

  /** Membership in the regular-expression character class [A-Za-z0-9_-]. */
  predicate Allowed(c: char) {
    ('A' <= c <= 'Z') || ('a' <= c <= 'z') || ('0' <= c <= '9') || c == '_' || c == '-'
  }

  /** The string `preg_replace('/[^A-Za-z0-9_-]/', '', s)` produces. */
  function Sanitize(s: string): (r: string)
    ensures |r| <= |s|
    ensures forall i :: 0 <= i < |r| ==> Allowed(r[i])
  {
    if s == [] then [] else (if Allowed(s[0]) then [s[0]] else []) + Sanitize(s[1..])
  }

  /** PHP's `empty()` on a string: true of "" and of "0" only. */
  predicate PhpEmpty(s: string) {
    s == "" || s == "0"
  }

  /** The suffix every physical log table carries. */
  const Suffix: string := "_log"

  /** An exception with its PHP code and message. */
  datatype Error = Error(code: int, message: string)

  /** The exception `setTable` throws for a name that sanitises to nothing usable. */
  const MissingName: Error := Error(1103, "codesaur\\Logger\\Logger: Logger table name must be provided")

  /** The physical table name `setTable` derives from the caller's name, or the exception it throws. */
  function TableName(raw: string): (r: Result<string, Error>)
    ensures r.Err? ==> r.error == MissingName
    ensures r.Ok? ==> |r.value| > |Suffix| && r.value[|r.value| - |Suffix|..] == Suffix
  {
    var t := Sanitize(raw);
    if PhpEmpty(t) then Err(MissingName) else Ok(t + Suffix)
  }

  /** Whether `setTable(raw)` calls `createTable`: the name is accepted and `hasTable` reports it absent. */
  predicate CreatesTable(tables: set<string>, raw: string) {
    TableName(raw).Ok? && TableName(raw).value !in tables
  }

  /** The set of existing tables after `setTable(raw)`. */
  function TablesAfter(tables: set<string>, raw: string): (r: set<string>)
    ensures tables <= r
    ensures r != tables <==> CreatesTable(tables, raw)
    ensures forall t :: t in r && t !in tables ==> TableName(raw) == Ok(t)
  {
    if CreatesTable(tables, raw) then tables + {TableName(raw).value} else tables
  }

  // ---------------------------------------------------------------------
  // Sanitisation keeps exactly the allowed characters, in order.

  /** Sanitisation distributes over concatenation (so it works character by character, in order). */
  lemma {:induction false} SanitizeConcat(a: string, b: string)
    ensures Sanitize(a + b) == Sanitize(a) + Sanitize(b)
  {
    if a == [] {
      assert a + b == b;
    } else {
      assert (a + b)[0] == a[0];
      assert (a + b)[1..] == a[1..] + b;
      SanitizeConcat(a[1..], b);
    }
  }

  /** On one character, sanitisation keeps it exactly when it is allowed. */
  lemma SanitizeChar(c: char)
    ensures Sanitize([c]) == if Allowed(c) then [c] else []
  {
    assert [c][1..] == [];
  }

  /** Every allowed character keeps all its occurrences; every other character loses all of them. */
  lemma {:induction false} SanitizeCount(s: string, c: char)
    ensures multiset(Sanitize(s))[c] == if Allowed(c) then multiset(s)[c] else 0
  {
    if s != [] {
      assert s == [s[0]] + s[1..];
      assert multiset(s) == multiset([s[0]]) + multiset(s[1..]);
      SanitizeCount(s[1..], c);
    }
  }

  /** A name made of allowed characters only is left as it is. */
  lemma {:induction false} SanitizeClean(s: string)
    requires forall i :: 0 <= i < |s| ==> Allowed(s[i])
    ensures Sanitize(s) == s
  {
    if s != [] {
      SanitizeClean(s[1..]);
    }
  }

  /** Sanitising twice is sanitising once. */
  lemma SanitizeIdempotent(s: string)
    ensures Sanitize(Sanitize(s)) == Sanitize(s)
  {
    SanitizeClean(Sanitize(s));
  }

  /** Sanitisation removes everything exactly when no character of the input is allowed. */
  lemma {:induction false} SanitizeEmptyIff(s: string)
    ensures Sanitize(s) == [] <==> forall i :: 0 <= i < |s| ==> !Allowed(s[i])
  {
    if s != [] {
      SanitizeEmptyIff(s[1..]);
      assert forall i :: 1 <= i < |s| ==> s[i] == s[1..][i - 1];
    }
  }

  /** A one-character result comes from exactly one allowed character of the input. */
  lemma {:induction false} SanitizeSingle(s: string)
    requires |Sanitize(s)| == 1
    ensures exists i :: 0 <= i < |s| && s[i] == Sanitize(s)[0] && forall j :: 0 <= j < |s| && j != i ==> !Allowed(s[j])
  {
    if Allowed(s[0]) {
      SanitizeEmptyIff(s[1..]);
      assert forall j :: 1 <= j < |s| ==> s[j] == s[1..][j - 1];
      assert s[0] == Sanitize(s)[0] && forall j :: 0 <= j < |s| && j != 0 ==> !Allowed(s[j]);
    } else {
      SanitizeSingle(s[1..]);
      var i :| 0 <= i < |s[1..]| && s[1..][i] == Sanitize(s[1..])[0] && forall j :: 0 <= j < |s[1..]| && j != i ==> !Allowed(s[1..][j]);
      assert forall j :: 1 <= j < |s| ==> s[j] == s[1..][j - 1];
      assert s[i + 1] == Sanitize(s)[0] && forall j :: 0 <= j < |s| && j != i + 1 ==> !Allowed(s[j]);
    }
  }

  /** Removing everything except one `0` leaves "0". */
  lemma {:induction false} LoneZero(s: string, i: int)
    requires 0 <= i < |s| && s[i] == '0'
    requires forall j :: 0 <= j < |s| && j != i ==> !Allowed(s[j])
    ensures Sanitize(s) == "0"
    decreases |s|
  {
    var t := s[1..];
    assert forall j :: 0 <= j < |t| ==> t[j] == s[j + 1];
    if i == 0 {
      SanitizeEmptyIff(t);
    } else {
      assert !Allowed(s[0]);
      LoneZero(t, i - 1);
    }
  }

  // ---------------------------------------------------------------------
  // setTable's decision.

  /**
   * `setTable` throws exception 1103 exactly when the input has no allowed
   * character at all, or its only allowed character is a single `0`;
   * otherwise the physical name is the sanitised input followed by `_log`.
   */
  lemma TableNameRejects(raw: string)
    ensures TableName(raw).Err? <==>
              (forall i :: 0 <= i < |raw| ==> !Allowed(raw[i])) ||
              (exists i :: 0 <= i < |raw| && raw[i] == '0' && forall j :: 0 <= j < |raw| && j != i ==> !Allowed(raw[j]))
    ensures TableName(raw).Err? ==> TableName(raw).error == MissingName && TableName(raw).error.code == 1103
    ensures TableName(raw).Ok? ==> TableName(raw).value == Sanitize(raw) + "_log"
  {
    SanitizeEmptyIff(raw);
    if Sanitize(raw) == "0" {
      SanitizeSingle(raw);
    }
    if exists i :: 0 <= i < |raw| && raw[i] == '0' && forall j :: 0 <= j < |raw| && j != i ==> !Allowed(raw[j]) {
      var i :| 0 <= i < |raw| && raw[i] == '0' && forall j :: 0 <= j < |raw| && j != i ==> !Allowed(raw[j]);
      LoneZero(raw, i);
    }
  }

  /** A name already made of allowed characters, other than "" and "0", is accepted unchanged and suffixed. */
  lemma AcceptsCleanName(raw: string)
    requires forall i :: 0 <= i < |raw| ==> Allowed(raw[i])
    requires !PhpEmpty(raw)
    ensures TableName(raw) == Ok(raw + "_log")
  {
    SanitizeClean(raw);
  }

  /**
   * An accepted physical name consists of allowed characters only (nothing
   * that could break out of the SQL identifier position), ends in `_log`,
   * and is itself not empty by PHP's rule, so the logger counts as configured.
   */
  lemma TableNameShape(raw: string)
    requires TableName(raw).Ok?
    ensures var n := TableName(raw).value;
      |n| > |Suffix| && n[|n| - |Suffix|..] == Suffix && !PhpEmpty(n) &&
      forall i :: 0 <= i < |n| ==> Allowed(n[i])
  {
    var n := TableName(raw).value;
    assert n == Sanitize(raw) + Suffix;
    assert forall i :: |Sanitize(raw)| <= i < |n| ==> n[i] == Suffix[i - |Sanitize(raw)|];
  }

  /**
   * Calling `setTable` a second time with the same name finds the table and
   * creates nothing, so the set of tables stays as the first call left it.
   */
  lemma SetTableIdempotent(tables: set<string>, raw: string)
    ensures !CreatesTable(TablesAfter(tables, raw), raw)
    ensures TablesAfter(TablesAfter(tables, raw), raw) == TablesAfter(tables, raw)
    ensures TablesAfter(tables, raw) == tables <==> !CreatesTable(tables, raw)
  {
  }
}
