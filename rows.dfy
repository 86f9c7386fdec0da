/**
 * The read side of the logger: the condition `getLogs` and `getLogById`
 * query with, the post-processing of each fetched row (integer casts,
 * decoded context, interpolated message), the `id`-keyed result array of
 * `getLogs` and the single-row guard of `getLogById`.
 */
module Rows {
  import opened Wrappers
  import Php
  import Interpolation

  // ---------------------------------------------------------------------
  // Query conditions.

  /** A value in a condition array: SQL text, a count, or named parameters. */
  datatype CondValue = Clause(text: string) | Count(n: int) | Params(bindings: seq<(string, int)>)

  /** A condition array such as `['WHERE' => ..., 'LIMIT' => ..., 'ORDER BY' => ...]`. */
  type Condition = map<string, CondValue>

  /** The condition `getLogs` passes on: newest first when the caller gave none. */
  function ListCondition(condition: Condition): (r: Condition)
    ensures r != map[]
    ensures condition != map[] ==> r == condition
    ensures condition == map[] ==> r.Keys == {"ORDER BY"} && r["ORDER BY"] == Clause("id Desc")
  {
    if |condition| == 0 then map["ORDER BY" := Clause("id Desc")] else condition
  }

  /** The condition `getLogById` passes on: the one row whose id matches. */
  function ByIdCondition(id: int): Condition {
    map["WHERE" := Clause("id=:id"), "LIMIT" := Count(1), "PARAM" := Params([(":id", id)])]
  }

  /** A `selectFrom(table, columns, condition)` request. */
  datatype Select = Select(table: string, columns: string, condition: Condition)

  // ---------------------------------------------------------------------
  // Rows.

  /** A row as the driver fetches it: every column as text, nullable ones possibly NULL. */
  datatype RawRow = RawRow(id: string, level: Option<string>, message: string, context: string,
                           createdAt: Option<string>, createdBy: Option<string>)

  /** A fetched row together with what `json_decode($row['context'], true)` gives for it (None for null). */
  datatype Fetched = Fetched(row: RawRow, decoded: Option<Interpolation.Context>)

  /** The `created_by` of a returned entry: cast to an integer, or left as fetched when empty. */
  datatype Author = Uncast(raw: Option<string>) | Account(id: int)

  /** A returned log entry. */
  datatype Entry = Entry(id: int, level: Option<string>, message: string, context: Option<Interpolation.Context>,
                         createdAt: Option<string>, createdBy: Author)

  /** PHP's `empty()` on a nullable column value: NULL, "" and "0". */
  predicate EmptyValue(v: Option<string>) {
    v.None? || v.value == "" || v.value == "0"
  }

  /** The post-processing both read operations apply to a fetched row. */
  function PostProcess(f: Fetched): Entry {
    var r := f.row;
    Entry(Php.IntCast(r.id), r.level,
          Interpolation.Interpolated(r.message, if f.decoded.Some? then f.decoded.value else map[]),
          f.decoded, r.createdAt,
          if EmptyValue(r.createdBy) then Uncast(r.createdBy) else Account(Php.IntCast(r.createdBy.value)))
  }

  /**
   * Reading back what was stored: an id and author stored as integers come
   * back as the same integers; an author of 0 or none stays uncast; the
   * message is interpolated against the decoded context, and against an
   * empty context, which leaves it unchanged, when decoding gave null.
   */
  lemma ReadBack(id: int, level: Option<string>, message: string, context: string, createdAt: Option<string>,
                 author: Option<int>, decoded: Option<Interpolation.Context>)
    ensures var raw := RawRow(Php.Decimal(id), level, message, context, createdAt,
                              if author.Some? then Some(Php.Decimal(author.value)) else None);
      var e := PostProcess(Fetched(raw, decoded));
      e.id == id && e.level == level && e.context == decoded && e.createdAt == createdAt &&
      (decoded.Some? ==> e.message == Interpolation.Interpolated(message, decoded.value)) &&
      (decoded.None? ==> e.message == message) &&
      (author.Some? && author.value != 0 ==> e.createdBy == Account(author.value)) &&
      (author.Some? && author.value == 0 ==> e.createdBy == Uncast(Some("0"))) &&
      (author.None? ==> e.createdBy == Uncast(None))
  {
    Php.IntCastDecimal(id);
    if author.Some? {
      Php.IntCastDecimal(author.value);
      Php.DecimalZero(author.value);
    }
    Interpolation.StrtrEmpty(message);
    assert Interpolation.Replacements(map[]) == map[];
  }

  // ---------------------------------------------------------------------
  // The result array of getLogs.

  /** No id occurs twice. */
  predicate Distinct(ids: seq<int>) {
    forall i, j :: 0 <= i < j < |ids| ==> ids[i] != ids[j]
  }

  /** Distinct ids without the last one: still distinct, and the last one is not among them. */
  lemma DistinctFront(xs: seq<int>)
    requires xs != [] && Distinct(xs)
    ensures Distinct(xs[..|xs| - 1]) && xs[|xs| - 1] !in xs[..|xs| - 1]
  {
    var n := |xs| - 1;
    forall i | 0 <= i < n
      ensures xs[..n][i] != xs[n]
    {
      assert xs[..n][i] == xs[i];
    }
  }

  /** A PHP array with integer keys, in insertion order. */
  type IdArray<V> = seq<(int, V)>

  /** `$arr[$k] = $v`: overwrite in place when the key is present, append otherwise. */
  function Put<V>(arr: IdArray<V>, k: int, v: V): (r: IdArray<V>)
    ensures |r| == if k in Php.ArrayKeys(arr) then |arr| else |arr| + 1
    decreases |arr|
  {
    if arr == [] then [(k, v)]
    else if arr[0].0 == k then [(k, v)] + arr[1..]
    else [arr[0]] + Put(arr[1..], k, v)
  }

  /** No key appears twice, as in every PHP array. */
  predicate DistinctKeys<V>(arr: IdArray<V>) {
    Distinct(Php.ArrayKeys(arr))
  }

  /** A new id added at the end of distinct ids keeps them distinct. */
  lemma DistinctSnoc(xs: seq<int>, x: int)
    requires Distinct(xs) && x !in xs
    ensures Distinct(xs + [x])
  {
    var ys := xs + [x];
    forall i, j | 0 <= i < j < |ys|
      ensures ys[i] != ys[j]
    {
      assert ys[i] == xs[i];
      if j < |xs| {
        assert ys[j] == xs[j];
      }
    }
  }

  /** Assigning a key leaves the key list as it was when the key is present, else appends the key. */
  lemma {:induction false} PutKeys<V>(arr: IdArray<V>, k: int, v: V)
    ensures Php.ArrayKeys(Put(arr, k, v)) == if k in Php.ArrayKeys(arr) then Php.ArrayKeys(arr) else Php.ArrayKeys(arr) + [k]
    decreases |arr|
  {
    var put := Put(arr, k, v);
    if arr == [] {
      assert Php.ArrayKeys(put) == [k];
    } else {
      var rest := arr[1..];
      assert Php.ArrayKeys(arr) == [arr[0].0] + Php.ArrayKeys(rest);
      if arr[0].0 == k {
        assert Php.ArrayKeys(put) == [k] + Php.ArrayKeys(rest);
      } else {
        PutKeys(rest, k, v);
        assert Php.ArrayKeys(put) == [arr[0].0] + Php.ArrayKeys(Put(rest, k, v));
        assert k in Php.ArrayKeys(arr) <==> k in Php.ArrayKeys(rest);
      }
    }
  }

  /** After assigning a key, the pair of that key and the value is in the array. */
  lemma {:induction false} PutStores<V>(arr: IdArray<V>, k: int, v: V)
    ensures (k, v) in Put(arr, k, v)
    decreases |arr|
  {
    if arr != [] && arr[0].0 != k {
      PutStores(arr[1..], k, v);
      assert Put(arr, k, v)[1..] == Put(arr[1..], k, v);
    }
  }

  /** Assigning a key leaves the pairs under every other key as they were. */
  lemma {:induction false} PutKeepsOthers<V>(arr: IdArray<V>, k: int, v: V)
    ensures forall x, w :: x != k ==> ((x, w) in Put(arr, k, v) <==> (x, w) in arr)
    decreases |arr|
  {
    if arr != [] && arr[0].0 != k {
      PutKeepsOthers(arr[1..], k, v);
      assert arr == [arr[0]] + arr[1..];
    } else if arr != [] {
      assert arr == [arr[0]] + arr[1..];
    }
  }

  /** Assigning a new key appends the pair at the end. */
  lemma {:induction false} PutAppends<V>(arr: IdArray<V>, k: int, v: V)
    requires k !in Php.ArrayKeys(arr)
    ensures Put(arr, k, v) == arr + [(k, v)]
    decreases |arr|
  {
    if arr != [] {
      assert Php.ArrayKeys(arr)[0] == arr[0].0;
      assert Php.ArrayKeys(arr[1..]) == Php.ArrayKeys(arr)[1..];
      PutAppends(arr[1..], k, v);
      assert arr == [arr[0]] + arr[1..];
    }
  }

  /** Assigning a key keeps the keys distinct, adds that key and no other, and stores the value under it. */
  lemma PutProperties<V>(arr: IdArray<V>, k: int, v: V)
    requires DistinctKeys(arr)
    ensures DistinctKeys(Put(arr, k, v))
    ensures forall x :: x in Php.ArrayKeys(Put(arr, k, v)) <==> x in Php.ArrayKeys(arr) || x == k
    ensures (k, v) in Put(arr, k, v)
    ensures forall x, w :: x != k ==> ((x, w) in Put(arr, k, v) <==> (x, w) in arr)
    ensures k !in Php.ArrayKeys(arr) ==> Put(arr, k, v) == arr + [(k, v)]
  {
    PutKeys(arr, k, v);
    PutStores(arr, k, v);
    PutKeepsOthers(arr, k, v);
    if k !in Php.ArrayKeys(arr) {
      DistinctSnoc(Php.ArrayKeys(arr), k);
      PutAppends(arr, k, v);
    }
  }

  /** The array built by assigning each pair in turn. */
  function Assigned<V>(ps: IdArray<V>): IdArray<V>
    decreases |ps|
  {
    if ps == [] then []
    else
      var last := ps[|ps| - 1];
      Put(Assigned(ps[..|ps| - 1]), last.0, last.1)
  }

  /** Assigning pairs in turn leaves distinct keys, exactly the keys assigned. */
  lemma {:induction false} AssignedKeys<V>(ps: IdArray<V>)
    ensures DistinctKeys(Assigned(ps))
    ensures forall x :: x in Php.ArrayKeys(Assigned(ps)) <==> x in Php.ArrayKeys(ps)
    decreases |ps|
  {
    if ps != [] {
      var n := |ps| - 1;
      AssignedKeys(ps[..n]);
      PutProperties(Assigned(ps[..n]), ps[n].0, ps[n].1);
      assert Php.ArrayKeys(ps) == Php.ArrayKeys(ps[..n]) + [ps[n].0];
    }
  }

  /** Assigning pairs with distinct keys keeps them in the order they came. */
  lemma {:induction false} AssignedInOrder<V>(ps: IdArray<V>)
    requires DistinctKeys(ps)
    ensures Assigned(ps) == ps
    decreases |ps|
  {
    if ps != [] {
      var n := |ps| - 1;
      var front := ps[..n];
      assert Php.ArrayKeys(front) == Php.ArrayKeys(ps)[..n];
      DistinctFront(Php.ArrayKeys(ps));
      AssignedInOrder(front);
      PutProperties(front, ps[n].0, ps[n].1);
      assert front + [ps[n]] == ps;
    }
  }

  /** The ids of the fetched rows after the integer cast, in fetch order. */
  function Ids(rows: seq<Fetched>): (ids: seq<int>)
    ensures |ids| == |rows| && forall i :: 0 <= i < |rows| ==> ids[i] == PostProcess(rows[i]).id
  {
    seq(|rows|, i requires 0 <= i < |rows| => PostProcess(rows[i]).id)
  }

  /** Each fetched row paired with its id, in fetch order. */
  function Entries(rows: seq<Fetched>): (es: IdArray<Entry>)
    ensures |es| == |rows| && forall i :: 0 <= i < |rows| ==> es[i] == (PostProcess(rows[i]).id, PostProcess(rows[i]))
    ensures Php.ArrayKeys(es) == Ids(rows)
  {
    seq(|rows|, i requires 0 <= i < |rows| => (PostProcess(rows[i]).id, PostProcess(rows[i])))
  }

  /** The array `getLogs` returns after fetching the given rows in order. */
  function Collected(rows: seq<Fetched>): IdArray<Entry> {
    Assigned(Entries(rows))
  }

  /** The fetch loop of `getLogs`: each post-processed row stored under its id. */
  method CollectRows(fetched: seq<Fetched>) returns (rows: IdArray<Entry>)
    ensures rows == Collected(fetched)
  {
    rows := [];
    var i := 0;
    while i < |fetched|
      invariant 0 <= i <= |fetched|
      invariant rows == Collected(fetched[..i])
    {
      var e := PostProcess(fetched[i]);
      assert Entries(fetched[..i + 1])[..i] == Entries(fetched[..i]);
      rows := Put(rows, e.id, e);
      i := i + 1;
    }
    assert fetched[..i] == fetched;
  }

  /**
   * The result of `getLogs` holds no id twice, and its keys are exactly the
   * ids of the fetched rows.
   */
  lemma CollectedKeys(rows: seq<Fetched>)
    ensures DistinctKeys(Collected(rows))
    ensures forall x :: x in Php.ArrayKeys(Collected(rows)) <==> x in Ids(rows)
  {
    AssignedKeys(Entries(rows));
  }

  /**
   * When the fetched ids are distinct (the primary key guarantees it), the
   * result of `getLogs` lists the entries in the order they were fetched,
   * so the default `id Desc` order reaches the caller unchanged.
   */
  lemma CollectedInOrder(rows: seq<Fetched>)
    requires Distinct(Ids(rows))
    ensures Collected(rows) == Entries(rows)
  {
    AssignedInOrder(Entries(rows));
  }

  // ---------------------------------------------------------------------
  // getLogById.

  /** `getLogById`: null unless exactly one row came back, else that row post-processed. */
  function ById(fetched: seq<Fetched>): (r: Option<Entry>)
    ensures r.Some? <==> |fetched| == 1
    ensures r.Some? ==> r.value == PostProcess(fetched[0])
  {
    if |fetched| != 1 then None else Some(PostProcess(fetched[0]))
  }
}
