/** The in-memory data driver (ServeRick/Modules/LightDataDriver.cs): a table keeps its
    records in a dictionary keyed by id; selects filter the records by the query's
    conditions, lazily, then skip and take; inserts number new rows after the largest key;
    updates set columns on the selected records. The table class itself (`MemoryRecords`,
    `GetColumn`, `SetColumn`) is not part of this model: a record here has an `id` and named
    fields, and reading or writing an unknown column fails. */
module LightData {
  import opened Results
  import opened Text
  import opened Queries

  /** A record of record type `kind`. */
  datatype Record = Record(kind: nat, id: int, fields: map<string, Value>)

  /** `MemoryRecords` of a table for records of type `kind`: the keys in the order they
      were added (a .NET dictionary without removals enumerates in that order) and the
      record under each key. */
  datatype Table = Table(kind: nat, keys: seq<int>, rows: map<int, Record>)

  ghost predicate ValidTable(t: Table) {
    && Distinct(t.keys)
    && (forall i :: 0 <= i < |t.keys| ==> t.keys[i] in t.rows)
    && (forall k :: k in t.rows ==> k in t.keys)
  }

  /** Every key of the list has a record. */
  predicate KeysIn(t: Table, keys: seq<int>) {
    forall i :: 0 <= i < |keys| ==> keys[i] in t.rows
  }

  /** Every record under the keys can be tested against the conditions. */
  predicate Testable(t: Table, keys: seq<int>, items: seq<WhereItem>) {
    KeysIn(t, keys) && forall i :: 0 <= i < |keys| ==> Passes(t.rows[keys[i]], items).Ok?
  }

  datatype DriverError =
    | NullColumn       // `column.Equals` on a null column
    | NotString        // `(column as string).Contains` on a column that is not a string
    | NullOperand      // `Operand.ToString()` or `(int)Operand` on a null operand
    | MissingColumn    // a column the record does not have
    | InvalidCast      // `(int)Operand` on an operand that is not an int
    | NoRows           // `First()` or `Max()` on an empty table
    | NotImplemented   // a single condition other than an id equality
    | DuplicateKey     // `Dictionary.Add` of a key already present

  // ---------------------------------------------------------------------------------
  // Initialize

  /** `MemoryRecords[key] = record`: a new key goes last, an existing one keeps its place. */
  function Put(t: Table, key: int, r: Record): (t': Table)
    requires ValidTable(t)
    ensures ValidTable(t') && t'.kind == t.kind
    ensures t'.rows == t.rows[key := r]
    ensures key in t.rows ==> t'.keys == t.keys
    ensures key !in t.rows ==> t'.keys == t.keys + [key]
  {
    if key in t.rows then t.(rows := t.rows[key := r])
    else Table(t.kind, t.keys + [key], t.rows[key := r])
  }

  /** `Initialize`: each given record of the table's type is stored under its id. */
  function Initialize(records: seq<Record>, t: Table): (t': Table)
    requires ValidTable(t)
    ensures ValidTable(t') && t'.kind == t.kind
    decreases |records|
  {
    if |records| == 0 then t
    else if records[0].kind == t.kind then Initialize(records[1..], Put(t, records[0].id, records[0]))
    else Initialize(records[1..], t)
  }

  /** `records[i]` is the last record of type `kind` with id `key`. */
  ghost predicate LastFor(records: seq<Record>, kind: nat, key: int, i: int) {
    && 0 <= i < |records| && records[i].kind == kind && records[i].id == key
    && forall j :: i < j < |records| ==> !(records[j].kind == kind && records[j].id == key)
  }

  ghost predicate Stores(records: seq<Record>, kind: nat, key: int) {
    exists i :: 0 <= i < |records| && records[i].kind == kind && records[i].id == key
  }

  /** After `Initialize` a key is present iff it was before or some record of the table's
      type has it as id; the record stored is the last such record, and keys no such
      record has keep their record. Records of other types are skipped. */
  lemma {:induction false} InitializeMeaning(records: seq<Record>, t: Table, key: int)
    requires ValidTable(t)
    ensures var t' := Initialize(records, t);
      && (key in t'.rows <==> key in t.rows || Stores(records, t.kind, key))
      && (forall i :: LastFor(records, t.kind, key, i) ==> t'.rows[key] == records[i])
      && (!Stores(records, t.kind, key) && key in t.rows ==> t'.rows[key] == t.rows[key])
    decreases |records|
  {
    if |records| > 0 {
      var next := if records[0].kind == t.kind then Put(t, records[0].id, records[0]) else t;
      InitializeMeaning(records[1..], next, key);
      var t' := Initialize(records, t);
      assert t' == Initialize(records[1..], next);
      if Stores(records[1..], t.kind, key) {
        var i :| 0 <= i < |records[1..]| && records[1..][i].kind == t.kind && records[1..][i].id == key;
        assert records[i + 1] == records[1..][i];
      }
      forall i | LastFor(records, t.kind, key, i)
        ensures t'.rows[key] == records[i]
      {
        if i > 0 {
          assert LastFor(records[1..], t.kind, key, i - 1) by {
            forall j | i - 1 < j < |records[1..]|
              ensures !(records[1..][j].kind == t.kind && records[1..][j].id == key)
            {
              assert records[1..][j] == records[j + 1];
            }
          }
        } else {
          assert !Stores(records[1..], t.kind, key) by {
            forall j | 0 <= j < |records[1..]|
              ensures !(records[1..][j].kind == t.kind && records[1..][j].id == key)
            {
              assert records[1..][j] == records[j + 1];
            }
          }
        }
      }
    }
  }

  // ---------------------------------------------------------------------------------
  // Conditions

  /** `GetColumn`: "id" reads the record's id, any other name the field of that name. */
  function Column(r: Record, name: string): Result<Value, DriverError> {
    if name == "id" then Ok(Int(r.id))
    else if name in r.fields then Ok(r.fields[name])
    else Throws(MissingColumn)
  }

  /** `Operand.ToString()`. */
  function OperandText(v: Value): Result<string, DriverError> {
    match v
    case Int(i) => Ok(IntToString(i))
    case Str(s) => Ok(s)
    case Null => Throws(NullOperand)
  }

  /** One condition on one row (`applyItem`): `Equal` compares the column with the
      operand, `HasSubstring` looks for the operand's text in a string column. */
  function Test(r: Record, item: WhereItem): (res: Result<bool, DriverError>)
    ensures res == Ok(true) && item.operation == Equal ==> Column(r, item.column) == Ok(item.operand)
    ensures res.Ok? && item.operation == HasSubstring ==>
      Column(r, item.column).Ok? && Column(r, item.column).value.Str? && item.operand != Null
      && (res.value <==> Contains(Column(r, item.column).value.s, OperandText(item.operand).value))
  {
    var column := Column(r, item.column);
    if column.Throws? then Throws(column.error)
    else match item.operation
      case Equal =>
        if column.value == Null then Throws(NullColumn) else Ok(column.value == item.operand)
      case HasSubstring =>
        if !column.value.Str? then Throws(NotString)
        else
          var text := OperandText(item.operand);
          if text.Throws? then Throws(text.error) else Ok(Contains(column.value.s, text.value))
  }

  /** The chained `applyItem`s seen from one row: the conditions in order, stopping at the
      first that fails or throws. */
  function Passes(r: Record, items: seq<WhereItem>): Result<bool, DriverError>
    decreases |items|
  {
    if |items| == 0 then Ok(true)
    else
      var first := Test(r, items[0]);
      if first.Throws? then first
      else if !first.value then Ok(false)
      else Passes(r, items[1..])
  }

  /** Conditions combine conjunctively: a row passes exactly when every condition holds of
      it. */
  lemma {:induction false} PassesMeaning(r: Record, items: seq<WhereItem>)
    ensures Passes(r, items) == Ok(true) <==> forall k :: 0 <= k < |items| ==> Test(r, items[k]) == Ok(true)
    decreases |items|
  {
    if |items| > 0 {
      PassesMeaning(r, items[1..]);
      if Passes(r, items) == Ok(true) {
        forall k | 0 <= k < |items| ensures Test(r, items[k]) == Ok(true) {
          if k > 0 { assert items[k] == items[1..][k - 1]; }
        }
      }
      if forall k :: 0 <= k < |items| ==> Test(r, items[k]) == Ok(true) {
        assert Test(r, items[0]) == Ok(true);
        forall k | 0 <= k < |items[1..]| ensures Test(r, items[1..][k]) == Ok(true) {
          assert items[1..][k] == items[k + 1];
        }
      }
    }
  }

  /** The keys of the rows `applyCondition(...).Skip(skip).Take(take)` yields, computed
      as the lazy enumeration does: rows are examined in order only until `take` rows
      have been yielded, so a row after that is never tested. */
  function Pull(t: Table, keys: seq<int>, items: seq<WhereItem>, skip: int, take: int): (r: Result<seq<int>, DriverError>)
    requires KeysIn(t, keys)
    ensures r.Ok? ==> |r.value| <= |keys| && (take >= 0 ==> |r.value| <= take)
    decreases |keys|
  {
    if take <= 0 || |keys| == 0 then Ok([])
    else
      var pass := Passes(t.rows[keys[0]], items);
      if pass.Throws? then Throws(pass.error)
      else if !pass.value then Pull(t, keys[1..], items, skip, take)
      else if skip > 0 then Pull(t, keys[1..], items, skip - 1, take)
      else
        var rest := Pull(t, keys[1..], items, skip, take - 1);
        if rest.Throws? then rest else Ok([keys[0]] + rest.value)
  }

  /** The rows passing the conditions, when every row can be tested. */
  function Selected(t: Table, keys: seq<int>, items: seq<WhereItem>): (r: seq<int>)
    requires Testable(t, keys, items)
    ensures KeysIn(t, r)
    decreases |keys|
  {
    if |keys| == 0 then []
    else (if Passes(t.rows[keys[0]], items).value then [keys[0]] else []) + Selected(t, keys[1..], items)
  }

  /** `Skip(skip).Take(take)` on a list: a negative count skips or takes nothing. */
  function Window<T>(xs: seq<T>, skip: int, take: int): (r: seq<T>)
    ensures |r| <= |xs|
    ensures WindowFrom(xs, skip) + |r| <= |xs| && r == xs[WindowFrom(xs, skip)..WindowFrom(xs, skip) + |r|]
  {
    var from := WindowFrom(xs, skip);
    var count := if take <= 0 then 0 else if take >= |xs| - from then |xs| - from else take;
    xs[from..from + count]
  }

  /** Where the window starts: `skip` clamped to the list. */
  function WindowFrom<T>(xs: seq<T>, skip: int): (from: nat)
    ensures from <= |xs| && (0 < skip <= |xs| ==> from == skip)
  {
    if skip <= 0 then 0 else if skip >= |xs| then |xs| else skip
  }

  lemma WindowCons<T>(x: T, xs: seq<T>, skip: int, take: int)
    requires take > 0
    ensures skip > 0 ==> Window([x] + xs, skip, take) == Window(xs, skip - 1, take)
    ensures skip <= 0 ==> Window([x] + xs, skip, take) == [x] + Window(xs, skip, take - 1)
  {
    var ys := [x] + xs;
    if skip > 0 {
      var from := if skip >= |ys| then |ys| else skip;
      var from' := if skip - 1 >= |xs| then |xs| else skip - 1;
      assert from == from' + 1;
      assert ys[from..] == xs[from'..];
    } else {
      var count := if take >= |ys| then |ys| else take;
      assert ys[0..count] == [x] + xs[0..count - 1];
    }
  }

  /** When every row can be tested, the lazy enumeration yields the window of the rows
      that pass, in table order. */
  lemma {:induction false} PullIsWindow(t: Table, keys: seq<int>, items: seq<WhereItem>, skip: int, take: int)
    requires Testable(t, keys, items)
    ensures Pull(t, keys, items, skip, take) == Ok(Window(Selected(t, keys, items), skip, take))
    decreases |keys|
  {
    if take > 0 && |keys| > 0 {
      var rest := keys[1..];
      var sel := Selected(t, rest, items);
      assert Testable(t, rest, items) by {
        forall i | 0 <= i < |rest| ensures rest[i] == keys[i + 1] { }
      }
      if !Passes(t.rows[keys[0]], items).value {
        assert Selected(t, keys, items) == sel;
        PullIsWindow(t, rest, items, skip, take);
      } else if skip > 0 {
        PullIsWindow(t, rest, items, skip - 1, take);
        WindowCons(keys[0], sel, skip, take);
      } else {
        PullIsWindow(t, rest, items, skip, take - 1);
        WindowCons(keys[0], sel, skip, take);
      }
    }
  }

  /** The table's records in dictionary order (`MemoryRecords.Values`). */
  function Values(t: Table, keys: seq<int>): (r: seq<Record>)
    requires KeysIn(t, keys)
    ensures |r| == |keys| && forall i :: 0 <= i < |keys| ==> r[i] == t.rows[keys[i]]
  {
    seq(|keys|, i requires 0 <= i < |keys| => t.rows[keys[i]])
  }

  // ---------------------------------------------------------------------------------
  // Selects

  /** `RowsResult`: the rows and the table's total count. */
  datatype RowsResult = RowsResult(rows: seq<Record>, totalCount: int)

  /** `ExecuteRows`: the window of the rows passing the query's conditions, with the
      number of records in the table (not the number passing) as total count. */
  function ExecuteRows(t: Table, q: SelectQuery): (r: Result<RowsResult, DriverError>)
    requires ValidTable(t)
    ensures r.Ok? ==> r.value.totalCount == |t.keys|
    ensures r.Ok? ==> |r.value.rows| <= |t.keys| && (q.maxCount >= 0 ==> |r.value.rows| <= q.maxCount)
    ensures Testable(t, t.keys, q.condition.items) ==>
      r == Ok(RowsResult(Values(t, Window(Selected(t, t.keys, q.condition.items), q.start, q.maxCount)), |t.keys|))
  {
    var keys := Pull(t, t.keys, q.condition.items, q.start, q.maxCount);
    PullIsWindowWhenTestable(t, q);
    if keys.Throws? then Throws(keys.error)
    else
      PullKeys(t, t.keys, q.condition.items, q.start, q.maxCount);
      Ok(RowsResult(Values(t, keys.value), |t.keys|))
  }

  lemma PullIsWindowWhenTestable(t: Table, q: SelectQuery)
    requires ValidTable(t)
    ensures Testable(t, t.keys, q.condition.items) ==>
      Pull(t, t.keys, q.condition.items, q.start, q.maxCount)
        == Ok(Window(Selected(t, t.keys, q.condition.items), q.start, q.maxCount))
  {
    if Testable(t, t.keys, q.condition.items) {
      PullIsWindow(t, t.keys, q.condition.items, q.start, q.maxCount);
    }
  }

  lemma {:induction false} PullKeys(t: Table, keys: seq<int>, items: seq<WhereItem>, skip: int, take: int)
    requires KeysIn(t, keys)
    ensures Pull(t, keys, items, skip, take).Ok? ==>
      var r := Pull(t, keys, items, skip, take).value;
      KeysIn(t, r) && forall i :: 0 <= i < |r| ==> r[i] in keys
    decreases |keys|
  {
    if take > 0 && |keys| > 0 {
      var rest := keys[1..];
      PullKeys(t, rest, items, skip, take);
      PullKeys(t, rest, items, skip - 1, take);
      PullKeys(t, rest, items, skip, take - 1);
      var r := Pull(t, keys, items, skip, take);
      var pass := Passes(t.rows[keys[0]], items);
      if r.Ok? && pass.Ok? && pass.value && skip <= 0 {
        var tail := Pull(t, rest, items, skip, take - 1).value;
        assert r.value == [keys[0]] + tail;
        forall i | 0 < i < |r.value| ensures r.value[i] in keys {
          assert r.value[i] == tail[i - 1];
        }
      }
    }
  }

  /** `ExecuteRow`: with no condition, the first record (an empty table throws); with one
      condition, which must be an id equality, a dictionary lookup by key; with more, the
      first row passing them all, or none. */
  function ExecuteRow(t: Table, q: SelectQuery): (r: Result<Option<Record>, DriverError>)
    requires ValidTable(t)
    ensures |q.condition.items| == 0 ==> (r.Ok? <==> |t.keys| > 0)
    ensures |q.condition.items| == 0 && r.Ok? ==> r.value == Some(t.rows[t.keys[0]])
    ensures |q.condition.items| == 1 ==>
      var item := q.condition.items[0];
      && (r.Ok? <==> item.operation == Equal && item.column == "id" && item.operand.Int?)
      && (r.Ok? ==> (r.value.Some? <==> item.operand.i in t.rows))
      && (r.Ok? && r.value.Some? ==> r.value.value == t.rows[item.operand.i])
    ensures |q.condition.items| > 1 && r.Ok? && r.value.Some? ==>
      r.value.value in t.rows.Values && Passes(r.value.value, q.condition.items) == Ok(true)
  {
    var items := q.condition.items;
    if |items| == 0 then
      if |t.keys| == 0 then Throws(NoRows) else Ok(Some(t.rows[t.keys[0]]))
    else if |items| == 1 then
      var item := items[0];
      if item.operation != Equal || item.column != "id" then Throws(NotImplemented)
      else match item.operand
        case Null => Throws(NullOperand)
        case Str(_) => Throws(InvalidCast)
        case Int(id) => Ok(if id in t.rows then Some(t.rows[id]) else None)
    else
      var first := Pull(t, t.keys, items, 0, 1);
      PullKeys(t, t.keys, items, 0, 1);
      PullPasses(t, t.keys, items, 0, 1);
      if first.Throws? then Throws(first.error)
      else if |first.value| == 0 then Ok(None)
      else
        var key := first.value[0];
        assert t.rows[key] in t.rows.Values;
        Ok(Some(t.rows[key]))
  }

  /** Every listed row passes the conditions. */
  predicate AllPass(t: Table, keys: seq<int>, items: seq<WhereItem>) {
    forall i :: 0 <= i < |keys| ==> keys[i] in t.rows && Passes(t.rows[keys[i]], items) == Ok(true)
  }

  lemma {:induction false} PullPasses(t: Table, keys: seq<int>, items: seq<WhereItem>, skip: int, take: int)
    requires KeysIn(t, keys)
    ensures Pull(t, keys, items, skip, take).Ok? ==> AllPass(t, Pull(t, keys, items, skip, take).value, items)
    decreases |keys|
  {
    if take > 0 && |keys| > 0 {
      var rest := keys[1..];
      PullPasses(t, rest, items, skip, take);
      PullPasses(t, rest, items, skip - 1, take);
      PullPasses(t, rest, items, skip, take - 1);
      var r := Pull(t, keys, items, skip, take);
      var pass := Passes(t.rows[keys[0]], items);
      if r.Ok? && pass.Ok? && pass.value && skip <= 0 {
        var tail := Pull(t, rest, items, skip, take - 1).value;
        assert r.value == [keys[0]] + tail;
        forall i | 0 < i < |r.value| ensures r.value[i] == tail[i - 1] { }
      }
    }
  }

  // ---------------------------------------------------------------------------------
  // Inserts

  function MaxOf(keys: seq<int>): (m: int)
    requires |keys| > 0
    ensures m in keys && forall i :: 0 <= i < |keys| ==> keys[i] <= m
  {
    if |keys| == 1 then keys[0]
    else
      var rest := MaxOf(keys[1..]);
      assert forall i :: 0 < i < |keys| ==> keys[i] == keys[1..][i - 1];
      if keys[0] >= rest then keys[0] else rest
  }

  /** `getUID`: one more than the largest key, as a wrapping C# `int` addition; an empty
      table has no largest key and throws. */
  function GetUid(t: Table): (r: Result<int, DriverError>)
    ensures r.Ok? <==> |t.keys| > 0
    ensures r.Ok? && IntMin <= MaxOf(t.keys) < IntMax ==>
      r.value == MaxOf(t.keys) + 1 && forall i :: 0 <= i < |t.keys| ==> t.keys[i] != r.value
  {
    if |t.keys| == 0 then Throws(NoRows) else Ok(Wrap32(MaxOf(t.keys) + 1))
  }

  /** `InsertRows`: each row in turn gets the next id and is added under it. */
  function InsertRows(t: Table, rows: seq<Record>): (r: Result<(Table, seq<Record>), DriverError>)
    requires ValidTable(t)
    ensures r.Ok? ==> ValidTable(r.value.0) && r.value.0.kind == t.kind && |r.value.1| == |rows|
    ensures |t.keys| == 0 ==> (r.Ok? <==> |rows| == 0)
    decreases |rows|
  {
    if |rows| == 0 then Ok((t, []))
    else
      var uid := GetUid(t);
      if uid.Throws? then Throws(uid.error)
      else if uid.value in t.rows then Throws(DuplicateKey)
      else
        var row := rows[0].(id := uid.value);
        var rest := InsertRows(Put(t, uid.value, row), rows[1..]);
        if rest.Throws? then rest else Ok((rest.value.0, [row] + rest.value.1))
  }

  /** The `k`-th id handed out after the largest key `m`. */
  function NewId(m: int, k: int): int {
    m + 1 + k
  }

  /** The ids handed out after the largest key `m`, in order. */
  function NewIds(m: int, n: nat): (ids: seq<int>)
    ensures |ids| == n && forall k :: 0 <= k < n ==> ids[k] == NewId(m, k)
  {
    seq(n, k requires 0 <= k < n => NewId(m, k))
  }

  /** `t'` is `t` with `rows` added under the ids after `m`, in order; `added` are the rows
      as stored, each carrying its new id; the existing records stay. */
  ghost predicate InsertedAfter(t: Table, rows: seq<Record>, m: int, t': Table, added: seq<Record>) {
    && |added| == |rows|
    && t'.keys == t.keys + NewIds(m, |rows|)
    && (forall k :: 0 <= k < |rows| ==> added[k] == rows[k].(id := NewId(m, k)))
    && (forall k :: 0 <= k < |rows| ==> NewId(m, k) in t'.rows && t'.rows[NewId(m, k)] == added[k])
    && (forall key :: key in t.rows ==> key in t'.rows && t'.rows[key] == t.rows[key])
  }

  lemma MaxOfAppend(keys: seq<int>, x: int)
    requires |keys| > 0 && forall i :: 0 <= i < |keys| ==> keys[i] < x
    ensures MaxOf(keys + [x]) == x
  {
    var keys' := keys + [x];
    assert keys'[|keys|] == x;
    var i :| 0 <= i < |keys'| && keys'[i] == MaxOf(keys');
    if i < |keys| {
      assert keys'[i] == keys[i];
    }
  }

  /** `getUID` on a table whose largest key leaves room hands out a key not yet used. */
  lemma UidFresh(t: Table)
    requires ValidTable(t) && |t.keys| > 0 && IntMin <= MaxOf(t.keys) < IntMax
    ensures GetUid(t) == Ok(MaxOf(t.keys) + 1) && MaxOf(t.keys) + 1 !in t.rows
  {
  }

  /** On a table whose largest key `m` leaves room, the first row goes in under `m + 1`,
      which becomes the largest key. */
  lemma InsertNext(t: Table, row: Record, m: int, t1: Table)
    requires ValidTable(t) && |t.keys| > 0 && m == MaxOf(t.keys) && IntMin <= m < IntMax
    requires t1 == Put(t, m + 1, row)
    ensures m + 1 !in t.rows && t1.keys == t.keys + [m + 1] && MaxOf(t1.keys) == m + 1
  {
    UidFresh(t);
    MaxOfAppend(t.keys, m + 1);
  }

  lemma InsertedNothing(t: Table, m: int)
    ensures InsertedAfter(t, [], m, t, [])
  {
    assert NewIds(m, 0) == [];
    assert t.keys + [] == t.keys;
  }

  lemma InsertUnfold(t: Table, rows: seq<Record>, m: int, t1: Table)
    requires ValidTable(t) && |rows| > 0 && |t.keys| > 0
    requires GetUid(t) == Ok(m + 1) && m + 1 !in t.rows
    requires t1 == Put(t, m + 1, rows[0].(id := m + 1))
    ensures InsertRows(t, rows).Ok? <==> InsertRows(t1, rows[1..]).Ok?
    ensures InsertRows(t1, rows[1..]).Ok? ==>
      InsertRows(t, rows).value == (InsertRows(t1, rows[1..]).value.0, [rows[0].(id := m + 1)] + InsertRows(t1, rows[1..]).value.1)
  {
  }

  lemma NewIdsCons(m: int, n: nat)
    ensures NewIds(m, n + 1) == [m + 1] + NewIds(m + 1, n)
  {
  }

  /** The table after the first row and the rest of the insert make up the whole insert. */
  lemma InsertedAfterCons(t: Table, rows: seq<Record>, m: int, t1: Table, t': Table, added: seq<Record>)
    requires |rows| > 0 && ValidTable(t)
    requires t1 == Put(t, m + 1, rows[0].(id := m + 1)) && m + 1 !in t.rows
    requires InsertedAfter(t1, rows[1..], m + 1, t', added)
    ensures InsertedAfter(t, rows, m, t', [rows[0].(id := m + 1)] + added)
  {
    var all := [rows[0].(id := m + 1)] + added;
    var n := |rows| - 1;
    assert |all| == |rows|;
    assert t'.keys == t.keys + NewIds(m, |rows|) by {
      NewIdsCons(m, n);
      assert t'.keys == (t.keys + [m + 1]) + NewIds(m + 1, n);
    }
    forall k | 0 <= k < |rows|
      ensures all[k] == rows[k].(id := NewId(m, k))
      ensures NewId(m, k) in t'.rows && t'.rows[NewId(m, k)] == all[k]
    {
      if k == 0 {
        assert m + 1 in t1.rows && t1.rows[m + 1] == all[0];
      } else {
        assert all[k] == added[k - 1] && rows[k] == rows[1..][k - 1];
        assert NewId(m, k) == NewId(m + 1, k - 1);
      }
    }
    forall key | key in t.rows ensures key in t'.rows && t'.rows[key] == t.rows[key] {
      assert key != m + 1 && key in t1.rows;
    }
  }

  /** Inserting into a table whose largest key leaves room adds each row, renumbered, after
      the existing keys, in order, and keeps the existing records. */
  lemma {:induction false} InsertRowsMeaning(t: Table, rows: seq<Record>)
    requires ValidTable(t) && |t.keys| > 0 && IntMin <= MaxOf(t.keys) && MaxOf(t.keys) + |rows| <= IntMax
    ensures InsertRows(t, rows).Ok?
    ensures InsertedAfter(t, rows, MaxOf(t.keys), InsertRows(t, rows).value.0, InsertRows(t, rows).value.1)
    decreases |rows|, 1
  {
    if |rows| == 0 {
      InsertedNothing(t, MaxOf(t.keys));
    } else {
      InsertRowsCons(t, rows, MaxOf(t.keys));
    }
  }

  /** The induction step of `InsertRowsMeaning`: the first row goes in under `m + 1`, and
      the rest of the insert, started from there, completes the whole insert. */
  lemma {:induction false} InsertRowsCons(t: Table, rows: seq<Record>, m: int)
    requires |rows| > 0 && ValidTable(t) && |t.keys| > 0 && m == MaxOf(t.keys)
    requires IntMin <= m && m + |rows| <= IntMax
    ensures InsertRows(t, rows).Ok?
    ensures InsertedAfter(t, rows, m, InsertRows(t, rows).value.0, InsertRows(t, rows).value.1)
    decreases |rows|, 0
  {
    var x := rows[0].(id := m + 1);
    var t1 := Put(t, m + 1, x);
    var r1 := InsertRows(t1, rows[1..]);
    assert m + 1 !in t.rows by {
      UidFresh(t);
    }
    assert r1.Ok? && InsertedAfter(t1, rows[1..], m + 1, r1.value.0, r1.value.1) by {
      InsertNext(t, x, m, t1);
      InsertRowsMeaning(t1, rows[1..]);
    }
    assert InsertRows(t, rows) == Ok((r1.value.0, [x] + r1.value.1)) by {
      UidFresh(t);
      InsertUnfold(t, rows, m, t1);
    }
    InsertedAfterCons(t, rows, m, t1, r1.value.0, r1.value.1);
  }

  // ---------------------------------------------------------------------------------
  // Updates

  /** `SetColumn`: "id" takes an int as the record's id, any other name must be an
      existing field. */
  function SetColumn(r: Record, name: string, v: Value): (res: Result<Record, DriverError>)
    ensures res.Ok? ==> Column(res.value, name) == Ok(v) && res.value.kind == r.kind
    ensures res.Ok? ==> forall other :: other != name ==> Column(res.value, other) == Column(r, other)
  {
    if name == "id" then
      if v.Int? then Ok(r.(id := v.i)) else Throws(InvalidCast)
    else if name in r.fields then Ok(r.(fields := r.fields[name := v]))
    else Throws(MissingColumn)
  }

  /** The inner loop of `UpdateRows`: every pair in order on one record. */
  function ApplyAll(r: Record, updates: seq<(string, Value)>): Result<Record, DriverError>
    decreases |updates|
  {
    if |updates| == 0 then Ok(r)
    else
      var r1 := SetColumn(r, updates[0].0, updates[0].1);
      if r1.Throws? then r1 else ApplyAll(r1.value, updates[1..])
  }

  /** Pair `i` is the last one that names column `name`. */
  predicate LastNaming(updates: seq<(string, Value)>, name: string, i: int) {
    && 0 <= i < |updates| && updates[i].0 == name
    && forall j :: i < j < |updates| ==> updates[j].0 != name
  }

  /** No pair names column `name`. */
  predicate NoneNaming(updates: seq<(string, Value)>, name: string) {
    forall j :: 0 <= j < |updates| ==> updates[j].0 != name
  }

  /** A column no pair names is untouched. */
  lemma {:induction false} ApplyAllUntouched(r: Record, updates: seq<(string, Value)>, name: string)
    requires NoneNaming(updates, name)
    ensures ApplyAll(r, updates).Ok? ==> Column(ApplyAll(r, updates).value, name) == Column(r, name)
    decreases |updates|
  {
    if |updates| > 0 && ApplyAll(r, updates).Ok? {
      var r1 := SetColumn(r, updates[0].0, updates[0].1).value;
      assert NoneNaming(updates[1..], name) by {
        forall j | 0 <= j < |updates[1..]| ensures updates[1..][j].0 != name {
          assert updates[1..][j] == updates[j + 1];
        }
      }
      ApplyAllUntouched(r1, updates[1..], name);
    }
  }

  /** A column named by some pair ends up with the value of the last such pair. */
  lemma {:induction false} ApplyAllLast(r: Record, updates: seq<(string, Value)>, name: string, i: int)
    requires LastNaming(updates, name, i)
    ensures ApplyAll(r, updates).Ok? ==> Column(ApplyAll(r, updates).value, name) == Ok(updates[i].1)
    decreases |updates|
  {
    if ApplyAll(r, updates).Ok? {
      var r1 := SetColumn(r, updates[0].0, updates[0].1).value;
      if i > 0 {
        assert LastNaming(updates[1..], name, i - 1) by {
          assert updates[1..][i - 1] == updates[i];
          forall j | i - 1 < j < |updates[1..]| ensures updates[1..][j].0 != name {
            assert updates[1..][j] == updates[j + 1];
          }
        }
        ApplyAllLast(r1, updates[1..], name, i - 1);
      } else {
        assert NoneNaming(updates[1..], name) by {
          forall j | 0 <= j < |updates[1..]| ensures updates[1..][j].0 != name {
            assert updates[1..][j] == updates[j + 1];
          }
        }
        ApplyAllUntouched(r1, updates[1..], name);
      }
    }
  }

  /** The outer loop of `UpdateRows`: the pairs on each selected record, in turn. */
  function UpdateEach(t: Table, selected: seq<int>, updates: seq<(string, Value)>): (r: Result<Table, DriverError>)
    requires ValidTable(t) && KeysIn(t, selected)
    ensures r.Ok? ==> ValidTable(r.value) && r.value.keys == t.keys && r.value.kind == t.kind
    ensures r.Ok? ==> r.value.rows.Keys == t.rows.Keys
    ensures r.Ok? ==> forall k :: k in t.rows && k !in selected ==> r.value.rows[k] == t.rows[k]
    decreases |selected|
  {
    if |selected| == 0 then Ok(t)
    else
      var key := selected[0];
      var row := ApplyAll(t.rows[key], updates);
      if row.Throws? then Throws(row.error)
      else
        UpdateEach(Put(t, key, row.value), selected[1..], updates)
  }

  /** When each record is selected at most once, it ends up with every pair applied once,
      in order. */
  lemma {:induction false} UpdateEachMeaning(t: Table, selected: seq<int>, updates: seq<(string, Value)>)
    requires ValidTable(t) && KeysIn(t, selected) && Distinct(selected)
    ensures var r := UpdateEach(t, selected, updates);
      r.Ok? ==> forall i :: 0 <= i < |selected| ==> Ok(r.value.rows[selected[i]]) == ApplyAll(t.rows[selected[i]], updates)
    decreases |selected|
  {
    if |selected| > 0 {
      var key := selected[0];
      var row := ApplyAll(t.rows[key], updates);
      if row.Ok? {
        var t1 := Put(t, key, row.value);
        UpdateEachMeaning(t1, selected[1..], updates);
        assert key !in selected[1..] by {
          forall j | 0 <= j < |selected[1..]| ensures selected[1..][j] != key {
            assert selected[1..][j] == selected[j + 1];
          }
        }
        forall k | k in selected[1..] ensures t1.rows[k] == t.rows[k] {
        }
      }
    }
  }

  /** `UpdateRows`: the rows the update's select picks are updated with every pair; the
      table keeps its keys. */
  function UpdateRows(t: Table, u: UpdateQuery): (r: Result<Table, DriverError>)
    requires ValidTable(t)
    ensures r.Ok? ==> ValidTable(r.value) && r.value.keys == t.keys
  {
    var selected := Pull(t, t.keys, u.select.condition.items, u.select.start, u.select.maxCount);
    if selected.Throws? then Throws(selected.error)
    else
      PullKeys(t, t.keys, u.select.condition.items, u.select.start, u.select.maxCount);
      UpdateEach(t, selected.value, u.updates)
  }

  /** No key is listed twice. */
  predicate Distinct(keys: seq<int>) {
    forall i, j :: 0 <= i < j < |keys| ==> keys[i] != keys[j]
  }

  lemma {:induction false} PullDistinct(t: Table, keys: seq<int>, items: seq<WhereItem>, skip: int, take: int)
    requires KeysIn(t, keys) && Distinct(keys)
    ensures Pull(t, keys, items, skip, take).Ok? ==> Distinct(Pull(t, keys, items, skip, take).value)
    decreases |keys|
  {
    if take > 0 && |keys| > 0 {
      var rest := keys[1..];
      assert Distinct(rest) by {
        forall i, j | 0 <= i < j < |rest| ensures rest[i] != rest[j] {
          assert rest[i] == keys[i + 1] && rest[j] == keys[j + 1];
        }
      }
      PullDistinct(t, rest, items, skip, take - 1);
      PullKeys(t, rest, items, skip, take - 1);
      PullDistinct(t, rest, items, skip, take);
      PullDistinct(t, rest, items, skip - 1, take);
      var pass := Passes(t.rows[keys[0]], items);
      var r := Pull(t, keys, items, skip, take);
      if r.Ok? && pass.Ok? && pass.value && skip <= 0 {
        var tail := Pull(t, rest, items, skip, take - 1).value;
        assert r.value == [keys[0]] + tail;
        forall i, j | 0 <= i < j < |r.value| ensures r.value[i] != r.value[j] {
          assert r.value[j] == tail[j - 1];
          if i == 0 {
            assert tail[j - 1] in rest;
            var n :| 0 <= n < |rest| && rest[n] == tail[j - 1];
            assert rest[n] == keys[n + 1];
          } else {
            assert r.value[i] == tail[i - 1];
          }
        }
      }
    }
  }

  /** After `UpdateRows`, each selected record has had every pair applied, in order, and
      every other record is as it was. */
  lemma UpdateRowsMeaning(t: Table, u: UpdateQuery)
    requires ValidTable(t)
    ensures var selected := Pull(t, t.keys, u.select.condition.items, u.select.start, u.select.maxCount);
      var r := UpdateRows(t, u);
      r.Ok? ==>
        && selected.Ok?
        && KeysIn(t, selected.value)
        && (forall i :: 0 <= i < |selected.value| ==>
              Ok(r.value.rows[selected.value[i]]) == ApplyAll(t.rows[selected.value[i]], u.updates))
        && (forall k :: k in t.rows && k !in selected.value ==> r.value.rows[k] == t.rows[k])
  {
    var items := u.select.condition.items;
    PullKeys(t, t.keys, items, u.select.start, u.select.maxCount);
    PullDistinct(t, t.keys, items, u.select.start, u.select.maxCount);
    var selected := Pull(t, t.keys, items, u.select.start, u.select.maxCount);
    if selected.Ok? {
      UpdateEachMeaning(t, selected.value, u.updates);
    }
  }
}
