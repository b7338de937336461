/** The immutable query builders of the database layer (ServeRick/Database/WhereClause.cs,
    SelectQuery.cs, UpdateQuery.cs). Every builder call returns a new query and leaves the
    one it was called on as it was; C# does that by cloning, the model by building new
    values. */
module Queries {
  import opened Results

  /** An operand or column value: the `object`s the queries carry. */
  datatype Value = Int(i: int) | Str(s: string) | Null

  datatype WhereOperation = Equal | HasSubstring

  datatype WhereItem = WhereItem(column: string, operation: WhereOperation, operand: Value)

  /** A `WhereClause`: its items in insertion order, which is also the order they are
      enumerated in. */
  datatype WhereClause = WhereClause(items: seq<WhereItem>)

  /** A new clause holds no condition. */
  function NewClause(): (w: WhereClause)
    ensures |w.items| == 0
  {
    WhereClause([])
  }

  /** `Add` on a clone: the item goes last, every earlier item stays in place. */
  function AddItem(w: WhereClause, item: WhereItem): (r: WhereClause)
    ensures |r.items| == |w.items| + 1 && r.items[|w.items|] == item
    ensures forall k :: 0 <= k < |w.items| ==> r.items[k] == w.items[k]
  {
    WhereClause(w.items + [item])
  }

  datatype SelectQuery = SelectQuery(condition: WhereClause, maxCount: int, start: int)

  /** `new SelectQuery<T>()`: no condition, no limit (`int.MaxValue`) and no offset. */
  function NewSelect(): (q: SelectQuery)
    ensures |q.condition.items| == 0 && q.maxCount == IntMax && q.start == 0
  {
    SelectQuery(NewClause(), IntMax, 0)
  }

  /** `Clone(where)`: a query on another clause keeping the limit and the offset. */
  function CloneWith(q: SelectQuery, where: WhereClause): (r: SelectQuery)
    ensures r.condition == where && r.maxCount == q.maxCount && r.start == q.start
  {
    SelectQuery(where, q.maxCount, q.start)
  }

  /** `Where`: one more condition, at the end; limit and offset kept. */
  function Where(q: SelectQuery, column: string, operation: WhereOperation, operand: Value): (r: SelectQuery)
    ensures r.condition.items == q.condition.items + [WhereItem(column, operation, operand)]
    ensures r.maxCount == q.maxCount && r.start == q.start
  {
    CloneWith(q, AddItem(q.condition, WhereItem(column, operation, operand)))
  }

  function WhereEqual(q: SelectQuery, column: string, operand: Value): SelectQuery {
    Where(q, column, Equal, operand)
  }

  /** `Limit`: only the maximal count changes. */
  function Limit(q: SelectQuery, maxCount: int): (r: SelectQuery)
    ensures r.maxCount == maxCount && r.condition == q.condition && r.start == q.start
  {
    CloneWith(q, q.condition).(maxCount := maxCount)
  }

  /** `Offset`: only the start changes. */
  function Offset(q: SelectQuery, start: int): (r: SelectQuery)
    ensures r.start == start && r.condition == q.condition && r.maxCount == q.maxCount
  {
    CloneWith(q, q.condition).(start := start)
  }

  /** `Find(id)`: an equality condition on the "id" column, then a limit of one row. */
  function Find(q: SelectQuery, id: int): (r: SelectQuery)
    ensures r.condition.items == q.condition.items + [WhereItem("id", Equal, Int(id))]
    ensures r.maxCount == 1 && r.start == q.start
  {
    Limit(Where(q, "id", Equal, Int(id)), 1)
  }

  /** Limit and offset are independent settings: applying them in either order gives the
      same query, a second limit (offset) replaces the first, and neither disturbs the
      conditions added before or after. */
  lemma BuildersCommute(q: SelectQuery, m: int, m2: int, s: int, c: string, op: WhereOperation, v: Value)
    ensures Offset(Limit(q, m), s) == Limit(Offset(q, s), m)
    ensures Limit(Limit(q, m), m2) == Limit(q, m2)
    ensures Offset(Offset(q, s), m2) == Offset(q, m2)
    ensures Where(Limit(q, m), c, op, v) == Limit(Where(q, c, op, v), m)
    ensures Where(Offset(q, s), c, op, v) == Offset(Where(q, c, op, v), s)
  {
  }

  /** The conditions a chain of `Where` calls builds, in the order of the calls. */
  function WhereAll(q: SelectQuery, items: seq<WhereItem>): SelectQuery
    decreases |items|
  {
    if |items| == 0 then q
    else WhereAll(Where(q, items[0].column, items[0].operation, items[0].operand), items[1..])
  }

  /** A chain of `Where` calls appends its items in call order and keeps the limit and the
      offset. */
  lemma {:induction false} WhereAllAppends(q: SelectQuery, items: seq<WhereItem>)
    ensures WhereAll(q, items).condition.items == q.condition.items + items
    ensures WhereAll(q, items).maxCount == q.maxCount && WhereAll(q, items).start == q.start
    decreases |items|
  {
    if |items| > 0 {
      var q' := Where(q, items[0].column, items[0].operation, items[0].operand);
      WhereAllAppends(q', items[1..]);
      assert q.condition.items + [items[0]] + items[1..] == q.condition.items + items;
    }
  }

  datatype UpdateQuery = UpdateQuery(select: SelectQuery, updates: seq<(string, Value)>)

  /** `new UpdateQuery<T>(select)`: no update yet. */
  function NewUpdate(select: SelectQuery): (u: UpdateQuery)
    ensures u.select == select && |u.updates| == 0
  {
    UpdateQuery(select, [])
  }

  /** `Update` on an update query: a new query with the pair last and the same select. */
  function Update(u: UpdateQuery, column: string, value: Value): (r: UpdateQuery)
    ensures r.select == u.select
    ensures |r.updates| == |u.updates| + 1 && r.updates[|u.updates|] == (column, value)
    ensures forall k :: 0 <= k < |u.updates| ==> r.updates[k] == u.updates[k]
  {
    UpdateQuery(u.select, u.updates + [(column, value)])
  }

  /** `SelectQuery.Update`: an update query over this select holding one pair. */
  function SelectUpdate(q: SelectQuery, column: string, value: Value): (r: UpdateQuery)
    ensures r.select == q && r.updates == [(column, value)]
  {
    Update(NewUpdate(q), column, value)
  }

  function UpdateAll(u: UpdateQuery, pairs: seq<(string, Value)>): UpdateQuery
    decreases |pairs|
  {
    if |pairs| == 0 then u else UpdateAll(Update(u, pairs[0].0, pairs[0].1), pairs[1..])
  }

  /** A chain of `Update` calls keeps the select and records the pairs in call order. */
  lemma {:induction false} UpdateAllAppends(u: UpdateQuery, pairs: seq<(string, Value)>)
    ensures UpdateAll(u, pairs).select == u.select
    ensures UpdateAll(u, pairs).updates == u.updates + pairs
    decreases |pairs|
  {
    if |pairs| > 0 {
      UpdateAllAppends(Update(u, pairs[0].0, pairs[0].1), pairs[1..]);
      assert u.updates + [pairs[0]] + pairs[1..] == u.updates + pairs;
    }
  }
}
