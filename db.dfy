/**
 * The relational store the server actions run against: four tables, each a
 * map from row id to row, the queries the actions issue against them, and the
 * invariants the actions keep.
 */
module Db {
  import opened Wrappers
  import SortedKeys
  import OrderIndex

  type Id = string

  /** A stored `DateTime`, as milliseconds since the epoch. */
  type Instant = int

  datatype BoardRow = BoardRow(
    title: string,
    description: Option<string>,
    locked: bool,
    ownerId: Option<Id>,
    createdAt: Instant)

  datatype ColumnRow = ColumnRow(
    boardId: Id,
    title: string,
    order: int,
    color: Option<string>)

  /**
   * `priority` is a nullable text column; the readers coerce it. `updatedAt`
   * is the row's last-write time, which the database refreshes on every
   * update of the row.
   */
  datatype TaskRow = TaskRow(
    boardId: Id,
    columnId: Id,
    title: string,
    description: Option<string>,
    priority: Option<string>,
    order: int,
    assigneeId: Option<Id>,
    createdAt: Instant,
    updatedAt: Instant)

  datatype UserRow = UserRow(name: Option<string>)

  datatype Tables = Tables(
    boards: map<Id, BoardRow>,
    columns: map<Id, ColumnRow>,
    tasks: map<Id, TaskRow>,
    users: map<Id, UserRow>)

  /** `column.findFirst({ where: { id, boardId } })` finds a row. */
  predicate ColumnOnBoard(columns: map<Id, ColumnRow>, id: Id, boardId: Id) {
    id in columns && columns[id].boardId == boardId
  }

  /** The values `column.aggregate({ where: { boardId }, _max: { order } })` ranges over. */
  function ColumnOrders(columns: map<Id, ColumnRow>, boardId: Id): (r: set<int>)
    ensures forall c :: c in columns && columns[c].boardId == boardId ==> columns[c].order in r
    ensures forall o :: o in r ==> exists c :: c in columns && columns[c].boardId == boardId && columns[c].order == o
  {
    set c | c in columns && columns[c].boardId == boardId :: columns[c].order
  }

  /** The values `task.aggregate({ where: { columnId }, _max: { order } })` ranges over. */
  function TaskOrders(tasks: map<Id, TaskRow>, columnId: Id): (r: set<int>)
    ensures forall t :: t in tasks && tasks[t].columnId == columnId ==> tasks[t].order in r
    ensures forall o :: o in r ==> exists t :: t in tasks && tasks[t].columnId == columnId && tasks[t].order == o
  {
    set t | t in tasks && tasks[t].columnId == columnId :: tasks[t].order
  }

  /** The order keys of the columns of one board. */
  function ColumnKeys(columns: map<Id, ColumnRow>, boardId: Id): map<Id, int> {
    map c | c in columns && columns[c].boardId == boardId :: columns[c].order
  }

  /** The order keys of the tasks of one column. */
  function TaskKeys(tasks: map<Id, TaskRow>, columnId: Id): map<Id, int> {
    map t | t in tasks && tasks[t].columnId == columnId :: tasks[t].order
  }

  /**
   * `column.findMany({ where: { boardId }, orderBy: { order: "asc" } })`: every
   * column of the board exactly once, by ascending order.
   */
  function ColumnsInOrder(columns: map<Id, ColumnRow>, boardId: Id): (r: seq<Id>)
    ensures forall i :: 0 <= i < |r| ==> r[i] in columns && columns[r[i]].boardId == boardId
    ensures forall c :: ColumnOnBoard(columns, c, boardId) ==> c in r
    ensures forall i, j :: 0 <= i < j < |r| ==> r[i] != r[j] && columns[r[i]].order <= columns[r[j]].order
  {
    var keys := ColumnKeys(columns, boardId);
    var r := SortedKeys.Sorted(keys);
    assert forall i :: 0 <= i < |r| ==> r[i] in keys;
    forall i, j | 0 <= i < j < |r|
      ensures columns[r[i]].order <= columns[r[j]].order
    {
      assert SortedKeys.Precedes(keys, r[i], r[j]);
    }
    r
  }

  /** The tasks of a column, every one exactly once, by ascending order. */
  function TasksInOrder(tasks: map<Id, TaskRow>, columnId: Id): (r: seq<Id>)
    ensures forall i :: 0 <= i < |r| ==> r[i] in tasks && tasks[r[i]].columnId == columnId
    ensures forall t :: t in tasks && tasks[t].columnId == columnId ==> t in r
    ensures forall i, j :: 0 <= i < j < |r| ==> r[i] != r[j] && tasks[r[i]].order <= tasks[r[j]].order
  {
    var keys := TaskKeys(tasks, columnId);
    var r := SortedKeys.Sorted(keys);
    assert forall i :: 0 <= i < |r| ==> r[i] in keys;
    forall i, j | 0 <= i < j < |r|
      ensures tasks[r[i]].order <= tasks[r[j]].order
    {
      assert SortedKeys.Precedes(keys, r[i], r[j]);
    }
    r
  }

  /** A task whose order exceeds every other order of its column is listed last. */
  lemma {:induction false} GreatestOrderListedLast(tasks: map<Id, TaskRow>, id: Id)
    requires id in tasks
    requires forall k :: k in tasks && k != id && tasks[k].columnId == tasks[id].columnId ==> tasks[k].order < tasks[id].order
    ensures var r := TasksInOrder(tasks, tasks[id].columnId); |r| > 0 && r[|r| - 1] == id
  {
    var r := TasksInOrder(tasks, tasks[id].columnId);
    assert id in r;
    var i :| 0 <= i < |r| && r[i] == id;
    if i < |r| - 1 {
      assert false;
    }
  }

  /** Every column belongs to an existing board. */
  predicate ColumnsOnBoards(t: Tables) {
    forall c :: c in t.columns ==> t.columns[c].boardId in t.boards
  }

  /** Every task sits in an existing column of its own board. */
  predicate TasksOnTheirBoard(t: Tables) {
    forall k :: k in t.tasks ==> ColumnOnBoard(t.columns, t.tasks[k].columnId, t.tasks[k].boardId)
  }

  /** No two tasks of one column share an order. */
  predicate TaskOrdersDistinct(tasks: map<Id, TaskRow>) {
    forall a, b :: a in tasks && b in tasks && a != b && tasks[a].columnId == tasks[b].columnId
      ==> tasks[a].order != tasks[b].order
  }

  /** No two columns of one board share an order. */
  predicate ColumnOrdersDistinct(columns: map<Id, ColumnRow>) {
    forall a, b :: a in columns && b in columns && a != b && columns[a].boardId == columns[b].boardId
      ==> columns[a].order != columns[b].order
  }

  /** What the task and column actions keep true between them. */
  predicate Consistent(t: Tables) {
    ColumnsOnBoards(t) && TasksOnTheirBoard(t) && TaskOrdersDistinct(t.tasks)
  }

  /** What writing `v` under `k` does to a table, stated key by key. */
  lemma MapWrite<K, V>(m: map<K, V>, k: K, v: V, m': map<K, V>)
    requires m' == m[k := v]
    ensures forall j :: j in m' <==> j in m || j == k
    ensures forall j :: j in m && j != k ==> m'[j] == m[j]
    ensures m'[k] == v
  {
  }

  /** Inserting under a key the map lacks adds exactly that key and keeps every other entry. */
  lemma MapInsertFresh<K, V>(m: map<K, V>, k: K, v: V, m': map<K, V>)
    requires k !in m && m' == m[k := v]
    ensures m'.Keys == m.Keys + {k}
    ensures forall j :: j in m ==> m'[j] == m[j]
  {
  }

  /**
   * Writing one task row keeps the tables consistent when the row sits in a
   * column of its own board and no other task of that column has its order.
   */
  lemma {:induction false} TaskWriteKeepsConsistent(t: Tables, id: Id, row: TaskRow)
    requires Consistent(t)
    requires ColumnOnBoard(t.columns, row.columnId, row.boardId)
    requires forall k :: k in t.tasks && k != id && t.tasks[k].columnId == row.columnId ==> t.tasks[k].order != row.order
    ensures Consistent(t.(tasks := t.tasks[id := row]))
  {
    var ts := t.tasks[id := row];
    MapWrite(t.tasks, id, row, ts);
    forall k | k in ts
      ensures ColumnOnBoard(t.columns, ts[k].columnId, ts[k].boardId)
    {
      if k != id {
        assert ts[k] == t.tasks[k];
      }
    }
    forall a, b | a in ts && b in ts && a != b && ts[a].columnId == ts[b].columnId
      ensures ts[a].order != ts[b].order
    {
      if a != id && b != id {
        assert ts[a] == t.tasks[a] && ts[b] == t.tasks[b];
      }
    }
  }

  /** The store: one mutable reference holding the four tables. */
  class Store {
    var boards: map<Id, BoardRow>
    var columns: map<Id, ColumnRow>
    var tasks: map<Id, TaskRow>
    var users: map<Id, UserRow>

    constructor (t: Tables)
      ensures Contents() == t
    {
      boards, columns, tasks, users := t.boards, t.columns, t.tasks, t.users;
    }

    function Contents(): Tables
      reads this
    {
      Tables(boards, columns, tasks, users)
    }
  }
}
