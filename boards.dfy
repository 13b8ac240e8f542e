/**
 * The read-only board queries: the board lists and the snapshot of one board
 * with its columns and their cards, as projections of the store's tables.
 * `Date.prototype.toISOString` is a parameter.
 */
module Boards {
  import opened Wrappers
  import opened Db
  import opened Cards
  import SortedKeys

  /** The user the `assignee` relation joins in, if the id names one. */
  function AssigneeOf(users: map<Id, UserRow>, assigneeId: Option<Id>): Option<UserRow> {
    if assigneeId.Some? && assigneeId.value in users then Some(users[assigneeId.value]) else None
  }

  /**
   * The card of a stored task: the priority coerced, null description and
   * assignee id kept as absent values, the assignee's name (or "") as author,
   * and that name as assignee unless it is empty.
   */
  function MapDbTaskToCardTask(id: Id, row: TaskRow, assignee: Option<UserRow>, toIso: Instant -> string): (r: CardTask)
    ensures r.id == id && r.title == row.title && r.description == row.description && r.assigneeId == row.assigneeId
    ensures r.priority != Medium <==> row.priority.Some? && row.priority.value in {"low", "high", "critical"}
    ensures r.priority != Medium ==> row.priority == Some(PriorityName(r.priority))
    ensures r.author == "" <==> assignee.None? || assignee.value.name.None? || assignee.value.name.value == ""
    ensures r.author != "" ==> assignee.Some? && assignee.value.name == Some(r.author)
    ensures r.assignee.None? <==> r.author == ""
    ensures r.assignee.Some? ==> r.assignee.value == r.author
    ensures r.createdAt == toIso(row.createdAt) && r.updatedAt == toIso(row.updatedAt)
  {
    var assigneeName := if assignee.Some? && assignee.value.name.Some? then assignee.value.name.value else "";
    CardTask(id, row.title, row.description, CoercePriority(row.priority), assigneeName,
             if assigneeName != "" then Some(assigneeName) else None,
             row.assigneeId, toIso(row.createdAt), toIso(row.updatedAt))
  }

  /** A priority the actions stored reads back as the same priority. */
  lemma StoredPriorityReadsBack(id: Id, row: TaskRow, assignee: Option<UserRow>, toIso: Instant -> string, p: Priority)
    requires row.priority == Some(PriorityName(p))
    ensures MapDbTaskToCardTask(id, row, assignee, toIso).priority == p
  {
    CoercePriorityRoundTrip(p);
  }

  // ------------------------------------------------------------- board lists

  datatype BoardListItem = BoardListItem(id: Id, title: string, description: Option<string>)

  function ListItem(boards: map<Id, BoardRow>, id: Id): BoardListItem
    requires id in boards
  {
    BoardListItem(id, boards[id].title, boards[id].description)
  }

  /** The creation time of every board `where` selects: all of them, or one owner's. */
  function CreatedAtKeys(boards: map<Id, BoardRow>, owner: Option<Id>): map<Id, int> {
    map b | b in boards && (owner.None? || boards[b].ownerId == owner) :: boards[b].createdAt
  }

  function ListBoards(boards: map<Id, BoardRow>, owner: Option<Id>): seq<BoardListItem> {
    var keys := CreatedAtKeys(boards, owner);
    var ids := SortedKeys.Sorted(keys);
    assert forall i :: 0 <= i < |ids| ==> ids[i] in keys;
    seq(|ids|, i requires 0 <= i < |ids| => ListItem(boards, ids[i]))
  }

  lemma ListedAreBoards(boards: map<Id, BoardRow>, owner: Option<Id>)
    ensures var r := ListBoards(boards, owner);
      forall i :: 0 <= i < |r| ==>
        r[i].id in boards && (owner.None? || boards[r[i].id].ownerId == owner) && r[i] == ListItem(boards, r[i].id)
  {
    var keys := CreatedAtKeys(boards, owner);
    var ids := SortedKeys.Sorted(keys);
    assert forall i :: 0 <= i < |ids| ==> ids[i] in keys;
  }

  lemma ListedCompletely(boards: map<Id, BoardRow>, owner: Option<Id>)
    ensures var r := ListBoards(boards, owner);
      forall b :: b in boards && (owner.None? || boards[b].ownerId == owner) ==> exists i :: 0 <= i < |r| && r[i].id == b
  {
    var keys := CreatedAtKeys(boards, owner);
    var ids := SortedKeys.Sorted(keys);
    var r := ListBoards(boards, owner);
    forall b | b in boards && (owner.None? || boards[b].ownerId == owner)
      ensures exists i :: 0 <= i < |r| && r[i].id == b
    {
      assert b in keys && b in ids;
      var i :| 0 <= i < |ids| && ids[i] == b;
      assert r[i].id == b;
    }
  }

  lemma ListedByCreation(boards: map<Id, BoardRow>, owner: Option<Id>)
    ensures var r := ListBoards(boards, owner);
      forall i, j :: 0 <= i < j < |r| ==>
        r[i].id != r[j].id && r[i].id in boards && r[j].id in boards
        && boards[r[i].id].createdAt <= boards[r[j].id].createdAt
  {
    var keys := CreatedAtKeys(boards, owner);
    var ids := SortedKeys.Sorted(keys);
    forall i, j | 0 <= i < j < |ids|
      ensures ids[i] != ids[j] && ids[i] in keys && ids[j] in keys && keys[ids[i]] <= keys[ids[j]]
    {
      assert SortedKeys.Precedes(keys, ids[i], ids[j]);
    }
    ListedIds(boards, owner);
    OrderedByCreation(boards, keys, ids, ListBoards(boards, owner));
  }

  /** Items listed in the order of ids whose creation keys never decrease are listed by creation time. */
  lemma OrderedByCreation(boards: map<Id, BoardRow>, keys: map<Id, int>, ids: seq<Id>, r: seq<BoardListItem>)
    requires forall k :: k in keys ==> k in boards && keys[k] == boards[k].createdAt
    requires forall i, j :: 0 <= i < j < |ids| ==> ids[i] != ids[j] && ids[i] in keys && ids[j] in keys && keys[ids[i]] <= keys[ids[j]]
    requires |r| == |ids| && forall i :: 0 <= i < |r| ==> r[i].id == ids[i]
    ensures forall i, j :: 0 <= i < j < |r| ==>
      r[i].id != r[j].id && r[i].id in boards && r[j].id in boards
      && boards[r[i].id].createdAt <= boards[r[j].id].createdAt
  {
    forall i, j | 0 <= i < j < |r|
      ensures r[i].id != r[j].id && r[i].id in boards && r[j].id in boards
              && boards[r[i].id].createdAt <= boards[r[j].id].createdAt
    {
      assert r[i].id == ids[i] && r[j].id == ids[j];
    }
  }

  /** The list is the selected ids in sorted order, each as its item. */
  lemma ListedIds(boards: map<Id, BoardRow>, owner: Option<Id>)
    ensures var keys := CreatedAtKeys(boards, owner);
      (forall k :: k in keys ==> k in boards && keys[k] == boards[k].createdAt)
      && var ids := SortedKeys.Sorted(keys); var r := ListBoards(boards, owner);
      |r| == |ids| && forall i :: 0 <= i < |r| ==> r[i].id == ids[i]
  {
  }

  /** `getBoards`: every board exactly once, by ascending creation time. */
  function GetBoards(t: Tables): (r: seq<BoardListItem>)
    ensures forall i :: 0 <= i < |r| ==> r[i].id in t.boards && r[i] == ListItem(t.boards, r[i].id)
    ensures forall b :: b in t.boards ==> exists i :: 0 <= i < |r| && r[i].id == b
    ensures forall i, j :: 0 <= i < j < |r| ==>
      r[i].id != r[j].id && r[i].id in t.boards && r[j].id in t.boards
      && t.boards[r[i].id].createdAt <= t.boards[r[j].id].createdAt
  {
    ListedAreBoards(t.boards, None);
    ListedCompletely(t.boards, None);
    ListedByCreation(t.boards, None);
    ListBoards(t.boards, None)
  }

  /** `getBoardsForUser`: exactly the boards the user owns, each once, by ascending creation time. */
  function GetBoardsForUser(t: Tables, userId: Id): (r: seq<BoardListItem>)
    ensures forall i :: 0 <= i < |r| ==> r[i].id in t.boards && t.boards[r[i].id].ownerId == Some(userId)
                                         && r[i] == ListItem(t.boards, r[i].id)
    ensures forall b :: b in t.boards && t.boards[b].ownerId == Some(userId) ==> exists i :: 0 <= i < |r| && r[i].id == b
    ensures forall i, j :: 0 <= i < j < |r| ==>
      r[i].id != r[j].id && r[i].id in t.boards && r[j].id in t.boards
      && t.boards[r[i].id].createdAt <= t.boards[r[j].id].createdAt
  {
    ListedAreBoards(t.boards, Some(userId));
    ListedCompletely(t.boards, Some(userId));
    ListedByCreation(t.boards, Some(userId));
    ListBoards(t.boards, Some(userId))
  }

  // --------------------------------------------------------- board snapshot

  function Card(t: Tables, id: Id, toIso: Instant -> string): CardTask
    requires id in t.tasks
  {
    MapDbTaskToCardTask(id, t.tasks[id], AssigneeOf(t.users, t.tasks[id].assigneeId), toIso)
  }

  /** A column with its cards, which the relation selects by `columnId` and lists by order. */
  function ColumnSnapshot(t: Tables, id: Id, toIso: Instant -> string): ColumnWithTasks
    requires id in t.columns
  {
    var ids := TasksInOrder(t.tasks, id);
    ColumnWithTasks(id, t.columns[id].title, t.columns[id].order, t.columns[id].color,
                    seq(|ids|, j requires 0 <= j < |ids| => Card(t, ids[j], toIso)))
  }

  function ColumnSnapshots(t: Tables, boardId: Id, toIso: Instant -> string): seq<ColumnWithTasks> {
    var ids := ColumnsInOrder(t.columns, boardId);
    seq(|ids|, i requires 0 <= i < |ids| => ColumnSnapshot(t, ids[i], toIso))
  }

  /** `getBoardWithColumnsAndTasks`: no value for an unknown board, else its snapshot. */
  function GetBoardWithColumnsAndTasks(t: Tables, boardId: Id, toIso: Instant -> string): (r: Option<BoardWithColumnsAndTasks>)
    ensures r.None? <==> boardId !in t.boards
    ensures r.Some? ==> r.value.id == boardId && r.value.title == t.boards[boardId].title
                        && r.value.description == t.boards[boardId].description && r.value.locked.None?
  {
    if boardId !in t.boards then None
    else
      var board := t.boards[boardId];
      Some(BoardWithColumnsAndTasks(boardId, board.title, board.description, None, ColumnSnapshots(t, boardId, toIso)))
  }

  /** The snapshot's columns are columns of the board, with the stored title, order and colour. */
  lemma {:induction false} SnapshotColumnsAsStored(t: Tables, boardId: Id, toIso: Instant -> string)
    requires boardId in t.boards
    ensures var cols := GetBoardWithColumnsAndTasks(t, boardId, toIso).value.columns;
      forall i :: 0 <= i < |cols| ==>
        ColumnOnBoard(t.columns, cols[i].id, boardId) && cols[i].title == t.columns[cols[i].id].title
        && cols[i].order == t.columns[cols[i].id].order && cols[i].color == t.columns[cols[i].id].color
  {
    var ids := ColumnsInOrder(t.columns, boardId);
    var cols := GetBoardWithColumnsAndTasks(t, boardId, toIso).value.columns;
    assert cols == ColumnSnapshots(t, boardId, toIso);
    forall i | 0 <= i < |cols|
      ensures ColumnOnBoard(t.columns, cols[i].id, boardId) && cols[i].title == t.columns[cols[i].id].title
              && cols[i].order == t.columns[cols[i].id].order && cols[i].color == t.columns[cols[i].id].color
    {
      assert cols[i] == ColumnSnapshot(t, ids[i], toIso);
    }
  }

  /** Every column of the board is in the snapshot. */
  lemma {:induction false} SnapshotColumnsComplete(t: Tables, boardId: Id, toIso: Instant -> string)
    requires boardId in t.boards
    ensures var cols := GetBoardWithColumnsAndTasks(t, boardId, toIso).value.columns;
      forall c :: ColumnOnBoard(t.columns, c, boardId) ==> c in ColumnIds(cols)
  {
    SnapshotColumnIds(t, boardId, toIso);
  }

  /** The snapshot's column ids are the board's columns in order. */
  lemma SnapshotColumnIds(t: Tables, boardId: Id, toIso: Instant -> string)
    requires boardId in t.boards
    ensures ColumnIds(GetBoardWithColumnsAndTasks(t, boardId, toIso).value.columns) == ColumnsInOrder(t.columns, boardId)
  {
    var ids := ColumnsInOrder(t.columns, boardId);
    var cols := GetBoardWithColumnsAndTasks(t, boardId, toIso).value.columns;
    assert cols == ColumnSnapshots(t, boardId, toIso);
    assert |cols| == |ids|;
    forall i | 0 <= i < |ids|
      ensures cols[i].id == ids[i]
    {
      assert cols[i] == ColumnSnapshot(t, ids[i], toIso);
    }
  }

  /** ... once each, by ascending order. */
  lemma {:induction false} SnapshotColumnsAscending(t: Tables, boardId: Id, toIso: Instant -> string)
    requires boardId in t.boards
    ensures var cols := GetBoardWithColumnsAndTasks(t, boardId, toIso).value.columns;
      forall i, j :: 0 <= i < j < |cols| ==> cols[i].id != cols[j].id && cols[i].order <= cols[j].order
  {
    var cols := GetBoardWithColumnsAndTasks(t, boardId, toIso).value.columns;
    SnapshotColumnIds(t, boardId, toIso);
    SnapshotColumnsAsStored(t, boardId, toIso);
    var ids := ColumnsInOrder(t.columns, boardId);
    assert forall i :: 0 <= i < |cols| ==> cols[i].id == ids[i];
  }

  /** The cards of a snapshot column are cards of tasks in that column. */
  lemma {:induction false} ColumnCardsAsStored(t: Tables, id: Id, toIso: Instant -> string)
    requires id in t.columns
    ensures var cards := ColumnSnapshot(t, id, toIso).tasks;
      forall j :: 0 <= j < |cards| ==>
        cards[j].id in t.tasks && t.tasks[cards[j].id].columnId == id && cards[j] == Card(t, cards[j].id, toIso)
  {
    var ids := TasksInOrder(t.tasks, id);
    var cards := ColumnSnapshot(t, id, toIso).tasks;
    forall j | 0 <= j < |cards|
      ensures cards[j].id in t.tasks && t.tasks[cards[j].id].columnId == id && cards[j] == Card(t, cards[j].id, toIso)
    {
      assert cards[j] == Card(t, ids[j], toIso);
    }
  }

  /** Every task of the column has a card there. */
  lemma {:induction false} ColumnCardsComplete(t: Tables, id: Id, toIso: Instant -> string)
    requires id in t.columns
    ensures var cards := ColumnSnapshot(t, id, toIso).tasks;
      forall k :: k in t.tasks && t.tasks[k].columnId == id ==> k in TaskIds(cards)
  {
    ColumnCardIds(t, id, toIso);
  }

  /** A snapshot column's card ids are the column's tasks in order. */
  lemma ColumnCardIds(t: Tables, id: Id, toIso: Instant -> string)
    requires id in t.columns
    ensures TaskIds(ColumnSnapshot(t, id, toIso).tasks) == TasksInOrder(t.tasks, id)
  {
    var ids := TasksInOrder(t.tasks, id);
    var cards := ColumnSnapshot(t, id, toIso).tasks;
    assert |cards| == |ids|;
    forall j | 0 <= j < |ids|
      ensures cards[j].id == ids[j]
    {
      assert cards[j] == Card(t, ids[j], toIso);
    }
  }

  /** ... once each, by ascending stored order. */
  lemma {:induction false} ColumnCardsAscending(t: Tables, id: Id, toIso: Instant -> string)
    requires id in t.columns
    ensures var cards := ColumnSnapshot(t, id, toIso).tasks;
      forall j, l :: 0 <= j < l < |cards| ==>
        cards[j].id != cards[l].id && cards[j].id in t.tasks && cards[l].id in t.tasks
        && t.tasks[cards[j].id].order <= t.tasks[cards[l].id].order
  {
    var cards := ColumnSnapshot(t, id, toIso).tasks;
    ColumnCardIds(t, id, toIso);
    var ids := TasksInOrder(t.tasks, id);
    assert forall j :: 0 <= j < |cards| ==> cards[j].id == ids[j];
  }

  /** The snapshot column at position `i` is that column's `ColumnSnapshot`. */
  lemma SnapshotColumnAt(t: Tables, boardId: Id, toIso: Instant -> string, i: int)
    requires boardId in t.boards
    requires 0 <= i < |GetBoardWithColumnsAndTasks(t, boardId, toIso).value.columns|
    ensures var col := GetBoardWithColumnsAndTasks(t, boardId, toIso).value.columns[i];
      col.id in t.columns && col == ColumnSnapshot(t, col.id, toIso)
  {
    var ids := ColumnsInOrder(t.columns, boardId);
    assert GetBoardWithColumnsAndTasks(t, boardId, toIso).value.columns == ColumnSnapshots(t, boardId, toIso);
    assert ids[i] in t.columns;
  }

  /** A task's column is in the snapshot of the task's board. */
  lemma TaskColumnInSnapshot(t: Tables, boardId: Id, toIso: Instant -> string, k: Id)
    requires TasksOnTheirBoard(t) && boardId in t.boards
    requires k in t.tasks && t.tasks[k].boardId == boardId
    ensures var cols := GetBoardWithColumnsAndTasks(t, boardId, toIso).value.columns;
      t.tasks[k].columnId in ColumnIds(cols)
  {
    assert ColumnOnBoard(t.columns, t.tasks[k].columnId, boardId);
    SnapshotColumnsComplete(t, boardId, toIso);
  }

  /** The snapshot column of a task's column holds the task's card. */
  lemma TaskCardInSnapshotColumn(t: Tables, boardId: Id, toIso: Instant -> string, k: Id, i: int)
    requires boardId in t.boards && k in t.tasks
    requires var cols := GetBoardWithColumnsAndTasks(t, boardId, toIso).value.columns;
      0 <= i < |cols| && cols[i].id == t.tasks[k].columnId
    ensures var cols := GetBoardWithColumnsAndTasks(t, boardId, toIso).value.columns;
      k in TaskIds(cols[i].tasks)
  {
    var cols := GetBoardWithColumnsAndTasks(t, boardId, toIso).value.columns;
    SnapshotColumnAt(t, boardId, toIso, i);
    ColumnCardsComplete(t, cols[i].id, toIso);
  }

  /** When every task sits in a column of its own board, every task of the board has a card in the snapshot. */
  lemma {:induction false} SnapshotShowsTask(t: Tables, boardId: Id, toIso: Instant -> string, k: Id)
    requires TasksOnTheirBoard(t) && boardId in t.boards
    requires k in t.tasks && t.tasks[k].boardId == boardId
    ensures var cols := GetBoardWithColumnsAndTasks(t, boardId, toIso).value.columns;
      exists i, j :: 0 <= i < |cols| && 0 <= j < |cols[i].tasks| && cols[i].tasks[j].id == k
  {
    var cols := GetBoardWithColumnsAndTasks(t, boardId, toIso).value.columns;
    TaskColumnInSnapshot(t, boardId, toIso, k);
    var i :| 0 <= i < |cols| && ColumnIds(cols)[i] == t.tasks[k].columnId;
    TaskCardInSnapshotColumn(t, boardId, toIso, k, i);
    CardAt(cols, i, k);
  }

  /** A card id listed in a column is held by some card at some position of the column list. */
  lemma CardAt(cols: seq<ColumnWithTasks>, i: int, k: Id)
    requires 0 <= i < |cols| && k in TaskIds(cols[i].tasks)
    ensures exists i', j :: 0 <= i' < |cols| && 0 <= j < |cols[i'].tasks| && cols[i'].tasks[j].id == k
  {
    var j :| 0 <= j < |cols[i].tasks| && TaskIds(cols[i].tasks)[j] == k;
    assert cols[i].tasks[j].id == k;
  }

  /** ... and at most one: two positions of the snapshot that hold the same card id are one position. */
  lemma {:induction false} SnapshotPositionUnique(t: Tables, boardId: Id, toIso: Instant -> string,
                                                  i: int, j: int, i': int, j': int)
    requires boardId in t.boards
    requires var cols := GetBoardWithColumnsAndTasks(t, boardId, toIso).value.columns;
      && 0 <= i < |cols| && 0 <= j < |cols[i].tasks| && 0 <= i' < |cols| && 0 <= j' < |cols[i'].tasks|
      && cols[i].tasks[j].id == cols[i'].tasks[j'].id
    ensures i == i' && j == j'
  {
    var cols := GetBoardWithColumnsAndTasks(t, boardId, toIso).value.columns;
    SnapshotColumnAt(t, boardId, toIso, i);
    SnapshotColumnAt(t, boardId, toIso, i');
    ColumnCardsAsStored(t, cols[i].id, toIso);
    ColumnCardsAsStored(t, cols[i'].id, toIso);
    var k := cols[i].tasks[j].id;
    assert cols[i].id == t.tasks[k].columnId == cols[i'].id;
    SnapshotColumnsAscending(t, boardId, toIso);
    assert i == i';
    ColumnCardsAscending(t, cols[i].id, toIso);
  }
}
