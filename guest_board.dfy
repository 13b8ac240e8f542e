/**
 * The guest board: one board document held in memory by the provider and
 * written to local storage on every change. Each operation is a pure updater
 * from the previous board to the next one; the `GuestBoardStore` class holds
 * the board and a ghost copy of what was last persisted. Fresh ids, the
 * current time (as an ISO string), `JSON.parse` and the unchecked cast of
 * the parsed value are parameters.
 */
module GuestBoard {
  import opened Wrappers
  import opened Cards
  import JsString
  import Actions
  import ColumnSort

  type Board = BoardWithColumnsAndTasks

  const GuestBoardId: string := "guest-local"
  const DefaultColumnTitle: string := "Colonne"
  const DefaultTaskTitle: string := "T\U{00E2}che"
  const GuestAuthor: string := "Invit\U{00E9}"

  /** `defaultGuestBoard`. */
  function DefaultGuestBoard(): Board {
    BoardWithColumnsAndTasks(GuestBoardId, "Mon tableau", None, Some(false), [])
  }

  /** `s.trim() || fallback`. */
  function TrimmedOr(s: string, fallback: string): (r: string)
    ensures JsString.AllWhitespace(s) ==> r == fallback
    ensures !JsString.AllWhitespace(s) ==> r == JsString.Trim(s) && r != [] && JsString.IsTrimmed(r)
  {
    JsString.TrimMeaning(s);
    var t := JsString.Trim(s);
    if t == [] then fallback else t
  }

  /** `d?.trim() || undefined`. */
  function TrimmedOrAbsent(d: Option<string>): (r: Option<string>)
    ensures r.None? <==> d.None? || JsString.AllWhitespace(d.value)
    ensures r.Some? ==> r.value == JsString.Trim(d.value)
  {
    if d.None? then None else Actions.TrimmedOrNull(d.value)
  }

  /** `guestTask(overrides)`: a card by the guest, stamped `now` unless the overrides carry times. */
  function GuestTask(id: string, title: string, description: Option<string>, priority: Option<Priority>,
                     createdAt: Option<string>, updatedAt: Option<string>, now: string): CardTask
  {
    CardTask(id, title, description, priority.GetOr(Medium), GuestAuthor, None, None,
             createdAt.GetOr(now), updatedAt.GetOr(now))
  }

  // ------------------------------------------------------- stored document

  datatype Json =
    | JNull
    | JBool(b: bool)
    | JNumber(n: int)
    | JString(s: string)
    | JArray(items: seq<Json>)
    | JObject(fields: map<string, Json>)

  /** An object with a string `id` and an array `columns`: all `parseStoredBoard` checks. */
  predicate IsBoardShaped(j: Json) {
    j.JObject? && "id" in j.fields && j.fields["id"].JString? && "columns" in j.fields && j.fields["columns"].JArray?
  }

  /**
   * `parseStoredBoard`: nothing for absent or blank text, for text that does
   * not parse, or for a value without the board's shape; otherwise the parsed
   * value itself.
   */
  function ParseStoredBoard(raw: Option<string>, parse: string -> Option<Json>): (r: Option<Json>)
    ensures r.None? <==> raw.None? || JsString.AllWhitespace(raw.value) || parse(raw.value).None?
                         || !IsBoardShaped(parse(raw.value).value)
    ensures r.Some? ==> r == parse(raw.value)
  {
    if raw.None? || JsString.Trim(raw.value) == [] then None
    else
      match parse(raw.value)
      case None => None
      case Some(j) => if IsBoardShaped(j) then Some(j) else None
  }

  function NullableString(s: Option<string>): Json {
    if s.Some? then JString(s.value) else JNull
  }

  /** A field `JSON.stringify` writes only when it is defined. */
  function OptionalField(key: string, s: Option<string>): map<string, Json> {
    if s.Some? then map[key := JString(s.value)] else map[]
  }

  function TaskToJson(t: CardTask): Json {
    JObject(map["id" := JString(t.id), "title" := JString(t.title), "priority" := JString(PriorityName(t.priority)),
                "author" := JString(t.author), "createdAt" := JString(t.createdAt), "updatedAt" := JString(t.updatedAt)]
            + OptionalField("description", t.description) + OptionalField("assignee", t.assignee)
            + OptionalField("assigneeId", t.assigneeId))
  }

  function ColumnToJson(c: ColumnWithTasks): Json {
    JObject(map["id" := JString(c.id), "title" := JString(c.title), "order" := JNumber(c.order),
                "color" := NullableString(c.color),
                "tasks" := JArray(seq(|c.tasks|, k requires 0 <= k < |c.tasks| => TaskToJson(c.tasks[k])))])
  }

  /** The value `persist` hands to `JSON.stringify`. */
  function BoardToJson(b: Board): Json {
    var fields := map["id" := JString(b.id), "title" := JString(b.title), "description" := NullableString(b.description),
                      "columns" := JArray(seq(|b.columns|, i requires 0 <= i < |b.columns| => ColumnToJson(b.columns[i])))];
    JObject(if b.locked.Some? then fields["locked" := JBool(b.locked.value)] else fields)
  }

  /** A persisted board that parses back is accepted by `parseStoredBoard` unchanged. */
  lemma StoredBoardReadsBack(b: Board, raw: string, parse: string -> Option<Json>)
    requires parse(raw) == Some(BoardToJson(b)) && !JsString.AllWhitespace(raw)
    ensures ParseStoredBoard(Some(raw), parse) == Some(BoardToJson(b))
  {
  }

  // ------------------------------------------------------------ board title

  /** `updateBoardTitle`'s updater: `title.trim() || prev.title`. */
  function TitleUpdated(prev: Board, title: string): (r: Board)
    ensures r == prev.(title := r.title)
    ensures JsString.AllWhitespace(title) ==> r == prev
    ensures !JsString.AllWhitespace(title) ==> r.title == JsString.Trim(title)
  {
    prev.(title := TrimmedOr(title, prev.title))
  }

  /** Renaming twice with the same text is renaming once. */
  lemma TitleUpdatedIdempotent(prev: Board, title: string)
    ensures TitleUpdated(TitleUpdated(prev, title), title) == TitleUpdated(prev, title)
  {
  }

  // ---------------------------------------------------------- createColumn

  function NewGuestColumn(id: string, title: string, color: Option<string>, order: int): ColumnWithTasks {
    ColumnWithTasks(id, TrimmedOr(title, DefaultColumnTitle), order, color, [])
  }

  /** `createColumn`'s updater: the new column takes the list length as its order; then the list is sorted. */
  function ColumnCreated(prev: Board, id: string, title: string, color: Option<string>): Board {
    prev.(columns := ColumnSort.SortByOrder(prev.columns + [NewGuestColumn(id, title, color, |prev.columns|)]))
  }

  /**
   * Exactly one column is added: ordered by the number of columns before the
   * call, titled by the trimmed title or "Colonne", with the colour or null and
   * no tasks; the list comes out sorted, and nothing else on the board changes.
   */
  lemma ColumnCreatedAddsOne(prev: Board, id: string, title: string, color: Option<string>)
    ensures var next := ColumnCreated(prev, id, title, color);
      && next == prev.(columns := next.columns)
      && multiset(next.columns) == multiset(prev.columns) + multiset{NewGuestColumn(id, title, color, |prev.columns|)}
      && ColumnSort.SortedByOrder(next.columns)
    ensures var c := NewGuestColumn(id, title, color, |prev.columns|);
      && c.id == id && c.order == |prev.columns| && c.color == color && c.tasks == []
      && c.title == (if JsString.AllWhitespace(title) then DefaultColumnTitle else JsString.Trim(title))
  {
  }

  /** The sort is stable: columns sharing an order keep their relative positions. */
  lemma ColumnCreatedIsStable(prev: Board, id: string, title: string, color: Option<string>, k: int)
    ensures ColumnSort.WithOrder(ColumnCreated(prev, id, title, color).columns, k)
            == ColumnSort.WithOrder(prev.columns + [NewGuestColumn(id, title, color, |prev.columns|)], k)
  {
    ColumnSort.SortIsStable(prev.columns + [NewGuestColumn(id, title, color, |prev.columns|)], k);
  }

  /** When the list is sorted and no order exceeds its length, the new column simply goes last. */
  lemma {:induction false} ColumnCreatedGoesLast(prev: Board, id: string, title: string, color: Option<string>)
    requires ColumnSort.SortedByOrder(prev.columns)
    requires forall i :: 0 <= i < |prev.columns| ==> prev.columns[i].order <= |prev.columns|
    ensures ColumnCreated(prev, id, title, color).columns == prev.columns + [NewGuestColumn(id, title, color, |prev.columns|)]
  {
    var c := NewGuestColumn(id, title, color, |prev.columns|);
    var s := prev.columns + [c];
    ColumnSort.AppendLargestKeepsSorted(prev.columns, c);
    ColumnSort.SortOfSorted(s);
  }

  // ---------------------------------------------------------- updateColumn

  /** `data` of `updateColumn`: None for a key left undefined; a colour may be set to null. */
  datatype ColumnEdit = ColumnEdit(title: Option<string>, color: Option<Option<string>>)

  /** Every column with the id gets the given fields, the title trimmed; the others are kept. */
  function EditColumns(cols: seq<ColumnWithTasks>, columnId: string, edit: ColumnEdit): (r: seq<ColumnWithTasks>)
    ensures |r| == |cols| && forall i :: 0 <= i < |r| ==> r[i] == EditColumn(cols[i], columnId, edit)
  {
    if cols == [] then []
    else
      var rest := EditColumns(cols[1..], columnId, edit);
      var r := [EditColumn(cols[0], columnId, edit)] + rest;
      assert forall i :: 1 <= i < |r| ==> r[i] == rest[i - 1] && cols[i] == cols[1..][i - 1];
      r
  }

  /** The edit applied to one column: only the column with the id is changed. */
  function EditColumn(c: ColumnWithTasks, columnId: string, edit: ColumnEdit): (r: ColumnWithTasks)
    ensures r.id == c.id && r.order == c.order && r.tasks == c.tasks
    ensures r.title == (if c.id == columnId && edit.title.Some? then JsString.Trim(edit.title.value) else c.title)
    ensures r.color == (if c.id == columnId && edit.color.Some? then edit.color.value else c.color)
  {
    if c.id != columnId then c
    else c.(title := if edit.title.Some? then JsString.Trim(edit.title.value) else c.title,
            color := if edit.color.Some? then edit.color.value else c.color)
  }

  function ColumnUpdated(prev: Board, columnId: string, edit: ColumnEdit): Board {
    prev.(columns := EditColumns(prev.columns, columnId, edit))
  }

  /** A column edit changes no column's id, order or tasks. */
  lemma ColumnUpdatedKeepsTasks(prev: Board, columnId: string, edit: ColumnEdit)
    ensures var next := ColumnUpdated(prev, columnId, edit);
      && next == prev.(columns := next.columns)
      && ColumnIds(next.columns) == ColumnIds(prev.columns)
      && TaskIdBag(next.columns) == TaskIdBag(prev.columns)
  {
    var next := ColumnUpdated(prev, columnId, edit);
    SameTasksSameBag(prev.columns, next.columns);
  }

  lemma {:induction false} SameTasksSameBag(a: seq<ColumnWithTasks>, b: seq<ColumnWithTasks>)
    requires |a| == |b| && forall i :: 0 <= i < |a| ==> TaskIds(a[i].tasks) == TaskIds(b[i].tasks)
    ensures TaskIdBag(a) == TaskIdBag(b)
  {
    if a != [] {
      SameTasksSameBag(a[1..], b[1..]);
    }
  }

  // ------------------------------------------------------------ createTask

  /** Every column with the id gets `task` at the end of its list; the others are kept. */
  function AppendTo(cols: seq<ColumnWithTasks>, columnId: string, task: CardTask): (r: seq<ColumnWithTasks>)
    ensures |r| == |cols|
    ensures forall i :: 0 <= i < |r| ==> r[i] == cols[i].(tasks := r[i].tasks)
    ensures forall i :: 0 <= i < |r| ==> r[i].tasks == (if cols[i].id == columnId then cols[i].tasks + [task] else cols[i].tasks)
  {
    if cols == [] then []
    else
      var c := cols[0];
      [if c.id != columnId then c else c.(tasks := c.tasks + [task])] + AppendTo(cols[1..], columnId, task)
  }

  /** The appended card ends the list of every column with the id. */
  lemma AppendToGoesLast(cols: seq<ColumnWithTasks>, columnId: string, task: CardTask)
    ensures var r := AppendTo(cols, columnId, task);
      forall i :: 0 <= i < |r| && r[i].id == columnId ==> |r[i].tasks| > 0 && r[i].tasks[|r[i].tasks| - 1] == task
  {
  }

  /** How many columns carry the id. */
  function CountColumns(cols: seq<ColumnWithTasks>, columnId: string): nat {
    if cols == [] then 0 else (if cols[0].id == columnId then 1 else 0) + CountColumns(cols[1..], columnId)
  }

  lemma {:induction false} NoColumnCounted(cols: seq<ColumnWithTasks>, columnId: string)
    ensures CountColumns(cols, columnId) == 0 <==> columnId !in ColumnIds(cols)
  {
    if cols != [] {
      NoColumnCounted(cols[1..], columnId);
      assert ColumnIds(cols) == [cols[0].id] + ColumnIds(cols[1..]);
    }
  }

  /** With no column of that id, appending changes nothing. */
  lemma AppendToMissingColumn(cols: seq<ColumnWithTasks>, columnId: string, task: CardTask)
    requires columnId !in ColumnIds(cols)
    ensures AppendTo(cols, columnId, task) == cols
  {
    var r := AppendTo(cols, columnId, task);
    forall i | 0 <= i < |r|
      ensures r[i] == cols[i]
    {
      assert ColumnIds(cols)[i] == cols[i].id;
    }
  }

  /** Appending adds one card with the task's id per column of that id, and no other card. */
  lemma {:induction false} AppendToBag(cols: seq<ColumnWithTasks>, columnId: string, task: CardTask, x: string)
    ensures TaskIdBag(AppendTo(cols, columnId, task))[x]
            == TaskIdBag(cols)[x] + (if x == task.id then CountColumns(cols, columnId) else 0)
  {
    if cols != [] {
      var r := AppendTo(cols, columnId, task);
      assert r[1..] == AppendTo(cols[1..], columnId, task);
      AppendToBag(cols[1..], columnId, task, x);
      if cols[0].id == columnId {
        assert TaskIds(r[0].tasks) == TaskIds(cols[0].tasks) + [task.id];
      }
    }
  }

  /** The card `createTask` builds, before the updater places it. */
  function CreatedGuestTask(taskId: string, title: string, description: Option<string>, priority: Option<string>,
                            now: string): CardTask
  {
    GuestTask(taskId, TrimmedOr(title, DefaultTaskTitle), TrimmedOrAbsent(description),
              Some(CoercePriority(priority)), None, None, now)
  }

  /**
   * The created card: the trimmed title or "Tâche", the trimmed description or
   * none, a known priority kept and any other one turned into medium, the
   * guest as author, no assignee, and `now` as both timestamps.
   */
  lemma CreatedGuestTaskFields(taskId: string, title: string, description: Option<string>, priority: Option<string>,
                               now: string)
    ensures var t := CreatedGuestTask(taskId, title, description, priority, now);
      && t.id == taskId
      && t.title == (if JsString.AllWhitespace(title) then DefaultTaskTitle else JsString.Trim(title))
      && t.description == TrimmedOrAbsent(description)
      && (t.priority != Medium <==> priority.Some? && priority.value in {"low", "high", "critical"})
      && (t.priority != Medium ==> priority == Some(PriorityName(t.priority)))
      && t.author == GuestAuthor && t.assignee.None? && t.assigneeId.None?
      && t.createdAt == now && t.updatedAt == now
  {
  }

  /** `createTask`'s updater. */
  function TaskAppended(prev: Board, columnId: string, task: CardTask): Board {
    prev.(columns := AppendTo(prev.columns, columnId, task))
  }

  /**
   * `createTask` puts the card at the end of every column with the id and
   * changes nothing else: each such column gains one card with the card's id,
   * and when no column has the id the board stays as it was.
   */
  lemma TaskAppendedAddsOne(prev: Board, columnId: string, task: CardTask)
    ensures var next := TaskAppended(prev, columnId, task);
      && next == prev.(columns := next.columns)
      && |next.columns| == |prev.columns|
      && (forall i :: 0 <= i < |next.columns| ==> next.columns[i] == prev.columns[i].(tasks := next.columns[i].tasks))
      && (forall i :: 0 <= i < |next.columns| ==>
            next.columns[i].tasks == (if prev.columns[i].id == columnId then prev.columns[i].tasks + [task]
                                      else prev.columns[i].tasks))
    ensures var next := TaskAppended(prev, columnId, task);
      forall x :: TaskIdBag(next.columns)[x] ==
        TaskIdBag(prev.columns)[x] + (if x == task.id then CountColumns(prev.columns, columnId) else 0)
    ensures columnId !in ColumnIds(prev.columns) ==> TaskAppended(prev, columnId, task) == prev
  {
    forall x
      ensures TaskIdBag(AppendTo(prev.columns, columnId, task))[x] ==
        TaskIdBag(prev.columns)[x] + (if x == task.id then CountColumns(prev.columns, columnId) else 0)
    {
      AppendToBag(prev.columns, columnId, task, x);
    }
    if columnId !in ColumnIds(prev.columns) {
      AppendToMissingColumn(prev.columns, columnId, task);
    }
  }

  // ------------------------------------------------------------ updateTask

  /** `data` of `updateTask`: None for a key left undefined. */
  datatype TaskEdit = TaskEdit(title: Option<string>, description: Option<string>, priority: Option<string>)

  function EditTask(t: CardTask, edit: TaskEdit, now: string): CardTask {
    t.(title := if edit.title.Some? then JsString.Trim(edit.title.value) else t.title,
       description := if edit.description.Some? then Actions.TrimmedOrNull(edit.description.value) else t.description,
       priority := if edit.priority.Some? then CoercePriority(edit.priority) else t.priority,
       updatedAt := now)
  }

  /** Every card with the id is edited in place; the others are kept. */
  function EditTasks(tasks: seq<CardTask>, taskId: string, edit: TaskEdit, now: string): (r: seq<CardTask>)
    ensures |r| == |tasks|
    ensures forall k :: 0 <= k < |r| ==> r[k] == (if tasks[k].id == taskId then EditTask(tasks[k], edit, now) else tasks[k])
  {
    if tasks == [] then []
    else [if tasks[0].id != taskId then tasks[0] else EditTask(tasks[0], edit, now)] + EditTasks(tasks[1..], taskId, edit, now)
  }

  function EditTasksInColumns(cols: seq<ColumnWithTasks>, taskId: string, edit: TaskEdit, now: string): (r: seq<ColumnWithTasks>)
    ensures |r| == |cols|
    ensures forall i :: 0 <= i < |r| ==> r[i] == cols[i].(tasks := EditTasks(cols[i].tasks, taskId, edit, now))
  {
    if cols == [] then []
    else [cols[0].(tasks := EditTasks(cols[0].tasks, taskId, edit, now))] + EditTasksInColumns(cols[1..], taskId, edit, now)
  }

  /** `updateTask`'s updater. */
  function TaskUpdated(prev: Board, taskId: string, edit: TaskEdit, now: string): Board {
    prev.(columns := EditTasksInColumns(prev.columns, taskId, edit, now))
  }

  /**
   * An edit touches only the cards with that id: it sets the given fields (the
   * title trimmed, the description trimmed or dropped, the priority coerced)
   * and stamps `updatedAt`; every card keeps its column and its position.
   */
  lemma {:induction false} TaskUpdatedInPlace(prev: Board, taskId: string, edit: TaskEdit, now: string)
    ensures var next := TaskUpdated(prev, taskId, edit, now);
      && next == prev.(columns := next.columns)
      && ColumnIds(next.columns) == ColumnIds(prev.columns)
      && (forall i :: 0 <= i < |next.columns| ==> TaskIds(next.columns[i].tasks) == TaskIds(prev.columns[i].tasks))
      && TaskIdBag(next.columns) == TaskIdBag(prev.columns)
    ensures var next := TaskUpdated(prev, taskId, edit, now);
      forall i, k :: 0 <= i < |next.columns| && 0 <= k < |next.columns[i].tasks| ==>
        var before := prev.columns[i].tasks[k];
        var after := next.columns[i].tasks[k];
        && (before.id != taskId ==> after == before)
        && (before.id == taskId ==>
              && after == before.(title := after.title, description := after.description,
                                  priority := after.priority, updatedAt := now)
              && after.title == (if edit.title.Some? then JsString.Trim(edit.title.value) else before.title)
              && after.description == (if edit.description.Some? then Actions.TrimmedOrNull(edit.description.value)
                                       else before.description)
              && after.priority == (if edit.priority.Some? then CoercePriority(edit.priority) else before.priority))
  {
    var next := TaskUpdated(prev, taskId, edit, now);
    SameTasksSameBag(prev.columns, next.columns);
  }

  // ------------------------------------------------------------ deleteTask

  /** `tasks.filter((t) => t.id !== id)`. */
  function Without(tasks: seq<CardTask>, id: string): (r: seq<CardTask>)
    ensures |r| <= |tasks|
    ensures forall t :: t in r <==> t in tasks && t.id != id
    ensures id !in TaskIds(tasks) ==> r == tasks
  {
    if tasks == [] then []
    else
      assert TaskIds(tasks) == [tasks[0].id] + TaskIds(tasks[1..]);
      (if tasks[0].id == id then [] else [tasks[0]]) + Without(tasks[1..], id)
  }

  lemma {:induction false} WithoutBag(tasks: seq<CardTask>, id: string, x: string)
    ensures multiset(TaskIds(Without(tasks, id)))[x] == if x == id then 0 else multiset(TaskIds(tasks))[x]
  {
    if tasks != [] {
      var rest := Without(tasks[1..], id);
      WithoutBag(tasks[1..], id, x);
      var head := if tasks[0].id == id then [] else [tasks[0]];
      assert Without(tasks, id) == head + rest;
      assert tasks == [tasks[0]] + tasks[1..];
      WithoutBagStep(tasks[0], tasks[1..], head, rest, id, x);
    }
  }

  /** One step of the filter: the head card is dropped or kept, and the count follows. */
  lemma WithoutBagStep(first: CardTask, tail: seq<CardTask>, head: seq<CardTask>, rest: seq<CardTask>, id: string, x: string)
    requires head == if first.id == id then [] else [first]
    requires multiset(TaskIds(rest))[x] == if x == id then 0 else multiset(TaskIds(tail))[x]
    ensures multiset(TaskIds(head + rest))[x] == if x == id then 0 else multiset(TaskIds([first] + tail))[x]
  {
    TaskIdsConcat(head, rest);
    TaskIdsConcat([first], tail);
  }

  function DeleteFromColumns(cols: seq<ColumnWithTasks>, taskId: string): (r: seq<ColumnWithTasks>)
    ensures |r| == |cols|
    ensures forall i :: 0 <= i < |r| ==> r[i] == cols[i].(tasks := Without(cols[i].tasks, taskId))
  {
    if cols == [] then []
    else [cols[0].(tasks := Without(cols[0].tasks, taskId))] + DeleteFromColumns(cols[1..], taskId)
  }

  /** `deleteTask`'s updater. */
  function TaskDeleted(prev: Board, taskId: string): Board {
    prev.(columns := DeleteFromColumns(prev.columns, taskId))
  }

  /** Deleting leaves no card with the id and every other card where it was counted. */
  lemma {:induction false} DeleteFromColumnsBag(cols: seq<ColumnWithTasks>, taskId: string, x: string)
    ensures TaskIdBag(DeleteFromColumns(cols, taskId))[x] == if x == taskId then 0 else TaskIdBag(cols)[x]
  {
    if cols != [] {
      var r := DeleteFromColumns(cols, taskId);
      assert r[1..] == DeleteFromColumns(cols[1..], taskId);
      DeleteFromColumnsBag(cols[1..], taskId, x);
      WithoutBag(cols[0].tasks, taskId, x);
    }
  }

  /**
   * `deleteTask` removes every card with the id from every column and keeps
   * the columns and all other cards.
   */
  lemma TaskDeletedRemovesAll(prev: Board, taskId: string)
    ensures var next := TaskDeleted(prev, taskId);
      && next == prev.(columns := next.columns)
      && |next.columns| == |prev.columns|
      && (forall i :: 0 <= i < |next.columns| ==> next.columns[i] == prev.columns[i].(tasks := next.columns[i].tasks))
      && (forall i, t :: 0 <= i < |next.columns| ==> (t in next.columns[i].tasks <==> t in prev.columns[i].tasks && t.id != taskId))
      && TaskIdBag(next.columns)[taskId] == 0
      && (forall x :: x != taskId ==> TaskIdBag(next.columns)[x] == TaskIdBag(prev.columns)[x])
  {
    forall x
      ensures TaskIdBag(TaskDeleted(prev, taskId).columns)[x] == if x == taskId then 0 else TaskIdBag(prev.columns)[x]
    {
      DeleteFromColumnsBag(prev.columns, taskId, x);
    }
  }

  // -------------------------------------------------------------- moveTask

  /** `tasks.find((t) => t.id === id)`: the first card with the id. */
  function FindTask(tasks: seq<CardTask>, id: string): (r: Option<CardTask>)
    ensures r.Some? <==> id in TaskIds(tasks)
    ensures r.Some? ==> r.value.id == id && r.value in tasks
  {
    if tasks == [] then None
    else
      assert TaskIds(tasks) == [tasks[0].id] + TaskIds(tasks[1..]);
      if tasks[0].id == id then Some(tasks[0]) else FindTask(tasks[1..], id)
  }

  /**
   * The value `moved` holds once the first pass is over: it is reassigned in
   * every column that has the card, so the match of the last such column wins.
   */
  function LastFound(cols: seq<ColumnWithTasks>, id: string): Option<CardTask>
    decreases |cols|
  {
    if cols == [] then None
    else
      var found := FindTask(cols[|cols| - 1].tasks, id);
      if found.Some? then found else LastFound(cols[..|cols| - 1], id)
  }

  /** Nothing is found exactly when no column has the card; what is found carries the id. */
  lemma {:induction false} LastFoundNone(cols: seq<ColumnWithTasks>, id: string)
    ensures LastFound(cols, id).None? <==> forall i :: 0 <= i < |cols| ==> id !in TaskIds(cols[i].tasks)
    ensures LastFound(cols, id).Some? ==> LastFound(cols, id).value.id == id
    decreases |cols|
  {
    if cols != [] {
      var n := |cols| - 1;
      var front := cols[..n];
      LastFoundNone(front, id);
      assert forall i :: 0 <= i < n ==> front[i] == cols[i];
    }
  }

  /** What is found is the first match of the last column that has the card. */
  lemma {:induction false} LastFoundIsLastMatch(cols: seq<ColumnWithTasks>, id: string)
    requires LastFound(cols, id).Some?
    ensures exists i :: 0 <= i < |cols| && FindTask(cols[i].tasks, id) == LastFound(cols, id)
                        && forall j :: i < j < |cols| ==> id !in TaskIds(cols[j].tasks)
    decreases |cols|
  {
    var n := |cols| - 1;
    if FindTask(cols[n].tasks, id).None? {
      var front := cols[..n];
      LastFoundIsLastMatch(front, id);
      var i :| 0 <= i < n && FindTask(front[i].tasks, id) == LastFound(front, id)
               && forall j :: i < j < n ==> id !in TaskIds(front[j].tasks);
      assert LastFound(cols, id) == LastFound(front, id);
      assert front[i] == cols[i];
      NoCardAfter(cols, front, id, i);
    } else {
      assert FindTask(cols[n].tasks, id) == LastFound(cols, id);
    }
  }

  /** No column after `i` has the card when none of `front` after `i` does and the last column does not. */
  lemma NoCardAfter(cols: seq<ColumnWithTasks>, front: seq<ColumnWithTasks>, id: string, i: int)
    requires cols != [] && front == cols[..|cols| - 1] && id !in TaskIds(cols[|cols| - 1].tasks) && 0 <= i < |front|
    requires forall j :: i < j < |front| ==> id !in TaskIds(front[j].tasks)
    ensures forall j :: i < j < |cols| ==> id !in TaskIds(cols[j].tasks)
  {
    forall j | i < j < |cols|
      ensures id !in TaskIds(cols[j].tasks)
    {
      if j < |front| {
        assert front[j] == cols[j];
      }
    }
  }

  /** The first pass on one column: the column without the card if it has it, else the same column. */
  function StripColumn(col: ColumnWithTasks, id: string): ColumnWithTasks {
    if FindTask(col.tasks, id).Some? then col.(tasks := Without(col.tasks, id)) else col
  }

  function StripColumns(cols: seq<ColumnWithTasks>, id: string): (r: seq<ColumnWithTasks>)
    ensures |r| == |cols| && forall i :: 0 <= i < |r| ==> r[i] == StripColumn(cols[i], id)
  {
    if cols == [] then [] else [StripColumn(cols[0], id)] + StripColumns(cols[1..], id)
  }

  /**
   * `moveTask`'s updater: the board unchanged when no column has the card;
   * otherwise the card leaves every column that has it and, stamped `now`,
   * goes to the end of every column whose id is the target.
   */
  function TaskMoved(prev: Board, taskId: string, targetColumnId: string, now: string): Board {
    var moved := LastFound(prev.columns, taskId);
    if moved.None? then prev
    else prev.(columns := AppendTo(StripColumns(prev.columns, taskId), targetColumnId, moved.value.(updatedAt := now)))
  }

  /**
   * The updater as written, with its `map` callback assigning `moved`: a loop
   * over the columns, then the append.
   */
  method MoveTaskUpdater(prev: Board, taskId: string, targetColumnId: string, now: string) returns (next: Board)
    ensures next == TaskMoved(prev, taskId, targetColumnId, now)
  {
    var moved: Option<CardTask> := None;
    var columnsWithout: seq<ColumnWithTasks> := [];
    var i := 0;
    while i < |prev.columns|
      invariant 0 <= i <= |prev.columns|
      invariant columnsWithout == StripColumns(prev.columns[..i], taskId)
      invariant moved == Stamped(LastFound(prev.columns[..i], taskId), now)
    {
      var col := prev.columns[i];
      var found := FindTask(col.tasks, taskId);
      PrefixStep(prev.columns, i, taskId);
      if found.Some? {
        moved := Some(found.value.(updatedAt := now));
        columnsWithout := columnsWithout + [col.(tasks := Without(col.tasks, taskId))];
      } else {
        columnsWithout := columnsWithout + [col];
      }
      i := i + 1;
    }
    assert prev.columns[..i] == prev.columns;
    if moved.None? {
      return prev;
    }
    next := prev.(columns := AppendTo(columnsWithout, targetColumnId, moved.value));
  }

  /** The card found, stamped with the move time. */
  function Stamped(f: Option<CardTask>, now: string): Option<CardTask> {
    if f.Some? then Some(f.value.(updatedAt := now)) else None
  }

  /** What the first pass has done after `i + 1` columns, from what it had done after `i`. */
  lemma PrefixStep(cols: seq<ColumnWithTasks>, i: int, id: string)
    requires 0 <= i < |cols|
    ensures StripColumns(cols[..i + 1], id) == StripColumns(cols[..i], id) + [StripColumn(cols[i], id)]
    ensures LastFound(cols[..i + 1], id) == (var f := FindTask(cols[i].tasks, id); if f.Some? then f else LastFound(cols[..i], id))
  {
    assert cols[..i + 1] == cols[..i] + [cols[i]];
    StripColumnsSnoc(cols[..i], cols[i], id);
    LastFoundSnoc(cols[..i], cols[i], id);
  }

  /** One more column: its first match if it has the card, else what was found before. */
  lemma LastFoundSnoc(cols: seq<ColumnWithTasks>, col: ColumnWithTasks, id: string)
    ensures LastFound(cols + [col], id) == (var f := FindTask(col.tasks, id); if f.Some? then f else LastFound(cols, id))
  {
    var c := cols + [col];
    assert c[..|c| - 1] == cols;
    assert c[|c| - 1] == col;
  }

  lemma StripColumnsSnoc(cols: seq<ColumnWithTasks>, col: ColumnWithTasks, id: string)
    ensures StripColumns(cols + [col], id) == StripColumns(cols, id) + [StripColumn(col, id)]
  {
    var a := StripColumns(cols + [col], id);
    var b := StripColumns(cols, id) + [StripColumn(col, id)];
    forall i | 0 <= i < |a|
      ensures a[i] == b[i]
    {
      if i < |cols| {
        assert (cols + [col])[i] == cols[i];
      }
    }
  }

  /** Stripping a column is the same as filtering it: filtering a column without the card keeps it. */
  lemma StripColumnsIsDelete(cols: seq<ColumnWithTasks>, id: string)
    ensures StripColumns(cols, id) == DeleteFromColumns(cols, id)
  {
    var a := StripColumns(cols, id);
    var b := DeleteFromColumns(cols, id);
    forall i | 0 <= i < |cols|
      ensures a[i] == b[i]
    {
      if FindTask(cols[i].tasks, id).None? {
        assert Without(cols[i].tasks, id) == cols[i].tasks;
      }
    }
  }

  /** A move is a delete followed by a create of the stamped card (when some column has the card). */
  lemma TaskMovedIsDeleteThenAppend(prev: Board, taskId: string, targetColumnId: string, now: string)
    requires LastFound(prev.columns, taskId).Some?
    ensures TaskMoved(prev, taskId, targetColumnId, now)
            == TaskAppended(TaskDeleted(prev, taskId), targetColumnId, LastFound(prev.columns, taskId).value.(updatedAt := now))
  {
    StripColumnsIsDelete(prev.columns, taskId);
  }

  /** When no column has the card, the board is returned unchanged. */
  lemma MoveOfAbsentTaskKeepsBoard(prev: Board, taskId: string, targetColumnId: string, now: string)
    requires forall i :: 0 <= i < |prev.columns| ==> taskId !in TaskIds(prev.columns[i].tasks)
    ensures TaskMoved(prev, taskId, targetColumnId, now) == prev
  {
    LastFoundNone(prev.columns, taskId);
  }

  /**
   * After a move the card appears once per column whose id is the target, and
   * every other card as often as before.
   */
  lemma {:induction false} TaskMovedBag(prev: Board, taskId: string, targetColumnId: string, now: string, x: string)
    requires exists i :: 0 <= i < |prev.columns| && taskId in TaskIds(prev.columns[i].tasks)
    ensures TaskIdBag(TaskMoved(prev, taskId, targetColumnId, now).columns)[x]
            == if x == taskId then CountColumns(prev.columns, targetColumnId) else TaskIdBag(prev.columns)[x]
  {
    LastFoundNone(prev.columns, taskId);
    var moved := LastFound(prev.columns, taskId).value.(updatedAt := now);
    TaskMovedIsDeleteThenAppend(prev, taskId, targetColumnId, now);
    assert TaskMoved(prev, taskId, targetColumnId, now).columns
           == AppendTo(DeleteFromColumns(prev.columns, taskId), targetColumnId, moved);
    DeleteThenAppendBag(prev.columns, taskId, targetColumnId, moved, x);
  }

  lemma DeleteThenAppendBag(cols: seq<ColumnWithTasks>, taskId: string, targetColumnId: string, moved: CardTask, x: string)
    requires moved.id == taskId
    ensures TaskIdBag(AppendTo(DeleteFromColumns(cols, taskId), targetColumnId, moved))[x]
            == if x == taskId then CountColumns(cols, targetColumnId) else TaskIdBag(cols)[x]
  {
    var stripped := DeleteFromColumns(cols, taskId);
    AppendToBag(stripped, targetColumnId, moved, x);
    DeleteFromColumnsBag(cols, taskId, x);
    SameIdsSameCount(cols, stripped, targetColumnId);
  }

  lemma {:induction false} SameIdsSameCount(a: seq<ColumnWithTasks>, b: seq<ColumnWithTasks>, columnId: string)
    requires |a| == |b| && forall i :: 0 <= i < |a| ==> a[i].id == b[i].id
    ensures CountColumns(a, columnId) == CountColumns(b, columnId)
  {
    if a != [] {
      SameIdsSameCount(a[1..], b[1..], columnId);
    }
  }

  /** Moving a card that is on the board once to a target that exists once keeps every card count. */
  lemma TaskMovedKeepsCards(prev: Board, taskId: string, targetColumnId: string, now: string)
    requires TaskIdBag(prev.columns)[taskId] == 1 && CountColumns(prev.columns, targetColumnId) == 1
    ensures TaskIdBag(TaskMoved(prev, taskId, targetColumnId, now).columns) == TaskIdBag(prev.columns)
  {
    BagCountsCards(prev.columns, taskId);
    forall x
      ensures TaskIdBag(TaskMoved(prev, taskId, targetColumnId, now).columns)[x] == TaskIdBag(prev.columns)[x]
    {
      TaskMovedBag(prev, taskId, targetColumnId, now, x);
    }
  }

  /** Moving to a column that does not exist drops the card and keeps every other one. */
  lemma TaskMovedToMissingColumnDrops(prev: Board, taskId: string, targetColumnId: string, now: string)
    requires exists i :: 0 <= i < |prev.columns| && taskId in TaskIds(prev.columns[i].tasks)
    requires targetColumnId !in ColumnIds(prev.columns)
    ensures var next := TaskMoved(prev, taskId, targetColumnId, now);
      && TaskIdBag(next.columns)[taskId] == 0
      && forall x :: x != taskId ==> TaskIdBag(next.columns)[x] == TaskIdBag(prev.columns)[x]
  {
    NoColumnCounted(prev.columns, targetColumnId);
    forall x
      ensures TaskIdBag(TaskMoved(prev, taskId, targetColumnId, now).columns)[x]
              == if x == taskId then 0 else TaskIdBag(prev.columns)[x]
    {
      TaskMovedBag(prev, taskId, targetColumnId, now, x);
    }
  }

  /** The bag counts a card exactly when some column holds it. */
  lemma {:induction false} BagCountsCards(cols: seq<ColumnWithTasks>, id: string)
    ensures TaskIdBag(cols)[id] > 0 <==> exists i :: 0 <= i < |cols| && id in TaskIds(cols[i].tasks)
  {
    if cols != [] {
      BagCountsCards(cols[1..], id);
      if id in TaskIds(cols[0].tasks) {
        assert id in multiset(TaskIds(cols[0].tasks));
      }
      if exists i :: 1 <= i < |cols| && id in TaskIds(cols[i].tasks) {
        var i :| 1 <= i < |cols| && id in TaskIds(cols[i].tasks);
        assert id in TaskIds(cols[1..][i - 1].tasks);
      }
      if exists i :: 0 <= i < |cols[1..]| && id in TaskIds(cols[1..][i].tasks) {
        var i :| 0 <= i < |cols[1..]| && id in TaskIds(cols[1..][i].tasks);
        assert id in TaskIds(cols[i + 1].tasks);
      }
    }
  }

  /** A move keeps every column's id, title, order and colour. */
  lemma TaskMovedKeepsColumns(prev: Board, taskId: string, targetColumnId: string, now: string)
    ensures var next := TaskMoved(prev, taskId, targetColumnId, now);
      && next == prev.(columns := next.columns)
      && |next.columns| == |prev.columns|
      && (forall i :: 0 <= i < |next.columns| ==> next.columns[i] == prev.columns[i].(tasks := next.columns[i].tasks))
  {
    var moved := LastFound(prev.columns, taskId);
    if moved.Some? {
      var stripped := StripColumns(prev.columns, taskId);
      assert forall i :: 0 <= i < |stripped| ==> stripped[i] == prev.columns[i].(tasks := stripped[i].tasks);
    }
  }

  /**
   * The moved card (the match `LastFound` picks, stamped `now`) ends every
   * target column's list; a move to the card's own column therefore sends it
   * to the end. Some column has the card exactly when `LastFound` finds it
   * (`LastFoundNone`).
   */
  lemma TaskMovedGoesLast(prev: Board, taskId: string, targetColumnId: string, now: string)
    requires LastFound(prev.columns, taskId).Some?
    ensures var next := TaskMoved(prev, taskId, targetColumnId, now);
      forall i :: 0 <= i < |next.columns| && next.columns[i].id == targetColumnId ==>
        var tasks := next.columns[i].tasks;
        && |tasks| > 0 && tasks[|tasks| - 1].id == taskId && tasks[|tasks| - 1].updatedAt == now
        && tasks[|tasks| - 1] == LastFound(prev.columns, taskId).value.(updatedAt := now)
  {
    LastFoundNone(prev.columns, taskId);
    var card := LastFound(prev.columns, taskId).value.(updatedAt := now);
    var stripped := StripColumns(prev.columns, taskId);
    assert TaskMoved(prev, taskId, targetColumnId, now).columns == AppendTo(stripped, targetColumnId, card);
    AppendToGoesLast(stripped, targetColumnId, card);
  }

  // ------------------------------------------------------------- the store

  /** React's `SetStateAction`: a next board, or an updater applied to the previous one. */
  datatype SetStateAction = Replace(next: Board) | Update(updater: Board -> Board)

  function Applied(action: SetStateAction, prev: Board): Board {
    match action
    case Replace(b) => b
    case Update(f) => f(prev)
  }

  /** The provider: the board in memory, and (ghost) the board last written to local storage. */
  class GuestBoardStore {
    var board: Board
    ghost var persisted: Option<Board>

    /** The initial state: the default board, and whatever the storage already held. */
    constructor (ghost stored: Option<Board>)
      ensures board == DefaultGuestBoard() && persisted == stored
    {
      board := DefaultGuestBoard();
      persisted := stored;
    }

    /** The mount effect: a stored board that parses replaces the default, taken as a board without further checks. */
    method Hydrate(raw: Option<string>, parse: string -> Option<Json>, cast: Json -> Board)
      modifies this
      ensures var stored := ParseStoredBoard(raw, parse);
        board == (if stored.Some? then cast(stored.value) else old(board))
      ensures persisted == old(persisted)
    {
      var stored := ParseStoredBoard(raw, parse);
      if stored.Some? {
        board := cast(stored.value);
      }
    }

    /** `setBoard`: the next board becomes the state and is persisted. */
    method SetBoard(action: SetStateAction)
      modifies this
      ensures board == Applied(action, old(board)) && persisted == Some(board)
    {
      var next := Applied(action, board);
      persisted := Some(next);
      board := next;
    }

    method UpdateBoardTitle(title: string)
      modifies this
      ensures board == TitleUpdated(old(board), title) && persisted == Some(board)
    {
      var f := (prev: Board) => TitleUpdated(prev, title);
      assert Applied(Update(f), board) == TitleUpdated(board, title);
      SetBoard(Update(f));
    }

    method UpdateBoardLocked(locked: bool)
      modifies this
      ensures board == old(board).(locked := Some(locked)) && persisted == Some(board)
    {
      var f := (prev: Board) => prev.(locked := Some(locked));
      assert Applied(Update(f), board) == board.(locked := Some(locked));
      SetBoard(Update(f));
    }

    /** `resetBoard`: the default board, in memory and in storage. */
    method ResetBoard()
      modifies this
      ensures board == DefaultGuestBoard() && persisted == Some(DefaultGuestBoard())
      ensures board.id == GuestBoardId && board.columns == [] && board.locked == Some(false)
    {
      var def := DefaultGuestBoard();
      board := def;
      persisted := Some(def);
    }

    method CreateColumn(id: string, title: string, color: Option<string>)
      modifies this
      ensures board == ColumnCreated(old(board), id, title, color) && persisted == Some(board)
    {
      var f := (prev: Board) => ColumnCreated(prev, id, title, color);
      assert Applied(Update(f), board) == ColumnCreated(board, id, title, color);
      SetBoard(Update(f));
    }

    method UpdateColumn(columnId: string, edit: ColumnEdit)
      modifies this
      ensures board == ColumnUpdated(old(board), columnId, edit) && persisted == Some(board)
    {
      var f := (prev: Board) => ColumnUpdated(prev, columnId, edit);
      assert Applied(Update(f), board) == ColumnUpdated(board, columnId, edit);
      SetBoard(Update(f));
    }

    method CreateTask(columnId: string, taskId: string, title: string, description: Option<string>,
                      priority: Option<string>, now: string)
      modifies this
      ensures board == TaskAppended(old(board), columnId, CreatedGuestTask(taskId, title, description, priority, now))
      ensures persisted == Some(board)
    {
      var task := CreatedGuestTask(taskId, title, description, priority, now);
      var f := (prev: Board) => TaskAppended(prev, columnId, task);
      assert Applied(Update(f), board) == TaskAppended(board, columnId, task);
      SetBoard(Update(f));
    }

    method UpdateTask(taskId: string, edit: TaskEdit, now: string)
      modifies this
      ensures board == TaskUpdated(old(board), taskId, edit, now) && persisted == Some(board)
    {
      var f := (prev: Board) => TaskUpdated(prev, taskId, edit, now);
      assert Applied(Update(f), board) == TaskUpdated(board, taskId, edit, now);
      SetBoard(Update(f));
    }

    method DeleteTask(taskId: string)
      modifies this
      ensures board == TaskDeleted(old(board), taskId) && persisted == Some(board)
    {
      var f := (prev: Board) => TaskDeleted(prev, taskId);
      assert Applied(Update(f), board) == TaskDeleted(board, taskId);
      SetBoard(Update(f));
    }

    method MoveTask(taskId: string, targetColumnId: string, now: string)
      modifies this
      ensures board == TaskMoved(old(board), taskId, targetColumnId, now) && persisted == Some(board)
    {
      var next := MoveTaskUpdater(board, taskId, targetColumnId, now);
      SetBoard(Replace(next));
    }
  }
}
