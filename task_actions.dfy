/**
 * The server task actions `createTask`, `moveTask`, `updateTask` and
 * `deleteTask`. Each is a method over the store that makes its lookups and
 * then at most one write to the task table; each is specified by a `…Step`
 * function from the tables before the call to the result and the tables
 * after it, and the properties of the actions are proved about those.
 * The session user, the id the store gives a new row and the clock are
 * parameters.
 */
module TaskActions {
  import opened Wrappers
  import opened Actions
  import opened Db
  import JsString
  import OrderIndex
  import Cards

  /** What `formData.get` returns for each field (None for `null`). */
  datatype TaskForm = TaskForm(
    title: Option<string>,
    description: Option<string>,
    priority: Option<string>,
    assigneeId: Option<string>)

  /** The object given to the schema, after the `??` defaults. */
  datatype TaskInput = TaskInput(title: string, description: string, priority: string, assigneeId: string)

  function RawInput(form: TaskForm): TaskInput {
    TaskInput(form.title.GetOr(""), form.description.GetOr(""),
              form.priority.GetOr("medium"), form.assigneeId.GetOr(""))
  }

  const TitleMax: nat := 200
  const DescriptionMax: nat := 15000
  const PriorityOptions: set<string> := {"low", "medium", "high", "critical"}

  predicate ValidTitle(title: string) {
    title != [] && JsString.Utf16Length(title) <= TitleMax
  }

  predicate ValidDescription(description: string) {
    JsString.Utf16Length(description) <= DescriptionMax
  }

  function PriorityIssue(p: string): (r: Option<Issue>)
    ensures r.None? <==> p in PriorityOptions
  {
    if p in PriorityOptions then None else Some(NotAnOption)
  }

  /**
   * `createTaskSchema`, and `updateTaskSchema` too, whose extra key
   * `assigneeId: z.string().optional()` accepts every string: the first failing
   * field, in the order title, description, priority; None exactly when all
   * three pass.
   */
  function SchemaError(input: TaskInput): (r: Option<FieldError>)
    ensures r.None? <==> ValidTitle(input.title) && ValidDescription(input.description)
                         && input.priority in PriorityOptions
    ensures r.Some? ==> (r.value.field == Title <==> !ValidTitle(input.title))
    ensures r.Some? ==> (r.value.field == Description <==>
                          ValidTitle(input.title) && !ValidDescription(input.description))
    ensures r.Some? ==> (r.value.field == Priority <==>
                          ValidTitle(input.title) && ValidDescription(input.description))
  {
    var title := TitleIssue(input.title, TitleMax);
    var description := MaxLengthIssue(input.description, DescriptionMax);
    var priority := PriorityIssue(input.priority);
    if title.Some? then Some(FieldError(Title, title.value))
    else if description.Some? then Some(FieldError(Description, description.value))
    else if priority.Some? then Some(FieldError(Priority, priority.value))
    else None
  }

  /** A validated priority survives the coercion unchanged. */
  lemma {:induction false} ValidatedPriorityKept(p: string)
    requires p in PriorityOptions
    ensures Cards.PriorityName(Cards.CoercePriority(Some(p))) == p
  {
    if p != "low" && p != "high" && p != "critical" {
      assert p == "medium";
    }
  }

  // ---------------------------------------------------------------- createTask

  /** The task `createTask` inserts once the schema and the column check pass. */
  function NewTaskRow(t: Tables, boardId: Id, columnId: Id, input: TaskInput,
                      sessionUserId: Option<Id>, now: Instant): TaskRow
  {
    var order := OrderIndex.NextOrder(TaskOrders(t.tasks, columnId));
    var priority := Cards.CoercePriority(Some(input.priority));
    TaskRow(boardId, columnId, JsString.Trim(input.title), TrimmedOrNull(input.description),
            Some(Cards.PriorityName(priority)), order, sessionUserId, now, now)
  }

  function CreateTaskStep(t: Tables, boardId: Id, columnId: Id, form: TaskForm,
                          sessionUserId: Option<Id>, freshId: Id, now: Instant): Step<Id, Tables>
  {
    var input := RawInput(form);
    var invalid := SchemaError(input);
    if invalid.Some? then Step(Reject(invalid.value), t)
    else if !ColumnOnBoard(t.columns, columnId, boardId) then Step(Error(Text("Column not found"), None), t)
    else Step(Success(freshId), t.(tasks := t.tasks[freshId := NewTaskRow(t, boardId, columnId, input, sessionUserId, now)]))
  }

  method CreateTask(db: Store, boardId: Id, columnId: Id, form: TaskForm,
                    sessionUserId: Option<Id>, freshId: Id, now: Instant) returns (r: ActionResult<Id>)
    requires freshId !in db.tasks
    modifies db
    ensures Step(r, db.Contents()) == CreateTaskStep(old(db.Contents()), boardId, columnId, form, sessionUserId, freshId, now)
    ensures r.Success? ==>
              && r.value == freshId
              && db.tasks.Keys == old(db.tasks.Keys) + {freshId}
              && (forall k :: k in old(db.tasks) ==> db.tasks[k] == old(db.tasks[k]))
  {
    ghost var t := db.Contents();
    var input := RawInput(form);
    var parsed := SchemaError(input);
    if parsed.Some? {
      return Reject(parsed.value);
    }
    if !ColumnOnBoard(db.columns, columnId, boardId) {
      return Error(Text("Column not found"), None);
    }
    var order := OrderIndex.NextOrder(TaskOrders(db.tasks, columnId));
    var assigneeId := sessionUserId;
    var priority := Cards.CoercePriority(Some(input.priority));
    var row := TaskRow(boardId, columnId, JsString.Trim(input.title),
                       TrimmedOrNull(input.description), Some(Cards.PriorityName(priority)),
                       order, assigneeId, now, now);
    assert row == NewTaskRow(t, boardId, columnId, input, sessionUserId, now);
    db.tasks := db.tasks[freshId := row];
    MapInsertFresh(t.tasks, freshId, row, db.tasks);
    r := Success(freshId);
    assert db.Contents() == t.(tasks := t.tasks[freshId := row]);
  }

  /** Input the schema refuses is reported with its first failing field, and nothing is written. */
  lemma CreateTaskRejectsInvalid(t: Tables, boardId: Id, columnId: Id, form: TaskForm,
                                 sessionUserId: Option<Id>, freshId: Id, now: Instant)
    requires SchemaError(RawInput(form)).Some?
    ensures CreateTaskStep(t, boardId, columnId, form, sessionUserId, freshId, now)
            == Step(Reject(SchemaError(RawInput(form)).value), t)
  {
  }

  /** Valid input naming a column that is not on `boardId` writes nothing. */
  lemma CreateTaskNeedsColumnOnBoard(t: Tables, boardId: Id, columnId: Id, form: TaskForm,
                                     sessionUserId: Option<Id>, freshId: Id, now: Instant)
    requires SchemaError(RawInput(form)).None? && !ColumnOnBoard(t.columns, columnId, boardId)
    ensures CreateTaskStep(t, boardId, columnId, form, sessionUserId, freshId, now)
            == Step(Error(Text("Column not found"), None), t)
  {
  }

  /**
   * The new row: placed after every task of its column, with the trimmed
   * title, the trimmed description or null, the validated priority and the
   * session user as assignee.
   */
  lemma {:induction false} NewTaskRowFields(t: Tables, boardId: Id, columnId: Id, input: TaskInput,
                                            sessionUserId: Option<Id>, now: Instant)
    requires input.priority in PriorityOptions
    ensures var row := NewTaskRow(t, boardId, columnId, input, sessionUserId, now);
      && row.boardId == boardId && row.columnId == columnId
      && row.title == JsString.Trim(input.title)
      && row.description == TrimmedOrNull(input.description)
      && row.priority == Some(input.priority)
      && (forall k :: k in t.tasks && t.tasks[k].columnId == columnId ==> t.tasks[k].order < row.order)
      && (TaskOrders(t.tasks, columnId) == {} ==> row.order == 0)
      && row.assigneeId == sessionUserId
      && row.createdAt == now && row.updatedAt == now
  {
    ValidatedPriorityKept(input.priority);
    var row := NewTaskRow(t, boardId, columnId, input, sessionUserId, now);
    forall k | k in t.tasks && t.tasks[k].columnId == columnId
      ensures t.tasks[k].order < row.order
    {
      assert t.tasks[k].order in TaskOrders(t.tasks, columnId);
    }
  }

  /** Otherwise the step is one insertion of `NewTaskRow` under the fresh id. */
  lemma CreateTaskStepInserts(t: Tables, boardId: Id, columnId: Id, form: TaskForm,
                              sessionUserId: Option<Id>, freshId: Id, now: Instant)
    requires SchemaError(RawInput(form)).None? && ColumnOnBoard(t.columns, columnId, boardId)
    ensures CreateTaskStep(t, boardId, columnId, form, sessionUserId, freshId, now)
            == Step(Success(freshId), t.(tasks := t.tasks[freshId := NewTaskRow(t, boardId, columnId, RawInput(form), sessionUserId, now)]))
  {
  }

  /** ... so exactly one task is added, and the rows already there are kept. */
  lemma {:induction false} CreateTaskInserts(t: Tables, boardId: Id, columnId: Id, form: TaskForm,
                                             sessionUserId: Option<Id>, freshId: Id, now: Instant)
    requires freshId !in t.tasks
    requires SchemaError(RawInput(form)).None? && ColumnOnBoard(t.columns, columnId, boardId)
    ensures var s := CreateTaskStep(t, boardId, columnId, form, sessionUserId, freshId, now);
      && s.result == Success(freshId)
      && s.state == t.(tasks := s.state.tasks)
      && (forall k :: k in s.state.tasks <==> k in t.tasks || k == freshId)
      && (forall k :: k in t.tasks ==> s.state.tasks[k] == t.tasks[k])
      && s.state.tasks[freshId] == NewTaskRow(t, boardId, columnId, RawInput(form), sessionUserId, now)
  {
    CreateTaskStepInserts(t, boardId, columnId, form, sessionUserId, freshId, now);
    TaskWritten(t, freshId, NewTaskRow(t, boardId, columnId, RawInput(form), sessionUserId, now), Success(freshId),
                CreateTaskStep(t, boardId, columnId, form, sessionUserId, freshId, now));
  }

  /** What a step that writes one task row does, row by row. */
  lemma TaskWritten<R>(t: Tables, id: Id, row: TaskRow, r: ActionResult<R>, s: Step<R, Tables>)
    requires s == Step(r, t.(tasks := t.tasks[id := row]))
    ensures s.result == r && s.state == t.(tasks := s.state.tasks)
    ensures forall k :: k in s.state.tasks <==> k in t.tasks || k == id
    ensures forall k :: k in t.tasks && k != id ==> s.state.tasks[k] == t.tasks[k]
    ensures s.state.tasks[id] == row
  {
    MapWrite(t.tasks, id, row, s.state.tasks);
  }

  /** The created task is listed last in its column. */
  lemma {:induction false} CreateTaskListedLast(t: Tables, boardId: Id, columnId: Id, form: TaskForm,
                                                sessionUserId: Option<Id>, freshId: Id, now: Instant)
    requires freshId !in t.tasks
    requires SchemaError(RawInput(form)).None? && ColumnOnBoard(t.columns, columnId, boardId)
    ensures var r := TasksInOrder(CreateTaskStep(t, boardId, columnId, form, sessionUserId, freshId, now).state.tasks, columnId);
      |r| > 0 && r[|r| - 1] == freshId
  {
    var ts := CreateTaskStep(t, boardId, columnId, form, sessionUserId, freshId, now).state.tasks;
    CreateTaskInserts(t, boardId, columnId, form, sessionUserId, freshId, now);
    NewTaskRowFields(t, boardId, columnId, RawInput(form), sessionUserId, now);
    GreatestOrderListedLast(ts, freshId);
  }

  /** A created task stays on its column's board and takes an order no sibling has. */
  lemma {:induction false} CreateTaskKeepsConsistent(t: Tables, boardId: Id, columnId: Id, form: TaskForm,
                                                     sessionUserId: Option<Id>, freshId: Id, now: Instant)
    requires Consistent(t) && freshId !in t.tasks
    ensures Consistent(CreateTaskStep(t, boardId, columnId, form, sessionUserId, freshId, now).state)
  {
    if SchemaError(RawInput(form)).Some? {
      CreateTaskRejectsInvalid(t, boardId, columnId, form, sessionUserId, freshId, now);
    } else if !ColumnOnBoard(t.columns, columnId, boardId) {
      CreateTaskNeedsColumnOnBoard(t, boardId, columnId, form, sessionUserId, freshId, now);
    } else {
      var row := NewTaskRow(t, boardId, columnId, RawInput(form), sessionUserId, now);
      CreateTaskStepInserts(t, boardId, columnId, form, sessionUserId, freshId, now);
      NewTaskRowFields(t, boardId, columnId, RawInput(form), sessionUserId, now);
      TaskWriteKeepsConsistent(t, freshId, row);
    }
  }

  // ------------------------------------------------------------------ moveTask

  function MoveTaskStep(t: Tables, taskId: Id, targetColumnId: Id, now: Instant): Step<(), Tables>
  {
    if taskId !in t.tasks then Step(Error(Text("Task not found"), None), t)
    else
      var task := t.tasks[taskId];
      if !ColumnOnBoard(t.columns, targetColumnId, task.boardId) then Step(Error(Text("Target column not found"), None), t)
      else if task.columnId == targetColumnId then Step(Success(()), t)
      else
        var newOrder := OrderIndex.NextOrder(TaskOrders(t.tasks, targetColumnId));
        Step(Success(()), t.(tasks := t.tasks[taskId := task.(columnId := targetColumnId, order := newOrder, updatedAt := now)]))
  }

  method MoveTask(db: Store, taskId: Id, targetColumnId: Id, now: Instant) returns (r: ActionResult<()>)
    modifies db
    ensures Step(r, db.Contents()) == MoveTaskStep(old(db.Contents()), taskId, targetColumnId, now)
  {
    if taskId !in db.tasks {
      return Error(Text("Task not found"), None);
    }
    var task := db.tasks[taskId];
    if !ColumnOnBoard(db.columns, targetColumnId, task.boardId) {
      return Error(Text("Target column not found"), None);
    }
    if task.columnId == targetColumnId {
      return Success(());
    }
    var newOrder := OrderIndex.NextOrder(TaskOrders(db.tasks, targetColumnId));
    db.tasks := db.tasks[taskId := db.tasks[taskId].(columnId := targetColumnId, order := newOrder, updatedAt := now)];
    r := Success(());
  }

  /**
   * The two refusals: a missing task, and a target that is missing or on
   * another board. Neither changes anything.
   */
  lemma MoveTaskRefusals(t: Tables, taskId: Id, targetColumnId: Id, now: Instant)
    ensures taskId !in t.tasks ==> MoveTaskStep(t, taskId, targetColumnId, now) == Step(Error(Text("Task not found"), None), t)
    ensures taskId in t.tasks && !ColumnOnBoard(t.columns, targetColumnId, t.tasks[taskId].boardId) ==>
      MoveTaskStep(t, taskId, targetColumnId, now) == Step(Error(Text("Target column not found"), None), t)
    ensures MoveTaskStep(t, taskId, targetColumnId, now).result.Success? <==>
      taskId in t.tasks && ColumnOnBoard(t.columns, targetColumnId, t.tasks[taskId].boardId)
  {
  }

  /** A move to the task's own column succeeds and changes nothing. */
  lemma MoveTaskToOwnColumn(t: Tables, taskId: Id, now: Instant)
    requires taskId in t.tasks && ColumnOnBoard(t.columns, t.tasks[taskId].columnId, t.tasks[taskId].boardId)
    ensures MoveTaskStep(t, taskId, t.tasks[taskId].columnId, now) == Step(Success(()), t)
  {
  }

  /**
   * A move to another column of the same board rewrites the task's column and
   * order in one write (stamped `now`), placing it after every task of the target, and leaves
   * every other row as it was.
   */
  lemma MoveTaskReparents(t: Tables, taskId: Id, targetColumnId: Id, now: Instant)
    requires taskId in t.tasks && ColumnOnBoard(t.columns, targetColumnId, t.tasks[taskId].boardId)
    requires t.tasks[taskId].columnId != targetColumnId
    ensures var s := MoveTaskStep(t, taskId, targetColumnId, now);
      && s.result == Success(())
      && s.state == t.(tasks := s.state.tasks)
      && (forall k :: k in s.state.tasks <==> k in t.tasks)
      && (forall k :: k in t.tasks && k != taskId ==> s.state.tasks[k] == t.tasks[k])
      && s.state.tasks[taskId] == t.tasks[taskId].(columnId := targetColumnId, order := s.state.tasks[taskId].order, updatedAt := now)
      && (forall k :: k in t.tasks && t.tasks[k].columnId == targetColumnId ==>
            t.tasks[k].order < s.state.tasks[taskId].order)
      && (TaskOrders(t.tasks, targetColumnId) == {} ==> s.state.tasks[taskId].order == 0)
  {
    MoveTaskStepRewrites(t, taskId, targetColumnId, now);
    var s := MoveTaskStep(t, taskId, targetColumnId, now);
    MapWrite(t.tasks, taskId, s.state.tasks[taskId], s.state.tasks);
    var order := s.state.tasks[taskId].order;
    forall k | k in t.tasks && t.tasks[k].columnId == targetColumnId
      ensures t.tasks[k].order < order
    {
      assert t.tasks[k].order in TaskOrders(t.tasks, targetColumnId);
    }
  }

  /** ... that is, one overwrite of the task's row. */
  lemma MoveTaskStepRewrites(t: Tables, taskId: Id, targetColumnId: Id, now: Instant)
    requires taskId in t.tasks && ColumnOnBoard(t.columns, targetColumnId, t.tasks[taskId].boardId)
    requires t.tasks[taskId].columnId != targetColumnId
    ensures MoveTaskStep(t, taskId, targetColumnId, now)
            == Step(Success(()), t.(tasks := t.tasks[taskId := t.tasks[taskId].(columnId := targetColumnId,
                      order := OrderIndex.NextOrder(TaskOrders(t.tasks, targetColumnId)), updatedAt := now)]))
  {
  }

  /** A task moved to another column is listed last there. */
  lemma {:induction false} MoveTaskListedLast(t: Tables, taskId: Id, targetColumnId: Id, now: Instant)
    requires taskId in t.tasks && ColumnOnBoard(t.columns, targetColumnId, t.tasks[taskId].boardId)
    requires t.tasks[taskId].columnId != targetColumnId
    ensures var r := TasksInOrder(MoveTaskStep(t, taskId, targetColumnId, now).state.tasks, targetColumnId);
      |r| > 0 && r[|r| - 1] == taskId
  {
    var ts := MoveTaskStep(t, taskId, targetColumnId, now).state.tasks;
    MoveTaskReparents(t, taskId, targetColumnId, now);
    GreatestOrderListedLast(ts, taskId);
  }

  /** A move keeps the store consistent: the target is on the task's board, and its order is fresh there. */
  lemma {:induction false} MoveTaskKeepsConsistent(t: Tables, taskId: Id, targetColumnId: Id, now: Instant)
    requires Consistent(t)
    ensures Consistent(MoveTaskStep(t, taskId, targetColumnId, now).state)
  {
    if taskId in t.tasks && ColumnOnBoard(t.columns, targetColumnId, t.tasks[taskId].boardId) {
      if t.tasks[taskId].columnId != targetColumnId {
        var s := MoveTaskStep(t, taskId, targetColumnId, now);
        MoveTaskReparents(t, taskId, targetColumnId, now);
        assert s.state == t.(tasks := t.tasks[taskId := s.state.tasks[taskId]]);
        TaskWriteKeepsConsistent(t, taskId, s.state.tasks[taskId]);
      }
    }
  }

  // ---------------------------------------------------------------- updateTask

  /** The row `updateTask` writes back: the four edited fields replaced. */
  function EditedTaskRow(row: TaskRow, input: TaskInput, now: Instant): TaskRow {
    var priority := Cards.CoercePriority(Some(input.priority));
    row.(title := JsString.Trim(input.title),
         description := TrimmedOrNull(input.description),
         priority := Some(Cards.PriorityName(priority)),
         assigneeId := TrimmedOrNull(input.assigneeId),
         updatedAt := now)
  }

  function UpdateTaskStep(t: Tables, taskId: Id, form: TaskForm, now: Instant): Step<(), Tables>
  {
    var input := RawInput(form);
    var invalid := SchemaError(input);
    if invalid.Some? then Step(Reject(invalid.value), t)
    else if taskId !in t.tasks then Step(Error(Text("Task not found"), None), t)
    else Step(Success(()), t.(tasks := t.tasks[taskId := EditedTaskRow(t.tasks[taskId], input, now)]))
  }

  method UpdateTask(db: Store, taskId: Id, form: TaskForm, now: Instant) returns (r: ActionResult<()>)
    modifies db
    ensures Step(r, db.Contents()) == UpdateTaskStep(old(db.Contents()), taskId, form, now)
  {
    var input := RawInput(form);
    var parsed := SchemaError(input);
    if parsed.Some? {
      return Reject(parsed.value);
    }
    if taskId !in db.tasks {
      return Error(Text("Task not found"), None);
    }
    var priority := Cards.CoercePriority(Some(input.priority));
    var assigneeId := TrimmedOrNull(input.assigneeId);
    db.tasks := db.tasks[taskId := db.tasks[taskId].(title := JsString.Trim(input.title),
                                                     description := TrimmedOrNull(input.description),
                                                     priority := Some(Cards.PriorityName(priority)),
                                                     assigneeId := assigneeId,
                                                     updatedAt := now)];
    r := Success(());
  }

  /** Validation comes first; then a missing task is reported. Neither writes. */
  lemma UpdateTaskRefusals(t: Tables, taskId: Id, form: TaskForm, now: Instant)
    ensures SchemaError(RawInput(form)).Some? ==>
      UpdateTaskStep(t, taskId, form, now) == Step(Reject(SchemaError(RawInput(form)).value), t)
    ensures SchemaError(RawInput(form)).None? && taskId !in t.tasks ==>
      UpdateTaskStep(t, taskId, form, now) == Step(Error(Text("Task not found"), None), t)
    ensures UpdateTaskStep(t, taskId, form, now).result.Success? <==> SchemaError(RawInput(form)).None? && taskId in t.tasks
  {
  }

  /**
   * The edited row carries the trimmed title, the trimmed description or
   * null, the validated priority and the trimmed assignee or null, and is
   * stamped `now`; its column, order, board and creation time are the old row's.
   */
  lemma {:induction false} EditedTaskRowFields(before: TaskRow, input: TaskInput, now: Instant)
    requires input.priority in PriorityOptions
    ensures var row := EditedTaskRow(before, input, now);
      && row.title == JsString.Trim(input.title)
      && row.description == TrimmedOrNull(input.description)
      && row.priority == Some(input.priority)
      && row.assigneeId == TrimmedOrNull(input.assigneeId)
      && row.columnId == before.columnId && row.order == before.order && row.boardId == before.boardId
      && row.createdAt == before.createdAt && row.updatedAt == now
  {
    ValidatedPriorityKept(input.priority);
  }

  /** A successful update overwrites that one task with `EditedTaskRow` and keeps every other row. */
  lemma {:induction false} UpdateTaskOverwritesOne(t: Tables, taskId: Id, form: TaskForm, now: Instant)
    requires SchemaError(RawInput(form)).None? && taskId in t.tasks
    ensures var s := UpdateTaskStep(t, taskId, form, now);
      && s.result == Success(())
      && s.state == t.(tasks := s.state.tasks)
      && (forall k :: k in s.state.tasks <==> k in t.tasks)
      && (forall k :: k in t.tasks && k != taskId ==> s.state.tasks[k] == t.tasks[k])
      && s.state.tasks[taskId] == EditedTaskRow(t.tasks[taskId], RawInput(form), now)
  {
    var row := EditedTaskRow(t.tasks[taskId], RawInput(form), now);
    assert UpdateTaskStep(t, taskId, form, now) == Step(Success(()), t.(tasks := t.tasks[taskId := row]));
    TaskWritten(t, taskId, row, Success(()), UpdateTaskStep(t, taskId, form, now));
  }

  lemma {:induction false} UpdateTaskKeepsConsistent(t: Tables, taskId: Id, form: TaskForm, now: Instant)
    requires Consistent(t)
    ensures Consistent(UpdateTaskStep(t, taskId, form, now).state)
  {
    if SchemaError(RawInput(form)).None? && taskId in t.tasks {
      var row := EditedTaskRow(t.tasks[taskId], RawInput(form), now);
      EditedTaskRowFields(t.tasks[taskId], RawInput(form), now);
      assert UpdateTaskStep(t, taskId, form, now).state == t.(tasks := t.tasks[taskId := row]);
      TaskWriteKeepsConsistent(t, taskId, row);
    }
  }

  // ---------------------------------------------------------------- deleteTask

  function DeleteTaskStep(t: Tables, taskId: Id): Step<(), Tables>
  {
    if taskId !in t.tasks then Step(Error(Text("Task not found"), None), t)
    else Step(Success(()), t.(tasks := t.tasks - {taskId}))
  }

  method DeleteTask(db: Store, taskId: Id) returns (r: ActionResult<()>)
    modifies db
    ensures Step(r, db.Contents()) == DeleteTaskStep(old(db.Contents()), taskId)
  {
    if taskId !in db.tasks {
      return Error(Text("Task not found"), None);
    }
    db.tasks := db.tasks - {taskId};
    r := Success(());
  }

  /** A missing id is reported; otherwise exactly that task is removed. */
  lemma DeleteTaskRemovesOne(t: Tables, taskId: Id)
    ensures taskId !in t.tasks ==> DeleteTaskStep(t, taskId) == Step(Error(Text("Task not found"), None), t)
    ensures taskId in t.tasks ==>
      var s := DeleteTaskStep(t, taskId);
      && s.result == Success(())
      && s.state == t.(tasks := s.state.tasks)
      && s.state.tasks.Keys == t.tasks.Keys - {taskId}
      && (forall k :: k in s.state.tasks ==> s.state.tasks[k] == t.tasks[k])
  {
  }

  lemma DeleteTaskKeepsConsistent(t: Tables, taskId: Id)
    requires Consistent(t)
    ensures Consistent(DeleteTaskStep(t, taskId).state)
  {
  }
}
