# todogether core, modelled in Dafny

todogether is a kanban application: boards hold ordered columns, and columns
hold ordered task cards. Signed-in users work against a relational store
through server actions. Guests work on a single board kept in the browser's
local storage. This project models the core of both paths, and the
connection-string normalisation done before the database client is created:

- **Server task actions** (`TaskActions`): `createTask`, `moveTask`, `updateTask`
  and `deleteTask`, with their zod schemas. Each action is a method over a
  mutable `Db.Store` holding four tables (boards, columns, tasks, users; each a
  map from id to row). Each method is specified by a `…Step` function from the
  tables before the call to the action's result and the tables after it.
- **Server column actions** (`ColumnActions`): `createColumn`, `updateColumn`
  and the `getColumns` read, in the same style.
- **Board readers** (`Boards`): `mapDbTaskToCardTask`, `getBoards`,
  `getBoardsForUser` and `getBoardWithColumnsAndTasks`, as projections of the
  tables.
- **Guest board** (`GuestBoard`): `defaultGuestBoard`, `guestTask`,
  `parseStoredBoard`, and the provider's operations. Each operation is a pure
  updater from the previous board to the next. `GuestBoardStore` is a class
  holding the in-memory `board` and a ghost `persisted`, which is the board
  last written to local storage. `moveTask`'s updater is written as a loop,
  because the source assigns `moved` inside its `map` callback.
- **Connection string** (`PrismaUrl`): the `DATABASE_URL` presence check and
  the global `sslmode` rewrite. The rewrite is a left-to-right scan,
  written once for any matcher (`Scan`). The lemmas about the scan name
  what they need of the matcher as predicates: every match starts with `ss`
  and ends at `&` or at the end; no match window holds `ss` after its head;
  a match depends only on its window; and the replacement starts no match.
  `MatchAt`, the source's pattern, is shown to have all four.

Support modules:

- `JsString`: ECMAScript `trim`, and `length` in UTF-16 code units.
- `OrderIndex`: the "largest order + 1, or 0" rule.
- `SortedKeys`: a deterministic `ORDER BY`.
- `ColumnSort`: the stable sort of the guest column list.
- `Cards`: the card, column and board shapes the UI consumes.
- `Actions`: the result shapes and the shared zod checks.

Sources of nondeterminism and I/O are parameters:

- `auth()` becomes the session user id.
- The id a new row receives, `crypto.randomUUID` and `new Date()` become fresh-id
  and timestamp parameters. The server `createTask` and `createColumn` require
  their fresh id to be absent from the table, because the database assigns an
  unused id and would refuse a duplicate key rather than overwrite a row.
- `Number(…)` becomes a parameter.
- So do `Date.prototype.toISOString`, `JSON.parse` and the unchecked cast of a
  parsed guest board.

Decisions of the code that the model keeps as written:

- Task and column titles are length-checked raw, before trimming. A
  whitespace-only title therefore passes validation and is stored as the
  empty string (`ColumnActions.BlankTitleStoredEmpty`).
- The server `createTask` and `updateTask` reject an unknown priority through
  the schema's enum, so their later coercion to `medium` never changes a value
  (`TaskActions.ValidatedPriorityKept`).
- The guest `createColumn` gives a new column the current number of columns as
  its order, then sorts stably. It does not use the largest order + 1.
- A server column created with an explicit `order` is not checked for
  uniqueness (`ColumnActions.ExplicitOrderMayCollide`).

Behaviours of the code that the proofs make explicit:

- A guest `moveTask` whose target column does not exist removes the card
  without re-inserting it anywhere (`GuestBoard.TaskMovedToMissingColumnDrops`).
- If the card is found in several columns, the copy from the last of them is
  the one moved (`GuestBoard.LastFoundIsLastMatch`).

## Model

| member | source | states |
|---|---|---|
| JsString.TrimMeaning | lib/actions/tasks.ts:74-75 | `trim` removes ECMAScript whitespace at both ends and nothing else. The result is empty exactly when the input is all whitespace. |
| JsString.TrimIdempotent | lib/guest-board-store.tsx:123 | Trimming twice is the same as trimming once. |
| JsString.Utf16Length | lib/actions/tasks.ts:10 | `length` counts UTF-16 code units: between one and two per character, and zero only for the empty string. |
| Cards.CoercePriority | lib/boards.ts:43-48 | `low`, `high` and `critical` are kept. Anything else, including `medium`, an unknown word or no value, becomes medium. |
| Cards.CoercePriorityRoundTrip | lib/boards.ts:43-48 | Coercing a priority's name gives back the same priority. |
| Cards.TaskIdBagConcat | lib/boards.ts:115-121 | For a board's columns, the multiset of card ids of two column lists joined is the sum of their multisets. |
| OrderIndex.NextOrder | lib/actions/tasks.ts:53-57 | `(max ?? -1) + 1` is 0 for an empty scope. Otherwise it is one more than an existing order, and above every one of them. |
| OrderIndex.NextOrderIsLeast | lib/actions/columns.ts:47-51 | No integer above every existing order is smaller than the next order. |
| OrderIndex.NextOrderAfterAppend | lib/actions/tasks.ts:53-57 | Once the next order is taken, the next order after it is one more. |
| OrderIndex.AppendsAreConsecutive | lib/actions/tasks.ts:53-57 | Successive appends into one scope get consecutive orders. |
| SortedKeys.Sorted | lib/boards.ts:57-63 | Sorting by key lists every id exactly once, by non-decreasing key. Equal keys are ordered by id. |
| SortedKeys.SortedAscending | lib/actions/columns.ts:123 | The keys of the listed ids never decrease. |
| Actions.TitleIssue | lib/actions/tasks.ts:10 | A title passes exactly when its raw length is between 1 and the maximum. An empty title reports the minimum; a long one reports the maximum. |
| Actions.MaxLengthIssue | lib/actions/tasks.ts:11 | A string passes `max(n)` exactly when its UTF-16 length is at most n. |
| Actions.TrimmedOrNull | lib/actions/tasks.ts:75 | `s.trim() \|\| null` is null exactly for all-whitespace input. Otherwise it is the non-empty trimmed string. |
| Db.ColumnsInOrder | lib/actions/columns.ts:121-124 | Lists a board's columns, every one exactly once, by ascending order. |
| Db.TasksInOrder | lib/boards.ts:92-93 | Lists a column's tasks, every one exactly once, by ascending order. |
| Db.GreatestOrderListedLast | lib/actions/tasks.ts:57 | A task whose order is greater than every other order of its column is listed last in that column. |
| Db.TaskWriteKeepsConsistent | lib/actions/tasks.ts:70-80 | Writing a task row into a column of its own board, under an order no sibling has, keeps the store consistent. |
| Db.Store.constructor | lib/prisma.ts:34 | The store starts with the given tables. |
| TaskActions.SchemaError | lib/actions/tasks.ts:9-13 | The schema passes exactly when the title, description and priority rules all hold. Otherwise it names the first failing field, in key order. |
| TaskActions.PriorityIssue | lib/actions/tasks.ts:12 | A priority passes exactly when it is one of `low`, `medium`, `high`, `critical`. |
| TaskActions.ValidatedPriorityKept | lib/actions/tasks.ts:63-68 | A priority the schema accepted survives the coercion unchanged. |
| TaskActions.CreateTask | lib/actions/tasks.ts:19-86 | The id the database assigns is not in the task table. The result and the new tables are those of `CreateTaskStep`. On success the id is returned, it is the one key added, and every other task is kept. |
| TaskActions.CreateTaskRejectsInvalid | lib/actions/tasks.ts:31-41 | Input that fails validation is refused with its first failing field, and nothing is written. |
| TaskActions.CreateTaskNeedsColumnOnBoard | lib/actions/tasks.ts:44-50 | Valid input for a column not on the board gives "Column not found", and nothing is written. |
| TaskActions.NewTaskRowFields | lib/actions/tasks.ts:53-79 | The new row has the trimmed title and the trimmed description (or null). It has the validated priority and the session user (or null) as assignee. Its order is above every order in the column, and 0 in an empty column. |
| TaskActions.CreateTaskStepInserts | lib/actions/tasks.ts:70-80 | On success the step is one insertion of the new row under the fresh id. |
| TaskActions.CreateTaskInserts | lib/actions/tasks.ts:70-85 | Exactly one task is added. Every existing row and the other tables are kept. The result carries the new id. |
| TaskActions.CreateTaskListedLast | lib/actions/tasks.ts:53-57 | The created task is listed last in its column. |
| TaskActions.CreateTaskKeepsConsistent | lib/actions/tasks.ts:43-80 | A created task sits on its column's board, under an order no sibling has. |
| TaskActions.MoveTask | lib/actions/tasks.ts:92-131 | The result and the new tables are those of `MoveTaskStep`. |
| TaskActions.MoveTaskRefusals | lib/actions/tasks.ts:96-110 | "Task not found" and "Target column not found" write nothing. A move succeeds exactly when the task exists and the target is on its board. |
| TaskActions.MoveTaskToOwnColumn | lib/actions/tasks.ts:112-114 | A move to the task's own column succeeds and changes nothing. |
| TaskActions.MoveTaskReparents | lib/actions/tasks.ts:116-125 | A move to another column of the board sets the column, an order above every task of the target (0 when it is empty), and `updatedAt` to the time of the write. Every other row stays. |
| TaskActions.MoveTaskStepRewrites | lib/actions/tasks.ts:122-125 | That move is one overwrite of the task's row. |
| TaskActions.MoveTaskListedLast | lib/actions/tasks.ts:116-125 | The moved task is listed last in the target column. |
| TaskActions.MoveTaskKeepsConsistent | lib/actions/tasks.ts:96-125 | A move keeps the store consistent. |
| TaskActions.UpdateTask | lib/actions/tasks.ts:144-199 | The result and the new tables are those of `UpdateTaskStep`. |
| TaskActions.UpdateTaskRefusals | lib/actions/tasks.ts:156-174 | Validation comes first, then "Task not found". Neither writes. An update succeeds exactly when both pass. |
| TaskActions.EditedTaskRowFields | lib/actions/tasks.ts:176-193 | The title is trimmed and the description is trimmed or null. The priority is the validated one. The assignee is trimmed, or null if blank. `updatedAt` is the time of the write. The column, order, board and creation time are kept. |
| TaskActions.UpdateTaskOverwritesOne | lib/actions/tasks.ts:185-193 | A successful update overwrites that one task. Every other row stays. |
| TaskActions.UpdateTaskKeepsConsistent | lib/actions/tasks.ts:185-193 | An update keeps the store consistent. |
| TaskActions.DeleteTask | lib/actions/tasks.ts:205-217 | The result and the new tables are those of `DeleteTaskStep`. |
| TaskActions.DeleteTaskRemovesOne | lib/actions/tasks.ts:205-217 | A missing id gives "Task not found". Otherwise exactly that task is removed and the rest is kept. |
| TaskActions.DeleteTaskKeepsConsistent | lib/actions/tasks.ts:213 | A deletion keeps the store consistent. |
| ColumnActions.OrderIssue | lib/actions/columns.ts:10 | An order passes when it is absent, or a non-negative integer. |
| ColumnActions.ColorIssue | lib/actions/columns.ts:11 | A colour passes when it is absent, empty, or `#` followed by six hex digits. |
| ColumnActions.CreateSchemaError | lib/actions/columns.ts:8-12 | The create schema passes exactly when title, order and colour pass. Otherwise it names the first failing field. |
| ColumnActions.UpdateSchemaError | lib/actions/columns.ts:70-73 | The update schema passes exactly when title and colour pass. Otherwise it names the first failing field. |
| ColumnActions.StoredColor | lib/actions/columns.ts:54 | An empty or absent colour is stored as null, and any other colour as given. |
| ColumnActions.CreateColumn | lib/actions/columns.ts:18-68 | The id the database assigns is not in the column table. The result and the new tables are those of `CreateColumnStep`. On success the id is returned, it is the one key added, and every other column is kept. |
| ColumnActions.CreateColumnRefusals | lib/actions/columns.ts:29-43 | Validation comes before the board lookup. Both refusals write nothing. Creation succeeds exactly when both pass. |
| ColumnActions.NewColumnRowFields | lib/actions/columns.ts:45-62 | The new row has the trimmed title and the stored colour. A supplied order is used verbatim. Otherwise the order is above every order on the board, and 0 on an empty board. |
| ColumnActions.CreateColumnStepInserts | lib/actions/columns.ts:56-63 | On success the step is one insertion of the new row under the fresh id. |
| ColumnActions.CreateColumnInserts | lib/actions/columns.ts:56-67 | Exactly one column is added and the existing rows are kept. |
| ColumnActions.ColumnWriteKeepsConsistent | lib/actions/columns.ts:56-63 | Adding a column to an existing board under a fresh id keeps the store consistent. |
| ColumnActions.CreateColumnKeepsConsistent | lib/actions/columns.ts:37-63 | A column creation keeps the store consistent. |
| ColumnActions.CreateColumnWithoutOrderKeepsOrdersDistinct | lib/actions/columns.ts:45-52 | Without a supplied order, no two columns of a board end up sharing an order. |
| ColumnActions.ExplicitOrderMayCollide | lib/actions/columns.ts:45 | A supplied order that repeats an existing order on the board leaves two columns with the same order. |
| ColumnActions.UpdateColumn | lib/actions/columns.ts:79-118 | The result and the new tables are those of `UpdateColumnStep`. |
| ColumnActions.UpdateColumnRefusals | lib/actions/columns.ts:89-103 | Validation comes first, then "Column not found". Neither writes. An update succeeds exactly when both pass. |
| ColumnActions.UpdateColumnWritesTitleAndColor | lib/actions/columns.ts:105-113 | Only the trimmed title and the stored colour of that column change. Its board and order, and every other row, stay. |
| ColumnActions.UpdateColumnKeepsInvariants | lib/actions/columns.ts:107-113 | An update keeps the store consistent, and keeps column orders distinct. |
| ColumnActions.BlankTitleStoredEmpty | lib/actions/columns.ts:71 | A whitespace-only title passes the schema and is stored empty. |
| ColumnActions.EmptyTitleReportedFirst | lib/actions/columns.ts:89-95 | An empty title together with a bad colour reports the title, with its custom message. |
| ColumnActions.GetColumns | lib/actions/columns.ts:120-126 | Lists exactly the board's columns, each once and as stored, by ascending order. |
| ColumnActions.SummariesAreColumns | lib/actions/columns.ts:121-125 | Every summary listed is a column of the board, with its stored id, title, order and colour. |
| ColumnActions.SummariesComplete | lib/actions/columns.ts:121-125 | Every column of the board is summarised. |
| ColumnActions.SummariesAscending | lib/actions/columns.ts:123 | Summaries appear once each, by ascending order. |
| Boards.MapDbTaskToCardTask | lib/boards.ts:25-55 | The priority is coerced. Null description and null assignee id become absent. The author is the assignee's name, or "". The assignee is that name, unless it is empty. The timestamps are ISO strings. |
| Boards.StoredPriorityReadsBack | lib/boards.ts:43-48 | A priority the actions stored reads back as itself. |
| Boards.ListedAreBoards | lib/boards.ts:57-74 | Every listed item is a selected board, as stored. |
| Boards.ListedCompletely | lib/boards.ts:57-74 | Every selected board is listed. |
| Boards.ListedByCreation | lib/boards.ts:57-74 | Items are listed once each, by ascending creation time. |
| Boards.GetBoards | lib/boards.ts:57-63 | Lists every board exactly once, by ascending creation time. |
| Boards.GetBoardsForUser | lib/boards.ts:65-74 | Lists exactly the boards the user owns, each once, by ascending creation time. |
| Boards.GetBoardWithColumnsAndTasks | lib/boards.ts:76-114 | No value for an unknown board. Otherwise the board's id, title and description. |
| Boards.SnapshotColumnsAsStored | lib/boards.ts:85-91 | The snapshot's columns are columns of the board, with their stored title, order and colour. |
| Boards.SnapshotColumnIds | lib/boards.ts:85-86 | The snapshot lists exactly the board's columns, ascending by `order`, by id. |
| Boards.SnapshotColumnsComplete | lib/boards.ts:85-86 | Every column of the board appears in the snapshot. |
| Boards.SnapshotColumnsAscending | lib/boards.ts:86 | The snapshot's columns appear once each, by ascending order. |
| Boards.ColumnCardsAsStored | lib/boards.ts:92-120 | A column's cards are the mapped tasks of that column. |
| Boards.ColumnCardIds | lib/boards.ts:92 | A column's cards are exactly its tasks, ascending by `order`, by id. |
| Boards.ColumnCardsComplete | lib/boards.ts:92 | Every task of the column has a card. |
| Boards.ColumnCardsAscending | lib/boards.ts:93 | A column's cards appear once each, by ascending order. |
| Boards.SnapshotColumnAt | lib/boards.ts:115-121 | Each snapshot column is its column's mapped snapshot. |
| Boards.TaskColumnInSnapshot | lib/boards.ts:85-93 | When every task sits in a column of its own board, each of the board's tasks finds its column in the snapshot. |
| Boards.TaskCardInSnapshotColumn | lib/boards.ts:92-121 | A task shows up among the cards of its column's snapshot. |
| Boards.SnapshotShowsTask | lib/boards.ts:111-122 | When every task sits in a column of its own board, each of the board's tasks has a card in the snapshot. |
| Boards.SnapshotPositionUnique | lib/boards.ts:111-122 | No card id appears at two positions of the snapshot. |
| ColumnSort.Insert | lib/guest-board-store.tsx:155 | Inserting adds exactly that column, and keeps a sorted list sorted. |
| ColumnSort.SortByOrder | lib/guest-board-store.tsx:155 | The sort is ordered by `order`, and is a permutation of its input. |
| ColumnSort.SortIsStable | lib/guest-board-store.tsx:155 | Columns with equal orders keep their relative positions. |
| ColumnSort.SortOfSorted | lib/guest-board-store.tsx:155 | A list already in order is left as it is. |
| GuestBoard.ParseStoredBoard | lib/guest-board-store.tsx:44-60 | Null in three cases: absent or blank text, text that does not parse, or a value that is not an object with a string `id` and an array `columns`. Otherwise the parsed value, unchanged. |
| GuestBoard.StoredBoardReadsBack | lib/guest-board-store.tsx:62-65 | A board written by `persist` that parses back is accepted unchanged. |
| GuestBoard.TitleUpdated | lib/guest-board-store.tsx:121-126 | Only the title changes. It becomes the trimmed input, and a blank input keeps the previous title. |
| GuestBoard.TitleUpdatedIdempotent | lib/guest-board-store.tsx:123 | Renaming twice with the same text is the same as renaming once. |
| GuestBoard.ColumnCreatedAddsOne | lib/guest-board-store.tsx:141-157 | Exactly one column is added, and the list comes out sorted. Its order is the previous number of columns. Its title is trimmed, or "Colonne". Its colour is the one given, or null, and it has no tasks. |
| GuestBoard.ColumnCreatedIsStable | lib/guest-board-store.tsx:155 | Columns with equal orders keep their relative positions. |
| GuestBoard.ColumnCreatedGoesLast | lib/guest-board-store.tsx:145-155 | When the list is sorted and no order exceeds its length, the new column goes last. |
| GuestBoard.EditColumn | lib/guest-board-store.tsx:169-177 | Columns with the id get the given title (trimmed) and/or colour. Every id, order and task list is kept. |
| GuestBoard.ColumnUpdatedKeepsTasks | lib/guest-board-store.tsx:162-181 | A column edit changes no column id and no card. |
| GuestBoard.AppendTo | lib/guest-board-store.tsx:207-213 | Each column with the id gets the card at the end of its list. Every other column is unchanged. |
| GuestBoard.AppendToGoesLast | lib/guest-board-store.tsx:211 | The appended card ends the list of every column with the id. |
| GuestBoard.AppendToMissingColumn | lib/guest-board-store.tsx:207-213 | When no column has the id, appending changes nothing. |
| GuestBoard.AppendToBag | lib/guest-board-store.tsx:207-213 | The card gains one copy per column with the id. Every other card count stays. |
| GuestBoard.CreatedGuestTaskFields | lib/guest-board-store.tsx:192-204 | The title is trimmed, or "Tâche". The description is trimmed, or absent. `low`, `high` and `critical` are kept and anything else becomes medium. The author is "Invité", there is no assignee, and both timestamps are now. |
| GuestBoard.TaskAppendedAddsOne | lib/guest-board-store.tsx:183-217 | Exactly one card goes to the end of the matching column, and nothing else changes. When no column matches, the board is unchanged. |
| GuestBoard.EditTasks | lib/guest-board-store.tsx:229-248 | Only the cards with the id are edited. |
| GuestBoard.EditTasksInColumns | lib/guest-board-store.tsx:227-249 | Each column keeps its fields. Only its cards are edited. |
| GuestBoard.TaskUpdatedInPlace | lib/guest-board-store.tsx:219-253 | Only cards with the id change. They get the given fields: the title trimmed, the description trimmed or dropped, and the priority coerced. They also get `updatedAt` set to now. Every card keeps its column and position. |
| GuestBoard.Without | lib/guest-board-store.tsx:260 | The filter keeps exactly the cards with another id, and changes nothing when no card has the id. |
| GuestBoard.WithoutBag | lib/guest-board-store.tsx:260 | No card with the id is left. Every other card count stays. |
| GuestBoard.DeleteFromColumns | lib/guest-board-store.tsx:258-261 | Each column keeps its fields, and its cards are filtered. |
| GuestBoard.DeleteFromColumnsBag | lib/guest-board-store.tsx:258-261 | Across the board, no card with the id is left. Every other card count stays. |
| GuestBoard.TaskDeletedRemovesAll | lib/guest-board-store.tsx:255-263 | Every card with the id is removed from every column. The columns and all other cards are unchanged. |
| GuestBoard.FindTask | lib/guest-board-store.tsx:271 | `find` finds a card exactly when the list holds the id. The card found holds the id. |
| GuestBoard.LastFoundNone | lib/guest-board-store.tsx:269-278 | `moved` stays null exactly when no column holds the card. Once set, it holds the card's id. |
| GuestBoard.LastFoundIsLastMatch | lib/guest-board-store.tsx:270-277 | `moved` is the first match in the last column that holds the card. |
| GuestBoard.StripColumns | lib/guest-board-store.tsx:270-277 | The first pass maps each column separately. |
| GuestBoard.MoveTaskUpdater | lib/guest-board-store.tsx:268-289 | The loop with its `moved` variable computes `TaskMoved`. |
| GuestBoard.StripColumnsSnoc | lib/guest-board-store.tsx:270-277 | The first pass over one more column adds that column's result. |
| GuestBoard.StripColumnsIsDelete | lib/guest-board-store.tsx:272-276 | Stripping the columns is the same as filtering them. |
| GuestBoard.TaskMovedIsDeleteThenAppend | lib/guest-board-store.tsx:265-289 | A move is a delete followed by an append of the stamped card. |
| GuestBoard.MoveOfAbsentTaskKeepsBoard | lib/guest-board-store.tsx:278 | When no column holds the card, the board is returned unchanged. |
| GuestBoard.TaskMovedBag | lib/guest-board-store.tsx:270-288 | After a move, the card appears once per target column. Every other card count stays. |
| GuestBoard.DeleteThenAppendBag | lib/guest-board-store.tsx:270-288 | Deleting and then appending the card leaves one copy per target column. |
| GuestBoard.TaskMovedKeepsCards | lib/guest-board-store.tsx:265-289 | A card held once, moved to a target that exists once, keeps every card count. In particular the total task count is unchanged. |
| GuestBoard.TaskMovedToMissingColumnDrops | lib/guest-board-store.tsx:279-288 | A move to a missing column drops the card and keeps every other card. |
| GuestBoard.BagCountsCards | lib/guest-board-store.tsx:271 | A card id is counted exactly when some column holds it. |
| GuestBoard.TaskMovedKeepsColumns | lib/guest-board-store.tsx:279-288 | A move keeps every column's id, title, order and colour. |
| GuestBoard.TaskMovedGoesLast | lib/guest-board-store.tsx:281-287 | The moved card, stamped now, ends every target column, so a move to the card's own column sends it to the end. |
| GuestBoard.GuestBoardStore.constructor | lib/guest-board-store.tsx:97-99 | The provider starts with the default board. |
| GuestBoard.GuestBoardStore.Hydrate | lib/guest-board-store.tsx:102-107 | A stored board that parses replaces the default. Nothing is persisted. |
| GuestBoard.GuestBoardStore.SetBoard | lib/guest-board-store.tsx:109-119 | The next board becomes the state, and it is what is persisted. |
| GuestBoard.GuestBoardStore.UpdateBoardTitle | lib/guest-board-store.tsx:121-126 | The board is `TitleUpdated` of the previous board, and is persisted. |
| GuestBoard.GuestBoardStore.UpdateBoardLocked | lib/guest-board-store.tsx:128-133 | Only `locked` changes, and the board is persisted. |
| GuestBoard.GuestBoardStore.ResetBoard | lib/guest-board-store.tsx:135-139 | The board in memory and in storage is the default: the empty, unlocked `guest-local` board. |
| GuestBoard.GuestBoardStore.CreateColumn | lib/guest-board-store.tsx:141-160 | The board is `ColumnCreated` of the previous board, and is persisted. |
| GuestBoard.GuestBoardStore.UpdateColumn | lib/guest-board-store.tsx:162-181 | The board is `ColumnUpdated` of the previous board, and is persisted. |
| GuestBoard.GuestBoardStore.CreateTask | lib/guest-board-store.tsx:183-217 | The board is `TaskAppended` of the previous board with the created card, and is persisted. |
| GuestBoard.GuestBoardStore.UpdateTask | lib/guest-board-store.tsx:219-253 | The board is `TaskUpdated` of the previous board, and is persisted. |
| GuestBoard.GuestBoardStore.DeleteTask | lib/guest-board-store.tsx:255-263 | The board is `TaskDeleted` of the previous board, and is persisted. |
| GuestBoard.GuestBoardStore.MoveTask | lib/guest-board-store.tsx:265-292 | The board is `TaskMoved` of the previous board, and is persisted. |
| PrismaUrl.MatchAt | lib/prisma.ts:20 | A match is `sslmode=` followed by `require`, `prefer` or `verify-ca`, then `&` or the end of the string. |
| PrismaUrl.DatabaseUrl | lib/prisma.ts:13-22 | A missing or empty `DATABASE_URL` throws "DATABASE_URL is not set". Otherwise the result is the rewritten string, with no weak mode left. |
| PrismaUrl.MatchExamples | lib/prisma.ts:20 | The three weak modes are matched before `&` or at the end of the string. |
| PrismaUrl.NonMatchExamples | lib/prisma.ts:20 | `requirex`, `disable` and `verify-full` are not matched. |
| PrismaUrl.MatchAtAnchored | lib/prisma.ts:20 | Every match starts with `ss` and ends where the string ends or an `&` follows. |
| PrismaUrl.MatchShape | lib/prisma.ts:20 | A match is `sslmode=` and one of the three weak modes, then the end of the string or an `&`. |
| PrismaUrl.ShapeMatches | lib/prisma.ts:20 | Conversely, every string of that shape is matched, with that length. |
| PrismaUrl.ScanCopies | lib/prisma.ts:19-22 | Where no match starts, one character is copied and the scan moves on by one. |
| PrismaUrl.ScanReplaces | lib/prisma.ts:19-22 | At a match, `sslmode=verify-full` is written, the `&` is kept, and the scan resumes after it. |
| PrismaUrl.ScanUnmatched | lib/prisma.ts:19-22 | A string in which no match starts is left as it is. |
| PrismaUrl.CleanUnchanged | lib/prisma.ts:19-22 | A string with no weak mode is left as it is by the rewrite. |
| PrismaUrl.ScanSkips | lib/prisma.ts:19-22 | Characters before the first match are copied unchanged. |
| PrismaUrl.ScanAtMatch | lib/prisma.ts:19-22 | The first match becomes `sslmode=verify-full`, its `&` is kept, and the scan goes on after it. |
| PrismaUrl.ScanKeepsPrefix | lib/prisma.ts:19-22 | A scan result that starts with text containing no `ss` came from a string that starts with the same text. |
| PrismaUrl.MatchTail | lib/prisma.ts:20 | After its leading `s`, a match contains no `ss`. |
| PrismaUrl.MatchOfSamePrefix | lib/prisma.ts:20 | Whether a match is present depends only on the match and its terminator. |
| PrismaUrl.FrontMatchFromSource | lib/prisma.ts:19-22 | The scan creates no new match at a copied character. |
| PrismaUrl.StrictStartsNoMatch | lib/prisma.ts:21 | The replacement text `sslmode=verify-full` starts no match, at its head or inside it. |
| PrismaUrl.ScanIsUnmatched | lib/prisma.ts:19-22 | For a matcher with the four properties, no match survives the scan. |
| PrismaUrl.RewriteIsClean | lib/prisma.ts:19-22 | No weak `sslmode` survives the rewrite. |
| PrismaUrl.RewriteIdempotent | lib/prisma.ts:19-22 | Rewriting twice is the same as rewriting once. |

## Left out

- I/O and framework calls are left out: Prisma query execution, `revalidatePath`,
  `localStorage` reads and writes, and `auth()`. The session user, fresh ids,
  the clock, `Number(…)`, `toISOString`, `JSON.parse` and the unchecked cast
  are parameters instead.
- Each action is one atomic step, so concurrency is not modelled. Two
  concurrent creates or moves can compute the same `max + 1`. Several browser
  tabs writing the same local-storage key can clobber each other.
- The database's order for rows with equal `order` (or equal `createdAt`) is
  not modelled. The readers break such ties by id, so that they are
  functions. A property that holds for every tie-break is stated only for
  this one.
- The database schema is not part of this model. Its foreign keys are not
  modelled. A task's `updatedAt` is taken to be refreshed on every update of
  the row (Prisma's `@updatedAt`), so the server `updateTask` and `moveTask`
  take the time of the write as a parameter and stamp it.
- ColumnActions.CreateColumn: orders are unbounded integers. The schema's
  `.int()` accepts any integral number, such as `3000000000` or `1e20`, and the
  program's write of such an order to the database's integer column throws.
  No `try` catches it, so the action fails where the model returns `Success`
  and stores the value. The same holds for a computed largest order + 1 at the
  top of the column's range in `createColumn`, `createTask` and `moveTask`.
- GuestBoard.ParseStoredBoard: JSON numbers are modelled as integers
  (`JNumber`). A stored guest board whose orders are fractional, which the
  unchecked cast lets through, cannot be represented.
- A `File` value from `formData.get` is not modelled. Form fields are strings
  or absent.
- zod's default messages are not modelled: only the custom title message is
  literal. The zod version decides the default texts.
- Board locking is not enforced by any store operation shown here, only by the
  UI. The model adds no lock precondition.
- The guest `hydrated` flag is left out, because both render branches are the
  same.
- The module-level Prisma client cache and the construction of the pool,
  adapter and client are left out.
- The database client is not modelled: no connection is opened.
- GuestBoard.GuestBoardStore.MoveTask: the store method computes the next board
  from the current one and then sets it, rather than handing an updater to
  React. With one update at a time this is the same.
- GuestBoard.TaskMovedGoesLast: it is stated for the case where `LastFound` finds
  the card. `LastFoundNone` ties that case to "some column holds the card".
- GuestBoard.StoredBoardReadsBack: `JSON.stringify` is not modelled. The
  lemma takes as given that the text parses back to the written value.
- React rendering, pages, dialogs, drag and drop, toasts, i18n, the auth actions,
  the board wrapper actions and the HTTP routes are outside the core.
