/**
 * The server column actions `createColumn` and `updateColumn`, methods over
 * the store each specified by a `…Step` function, and the read `getColumns`.
 * `Number(…)`, the id the store gives a new row and the board lookup's
 * store are parameters or the store itself.
 */
module ColumnActions {
  import opened Wrappers
  import opened Actions
  import opened Db
  import JsString
  import OrderIndex

  /** What `formData.get` returns for each field (None for `null`). */
  datatype ColumnForm = ColumnForm(title: Option<string>, order: Option<string>, color: Option<string>)

  /** What `Number(text)` gives, as far as the order schema looks at it. */
  datatype NumberValue = IntegerValue(value: int) | NonInteger | NaN

  /**
   * The object given to the create schema: the title after `?? ""`, the order
   * converted only when the field is present and non-empty, and the colour.
   */
  datatype ColumnInput = ColumnInput(title: string, order: Option<NumberValue>, color: Option<string>)

  function RawColumnInput(form: ColumnForm, toNumber: string -> NumberValue): ColumnInput {
    var order := if form.order.Some? && form.order.value != "" then Some(toNumber(form.order.value)) else None;
    ColumnInput(form.title.GetOr(""), order, form.color)
  }

  const ColumnTitleMax: nat := 100

  /**
   * `z.number().int().min(0).optional()`: NaN is not a number at all; a
   * fraction fails `.int()` first, whatever its sign; an integer below zero
   * fails `.min(0)`.
   */
  function OrderIssue(order: Option<NumberValue>): (r: Option<Issue>)
    ensures r.None? <==> order.None? || (order.value.IntegerValue? && order.value.value >= 0)
  {
    match order
    case None => None
    case Some(NaN) => Some(NotANumber)
    case Some(NonInteger) => Some(NotAnInteger)
    case Some(IntegerValue(n)) => if n < 0 then Some(BelowMinimum(0)) else None
  }

  predicate IsHexDigit(c: char) {
    ('0' <= c <= '9') || ('a' <= c <= 'f') || ('A' <= c <= 'F')
  }

  /** `/^#[0-9A-Fa-f]{6}$/`. */
  predicate IsHexColor(s: string) {
    |s| == 7 && s[0] == '#' && forall i :: 1 <= i < 7 ==> IsHexDigit(s[i])
  }

  /** `z.union([z.string().regex(hex), z.literal("")]).optional()`. */
  function ColorIssue(color: Option<string>): (r: Option<Issue>)
    ensures r.None? <==> color.None? || color.value == "" || IsHexColor(color.value)
  {
    if color.None? || color.value == "" || IsHexColor(color.value) then None else Some(NotAColor)
  }

  /** `createColumnSchema`: the first failing field in the order title, order, colour. */
  function CreateSchemaError(input: ColumnInput): (r: Option<FieldError>)
    ensures r.None? <==> TitleIssue(input.title, ColumnTitleMax).None? && OrderIssue(input.order).None?
                         && ColorIssue(input.color).None?
    ensures r.Some? ==> (r.value.field == Title <==> TitleIssue(input.title, ColumnTitleMax).Some?)
    ensures r.Some? ==> (r.value.field == Order <==>
                          TitleIssue(input.title, ColumnTitleMax).None? && OrderIssue(input.order).Some?)
    ensures r.Some? ==> (r.value.field == Color <==>
                          TitleIssue(input.title, ColumnTitleMax).None? && OrderIssue(input.order).None?)
  {
    var title := TitleIssue(input.title, ColumnTitleMax);
    var order := OrderIssue(input.order);
    var color := ColorIssue(input.color);
    if title.Some? then Some(FieldError(Title, title.value))
    else if order.Some? then Some(FieldError(Order, order.value))
    else if color.Some? then Some(FieldError(Color, color.value))
    else None
  }

  /** `updateColumnSchema`: title, then colour; the form's `order` is not read. */
  function UpdateSchemaError(input: ColumnInput): (r: Option<FieldError>)
    ensures r.None? <==> TitleIssue(input.title, ColumnTitleMax).None? && ColorIssue(input.color).None?
    ensures r.Some? ==> (r.value.field == Title <==> TitleIssue(input.title, ColumnTitleMax).Some?)
    ensures r.Some? ==> (r.value.field == Color <==> TitleIssue(input.title, ColumnTitleMax).None?)
  {
    var title := TitleIssue(input.title, ColumnTitleMax);
    var color := ColorIssue(input.color);
    if title.Some? then Some(FieldError(Title, title.value))
    else if color.Some? then Some(FieldError(Color, color.value))
    else None
  }

  /** `color && color !== "" ? color : null`. */
  function StoredColor(color: Option<string>): (r: Option<string>)
    ensures r.None? <==> color.None? || color.value == ""
    ensures r.Some? ==> r == color
  {
    if color.Some? && color.value != "" then color else None
  }

  // -------------------------------------------------------------- createColumn

  /** The order a new column gets: the one supplied, else one past the board's largest. */
  function NewColumnOrder(t: Tables, boardId: Id, order: Option<NumberValue>): int {
    if order.Some? && order.value.IntegerValue? then order.value.value
    else OrderIndex.NextOrder(ColumnOrders(t.columns, boardId))
  }

  function NewColumnRow(t: Tables, boardId: Id, input: ColumnInput): ColumnRow {
    ColumnRow(boardId, JsString.Trim(input.title), NewColumnOrder(t, boardId, input.order), StoredColor(input.color))
  }

  function CreateColumnStep(t: Tables, boardId: Id, form: ColumnForm, toNumber: string -> NumberValue,
                            freshId: Id): Step<Id, Tables>
  {
    var input := RawColumnInput(form, toNumber);
    var invalid := CreateSchemaError(input);
    if invalid.Some? then Step(Reject(invalid.value), t)
    else if boardId !in t.boards then Step(Error(Text("Board not found"), None), t)
    else Step(Success(freshId), t.(columns := t.columns[freshId := NewColumnRow(t, boardId, input)]))
  }

  method CreateColumn(db: Store, boardId: Id, form: ColumnForm, toNumber: string -> NumberValue,
                      freshId: Id) returns (r: ActionResult<Id>)
    requires freshId !in db.columns
    modifies db
    ensures Step(r, db.Contents()) == CreateColumnStep(old(db.Contents()), boardId, form, toNumber, freshId)
    ensures r.Success? ==>
              && r.value == freshId
              && db.columns.Keys == old(db.columns.Keys) + {freshId}
              && (forall k :: k in old(db.columns) ==> db.columns[k] == old(db.columns[k]))
  {
    ghost var t := db.Contents();
    CreateColumnRefusals(t, boardId, form, toNumber, freshId);
    var input := RawColumnInput(form, toNumber);
    var parsed := CreateSchemaError(input);
    if parsed.Some? {
      return Reject(parsed.value);
    }
    if boardId !in db.boards {
      return Error(Text("Board not found"), None);
    }
    CreateColumnStepInserts(t, boardId, form, toNumber, freshId);
    assert db.Contents() == t;
    var order := input.order;
    if order.None? {
      order := Some(IntegerValue(OrderIndex.NextOrder(ColumnOrders(db.columns, boardId))));
    }
    assert order.value.value == NewColumnOrder(t, boardId, input.order) by {
      assert OrderIssue(input.order).None?;
    }
    var color := StoredColor(input.color);
    var row := ColumnRow(boardId, JsString.Trim(input.title), order.value.value, color);
    db.columns := db.columns[freshId := row];
    MapInsertFresh(t.columns, freshId, row, db.columns);
    r := Success(freshId);
    assert db.Contents() == t.(columns := t.columns[freshId := row]);
  }

  /** Validation comes before the board lookup; both refusals write nothing. */
  lemma CreateColumnRefusals(t: Tables, boardId: Id, form: ColumnForm, toNumber: string -> NumberValue, freshId: Id)
    ensures var input := RawColumnInput(form, toNumber);
      CreateSchemaError(input).Some? ==>
        CreateColumnStep(t, boardId, form, toNumber, freshId) == Step(Reject(CreateSchemaError(input).value), t)
    ensures var input := RawColumnInput(form, toNumber);
      CreateSchemaError(input).None? && boardId !in t.boards ==>
        CreateColumnStep(t, boardId, form, toNumber, freshId) == Step(Error(Text("Board not found"), None), t)
    ensures CreateColumnStep(t, boardId, form, toNumber, freshId).result.Success? <==>
      CreateSchemaError(RawColumnInput(form, toNumber)).None? && boardId in t.boards
  {
  }

  /**
   * The new row: on the board, with the trimmed title; the supplied order
   * verbatim, or else one greater than every order on the board (0 on an
   * empty board); the colour, or null for an empty or absent one.
   */
  lemma {:induction false} NewColumnRowFields(t: Tables, boardId: Id, input: ColumnInput)
    requires OrderIssue(input.order).None?
    ensures var row := NewColumnRow(t, boardId, input);
      && row.boardId == boardId
      && row.title == JsString.Trim(input.title)
      && (input.order.Some? ==> row.order == input.order.value.value && row.order >= 0)
      && (input.order.None? ==>
            (forall c :: c in t.columns && t.columns[c].boardId == boardId ==> t.columns[c].order < row.order)
            && (ColumnOrders(t.columns, boardId) == {} ==> row.order == 0))
      && row.color == StoredColor(input.color)
  {
    var row := NewColumnRow(t, boardId, input);
    if input.order.None? {
      forall c | c in t.columns && t.columns[c].boardId == boardId
        ensures t.columns[c].order < row.order
      {
        assert t.columns[c].order in ColumnOrders(t.columns, boardId);
      }
    }
  }

  /** On success the step is one insertion of `NewColumnRow` under the fresh id. */
  lemma CreateColumnStepInserts(t: Tables, boardId: Id, form: ColumnForm, toNumber: string -> NumberValue, freshId: Id)
    requires CreateSchemaError(RawColumnInput(form, toNumber)).None? && boardId in t.boards
    ensures CreateColumnStep(t, boardId, form, toNumber, freshId)
            == Step(Success(freshId), t.(columns := t.columns[freshId := NewColumnRow(t, boardId, RawColumnInput(form, toNumber))]))
  {
  }

  /** ... so exactly one column is added and the rows already there are kept. */
  lemma {:induction false} CreateColumnInserts(t: Tables, boardId: Id, form: ColumnForm,
                                               toNumber: string -> NumberValue, freshId: Id)
    requires freshId !in t.columns
    requires CreateSchemaError(RawColumnInput(form, toNumber)).None? && boardId in t.boards
    ensures var s := CreateColumnStep(t, boardId, form, toNumber, freshId);
      && s.result == Success(freshId)
      && s.state == t.(columns := s.state.columns)
      && (forall c :: c in s.state.columns <==> c in t.columns || c == freshId)
      && (forall c :: c in t.columns ==> s.state.columns[c] == t.columns[c])
      && s.state.columns[freshId] == NewColumnRow(t, boardId, RawColumnInput(form, toNumber))
  {
    CreateColumnStepInserts(t, boardId, form, toNumber, freshId);
    ColumnWritten(t, freshId, NewColumnRow(t, boardId, RawColumnInput(form, toNumber)), Success(freshId),
                  CreateColumnStep(t, boardId, form, toNumber, freshId));
  }

  /** What a step that writes one column row does, row by row. */
  lemma ColumnWritten<R>(t: Tables, id: Id, row: ColumnRow, r: ActionResult<R>, s: Step<R, Tables>)
    requires s == Step(r, t.(columns := t.columns[id := row]))
    ensures s.result == r && s.state == t.(columns := s.state.columns)
    ensures forall c :: c in s.state.columns <==> c in t.columns || c == id
    ensures forall c :: c in t.columns && c != id ==> s.state.columns[c] == t.columns[c]
    ensures s.state.columns[id] == row
  {
    MapWrite(t.columns, id, row, s.state.columns);
  }

  /** Adding a column under a fresh id to an existing board keeps the store consistent. */
  lemma {:induction false} ColumnWriteKeepsConsistent(t: Tables, id: Id, row: ColumnRow)
    requires Consistent(t) && id !in t.columns && row.boardId in t.boards
    ensures Consistent(t.(columns := t.columns[id := row]))
  {
    var cs := t.columns[id := row];
    MapWrite(t.columns, id, row, cs);
    forall k | k in t.tasks
      ensures ColumnOnBoard(cs, t.tasks[k].columnId, t.tasks[k].boardId)
    {
      assert ColumnOnBoard(t.columns, t.tasks[k].columnId, t.tasks[k].boardId);
    }
  }

  lemma {:induction false} CreateColumnKeepsConsistent(t: Tables, boardId: Id, form: ColumnForm,
                                                       toNumber: string -> NumberValue, freshId: Id)
    requires Consistent(t) && freshId !in t.columns
    ensures Consistent(CreateColumnStep(t, boardId, form, toNumber, freshId).state)
  {
    CreateColumnRefusals(t, boardId, form, toNumber, freshId);
    if CreateSchemaError(RawColumnInput(form, toNumber)).None? && boardId in t.boards {
      CreateColumnStepInserts(t, boardId, form, toNumber, freshId);
      ColumnWriteKeepsConsistent(t, freshId, NewColumnRow(t, boardId, RawColumnInput(form, toNumber)));
    }
  }

  /** Without a supplied order, a new column never shares its order with a column of its board. */
  lemma {:induction false} CreateColumnWithoutOrderKeepsOrdersDistinct(t: Tables, boardId: Id, form: ColumnForm,
                                                                       toNumber: string -> NumberValue, freshId: Id)
    requires ColumnOrdersDistinct(t.columns) && freshId !in t.columns
    requires RawColumnInput(form, toNumber).order.None?
    ensures ColumnOrdersDistinct(CreateColumnStep(t, boardId, form, toNumber, freshId).state.columns)
  {
    var input := RawColumnInput(form, toNumber);
    if CreateSchemaError(input).None? && boardId in t.boards {
      var row := NewColumnRow(t, boardId, input);
      NewColumnRowFields(t, boardId, input);
      CreateColumnStepInserts(t, boardId, form, toNumber, freshId);
      GreatestOrderKeepsDistinct(t.columns, freshId, row);
    } else {
      CreateColumnRefusals(t, boardId, form, toNumber, freshId);
    }
  }

  /** A fresh column whose order exceeds every order on its board keeps the board's orders distinct. */
  lemma GreatestOrderKeepsDistinct(columns: map<Id, ColumnRow>, id: Id, row: ColumnRow)
    requires ColumnOrdersDistinct(columns) && id !in columns
    requires forall c :: c in columns && columns[c].boardId == row.boardId ==> columns[c].order < row.order
    ensures ColumnOrdersDistinct(columns[id := row])
  {
    var cs := columns[id := row];
    MapWrite(columns, id, row, cs);
    forall a, b | a in cs && b in cs && a != b && cs[a].boardId == cs[b].boardId
      ensures cs[a].order != cs[b].order
    {
      if a != id && b != id {
        assert cs[a] == columns[a] && cs[b] == columns[b];
      }
    }
  }

  /**
   * A supplied order is used verbatim, with no uniqueness check: when it is the
   * order of a column already on the board, the board ends up with two columns
   * of that order.
   */
  lemma {:induction false} ExplicitOrderMayCollide(t: Tables, boardId: Id, form: ColumnForm,
                                                   toNumber: string -> NumberValue, freshId: Id, existing: Id)
    requires freshId !in t.columns && boardId in t.boards
    requires CreateSchemaError(RawColumnInput(form, toNumber)).None?
    requires ColumnOnBoard(t.columns, existing, boardId)
    requires RawColumnInput(form, toNumber).order == Some(IntegerValue(t.columns[existing].order))
    ensures var s := CreateColumnStep(t, boardId, form, toNumber, freshId);
      s.result == Success(freshId) && !ColumnOrdersDistinct(s.state.columns)
  {
    CreateColumnInserts(t, boardId, form, toNumber, freshId);
    NewColumnRowFields(t, boardId, RawColumnInput(form, toNumber));
    var cs := CreateColumnStep(t, boardId, form, toNumber, freshId).state.columns;
    assert existing != freshId && cs[existing].boardId == cs[freshId].boardId && cs[existing].order == cs[freshId].order;
  }

  // -------------------------------------------------------------- updateColumn

  /** The row `updateColumn` writes back: title and colour replaced, order and board kept. */
  function EditedColumnRow(row: ColumnRow, input: ColumnInput): ColumnRow {
    row.(title := JsString.Trim(input.title), color := StoredColor(input.color))
  }

  function UpdateColumnStep(t: Tables, columnId: Id, form: ColumnForm, toNumber: string -> NumberValue): Step<(), Tables>
  {
    var input := RawColumnInput(form, toNumber);
    var invalid := UpdateSchemaError(input);
    if invalid.Some? then Step(Reject(invalid.value), t)
    else if columnId !in t.columns then Step(Error(Text("Column not found"), None), t)
    else Step(Success(()), t.(columns := t.columns[columnId := EditedColumnRow(t.columns[columnId], input)]))
  }

  method UpdateColumn(db: Store, columnId: Id, form: ColumnForm, toNumber: string -> NumberValue)
    returns (r: ActionResult<()>)
    modifies db
    ensures Step(r, db.Contents()) == UpdateColumnStep(old(db.Contents()), columnId, form, toNumber)
  {
    var input := RawColumnInput(form, toNumber);
    var parsed := UpdateSchemaError(input);
    if parsed.Some? {
      return Reject(parsed.value);
    }
    if columnId !in db.columns {
      return Error(Text("Column not found"), None);
    }
    var color := StoredColor(input.color);
    db.columns := db.columns[columnId := db.columns[columnId].(title := JsString.Trim(input.title), color := color)];
    r := Success(());
  }

  /** Validation first, then the lookup; neither refusal writes. */
  lemma UpdateColumnRefusals(t: Tables, columnId: Id, form: ColumnForm, toNumber: string -> NumberValue)
    ensures var input := RawColumnInput(form, toNumber);
      UpdateSchemaError(input).Some? ==>
        UpdateColumnStep(t, columnId, form, toNumber) == Step(Reject(UpdateSchemaError(input).value), t)
    ensures var input := RawColumnInput(form, toNumber);
      UpdateSchemaError(input).None? && columnId !in t.columns ==>
        UpdateColumnStep(t, columnId, form, toNumber) == Step(Error(Text("Column not found"), None), t)
    ensures UpdateColumnStep(t, columnId, form, toNumber).result.Success? <==>
      UpdateSchemaError(RawColumnInput(form, toNumber)).None? && columnId in t.columns
  {
  }

  /**
   * A successful update overwrites the title (trimmed) and the colour (null
   * when empty or absent) of that one column; its board and order, and every
   * other row, stay.
   */
  lemma {:induction false} UpdateColumnWritesTitleAndColor(t: Tables, columnId: Id, form: ColumnForm,
                                                           toNumber: string -> NumberValue)
    requires UpdateSchemaError(RawColumnInput(form, toNumber)).None? && columnId in t.columns
    ensures var s := UpdateColumnStep(t, columnId, form, toNumber);
      && s.result == Success(())
      && s.state == t.(columns := s.state.columns)
      && (forall c :: c in s.state.columns <==> c in t.columns)
      && (forall c :: c in t.columns && c != columnId ==> s.state.columns[c] == t.columns[c])
    ensures var row := UpdateColumnStep(t, columnId, form, toNumber).state.columns[columnId];
      && row.title == JsString.Trim(form.title.GetOr(""))
      && row.color == StoredColor(form.color)
      && row.boardId == t.columns[columnId].boardId
      && row.order == t.columns[columnId].order
  {
    var row := EditedColumnRow(t.columns[columnId], RawColumnInput(form, toNumber));
    assert UpdateColumnStep(t, columnId, form, toNumber) == Step(Success(()), t.(columns := t.columns[columnId := row]));
    ColumnWritten(t, columnId, row, Success(()), UpdateColumnStep(t, columnId, form, toNumber));
  }

  /** Since board and order stay, an update keeps consistency and distinct column orders. */
  lemma {:induction false} UpdateColumnKeepsInvariants(t: Tables, columnId: Id, form: ColumnForm,
                                                       toNumber: string -> NumberValue)
    requires Consistent(t) && ColumnOrdersDistinct(t.columns)
    ensures var s := UpdateColumnStep(t, columnId, form, toNumber).state;
      Consistent(s) && ColumnOrdersDistinct(s.columns)
  {
    if UpdateSchemaError(RawColumnInput(form, toNumber)).None? && columnId in t.columns {
      var row := EditedColumnRow(t.columns[columnId], RawColumnInput(form, toNumber));
      assert UpdateColumnStep(t, columnId, form, toNumber).state == t.(columns := t.columns[columnId := row]);
      ColumnRewriteKeepsInvariants(t, columnId, row);
    } else {
      UpdateColumnRefusals(t, columnId, form, toNumber);
    }
  }

  /** Rewriting a column row with its board and order unchanged keeps consistency and distinct column orders. */
  lemma {:induction false} ColumnRewriteKeepsInvariants(t: Tables, id: Id, row: ColumnRow)
    requires Consistent(t) && ColumnOrdersDistinct(t.columns)
    requires id in t.columns && row.boardId == t.columns[id].boardId && row.order == t.columns[id].order
    ensures Consistent(t.(columns := t.columns[id := row]))
    ensures ColumnOrdersDistinct(t.columns[id := row])
  {
    var cs := t.columns[id := row];
    MapWrite(t.columns, id, row, cs);
    assert forall c :: c in cs ==> cs[c].boardId == t.columns[c].boardId && cs[c].order == t.columns[c].order;
    forall k | k in t.tasks
      ensures ColumnOnBoard(cs, t.tasks[k].columnId, t.tasks[k].boardId)
    {
      assert ColumnOnBoard(t.columns, t.tasks[k].columnId, t.tasks[k].boardId);
    }
  }

  /** A blank title passes the schema (its length is checked before trimming) and is stored empty. */
  lemma BlankTitleStoredEmpty(t: Tables, columnId: Id, toNumber: string -> NumberValue)
    requires columnId in t.columns
    ensures var s := UpdateColumnStep(t, columnId, ColumnForm(Some("  "), None, None), toNumber);
      s.result == Success(()) && s.state.columns[columnId].title == ""
  {
    var form := ColumnForm(Some("  "), None, None);
    assert JsString.Utf16Length("  ") == 2;
    assert JsString.AllWhitespace("  ");
    UpdateColumnWritesTitleAndColor(t, columnId, form, toNumber);
  }

  /** An empty title with a bad colour reports the title, with its own message. */
  lemma EmptyTitleReportedFirst(t: Tables, columnId: Id, toNumber: string -> NumberValue)
    ensures UpdateColumnStep(t, columnId, ColumnForm(None, None, Some("#zzzzzz")), toNumber)
            == Step(Error(Text(TitleRequired), Some(Title)), t)
  {
  }

  // ---------------------------------------------------------------- getColumns

  datatype ColumnSummary = ColumnSummary(id: Id, title: string, order: int, color: Option<string>)

  function Summary(columns: map<Id, ColumnRow>, id: Id): ColumnSummary
    requires id in columns
  {
    ColumnSummary(id, columns[id].title, columns[id].order, columns[id].color)
  }

  /** The columns of the board, each exactly once and as stored, by ascending order. */
  function GetColumns(t: Tables, boardId: Id): (r: seq<ColumnSummary>)
    ensures forall i :: 0 <= i < |r| ==> ColumnOnBoard(t.columns, r[i].id, boardId) && r[i] == Summary(t.columns, r[i].id)
    ensures forall c :: ColumnOnBoard(t.columns, c, boardId) ==> exists i :: 0 <= i < |r| && r[i].id == c
    ensures forall i, j :: 0 <= i < j < |r| ==> r[i].id != r[j].id && r[i].order <= r[j].order
  {
    var ids := ColumnsInOrder(t.columns, boardId);
    var r := seq(|ids|, i requires 0 <= i < |ids| => Summary(t.columns, ids[i]));
    SummariesAreColumns(t, boardId, ids, r);
    SummariesComplete(t, boardId, ids, r);
    SummariesAscending(t, boardId, ids, r);
    r
  }

  lemma SummariesAreColumns(t: Tables, boardId: Id, ids: seq<Id>, r: seq<ColumnSummary>)
    requires ids == ColumnsInOrder(t.columns, boardId)
    requires |r| == |ids| && forall i :: 0 <= i < |ids| ==> r[i] == Summary(t.columns, ids[i])
    ensures forall i :: 0 <= i < |r| ==> ColumnOnBoard(t.columns, r[i].id, boardId) && r[i] == Summary(t.columns, r[i].id)
  {
  }

  lemma SummariesComplete(t: Tables, boardId: Id, ids: seq<Id>, r: seq<ColumnSummary>)
    requires ids == ColumnsInOrder(t.columns, boardId)
    requires |r| == |ids| && forall i :: 0 <= i < |ids| ==> r[i] == Summary(t.columns, ids[i])
    ensures forall c :: ColumnOnBoard(t.columns, c, boardId) ==> exists i :: 0 <= i < |r| && r[i].id == c
  {
    forall c | ColumnOnBoard(t.columns, c, boardId)
      ensures exists i :: 0 <= i < |r| && r[i].id == c
    {
      assert c in ids;
      var i :| 0 <= i < |ids| && ids[i] == c;
      assert r[i].id == c;
    }
  }

  lemma SummariesAscending(t: Tables, boardId: Id, ids: seq<Id>, r: seq<ColumnSummary>)
    requires ids == ColumnsInOrder(t.columns, boardId)
    requires |r| == |ids| && forall i :: 0 <= i < |ids| ==> r[i] == Summary(t.columns, ids[i])
    ensures forall i, j :: 0 <= i < j < |r| ==> r[i].id != r[j].id && r[i].order <= r[j].order
  {
  }
}
