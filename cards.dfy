/**
 * The shapes the board UI consumes, shared by the server snapshot reader and
 * the guest replica: a task card, a column with its cards, a board with its
 * columns, and the task priority with its tolerant decoding.
 */
module Cards {
  import opened Wrappers

  datatype Priority = Low | Medium | High | Critical

  function PriorityName(p: Priority): string {
    match p
    case Low => "low"
    case Medium => "medium"
    case High => "high"
    case Critical => "critical"
  }

  /**
   * The coercion written out at every use site: "low", "high" and "critical"
   * are kept, anything else (including "medium", an unknown word or no value)
   * becomes Medium.
   */
  function CoercePriority(p: Option<string>): (r: Priority)
    ensures r != Medium <==> p.Some? && p.value in {"low", "high", "critical"}
    ensures r != Medium ==> p == Some(PriorityName(r))
  {
    if p == Some("low") then Low
    else if p == Some("high") then High
    else if p == Some("critical") then Critical
    else Medium
  }

  /** Coercion undoes naming, so a stored priority reads back as itself. */
  lemma CoercePriorityRoundTrip(p: Priority)
    ensures CoercePriority(Some(PriorityName(p))) == p
  {
  }

  /** A card (`Task` of the task card component). Timestamps are ISO strings. */
  datatype CardTask = CardTask(
    id: string,
    title: string,
    description: Option<string>,
    priority: Priority,
    author: string,
    assignee: Option<string>,
    assigneeId: Option<string>,
    createdAt: string,
    updatedAt: string)

  datatype ColumnWithTasks = ColumnWithTasks(
    id: string,
    title: string,
    order: int,
    color: Option<string>,
    tasks: seq<CardTask>)

  /**
   * A board snapshot. `locked` is absent (None) in server snapshots and present
   * in the guest document.
   */
  datatype BoardWithColumnsAndTasks = BoardWithColumnsAndTasks(
    id: string,
    title: string,
    description: Option<string>,
    locked: Option<bool>,
    columns: seq<ColumnWithTasks>)

  /** The ids of a list of cards, in list order. */
  function TaskIds(tasks: seq<CardTask>): (r: seq<string>)
    ensures |r| == |tasks| && forall i :: 0 <= i < |r| ==> r[i] == tasks[i].id
  {
    seq(|tasks|, i requires 0 <= i < |tasks| => tasks[i].id)
  }

  /**
   * The ids of a list of columns, in list order. Cards and columns are two
   * record types with no common supertype, so each has its own projection.
   */
  function ColumnIds(columns: seq<ColumnWithTasks>): (r: seq<string>)
    ensures |r| == |columns| && forall i :: 0 <= i < |r| ==> r[i] == columns[i].id
  {
    seq(|columns|, i requires 0 <= i < |columns| => columns[i].id)
  }

  lemma TaskIdsConcat(a: seq<CardTask>, b: seq<CardTask>)
    ensures TaskIds(a + b) == TaskIds(a) + TaskIds(b)
  {
  }

  /** How many cards of the board carry each id, column after column. */
  function TaskIdBag(columns: seq<ColumnWithTasks>): multiset<string> {
    if columns == [] then multiset{} else multiset(TaskIds(columns[0].tasks)) + TaskIdBag(columns[1..])
  }

  lemma {:induction false} TaskIdBagConcat(a: seq<ColumnWithTasks>, b: seq<ColumnWithTasks>)
    ensures TaskIdBag(a + b) == TaskIdBag(a) + TaskIdBag(b)
  {
    if a != [] {
      assert (a + b)[1..] == a[1..] + b;
      TaskIdBagConcat(a[1..], b);
    } else {
      assert a + b == b;
    }
  }
}
