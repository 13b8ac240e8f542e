/**
 * What the server actions share: the discriminated result every action
 * returns, the form fields its zod schemas name, and the checks those schemas
 * make. A zod schema reports every issue; the action returns the first
 * field (in the schema's key order) that has one, with that field's message.
 */
module Actions {
  import opened Wrappers
  import JsString

  datatype Field = Title | Description | Priority | AssigneeId | Order | Color

  /** The key the result's `field` carries. */
  function FieldKey(f: Field): string {
    match f
    case Title => "title"
    case Description => "description"
    case Priority => "priority"
    case AssigneeId => "assigneeId"
    case Order => "order"
    case Color => "color"
  }

  /** Why a field failed its schema. */
  datatype Issue =
    | TooShort(minimum: nat)     // z.string().min
    | TooLong(maximum: nat)      // z.string().max
    | NotAnOption                // z.enum
    | NotANumber                 // z.number() given NaN
    | NotAnInteger               // .int()
    | BelowMinimum(bound: int)   // z.number().min
    | NotAColor                  // neither "#" and six hex digits nor ""

  /**
   * An error message: either literal text, or the schema library's default
   * message for an issue (its wording depends on the library version).
   */
  datatype ErrorText = Text(text: string) | SchemaMessage(issue: Issue)

  datatype ActionResult<T> = Success(value: T) | Error(error: ErrorText, field: Option<Field>)

  /** An action's result together with the store it leaves behind. */
  datatype Step<T, S> = Step(result: ActionResult<T>, state: S)

  datatype FieldError = FieldError(field: Field, issue: Issue)

  const TitleRequired := "Le titre est requis"

  /** The message of an issue: only the title's `min(1, …)` has a custom one. */
  function IssueText(e: FieldError): ErrorText {
    if e.field == Title && e.issue.TooShort? then Text(TitleRequired) else SchemaMessage(e.issue)
  }

  function Reject<T>(e: FieldError): (r: ActionResult<T>)
    ensures r.Error? && r.field == Some(e.field)
  {
    Error(IssueText(e), Some(e.field))
  }

  /**
   * `z.string().min(1).max(max)` on the raw (untrimmed) value; lengths are
   * UTF-16 code units, so a blank title passes.
   */
  function TitleIssue(title: string, max: nat): (r: Option<Issue>)
    ensures r.None? <==> title != [] && JsString.Utf16Length(title) <= max
    ensures r.Some? ==> r.value == (if title == [] then TooShort(1) else TooLong(max))
  {
    if JsString.Utf16Length(title) < 1 then Some(TooShort(1))
    else if JsString.Utf16Length(title) > max then Some(TooLong(max))
    else None
  }

  /** `z.string().max(max)`. */
  function MaxLengthIssue(s: string, max: nat): (r: Option<Issue>)
    ensures r.None? <==> JsString.Utf16Length(s) <= max
  {
    if JsString.Utf16Length(s) > max then Some(TooLong(max)) else None
  }

  /**
   * `s?.trim() || null`: the trimmed text, or no value when nothing but
   * whitespace is left.
   */
  function TrimmedOrNull(s: string): (r: Option<string>)
    ensures r.None? <==> JsString.AllWhitespace(s)
    ensures r.Some? ==> r.value == JsString.Trim(s) && r.value != [] && JsString.IsTrimmed(r.value)
  {
    JsString.TrimMeaning(s);
    var t := JsString.Trim(s);
    if t == [] then None else Some(t)
  }
}
