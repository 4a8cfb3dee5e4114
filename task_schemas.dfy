/**
 * Input validation of care tasks (`TaskCreate` / `TaskUpdate`): the text
 * must have 1 to 1000 characters as sent, must not be blank, and is stored
 * stripped; the date must not be before today. Dates are day numbers
 * (`date.toordinal()`); `today` is a parameter.
 */
module TaskSchemas {
  import opened Wrappers
  import opened PyStr

  type Date = int

  const MinTextLength: int := 1
  const MaxTextLength: int := 1000

  datatype FieldError = TextTooShort | TextTooLong | TextBlank | DateInPast

  /**
   * The `text` field: the length bounds of `Field(min_length=1, max_length=1000)`
   * are checked on the raw string first, then `validate_text` refuses blank
   * text and returns it stripped.
   */
  function ValidateText(v: string): (r: Result<string, FieldError>)
    ensures r.Ok? <==> MinTextLength <= |v| <= MaxTextLength && !AllSpace(v)
    ensures |v| < MinTextLength ==> r == Err(TextTooShort)
    ensures |v| > MaxTextLength ==> r == Err(TextTooLong)
    ensures MinTextLength <= |v| <= MaxTextLength && AllSpace(v) ==> r == Err(TextBlank)
    ensures r.Ok? ==> r.value == Strip(v) && r.value != [] && Trimmed(r.value)
                      && Strip(r.value) == r.value && |r.value| <= |v|
  {
    if |v| < MinTextLength then Err(TextTooShort)
    else if |v| > MaxTextLength then Err(TextTooLong)
    else if Strip(v) == [] then Err(TextBlank)
    else
      StripIdempotent(v);
      Ok(Strip(v))
  }

  /** The `task_date` field: a date before today is refused, any other is kept. */
  function ValidateDate(v: Date, today: Date): (r: Result<Date, FieldError>)
    ensures r.Ok? <==> today <= v
    ensures r.Ok? ==> r.value == v
    ensures r.Err? ==> r.error == DateInPast
  {
    if v < today then Err(DateInPast) else Ok(v)
  }

  /** `TaskUpdate.text`: `None` passes through, any string follows the `TaskCreate` rules. */
  function ValidateOptionalText(v: Option<string>): (r: Result<Option<string>, FieldError>)
    ensures v.None? ==> r == Ok(None)
    ensures v.Some? ==> (r.Ok? <==> ValidateText(v.value).Ok?)
    ensures v.Some? && r.Ok? ==> r.value == Some(ValidateText(v.value).value)
    ensures v.Some? && r.Err? ==> r.error == ValidateText(v.value).error
  {
    match v
    case None => Ok(None)
    case Some(t) =>
      match ValidateText(t)
      case Ok(s) => Ok(Some(s))
      case Err(e) => Err(e)
  }

  /** `TaskUpdate.task_date`: `None` passes through, a date follows the `TaskCreate` rule. */
  function ValidateOptionalDate(v: Option<Date>, today: Date): (r: Result<Option<Date>, FieldError>)
    ensures v.None? ==> r == Ok(None)
    ensures v.Some? ==> (r.Ok? <==> today <= v.value)
    ensures r.Ok? ==> r.value == v
  {
    match v
    case None => Ok(None)
    case Some(d) => if d < today then Err(DateInPast) else Ok(v)
  }

  datatype NewTask = NewTask(taskDate: Date, text: string)
  datatype TaskChanges = TaskChanges(taskDate: Option<Date>, text: Option<string>)

  /** The errors of one field, as a list of zero or one entries. */
  function Errors<T>(r: Result<T, FieldError>): seq<FieldError>
  {
    if r.Err? then [r.error] else []
  }

  /** A whole `TaskCreate` body: every failing field is reported, in declaration order. */
  function ValidateTaskCreate(taskDate: Date, text: string, today: Date): (r: Result<NewTask, seq<FieldError>>)
    ensures r.Ok? <==> today <= taskDate && ValidateText(text).Ok?
    ensures r.Ok? ==> r.value == NewTask(taskDate, Strip(text))
    ensures r.Err? ==> 1 <= |r.error| <= 2
                       && (DateInPast in r.error <==> taskDate < today)
                       && (TextBlank in r.error <==> ValidateText(text) == Err(TextBlank))
  {
    var d := ValidateDate(taskDate, today);
    var t := ValidateText(text);
    if d.Ok? && t.Ok? then Ok(NewTask(d.value, t.value))
    else Err(Errors(d) + Errors(t))
  }

  /** A whole `TaskUpdate` body. */
  function ValidateTaskUpdate(taskDate: Option<Date>, text: Option<string>, today: Date)
    : (r: Result<TaskChanges, seq<FieldError>>)
    ensures taskDate.None? && text.None? ==> r == Ok(TaskChanges(None, None))
    ensures r.Ok? <==> ValidateOptionalDate(taskDate, today).Ok? && ValidateOptionalText(text).Ok?
    ensures r.Ok? ==> r.value.taskDate == taskDate
                      && (text.Some? ==> r.value.text == Some(Strip(text.value)))
    ensures r.Err? ==> 1 <= |r.error| <= 2
  {
    var d := ValidateOptionalDate(taskDate, today);
    var t := ValidateOptionalText(text);
    if d.Ok? && t.Ok? then Ok(TaskChanges(d.value, t.value))
    else Err(Errors(d) + Errors(t))
  }
}
