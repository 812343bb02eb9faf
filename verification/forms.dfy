/** The task form: field order, the two custom cleaners (`clean_due_date`,
    `clean_priority`), and the per-field validation that decides whether a
    submission becomes a task or a list of `field: message` errors. */
module Forms {
  import opened Optional
  import opened Text
  import opened Calendar
  import opened Models

  /** `TaskForm.Meta.fields`, in declaration order; errors are reported in
      this order. */
  const TaskFormFields: seq<string> := ["title", "description", "due_date", "priority", "status", "project"]

  const PastDueMessage := "Due date cannot be in the past."
  const RequiredMessage := "This field is required."
  const InvalidDateMessage := "Enter a valid date."
  const NullCharacterMessage := "Null characters are not allowed."
  const InvalidChoiceMessage := "Select a valid choice. That choice is not one of the available choices."

  /** The raw `due_date` value: absent or empty, not a date, or a date. */
  datatype DateInput = NoDate | BadDate | OnDate(date: Date)

  /** A submission: `None` is a field left out of the data. */
  datatype TaskFormInput = TaskFormInput(
    title: Option<string>,
    description: Option<string>,
    dueDate: DateInput,
    priority: Option<string>,
    status: Option<string>,
    project: Option<string>)

  datatype FieldError = FieldError(field: string, message: string)

  /** Position of a field name in `TaskFormFields`, or its length when the
      name is not a form field. */
  function FieldIndex(field: string): (i: nat)
    ensures i <= |TaskFormFields|
    ensures i < |TaskFormFields| ==> TaskFormFields[i] == field
    ensures i == |TaskFormFields| ==> field !in TaskFormFields
  {
    if field == "title" then 0
    else if field == "description" then 1
    else if field == "due_date" then 2
    else if field == "priority" then 3
    else if field == "status" then 4
    else if field == "project" then 5
    else 6
  }

  /** Errors name form fields, one error per field, in declaration order. */
  predicate InFieldOrder(errors: seq<FieldError>) {
    (forall i :: 0 <= i < |errors| ==> errors[i].field in TaskFormFields) &&
    (forall i, j :: 0 <= i < j < |errors| ==> FieldIndex(errors[i].field) < FieldIndex(errors[j].field))
  }

  predicate HasError(errors: seq<FieldError>, field: string) {
    exists i :: 0 <= i < |errors| && errors[i].field == field
  }

  /** The date field's reading of a submitted string (`DateField.to_python`
      with its `%Y-%m-%d` input format): an absent or empty value is no date;
      otherwise the value is stripped, the YYYY-MM-DD form of an existing
      calendar date is that date, and anything else, white space included,
      is not a date. */
  function ReadFormDate(value: Option<string>): (r: DateInput)
    ensures r.NoDate? <==> value.None? || value.value == ""
    ensures r.OnDate? ==> Valid(r.date) && ReadIsoDate(Strip(value.value)) == Some(r.date)
    ensures value.Some? && value.value != "" && |Strip(value.value)| != 10 ==> r == BadDate
    ensures value.Some? && value.value != "" ==>
              (ReadIsoDate(Strip(value.value)).Some? <==> r.OnDate?)
              && (r.OnDate? ==> r.date == ReadIsoDate(Strip(value.value)).value)
  {
    if value.None? || value.value == "" then NoDate
    else match ReadIsoDate(Strip(value.value))
      case Some(d) => OnDate(d)
      case None => BadDate
  }

  /** What `isoformat` writes, the date field reads back. */
  lemma FormDateRoundTrip(d: Date)
    requires Valid(d)
    ensures ReadFormDate(Some(IsoDate(d))) == OnDate(d)
  {
    var s := IsoDate(d);
    IsoDateRoundTrip(d);
    assert IsDigits(s[8..]) && s[8..][1] == s[9];
    StripTrimmed(s);
  }

  /** The field strips its value first, so an `isoformat` date with white
      space around it reads back as that date too. */
  lemma PaddedFormDateRoundTrip(d: Date, before: string, after: string)
    requires Valid(d) && Blank(before) && Blank(after)
    ensures ReadFormDate(Some(before + IsoDate(d) + after)) == OnDate(d)
  {
    var s := IsoDate(d);
    IsoDateRoundTrip(d);
    assert IsDigits(s[8..]) && s[8..][1] == s[9];
    StripPadded(before, s, after);
  }

  /** `clean_due_date`: a date strictly before today is refused with the
      past-due message; anything else, including no date, comes back as it
      went in. */
  function CleanDueDate(dueDate: Option<Date>, today: Date): (r: Result<Option<Date>, string>)
    ensures r.Ok? <==> dueDate.None? || dueDate.value == today || Before(today, dueDate.value)
    ensures r.Ok? ==> r.value == dueDate
    ensures r.Err? ==> r.error == PastDueMessage
  {
    if dueDate.Some? && Before(dueDate.value, today) then Err(PastDueMessage) else Ok(dueDate)
  }

  /** `clean_priority`: a non-empty priority is lower-cased; an empty or
      absent one is returned as it is. */
  function CleanPriority(priority: Option<string>): (r: Option<string>)
    ensures r.Some? <==> priority.Some?
    ensures r.Some? ==> |r.value| == |priority.value| && NoUpper(r.value) && Lower(r.value) == Lower(priority.value)
    ensures r.Some? ==> forall i :: 0 <= i < |r.value| && !IsUpper(priority.value[i]) ==> r.value[i] == priority.value[i]
  {
    if priority.Some? && priority.value != "" then
      LowerFacts(priority.value);
      Some(Lower(priority.value))
    else priority
  }

  /** Cleaning a cleaned priority changes nothing. */
  lemma CleanPriorityIdempotent(priority: Option<string>)
    ensures CleanPriority(CleanPriority(priority)) == CleanPriority(priority)
  {
    var once := CleanPriority(priority);
    if once.Some? {
      var twice := CleanPriority(once);
      assert |twice.value| == |once.value|;
      forall i | 0 <= i < |twice.value|
        ensures twice.value[i] == once.value[i]
      {
        assert !IsUpper(once.value[i]);
      }
    }
  }

  /** A priority with no capital letter, the empty one included, passes
      through unchanged. */
  lemma CleanPriorityKeepsLower(priority: Option<string>)
    requires priority.Some? && NoUpper(priority.value)
    ensures CleanPriority(priority) == priority
  {
    LowerFacts(priority.value);
  }

  /** "HIGH" is cleaned to "high". */
  lemma CleanPriorityUpper(priority: Option<string>)
    requires priority == Some("HIGH")
    ensures CleanPriority(priority) == Some("high")
  {
    var p := priority.value;
    assert Lower(p) == [LowerChar(p[0]), LowerChar(p[1]), LowerChar(p[2]), LowerChar(p[3])];
  }

  /** The title field: a required `CharField`. Surrounding white space is
      stripped; an absent or blank title is refused as required, and one
      holding a null character is refused by the field's validator. */
  function CleanTitle(title: Option<string>): (r: Result<string, string>)
    ensures r.Ok? <==> title.Some? && !Blank(title.value) && !HasNul(title.value)
    ensures r.Ok? ==> r.value != "" && Trimmed(r.value) && r.value == Strip(title.value)
    ensures r.Err? ==> (r.error == RequiredMessage <==> title.None? || Blank(title.value))
    ensures r.Err? ==> (r.error == NullCharacterMessage <==> title.Some? && !Blank(title.value))
  {
    if title.None? then Err(RequiredMessage)
    else
      var s := Strip(title.value);
      StripKeepsVisible(title.value, '\U{0}');
      if s == "" then Err(RequiredMessage)
      else if HasNul(s) then Err(NullCharacterMessage)
      else Ok(s)
  }

  /** An optional `CharField` (description, priority, status): stripped,
      absent when left out of the data, refused when it holds a null
      character. */
  function CleanText(value: Option<string>): (r: Result<Option<string>, string>)
    ensures r.Ok? <==> value.None? || !HasNul(value.value)
    ensures r.Ok? ==> (r.value.None? <==> value.None?)
    ensures r.Ok? && r.value.Some? ==> r.value.value == Strip(value.value) && Trimmed(r.value.value)
    ensures r.Err? ==> r.error == NullCharacterMessage
  {
    if value.None? then Ok(None)
    else
      StripKeepsVisible(value.value, '\U{0}');
      if HasNul(value.value) then Err(NullCharacterMessage) else Ok(Some(Strip(value.value)))
  }

  /** The priority field: the field's own cleaning, then `clean_priority`. */
  function CleanPriorityField(priority: Option<string>): (r: Result<Option<string>, string>)
    ensures r.Ok? <==> CleanText(priority).Ok?
    ensures r.Ok? ==> (r.value.None? <==> priority.None?)
    ensures r.Ok? && r.value.Some? ==> NoUpper(r.value.value) && Lower(r.value.value) == Lower(Strip(priority.value))
    ensures r.Err? ==> r.error == NullCharacterMessage
  {
    match CleanText(priority)
    case Ok(stripped) => Ok(CleanPriority(stripped))
    case Err(e) => Err(e)
  }

  /** The due-date field: the date widget's parsing, then `clean_due_date`. */
  function CleanDateField(dueDate: DateInput, today: Date): (r: Result<Option<Date>, string>)
    ensures r.Ok? <==> dueDate.NoDate? || (dueDate.OnDate? && !Before(dueDate.date, today))
    ensures r.Ok? && r.value.Some? ==> dueDate == OnDate(r.value.value) && !Before(r.value.value, today)
    ensures r.Ok? && r.value.None? ==> dueDate.NoDate?
    ensures r.Err? ==> (r.error == InvalidDateMessage <==> dueDate.BadDate?)
    ensures r.Err? ==> (r.error == PastDueMessage <==> dueDate.OnDate?)
  {
    match dueDate
    case NoDate => CleanDueDate(None, today)
    case BadDate => Err(InvalidDateMessage)
    case OnDate(d) => CleanDueDate(Some(d), today)
  }

  /** The project field: empty means no project; otherwise it must name one
      of the offered projects. */
  function CleanProject(project: Option<string>, projectIds: set<string>): (r: Result<Option<string>, string>)
    ensures r.Ok? <==> project.None? || project.value == "" || project.value in projectIds
    ensures r.Ok? ==> r.value == if project == Some("") then None else project
    ensures r.Ok? && r.value.Some? ==> r.value.value in projectIds
    ensures r.Err? ==> r.error == InvalidChoiceMessage
  {
    if project.None? || project.value == "" then Ok(None)
    else if project.value in projectIds then Ok(project)
    else Err(InvalidChoiceMessage)
  }

  /** The message a field's cleaning failed with, if it failed. */
  function Problem<T>(r: Result<T, string>): (m: Option<string>)
    ensures m.Some? <==> r.Err?
    ensures m.Some? ==> m.value == r.error
  {
    if r.Err? then Some(r.error) else None
  }

  /** Each field's outcome, in `Meta.fields` order. */
  function FieldOutcomes(input: TaskFormInput, today: Date, projectIds: set<string>): (outcomes: seq<Option<string>>)
    ensures |outcomes| == |TaskFormFields|
  {
    [Problem(CleanTitle(input.title)),
     Problem(CleanText(input.description)),
     Problem(CleanDateField(input.dueDate, today)),
     Problem(CleanPriorityField(input.priority)),
     Problem(CleanText(input.status)),
     Problem(CleanProject(input.project, projectIds))]
  }

  lemma FieldIndexOf(k: nat)
    requires k < |TaskFormFields|
    ensures FieldIndex(TaskFormFields[k]) == k
  {
  }

  /** `form.errors` from the fields' outcomes at `k` and after: one error
      per failed field, carrying its message, in field order. */
  function ErrorsFrom(outcomes: seq<Option<string>>, k: nat): (errors: seq<FieldError>)
    requires |outcomes| == |TaskFormFields| && k <= |outcomes|
    ensures |errors| <= |outcomes| - k
    decreases |outcomes| - k
  {
    if k == |outcomes| then []
    else
      var rest := ErrorsFrom(outcomes, k + 1);
      if outcomes[k].Some? then [FieldError(TaskFormFields[k], outcomes[k].value)] + rest else rest
  }

  /** No error is collected exactly when no field failed. */
  lemma {:induction false} ErrorsFromEmpty(outcomes: seq<Option<string>>, k: nat)
    requires |outcomes| == |TaskFormFields| && k <= |outcomes|
    ensures |ErrorsFrom(outcomes, k)| == 0 <==> forall i :: k <= i < |outcomes| ==> outcomes[i].None?
    decreases |outcomes| - k
  {
    if k < |outcomes| {
      ErrorsFromEmpty(outcomes, k + 1);
    }
  }

  /** The collected errors are exactly the failed fields' errors. */
  lemma {:induction false} ErrorsFromMembers(outcomes: seq<Option<string>>, k: nat)
    requires |outcomes| == |TaskFormFields| && k <= |outcomes|
    ensures forall e :: e in ErrorsFrom(outcomes, k) <==>
              exists i :: k <= i < |outcomes| && outcomes[i].Some? && e == FieldError(TaskFormFields[i], outcomes[i].value)
    decreases |outcomes| - k
  {
    if k < |outcomes| {
      ErrorsFromMembers(outcomes, k + 1);
    }
  }

  /** The collected errors name fields at `k` or after, in strictly
      increasing field order. */
  lemma {:induction false} ErrorsFromOrdered(outcomes: seq<Option<string>>, k: nat)
    requires |outcomes| == |TaskFormFields| && k <= |outcomes|
    ensures forall a :: 0 <= a < |ErrorsFrom(outcomes, k)| ==> k <= FieldIndex(ErrorsFrom(outcomes, k)[a].field) < |TaskFormFields|
    ensures forall a, b :: 0 <= a < b < |ErrorsFrom(outcomes, k)| ==>
              FieldIndex(ErrorsFrom(outcomes, k)[a].field) < FieldIndex(ErrorsFrom(outcomes, k)[b].field)
    decreases |outcomes| - k
  {
    if k < |outcomes| {
      ErrorsFromOrdered(outcomes, k + 1);
      FieldIndexOf(k);
      var rest := ErrorsFrom(outcomes, k + 1);
      var errors := ErrorsFrom(outcomes, k);
      if outcomes[k].Some? {
        assert errors == [FieldError(TaskFormFields[k], outcomes[k].value)] + rest;
        forall a | 0 < a < |errors|
          ensures errors[a] == rest[a - 1]
        {
        }
      }
    }
  }

  /** Errors collected from the outcomes are in field order and name form
      fields only. */
  lemma ErrorsInFieldOrder(outcomes: seq<Option<string>>)
    requires |outcomes| == |TaskFormFields|
    ensures InFieldOrder(ErrorsFrom(outcomes, 0))
  {
    var errors := ErrorsFrom(outcomes, 0);
    ErrorsFromOrdered(outcomes, 0);
    forall a | 0 <= a < |errors|
      ensures errors[a].field in TaskFormFields
    {
      var i := FieldIndex(errors[a].field);
      assert TaskFormFields[i] == errors[a].field;
    }
  }

  /** A priority or status as the field's stripping leaves it. */
  function StripField(value: Option<string>): (r: Option<string>)
    ensures r.Some? <==> value.Some?
    ensures r.Some? ==> Trimmed(r.value) && Strip(r.value) == r.value
  {
    if value.None? then None
    else
      StripIdempotent(value.value);
      Some(Strip(value.value))
  }

  /** Every field's cleaning succeeded. */
  predicate AllClean(input: TaskFormInput, today: Date, projectIds: set<string>) {
    CleanTitle(input.title).Ok? && CleanText(input.description).Ok? && CleanDateField(input.dueDate, today).Ok?
    && CleanPriorityField(input.priority).Ok? && CleanText(input.status).Ok? && CleanProject(input.project, projectIds).Ok?
  }

  /** What a clean optional field yields is the stripped value. */
  lemma CleanTextIsStripped(value: Option<string>)
    requires CleanText(value).Ok?
    ensures CleanText(value).value == StripField(value)
  {
  }

  /** What a clean priority field yields is the stripped value, lower-cased
      by `clean_priority`. */
  lemma CleanPriorityFieldIsStripped(priority: Option<string>)
    requires CleanPriorityField(priority).Ok?
    ensures CleanPriorityField(priority).value == CleanPriority(StripField(priority))
  {
    CleanTextIsStripped(priority);
  }

  /** `form.cleaned_data` of a valid submission. */
  function Cleaned(input: TaskFormInput, today: Date, projectIds: set<string>): (c: CleanedTask)
    requires AllClean(input, today, projectIds)
    ensures c.title != "" && c.title == Strip(input.title.value)
    ensures c.description == if input.description.Some? then Strip(input.description.value) else ""
    ensures c.dueDate.Some? ==> input.dueDate == OnDate(c.dueDate.value) && !Before(c.dueDate.value, today)
    ensures c.dueDate.None? ==> input.dueDate == NoDate
    ensures c.priority == CleanPriority(StripField(input.priority)) && c.status == StripField(input.status)
    ensures c.project == (if input.project == Some("") then None else input.project)
    ensures c.project.Some? ==> c.project.value in projectIds
  {
    CleanTextIsStripped(input.description);
    CleanTextIsStripped(input.status);
    CleanPriorityFieldIsStripped(input.priority);
    var description := StripField(input.description);
    CleanedTask(
      CleanTitle(input.title).value,
      if description.Some? then description.value else "",
      CleanDateField(input.dueDate, today).value,
      CleanPriorityField(input.priority).value,
      CleanText(input.status).value,
      CleanProject(input.project, projectIds).value)
  }

  /** A submission is clean exactly when no field's outcome is a problem. */
  lemma CleanIffNoProblem(input: TaskFormInput, today: Date, projectIds: set<string>)
    ensures AllClean(input, today, projectIds)
            <==> forall i :: 0 <= i < |TaskFormFields| ==> FieldOutcomes(input, today, projectIds)[i].None?
  {
    var outcomes := FieldOutcomes(input, today, projectIds);
    if !AllClean(input, today, projectIds) {
      var failed := if CleanTitle(input.title).Err? then 0 else if CleanText(input.description).Err? then 1
                    else if CleanDateField(input.dueDate, today).Err? then 2 else if CleanPriorityField(input.priority).Err? then 3
                    else if CleanText(input.status).Err? then 4 else 5;
      assert outcomes[failed].Some?;
    }
  }

  /** `form.is_valid()` with `form.errors` / `form.cleaned_data`.
      `projectIds` are the project choices the form offers. */
  function ValidateTaskForm(input: TaskFormInput, today: Date, projectIds: set<string>): (r: Result<CleanedTask, seq<FieldError>>)
    ensures r.Ok? <==> AllClean(input, today, projectIds)
    ensures r.Ok? <==> ErrorsFrom(FieldOutcomes(input, today, projectIds), 0) == []
    ensures r.Ok? ==> r.value == Cleaned(input, today, projectIds)
    ensures r.Err? ==> r.error == ErrorsFrom(FieldOutcomes(input, today, projectIds), 0)
    ensures r.Err? ==> |r.error| > 0 && InFieldOrder(r.error)
  {
    var outcomes := FieldOutcomes(input, today, projectIds);
    var errors := ErrorsFrom(outcomes, 0);
    CleanIffNoProblem(input, today, projectIds);
    ErrorsFromEmpty(outcomes, 0);
    if errors == [] then Ok(Cleaned(input, today, projectIds))
    else
      ErrorsInFieldOrder(outcomes);
      Err(errors)
  }

  /** Every failed field is reported once, with its own message, whatever
      the other fields hold; no other error is reported. */
  lemma FailedFieldReported(input: TaskFormInput, today: Date, projectIds: set<string>, i: nat)
    requires i < |TaskFormFields| && FieldOutcomes(input, today, projectIds)[i].Some?
    ensures ValidateTaskForm(input, today, projectIds).Err?
    ensures FieldError(TaskFormFields[i], FieldOutcomes(input, today, projectIds)[i].value)
            in ValidateTaskForm(input, today, projectIds).error
  {
    var outcomes := FieldOutcomes(input, today, projectIds);
    ErrorsFromMembers(outcomes, 0);
    assert FieldError(TaskFormFields[i], outcomes[i].value) in ErrorsFrom(outcomes, 0);
  }

  /** A past due date is reported on the due-date field with the past-due
      message, whatever the title. */
  lemma PastDueReported(input: TaskFormInput, today: Date, projectIds: set<string>)
    requires input.dueDate.OnDate? && Before(input.dueDate.date, today)
    ensures ValidateTaskForm(input, today, projectIds).Err?
    ensures FieldError("due_date", PastDueMessage) in ValidateTaskForm(input, today, projectIds).error
  {
    FailedFieldReported(input, today, projectIds, 2);
  }

  /** An absent or blank title is reported as required. */
  lemma BlankTitleReported(input: TaskFormInput, today: Date, projectIds: set<string>)
    requires input.title.None? || Blank(input.title.value)
    ensures ValidateTaskForm(input, today, projectIds).Err?
    ensures FieldError("title", RequiredMessage) in ValidateTaskForm(input, today, projectIds).error
  {
    FailedFieldReported(input, today, projectIds, 0);
  }
}
