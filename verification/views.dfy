/** The write side of the task views: creating a task from the form,
    updating and deleting the caller's own task, and `parse_create_task`,
    which turns free text into a task through the parser and the form. */
module Views {
  import opened Optional
  import opened Text
  import opened Calendar
  import opened AiParser
  import opened Forms
  import opened Models
  import opened Queries

  const EmptyTextMessage := "Task text cannot be empty."
  const AddedMessage := "Task added successfully!"

  /** `TaskCreateView.form_valid`: a valid submission becomes one new task,
      owned by the caller whatever the submission says, appended after the
      stored ones. The form offers every project in the store. */
  function CreateTask(store: Store, owner: string, input: TaskFormInput, today: Date, now: int, newId: string): (r: Result<Store, seq<FieldError>>)
    ensures r.Ok? <==> ValidateTaskForm(input, today, ProjectIds(store.projects)).Ok?
    ensures r.Ok? ==> r.value.projects == store.projects && |r.value.tasks| == |store.tasks| + 1
    ensures r.Ok? ==> r.value.tasks[..|store.tasks|] == store.tasks
    ensures r.Ok? ==> r.value.tasks[|store.tasks|] == NewTask(ValidateTaskForm(input, today, ProjectIds(store.projects)).value, owner, newId, now)
    ensures r.Ok? ==> var t := r.value.tasks[|store.tasks|];
                      t.owner == owner && t.id == newId && t.createdAt == now && t.title != ""
                      && (t.dueDate.Some? ==> !Before(t.dueDate.value, today))
    ensures r.Err? ==> r.error == ValidateTaskForm(input, today, ProjectIds(store.projects)).error
    ensures r.Err? ==> |r.error| > 0 && InFieldOrder(r.error)
  {
    match ValidateTaskForm(input, today, ProjectIds(store.projects))
    case Ok(cleaned) =>
      var tasks := store.tasks + [NewTask(cleaned, owner, newId, now)];
      assert tasks[..|store.tasks|] == store.tasks;
      Ok(Store(tasks, store.projects))
    case Err(errors) => Err(errors)
  }

  /** A fresh id keeps the ids unique, and the detail view then finds the
      created task for its owner. */
  lemma CreateThenFind(store: Store, owner: string, input: TaskFormInput, today: Date, now: int, newId: string)
    requires UniqueIds(store.tasks) && !HasTaskId(store.tasks, newId)
    ensures var r := CreateTask(store, owner, input, today, now, newId);
            r.Ok? ==> UniqueIds(r.value.tasks)
                      && GetOwnedTask(r.value.tasks, owner, newId)
                         == Some(NewTask(ValidateTaskForm(input, today, ProjectIds(store.projects)).value, owner, newId, now))
  {
    var r := CreateTask(store, owner, input, today, now, newId);
    if r.Ok? {
      var tasks := r.value.tasks;
      var n := |store.tasks|;
      forall i, j | 0 <= i < j < |tasks|
        ensures tasks[i].id != tasks[j].id
      {
        assert tasks[i] == store.tasks[i];
        if j < n {
          assert tasks[j] == store.tasks[j];
        }
      }
      OwnedLookupFinds(tasks, owner, n);
    }
  }

  /** As written, the form offers every project in the store, so a task
      can be filed under a project of another user. */
  lemma ForeignProjectAccepted(store: Store, owner: string, input: TaskFormInput, today: Date, now: int, newId: string, i: nat)
    requires i < |store.projects| && store.projects[i].owner != owner && store.projects[i].id != ""
    requires CleanTitle(input.title).Ok? && input.description.None? && input.dueDate == NoDate
    requires input.priority.None? && input.status.None? && input.project == Some(store.projects[i].id)
    ensures CreateTask(store, owner, input, today, now, newId).Ok?
    ensures var tasks := CreateTask(store, owner, input, today, now, newId).value.tasks;
            tasks[|tasks| - 1].owner == owner && tasks[|tasks| - 1].project == Some(store.projects[i].id)
  {
    var ids := ProjectIds(store.projects);
    assert store.projects[i].id in ids;
    assert AllClean(input, today, ids);
  }

  /** Task creation with the project choices limited to the caller's own
      projects: every created task is filed under one of them, if any. */
  function CreateTaskChecked(store: Store, owner: string, input: TaskFormInput, today: Date, now: int, newId: string): (r: Result<Store, seq<FieldError>>)
    ensures r.Ok? <==> ValidateTaskForm(input, today, OwnedProjectIds(store.projects, owner)).Ok?
    ensures r.Ok? ==> r.value.projects == store.projects && |r.value.tasks| == |store.tasks| + 1
    ensures r.Ok? ==> r.value.tasks[..|store.tasks|] == store.tasks
    ensures r.Ok? ==> r.value.tasks[|store.tasks|] == NewTask(ValidateTaskForm(input, today, OwnedProjectIds(store.projects, owner)).value, owner, newId, now)
    ensures r.Ok? ==> var t := r.value.tasks[|store.tasks|];
                      t.owner == owner && t.id == newId
                      && (t.project.Some? ==> exists j :: 0 <= j < |store.projects| && store.projects[j].id == t.project.value && store.projects[j].owner == owner)
    ensures r.Err? ==> r.error == ValidateTaskForm(input, today, OwnedProjectIds(store.projects, owner)).error
    ensures r.Err? ==> |r.error| > 0 && InFieldOrder(r.error)
  {
    match ValidateTaskForm(input, today, OwnedProjectIds(store.projects, owner))
    case Ok(cleaned) =>
      var tasks := store.tasks + [NewTask(cleaned, owner, newId, now)];
      assert tasks[..|store.tasks|] == store.tasks;
      Ok(Store(tasks, store.projects))
    case Err(errors) => Err(errors)
  }

  /** What an update or delete request comes to. */
  datatype EditOutcome = NotFound | Invalid(errors: seq<FieldError>) | Done(store: Store)

  /** The caller's task with that id rewritten from the cleaned data;
      every other task as it was. */
  function EditOwned(tasks: seq<Task>, owner: string, id: string, cleaned: CleanedTask): (r: seq<Task>)
    ensures |r| == |tasks|
    ensures forall i :: 0 <= i < |tasks| ==>
              r[i].id == tasks[i].id && r[i].owner == tasks[i].owner && r[i].createdAt == tasks[i].createdAt
    ensures forall i :: 0 <= i < |tasks| && (tasks[i].id != id || tasks[i].owner != owner) ==> r[i] == tasks[i]
    ensures forall i :: 0 <= i < |tasks| && tasks[i].id == id && tasks[i].owner == owner ==>
              r[i] == EditTask(tasks[i], cleaned)
  {
    seq(|tasks|, i requires 0 <= i < |tasks| =>
      if tasks[i].id == id && tasks[i].owner == owner then EditTask(tasks[i], cleaned) else tasks[i])
  }

  /** `TaskUpdateView`: only the caller's own task can be found; a valid
      submission rewrites that task and nothing else, keeping its id, owner
      and creation time. `choices` are the project choices the form
      offers: the view as written passes every project in the store
      (`ProjectIds`), `UpdateTaskChecked` only the caller's own. */
  function UpdateTask(store: Store, owner: string, id: string, input: TaskFormInput, today: Date, choices: set<string>): (r: EditOutcome)
    ensures r.NotFound? <==> GetOwnedTask(store.tasks, owner, id).None?
    ensures r.Done? <==> GetOwnedTask(store.tasks, owner, id).Some? && ValidateTaskForm(input, today, choices).Ok?
    ensures r.Invalid? ==> r.errors == ValidateTaskForm(input, today, choices).error && |r.errors| > 0 && InFieldOrder(r.errors)
    ensures r.Done? ==> r.store.projects == store.projects && |r.store.tasks| == |store.tasks|
    ensures r.Done? ==> forall i :: 0 <= i < |store.tasks| ==>
              r.store.tasks[i].id == store.tasks[i].id
              && r.store.tasks[i].owner == store.tasks[i].owner
              && r.store.tasks[i].createdAt == store.tasks[i].createdAt
    ensures r.Done? ==> forall i :: 0 <= i < |store.tasks| && (store.tasks[i].id != id || store.tasks[i].owner != owner) ==>
              r.store.tasks[i] == store.tasks[i]
    ensures r.Done? ==> forall i :: 0 <= i < |store.tasks| && store.tasks[i].id == id && store.tasks[i].owner == owner ==>
              r.store.tasks[i] == EditTask(store.tasks[i], ValidateTaskForm(input, today, choices).value)
              && r.store.tasks[i].title != "" && (r.store.tasks[i].dueDate.Some? ==> !Before(r.store.tasks[i].dueDate.value, today))
  {
    if GetOwnedTask(store.tasks, owner, id).None? then NotFound
    else match ValidateTaskForm(input, today, choices)
      case Err(errors) => Invalid(errors)
      case Ok(cleaned) => Done(Store(EditOwned(store.tasks, owner, id, cleaned), store.projects))
  }

  /** With unique ids, an update keeps them unique, and the detail view
      then finds the caller's task as the form rewrote it. */
  lemma UpdateThenFind(store: Store, owner: string, id: string, input: TaskFormInput, today: Date, choices: set<string>)
    requires UniqueIds(store.tasks)
    ensures var r := UpdateTask(store, owner, id, input, today, choices);
            r.Done? ==> UniqueIds(r.store.tasks)
                        && GetOwnedTask(r.store.tasks, owner, id)
                           == Some(EditTask(GetOwnedTask(store.tasks, owner, id).value, ValidateTaskForm(input, today, choices).value))
  {
    var r := UpdateTask(store, owner, id, input, today, choices);
    if r.Done? {
      var tasks := r.store.tasks;
      forall a, b | 0 <= a < b < |tasks|
        ensures tasks[a].id != tasks[b].id
      {
        assert tasks[a].id == store.tasks[a].id && tasks[b].id == store.tasks[b].id;
      }
      var found := GetOwnedTask(store.tasks, owner, id).value;
      var i :| 0 <= i < |store.tasks| && store.tasks[i] == found;
      OwnedLookupFinds(tasks, owner, i);
    }
  }

  /** As written, an update can move the caller's task under a project of
      another user. */
  lemma ForeignProjectKeptOnUpdate(store: Store, owner: string, input: TaskFormInput, today: Date, i: nat, k: nat)
    requires i < |store.tasks| && store.tasks[i].owner == owner
    requires k < |store.projects| && store.projects[k].owner != owner && store.projects[k].id != ""
    requires CleanTitle(input.title).Ok? && input.description.None? && input.dueDate == NoDate
    requires input.priority.None? && input.status.None? && input.project == Some(store.projects[k].id)
    ensures var r := UpdateTask(store, owner, store.tasks[i].id, input, today, ProjectIds(store.projects));
            r.Done? && r.store.tasks[i].owner == owner && r.store.tasks[i].project == Some(store.projects[k].id)
  {
    var ids := ProjectIds(store.projects);
    assert store.projects[k].id in ids;
    assert AllClean(input, today, ids);
  }

  /** Task update with the project choices limited to the caller's own
      projects: the rewritten task is filed under one of them, if any. */
  function UpdateTaskChecked(store: Store, owner: string, id: string, input: TaskFormInput, today: Date): (r: EditOutcome)
    ensures r.NotFound? <==> GetOwnedTask(store.tasks, owner, id).None?
    ensures r.Done? <==> GetOwnedTask(store.tasks, owner, id).Some? && ValidateTaskForm(input, today, OwnedProjectIds(store.projects, owner)).Ok?
    ensures r.Done? ==> |r.store.tasks| == |store.tasks|
    ensures r.Done? ==> forall i :: 0 <= i < |store.tasks| && store.tasks[i].id == id && store.tasks[i].owner == owner ==>
              var t := r.store.tasks[i];
              t.project.Some? ==> exists j :: 0 <= j < |store.projects| && store.projects[j].id == t.project.value && store.projects[j].owner == owner
  {
    UpdateTask(store, owner, id, input, today, OwnedProjectIds(store.projects, owner))
  }

  /** `TaskDeleteView`: only the caller's own task can be found, and
      deleting it removes that id and keeps every other task. */
  function DeleteTask(store: Store, owner: string, id: string): (r: EditOutcome)
    ensures r.NotFound? <==> GetOwnedTask(store.tasks, owner, id).None?
    ensures !r.Invalid?
    ensures r.Done? ==> r.store.projects == store.projects
    ensures r.Done? ==> forall t :: t in r.store.tasks <==> t in store.tasks && t.id != id
    ensures r.Done? ==> |r.store.tasks| < |store.tasks|
  {
    var found := GetOwnedTask(store.tasks, owner, id);
    if found.None? then NotFound
    else
      var tasks := Filter(store.tasks, (t: Task) => t.id != id);
      Done(Store(tasks, store.projects))
  }

  /** Deleting never touches another user's tasks. */
  lemma DeleteKeepsOthersTasks(store: Store, owner: string, id: string)
    requires UniqueIds(store.tasks)
    ensures DeleteTask(store, owner, id).Done? ==>
              forall t :: t in store.tasks && t.owner != owner ==> t in DeleteTask(store, owner, id).store.tasks
  {
    var found := GetOwnedTask(store.tasks, owner, id);
    if found.Some? {
      forall t | t in store.tasks && t.owner != owner
        ensures t.id != id
      {
        var i :| 0 <= i < |store.tasks| && store.tasks[i] == t;
        var j :| 0 <= j < |store.tasks| && store.tasks[j] == found.value;
        assert i != j;
      }
    }
  }

  /** What a `parse_create_task` request comes to. `DateOverflow` is the
      OverflowError raised when "tomorrow" is asked for on 9999-12-31. */
  datatype IngestOutcome = NotPosted | EmptyText | DateOverflow | Rejected(errors: seq<FieldError>) | Added(task: Task)

  datatype IngestResult = IngestResult(store: Store, outcome: IngestOutcome, messages: seq<string>)

  /** One `"field: error"` message per form error, in order. */
  function ErrorMessages(errors: seq<FieldError>): (m: seq<string>)
    ensures |m| == |errors|
    ensures forall i :: 0 <= i < |m| ==> m[i] == errors[i].field + ": " + errors[i].message
  {
    seq(|errors|, i requires 0 <= i < |errors| => errors[i].field + ": " + errors[i].message)
  }

  /** `TaskForm(parsed_data)` as the source builds it: the parser's title,
      description and priority, no status or project, and the due date
      string handed to the date field whole. */
  function ParsedInputAsWritten(parsed: ParsedTask): (input: TaskFormInput)
    ensures input.title == Some(parsed.title) && input.description == Some(parsed.description)
    ensures input.priority == Some(parsed.priority) && input.status.None? && input.project.None?
    ensures input.dueDate.NoDate? <==> parsed.dueDate.None? || parsed.dueDate.value == ""
  {
    TaskFormInput(Some(parsed.title), Some(parsed.description), ReadFormDate(parsed.dueDate), Some(parsed.priority), None, None)
  }

  /** The same form data with only the date part of the due date string,
      which is what the date field can read. */
  function ParsedInput(parsed: ParsedTask): (input: TaskFormInput)
    ensures input == ParsedInputAsWritten(parsed).(dueDate := input.dueDate)
    ensures parsed.dueDate.Some? && |parsed.dueDate.value| >= 10 ==> input.dueDate == ReadFormDate(Some(parsed.dueDate.value[..10]))
    ensures parsed.dueDate.None? ==> input.dueDate == NoDate
  {
    var dueDate := if parsed.dueDate.Some? && |parsed.dueDate.value| >= 10 then Some(parsed.dueDate.value[..10]) else parsed.dueDate;
    TaskFormInput(Some(parsed.title), Some(parsed.description), ReadFormDate(dueDate), Some(parsed.priority), None, None)
  }

  /** The form step of `parse_create_task`: a valid form adds one task
      owned by the request's user; an invalid one adds nothing and reports
      one `"field: error"` message per error. */
  function Submit(store: Store, owner: string, input: TaskFormInput, today: Date, now: int, newId: string): (r: IngestResult)
    ensures r.outcome.Added? || r.outcome.Rejected?
    ensures r.outcome.Added? <==> ValidateTaskForm(input, today, ProjectIds(store.projects)).Ok?
    ensures r.outcome.Added? ==>
              r.outcome.task == NewTask(ValidateTaskForm(input, today, ProjectIds(store.projects)).value, owner, newId, now)
              && r.store == Store(store.tasks + [r.outcome.task], store.projects)
              && r.outcome.task.owner == owner && r.outcome.task.id == newId && r.outcome.task.createdAt == now
              && r.outcome.task.title != "" && r.messages == [AddedMessage]
    ensures r.outcome.Rejected? ==>
              r.outcome.errors == ValidateTaskForm(input, today, ProjectIds(store.projects)).error
              && r.store == store && |r.outcome.errors| > 0 && InFieldOrder(r.outcome.errors)
              && r.messages == ErrorMessages(r.outcome.errors)
  {
    match ValidateTaskForm(input, today, ProjectIds(store.projects))
    case Ok(cleaned) =>
      var task := NewTask(cleaned, owner, newId, now);
      IngestResult(Store(store.tasks + [task], store.projects), Added(task), [AddedMessage])
    case Err(errors) => IngestResult(store, Rejected(errors), ErrorMessages(errors))
  }

  /** `parse_create_task`, for a given way of turning the parser's fields
      into form data. Nothing is stored unless a task is added. */
  function Ingest(store: Store, owner: string, isPost: bool, text: Option<string>, today: Date, now: int, newId: string,
                  toInput: ParsedTask -> TaskFormInput): (r: IngestResult)
    requires Valid(today)
    ensures !isPost ==> r == IngestResult(store, NotPosted, [])
    ensures isPost && (text.None? || text.value == "") ==> r == IngestResult(store, EmptyText, [EmptyTextMessage])
    ensures r.outcome.DateOverflow? <==> isPost && text.Some? && text.value != "" && !CanParse(text.value, today)
    ensures !r.outcome.Added? ==> r.store == store
    ensures r.outcome.Added? ==> r.store == Store(store.tasks + [r.outcome.task], store.projects) && r.outcome.task.owner == owner
  {
    if !isPost then IngestResult(store, NotPosted, [])
    else if text.None? || text.value == "" then IngestResult(store, EmptyText, [EmptyTextMessage])
    else if !CanParse(text.value, today) then IngestResult(store, DateOverflow, [])
    else Submit(store, owner, toInput(ParseTaskText(text.value, today)), today, now, newId)
  }

  /** Posted, non-empty, parsable text goes through the parser to the form. */
  lemma IngestIsSubmit(store: Store, owner: string, isPost: bool, text: Option<string>, today: Date, now: int, newId: string,
                       toInput: ParsedTask -> TaskFormInput)
    requires Ingestible(isPost, text, today)
    ensures Ingest(store, owner, isPost, text, today, now, newId, toInput)
            == Submit(store, owner, toInput(ParseTaskText(text.value, today)), today, now, newId)
  {
  }

  /** `parse_create_task` as written. */
  function ParseCreateTask(store: Store, owner: string, isPost: bool, text: Option<string>, today: Date, now: int, newId: string): (r: IngestResult)
    requires Valid(today)
    ensures r.outcome.Added? ==> r.outcome.task.owner == owner && r.store.tasks == store.tasks + [r.outcome.task]
    ensures r.outcome.Rejected? ==> r.store == store && |r.messages| == |r.outcome.errors|
  {
    Ingest(store, owner, isPost, text, today, now, newId, ParsedInputAsWritten)
  }

  /** `parse_create_task` with the due date handed to the form as a date. */
  function ParseCreateTaskFixed(store: Store, owner: string, isPost: bool, text: Option<string>, today: Date, now: int, newId: string): (r: IngestResult)
    requires Valid(today)
    ensures r.outcome.Added? ==> r.outcome.task.owner == owner && r.store.tasks == store.tasks + [r.outcome.task]
    ensures r.outcome.Rejected? ==> r.store == store && |r.messages| == |r.outcome.errors|
  {
    Ingest(store, owner, isPost, text, today, now, newId, ParsedInput)
  }

  /** Text the parser accepts, posted. */
  predicate Ingestible(isPost: bool, text: Option<string>, today: Date) {
    isPost && text.Some? && text.value != "" && CanParse(text.value, today)
  }

  /** The fields the parser hands over that the form steps depend on. */
  predicate WellParsed(parsed: ParsedTask) {
    !Blank(parsed.title) && Trimmed(parsed.title) && parsed.description == ""
    && parsed.priority != "" && Trimmed(parsed.priority) && NoUpper(parsed.priority) && !HasNul(parsed.priority)
    && (parsed.dueDate.Some? ==> Trimmed(parsed.dueDate.value) && |parsed.dueDate.value| == 10 + |DueTime|)
  }

  lemma ParsedTaskWellParsed(text: string, today: Date)
    requires CanParse(text, today)
    ensures WellParsed(ParseTaskText(text, today))
  {
    PriorityWordClean(ParseTaskText(text, today).priority);
  }

  /** The parser's priority words are lower case, with no white space at
      either end and no null character. */
  lemma PriorityWordClean(p: string)
    requires p == "high" || p == "low" || p == "medium"
    ensures p != "" && Trimmed(p) && NoUpper(p) && !HasNul(p)
  {
    if p == "high" {
      assert p == ['h', 'i', 'g', 'h'];
    } else if p == "low" {
      assert p == ['l', 'o', 'w'];
    } else {
      assert p == ['m', 'e', 'd', 'i', 'u', 'm'];
    }
  }

  /** Form data of the parser's shape: a title, an empty description, a
      clean priority, and neither status nor project. */
  predicate FromParser(input: TaskFormInput) {
    input.title.Some? && input.description == Some("") && input.status.None? && input.project.None?
    && input.priority.Some? && Trimmed(input.priority.value) && NoUpper(input.priority.value) && !HasNul(input.priority.value)
  }

  /** The collected errors when only the title and the due date can fail. */
  lemma TitleAndDateErrors(outcomes: seq<Option<string>>)
    requires |outcomes| == |TaskFormFields|
    requires outcomes[1].None? && outcomes[3].None? && outcomes[4].None? && outcomes[5].None?
    ensures ErrorsFrom(outcomes, 0)
            == (if outcomes[0].Some? then [FieldError("title", outcomes[0].value)] else [])
               + (if outcomes[2].Some? then [FieldError("due_date", outcomes[2].value)] else [])
  {
    var none := ErrorsFrom(outcomes, 6);
    assert ErrorsFrom(outcomes, 5) == none;
    assert ErrorsFrom(outcomes, 4) == none;
    assert ErrorsFrom(outcomes, 3) == none;
    var date := if outcomes[2].Some? then [FieldError("due_date", outcomes[2].value)] else [];
    assert ErrorsFrom(outcomes, 2) == date + none;
    assert ErrorsFrom(outcomes, 1) == date;
  }

  /** On form data of the parser's shape only the title and the due date
      can fail; the form reports their errors in that order, and a valid
      form keeps the priority and leaves status and project unset. */
  lemma ParsedFormResult(input: TaskFormInput, today: Date, projectIds: set<string>)
    requires FromParser(input)
    ensures ValidateTaskForm(input, today, projectIds).Ok?
            <==> CleanTitle(input.title).Ok? && CleanDateField(input.dueDate, today).Ok?
    ensures ValidateTaskForm(input, today, projectIds).Ok? ==>
              ValidateTaskForm(input, today, projectIds).value
              == CleanedTask(CleanTitle(input.title).value, "", CleanDateField(input.dueDate, today).value, input.priority, None, None)
    ensures ValidateTaskForm(input, today, projectIds).Err? ==>
              ValidateTaskForm(input, today, projectIds).error
              == (if CleanTitle(input.title).Err? then [FieldError("title", CleanTitle(input.title).error)] else [])
                 + (if CleanDateField(input.dueDate, today).Err? then [FieldError("due_date", CleanDateField(input.dueDate, today).error)] else [])
  {
    StripTrimmed("");
    StripTrimmed(input.priority.value);
    CleanPriorityKeepsLower(input.priority);
    assert CleanText(input.description) == Ok(Some(""));
    assert CleanPriorityField(input.priority) == Ok(input.priority);
    assert CleanText(input.status) == Ok(None);
    assert CleanProject(input.project, projectIds) == Ok(None);
    var outcomes := FieldOutcomes(input, today, projectIds);
    TitleAndDateErrors(outcomes);
  }

  /** As written, a due date reaches the date field with its time of day
      attached, which the field cannot read. */
  lemma AsWrittenDateUnreadable(parsed: ParsedTask)
    requires WellParsed(parsed)
    ensures ParsedInputAsWritten(parsed).dueDate == if parsed.dueDate.Some? then BadDate else NoDate
    ensures FromParser(ParsedInputAsWritten(parsed))
  {
    if parsed.dueDate.Some? {
      var value := parsed.dueDate.value;
      StripTrimmed(value);
      assert !IsSpace(value[0]);
    }
  }

  /** As written, the form step refuses exactly the parsed fields that
      carry a due date or a null character in the title: a title error
      for the null character first, then the date error. */
  lemma AsWrittenSubmit(store: Store, owner: string, parsed: ParsedTask, today: Date, now: int, newId: string)
    requires WellParsed(parsed)
    ensures var r := Submit(store, owner, ParsedInputAsWritten(parsed), today, now, newId);
            (r.outcome.Rejected? <==> parsed.dueDate.Some? || HasNul(parsed.title))
            && (r.outcome.Rejected? ==>
                  r.outcome.errors
                  == (if HasNul(parsed.title) then [FieldError("title", NullCharacterMessage)] else [])
                     + (if parsed.dueDate.Some? then [FieldError("due_date", InvalidDateMessage)] else []))
  {
    AsWrittenDateUnreadable(parsed);
    ParsedFormResult(ParsedInputAsWritten(parsed), today, ProjectIds(store.projects));
  }

  /** As written, a text is refused exactly when it mentions "tomorrow" or
      holds a null character; it then draws the null-character title error
      and the date error, in that order, and any other text is added. */
  lemma AsWrittenRejectsTomorrow(store: Store, owner: string, isPost: bool, text: Option<string>, today: Date, now: int, newId: string)
    requires Ingestible(isPost, text, today)
    ensures var r := ParseCreateTask(store, owner, isPost, text, today, now, newId);
            (r.outcome.Rejected? <==> Mentions(text.value, Tomorrow) || HasNul(text.value))
            && (r.outcome.Rejected? ==>
                  r.outcome.errors
                  == (if HasNul(text.value) then [FieldError("title", NullCharacterMessage)] else [])
                     + (if Mentions(text.value, Tomorrow) then [FieldError("due_date", InvalidDateMessage)] else [])
                  && r.messages == ErrorMessages(r.outcome.errors))
            && (Mentions(text.value, Tomorrow) && !HasNul(text.value) ==> r.messages == ["due_date: " + InvalidDateMessage])
            && (!r.outcome.Rejected? ==> r.outcome.Added?)
  {
    var parsed := ParseTaskText(text.value, today);
    ParsedTaskWellParsed(text.value, today);
    TitleKeepsNul(text.value);
    AsWrittenSubmit(store, owner, parsed, today, now, newId);
    IngestIsSubmit(store, owner, isPost, text, today, now, newId, ParsedInputAsWritten);
    var r := ParseCreateTask(store, owner, isPost, text, today, now, newId);
    if Mentions(text.value, Tomorrow) && !HasNul(text.value) {
      assert r.outcome.errors == [FieldError("due_date", InvalidDateMessage)];
      DateErrorMessage();
    }
  }

  /** The one message an unreadable date draws; a literal fact kept in its
      own lemma so the proofs about the parsed form stay small. */
  lemma DateErrorMessage()
    ensures ErrorMessages([FieldError("due_date", InvalidDateMessage)]) == ["due_date: " + InvalidDateMessage]
  {
    assert ErrorMessages([FieldError("due_date", InvalidDateMessage)])[0] == "due_date: " + InvalidDateMessage;
  }

  /** With the date part handed over, the form reads the parser's due date
      as the day after today. */
  lemma DatePartReadable(parsed: ParsedTask, today: Date)
    requires Valid(today) && today != MaxDate
    requires parsed.dueDate.Some? && |parsed.dueDate.value| >= 10
    requires ReadIsoDate(parsed.dueDate.value[..10]) == Some(NextDay(today))
    ensures ParsedInput(parsed).dueDate == OnDate(NextDay(today))
    ensures CleanDateField(ParsedInput(parsed).dueDate, today) == Ok(Some(NextDay(today)))
  {
    var day := parsed.dueDate.value[..10];
    assert IsDigits(day[..4]) && IsDigits(day[8..]);
    assert day[..4][0] == day[0] && day[8..][1] == day[9];
    StripTrimmed(day);
  }

  /** With the date part handed over, a parsable text is refused only for
      a null character, with that one title error; every other text
      becomes a task carrying exactly what the parser read from it. */
  lemma FixedAddsParsedTask(store: Store, owner: string, isPost: bool, text: Option<string>, today: Date, now: int, newId: string)
    requires Ingestible(isPost, text, today)
    ensures var r := ParseCreateTaskFixed(store, owner, isPost, text, today, now, newId);
            (r.outcome.Added? <==> !HasNul(text.value))
            && (!r.outcome.Added? ==> r.outcome.Rejected? && r.outcome.errors == [FieldError("title", NullCharacterMessage)])
            && (r.outcome.Added? ==>
                  r.outcome.task.title == ParseTitle(text.value)
                  && r.outcome.task.description == ""
                  && r.outcome.task.priority == ParsePriority(text.value)
                  && r.outcome.task.status == DefaultTaskStatus
                  && r.outcome.task.project.None?
                  && r.outcome.task.dueDate == (if Mentions(text.value, Tomorrow) then Some(NextDay(today)) else None))
  {
    var parsed := ParseTaskText(text.value, today);
    var input := ParsedInput(parsed);
    ParsedTaskWellParsed(text.value, today);
    TitleKeepsNul(text.value);
    AsWrittenDateUnreadable(parsed);
    if parsed.dueDate.Some? {
      DatePartReadable(parsed, today);
    }
    StripTrimmed(parsed.title);
    ParsedFormResult(input, today, ProjectIds(store.projects));
    IngestIsSubmit(store, owner, isPost, text, today, now, newId, ParsedInput);
  }

  /** The parser's priority is lower case with no surrounding white space,
      so the priority field keeps it as it is. */
  lemma PriorityStaysLower(text: string)
    ensures CleanPriorityField(Some(ParsePriority(text))) == Ok(Some(ParsePriority(text)))
  {
    var p := ParsePriority(text);
    PriorityWordClean(p);
    StripTrimmed(p);
    CleanPriorityKeepsLower(Some(p));
  }

  /** The parser's title passes the form's title check exactly when the
      text holds no null character; it is never refused as required. */
  lemma ParsedTitleAccepted(text: string, today: Date)
    requires CanParse(text, today)
    ensures CleanTitle(ParsedInputAsWritten(ParseTaskText(text, today)).title).Ok? <==> !HasNul(text)
    ensures CleanTitle(ParsedInput(ParseTaskText(text, today)).title).Ok? <==> !HasNul(text)
    ensures CleanTitle(ParsedInput(ParseTaskText(text, today)).title) != Err(RequiredMessage)
  {
    ParsedTaskWellParsed(text, today);
    TitleKeepsNul(text);
  }

  /** Without posted, parsable text no form is ever built. */
  lemma NoFormWithoutText(store: Store, owner: string, isPost: bool, text: Option<string>, today: Date, now: int, newId: string,
                          toInput: ParsedTask -> TaskFormInput)
    requires Valid(today) && !Ingestible(isPost, text, today)
    ensures var r := Ingest(store, owner, isPost, text, today, now, newId, toInput);
            !r.outcome.Rejected? && !r.outcome.Added?
  {
  }

  /** Whatever text comes in, the parser's title is never refused as
      required. */
  lemma IngestNeverTitleRequired(store: Store, owner: string, isPost: bool, text: Option<string>, today: Date, now: int, newId: string)
    requires Valid(today)
    ensures var r := ParseCreateTask(store, owner, isPost, text, today, now, newId);
            r.outcome.Rejected? ==> FieldError("title", RequiredMessage) !in r.outcome.errors
    ensures var r := ParseCreateTaskFixed(store, owner, isPost, text, today, now, newId);
            r.outcome.Rejected? ==> FieldError("title", RequiredMessage) !in r.outcome.errors
  {
    if Ingestible(isPost, text, today) {
      var nul := HasNul(text.value);
      AsWrittenRejectsTomorrow(store, owner, isPost, text, today, now, newId);
      FixedAddsParsedTask(store, owner, isPost, text, today, now, newId);
      NulOrDateNotRequired(nul, Mentions(text.value, Tomorrow));
      NulOrDateNotRequired(true, false);
    } else {
      NoFormWithoutText(store, owner, isPost, text, today, now, newId, ParsedInputAsWritten);
      NoFormWithoutText(store, owner, isPost, text, today, now, newId, ParsedInput);
    }
  }

  /** Neither the null-character title error nor the date error is the
      required-title error; split out of `IngestNeverTitleRequired` to keep
      that proof small. */
  lemma NulOrDateNotRequired(nul: bool, date: bool)
    ensures FieldError("title", RequiredMessage)
            !in (if nul then [FieldError("title", NullCharacterMessage)] else [])
                + (if date then [FieldError("due_date", InvalidDateMessage)] else [])
  {
    assert |RequiredMessage| != |NullCharacterMessage|;
    assert "title" != "due_date";
  }

  /** Only empty text is refused: posted white space becomes a "New Task"
      with no due date and medium priority. */
  lemma BlankTextAdded(store: Store, owner: string, text: string, today: Date, now: int, newId: string)
    requires Valid(today) && text != "" && Blank(text)
    ensures var r := ParseCreateTask(store, owner, true, Some(text), today, now, newId);
            r.outcome.Added? && r.outcome.task.title == DefaultTitle && r.outcome.task.dueDate.None?
            && r.outcome.task.priority == DefaultPriority && r.messages == [AddedMessage]
  {
    BlankTextIsNewTask(text, today);
    var input := ParsedInputAsWritten(ParsedTask(DefaultTitle, "", None, DefaultPriority));
    assert input == TaskFormInput(Some(DefaultTitle), Some(""), NoDate, Some(DefaultPriority), None, None);
    DefaultFormValid(today, ProjectIds(store.projects));
    IngestIsSubmit(store, owner, true, Some(text), today, now, newId, ParsedInputAsWritten);
  }

  /** The form data of the default parse is valid as it stands. */
  lemma DefaultFormValid(today: Date, projectIds: set<string>)
    ensures ValidateTaskForm(TaskFormInput(Some(DefaultTitle), Some(""), NoDate, Some(DefaultPriority), None, None), today, projectIds)
            == Ok(CleanedTask(DefaultTitle, "", None, Some(DefaultPriority), None, None))
  {
    assert !IsSpace(DefaultTitle[0]) && !IsSpace(DefaultTitle[|DefaultTitle| - 1]);
    StripTrimmed(DefaultTitle);
    NoNulInDefaultTitle();
    PriorityWordClean(DefaultPriority);
    ParsedFormResult(TaskFormInput(Some(DefaultTitle), Some(""), NoDate, Some(DefaultPriority), None, None), today, projectIds);
  }

  /** A fresh id keeps the store's ids unique. */
  lemma IngestKeepsIdsUnique(store: Store, owner: string, isPost: bool, text: Option<string>, today: Date, now: int, newId: string,
                             toInput: ParsedTask -> TaskFormInput)
    requires Valid(today)
    requires UniqueIds(store.tasks) && !HasTaskId(store.tasks, newId)
    ensures UniqueIds(Ingest(store, owner, isPost, text, today, now, newId, toInput).store.tasks)
  {
    var r := Ingest(store, owner, isPost, text, today, now, newId, toInput);
    if r.outcome.Added? {
      var tasks := r.store.tasks;
      forall i, j | 0 <= i < j < |tasks|
        ensures tasks[i].id != tasks[j].id
      {
        if j == |store.tasks| {
          assert tasks[i] == store.tasks[i];
        }
      }
    }
  }
}
