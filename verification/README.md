# Task tracker core in Dafny

A model of the task-handling core of a small Django task tracker. Each user
owns tasks and projects. The model covers:

- **Keyword parser** (`apps/tasks/ai_parser.py`). `parse_task_text` reads
  "tomorrow", "high priority" and "low priority" in any case. It sets the
  due date (tomorrow at 17:00) and the priority, and removes the
  exact-case keywords from the title.
- **Task form** (`apps/tasks/forms.py`):
  - the order of `Meta.fields`;
  - `clean_due_date`, which refuses past dates;
  - `clean_priority`, which lower-cases;
  - the field checks Django makes around them: stripped text fields that
    refuse null characters, of which the title is required; a `%Y-%m-%d`
    date field; a project choice;
  - `form.errors`, kept in field order.
- **Views** (`apps/tasks/views.py`):
  - `TaskListView.get_queryset`: owner scoping, the status, priority and
    project filters, case-insensitive search of title or description, and
    newest-first order;
  - the task listing of `ProjectDetailView`;
  - the owner-scoped lookups of the detail, update and delete views, and of
    `ProjectDetailView`;
  - task creation, update and deletion;
  - `parse_create_task`, which puts the text through the parser, the form
    and the store, and reports one `field: error` message per error.

The store is a pair of sequences: tasks and projects. Python's string
operations are modelled on `seq<char>` in the `Text` module:
- `isspace`, `strip` and ASCII `lower`;
- `in`;
- the single-pass `replace`.

Dates are civil `(year, month, day)` triples between 0001-01-01 and
9999-12-31. `Calendar.IsoDate` writes them the way `isoformat` does, and
`Calendar.ReadIsoDate` reads them back.

These inputs become parameters:
- the clock (`today`, `now`);
- the fresh UUID of a new task (`newId`);
- the authenticated user (`owner`);
- the request method and data.

Modules: `Optional`, `Text`, `Calendar`, `AiParser`, `Forms`, `Models`,
`Queries`, `Views`.

Decisions the source leaves open:
- **Blank title message.** The form refuses a missing or blank title with
  the form field's message "This field is required.". Django's model-level
  message "This field cannot be blank." is never reached, because the form
  field checks first.
- **Null characters.** Django's text form fields refuse a value holding a
  null character with "Null characters are not allowed.". The parser keeps
  such a character in its title, so free text that holds one draws that
  title error (`Views.AsWrittenRejectsTomorrow`). The parser's title is never
  blank, so free text never draws the required-title error
  (`Views.IngestNeverTitleRequired`). This holds even for text of white
  space alone, because the view refuses only the empty string
  (`Views.BlankTextAdded`).
- **Project ownership.** The form offers every stored project, so a task can
  be filed under another user's project (second and third findings below).
  The corrected `Views.CreateTaskChecked` and `Views.UpdateTaskChecked` offer
  only the caller's own projects.
- **The Task model.** Its file is not part of this model. The model assumes:
  description, priority and status are optional text fields; priority
  defaults to "medium" and status to "todo"; the due date is a date field;
  the project is an optional foreign key (blank and null allowed), so an
  empty project choice means no project. The title has no length limit.
  Only `clean_priority`'s lower-casing is modelled for priority values.

## Model

| member | source | states |
|---|---|---|
| Text.Strip | apps/tasks/ai_parser.py:36 | `strip()` removes exactly the leading and trailing white space: the result is an infix of the input, trimmed at both ends, flanked by white space only, and empty exactly when the input is blank |
| Text.StripIdempotent | apps/tasks/ai_parser.py:36 | stripping twice is stripping once, so the final `title.strip()` leaves an already stripped title alone |
| Text.StripKeepsVisible | apps/tasks/ai_parser.py:36 | `strip()` neither adds nor drops a character that is not white space |
| Text.ContainsOccurs | apps/tasks/ai_parser.py:25 | `k in s` holds exactly when `k` occurs at some position of `s` |
| Text.ReplaceAllIsSplitJoin | apps/tasks/ai_parser.py:27 | the single-pass `replace` equals splitting at the non-overlapping occurrences and joining with the replacement |
| Text.SplitPiecesAvoid | apps/tasks/ai_parser.py:27 | no piece between removed occurrences contains the keyword |
| Text.ReplaceAllAbsent | apps/tasks/ai_parser.py:27 | `replace` leaves text without the keyword unchanged |
| Text.RemovalKeepsChar | apps/tasks/ai_parser.py:27 | `replace(keyword, "")` neither adds nor drops a character that is not in the keyword |
| Text.BlankContainsNothing | apps/tasks/ai_parser.py:25 | white space contains no keyword that starts with a visible character |
| Text.DecimalRoundTrip | apps/tasks/ai_parser.py:26 | reading back the decimal digits of a number gives that number |
| Calendar.NextDay | apps/tasks/ai_parser.py:26 | `date.today() + timedelta(days=1)` is the least valid date after today; it exists below 9999-12-31 |
| Calendar.IsoDate | apps/tasks/ai_parser.py:26 | `isoformat` writes ten characters starting with a digit; `Calendar.IsoDateRoundTrip` states that they read back as the date |
| Calendar.ZeroPad | apps/tasks/ai_parser.py:26 | the zero-padded fields of `isoformat` are digit strings of at least the width that read back as the number |
| Calendar.IsoDateRoundTrip | apps/tasks/ai_parser.py:26 | the YYYY-MM-DD text `isoformat` writes reads back as the same date |
| AiParser.ParseDueDate | apps/tasks/ai_parser.py:21-26 | a due date is set exactly when "tomorrow" occurs in any case; it is 19 characters: the ISO day after today followed by `T17:00:00` |
| AiParser.ParsePriority | apps/tasks/ai_parser.py:22-33 | "high" exactly when "high priority" occurs in any case; "low" exactly when only "low priority" does; otherwise "medium" |
| AiParser.ParseTitle | apps/tasks/ai_parser.py:36 | the title is never blank and is trimmed; it is "New Task" when nothing but white space is left after keyword removal, and otherwise the stripped remainder (which may itself be "New Task") |
| AiParser.MentionsOccurs | apps/tasks/ai_parser.py:25 | `keyword in text.lower()` holds exactly when the keyword occurs at some position of the lower-cased text |
| AiParser.RemoveKeepsNul | apps/tasks/ai_parser.py:27-36 | removing a keyword and stripping keeps a null character exactly when the title had one |
| AiParser.TitleKeepsNul | apps/tasks/ai_parser.py:19-40 | the parsed title holds a null character exactly when the text does |
| AiParser.ParseTaskText | apps/tasks/ai_parser.py:19-40 | the returned fields: non-blank trimmed title, empty description, priority and due date tied to keyword occurrence in both directions |
| AiParser.BlankTextIsNewTask | apps/tasks/ai_parser.py:19-40 | white space alone parses to title "New Task", no due date and medium priority |
| AiParser.CaseMismatchKeepsTitle | apps/tasks/ai_parser.py:25-33 | detection ignores case but removal does not: text without the exact lower-case keywords keeps its whole stripped text as title |
| AiParser.PriorityKeywordsAbsent | apps/tasks/ai_parser.py:28-33 | removing a priority keyword that is not there only strips the title |
| AiParser.RemovalIsSplit | apps/tasks/ai_parser.py:27 | keyword removal leaves the stripped concatenation of pieces, none of which contains the keyword |
| AiParser.KeywordCanReappear | apps/tasks/ai_parser.py:27 | a single `replace` pass can bring the keyword back: `"tom" + "tomorrow" + "orrow"` becomes "tomorrow" |
| AiParser.ExactOccurrenceDetected | apps/tasks/ai_parser.py:25 | an exact lower-case occurrence of a keyword is always detected |
| AiParser.TrailingKeywords | apps/tasks/ai_parser.py:25-36 | for any non-empty trimmed head that holds neither "tomorrow" nor "high priority" in exact case (capitalised forms are allowed), "head tomorrow high priority" parses to title head, priority "high" and a due date |
| AiParser.BuyGroceriesExample | apps/tasks/ai_parser.py:19-40 | "Buy groceries tomorrow high priority" parses to title "Buy groceries", priority "high" and a due date |
| AiParser.InteriorGapKept | apps/tasks/ai_parser.py:27 | only the ends are stripped: for trimmed non-empty `a` and `b` that hold no exact-case "tomorrow" and a text naming no priority, "a tomorrow b" gives title "a  b" with both spaces |
| Forms.FieldIndex | apps/tasks/forms.py:27 | the position of a field in `Meta.fields`, which orders the reported errors |
| Forms.ReadFormDate | apps/tasks/forms.py:27-30 | the date field reads an absent or empty value as no date, and only those; any other value is stripped, and it is a date exactly when the stripped text is the YYYY-MM-DD form of an existing date, and then it is that date; a value whose stripped length is not 10, white space included, is not a date |
| Forms.PaddedFormDateRoundTrip | apps/tasks/forms.py:27-30 | an `isoformat` date with white space on either side reads back as that date |
| Forms.FormDateRoundTrip | apps/tasks/forms.py:28-30 | the field reads an `isoformat` date back as that date |
| Forms.CleanDueDate | apps/tasks/forms.py:51-55 | accepted exactly when absent, today or later; an accepted date is returned unchanged; a refused one gets "Due date cannot be in the past." |
| Forms.CleanPriority | apps/tasks/forms.py:57-61 | present exactly when given; same length; no capital left; same lower-case form; non-capitals kept in place; empty stays empty |
| Forms.CleanPriorityIdempotent | apps/tasks/forms.py:57-61 | cleaning a cleaned priority changes nothing |
| Forms.CleanPriorityKeepsLower | apps/tasks/forms.py:57-61 | a priority with no capital passes unchanged |
| Forms.CleanPriorityUpper | apps/tasks/forms.py:57-60 | "HIGH" becomes "high" |
| Forms.CleanTitle | apps/tasks/forms.py:27 | the required title is accepted exactly when given, not blank and free of null characters; it comes back stripped and non-empty; a missing or blank title gets "This field is required.", one holding a null character "Null characters are not allowed." |
| Forms.CleanText | apps/tasks/forms.py:27 | an optional text field is accepted exactly when absent or free of null characters; it comes back stripped, and absent stays absent |
| Forms.CleanPriorityField | apps/tasks/forms.py:57-61 | the field strips, then `clean_priority` lower-cases: accepted exactly when the field is; the result has no capital and the lower-case form of the stripped input |
| Forms.CleanDateField | apps/tasks/forms.py:51-55 | date parsing then `clean_due_date`: accepted exactly when no date or a date not before today; unreadable text gets "Enter a valid date."; a past date gets the past-due message |
| Forms.CleanProject | apps/tasks/forms.py:27 | the project choice is accepted exactly when empty or an offered id; an empty choice is no project, any other is kept; a refusal gets the invalid-choice message |
| Forms.ErrorsFromEmpty | apps/tasks/forms.py:27 | `form.errors` is empty exactly when no field failed |
| Forms.ErrorsFromMembers | apps/tasks/forms.py:27 | `form.errors` holds exactly one entry per failed field, carrying that field's own message |
| Forms.ErrorsFromOrdered | apps/tasks/forms.py:27 | `form.errors` lists the failed fields in `Meta.fields` order |
| Forms.ErrorsInFieldOrder | apps/tasks/forms.py:27 | every entry of `form.errors` names a form field, and no field comes twice or out of order |
| Forms.Cleaned | apps/tasks/forms.py:24-61 | `cleaned_data`: stripped non-empty title, stripped description or "", the date as read and not in the past, the stripped and lower-cased priority, the stripped status, and the offered project or none |
| Forms.ValidateTaskForm | apps/tasks/forms.py:24-61 | valid exactly when every field cleans, which is exactly when no error is collected; a valid form yields its cleaned data; an invalid one yields the collected errors, non-empty and in field order |
| Forms.FailedFieldReported | apps/tasks/forms.py:24-61 | any failing field makes the form invalid and is reported with its own message, whatever the other fields hold |
| Forms.PastDueReported | apps/tasks/forms.py:51-55 | a past due date is reported as "due_date: Due date cannot be in the past.", whatever the title |
| Forms.BlankTitleReported | apps/tasks/forms.py:27 | a missing or blank title is reported as "title: This field is required." |
| Models.ProjectIds | apps/tasks/forms.py:27 | the project choices as written: the ids of all stored projects, and only those |
| Models.OwnedProjectIds | apps/tasks/forms.py:27 | the intended project choices: exactly the ids of the caller's own projects |
| Models.NewTask | apps/tasks/views.py:68-70 | a saved new task carries the cleaned fields, the caller as owner, the given id and creation time; an omitted priority or status takes the model default |
| Models.EditTask | apps/tasks/views.py:73-81 | a saved edit replaces the submitted fields and keeps id, owner and creation time; an omitted priority or status keeps its stored value |
| Models.EditTwiceIsEditOnce | apps/tasks/views.py:73-81 | saving the same cleaned data twice is saving it once |
| Models.EditWithOwnDataKeepsTask | apps/tasks/views.py:73-81 | editing a task with the data it was created from leaves it unchanged |
| Queries.Filter | apps/tasks/views.py:21-33 | `filter` keeps exactly the accepted tasks, each as often as stored; the result is strictly shorter when any task is refused |
| Queries.ApplyFilters | apps/tasks/views.py:24-40 | the optional filters keep exactly the tasks that match every given parameter |
| Queries.SortNewestFirst | apps/tasks/views.py:41 | `order_by('-created_at')` is a permutation in non-increasing creation time |
| Queries.ListTasks | apps/tasks/views.py:20-41 | the listing holds exactly the caller's tasks that match every given parameter, each as often as stored, newest first |
| Queries.NoParamsListsAllOwned | apps/tasks/views.py:20-41 | without parameters the listing holds all of the caller's tasks |
| Queries.NarrowerListsFewer | apps/tasks/views.py:28-40 | adding parameters never adds tasks to the listing |
| Queries.ForeignTasksInvisible | apps/tasks/views.py:21 | other users' tasks never change what the caller is shown |
| Queries.SearchIgnoresCase | apps/tasks/views.py:36-40 | queries that differ only in case list the same tasks |
| Queries.ProjectTasks | apps/tasks/views.py:160-174 | the project page lists only the caller's tasks in that project, newest first |
| Queries.ProjectTasksAreFilteredList | apps/tasks/views.py:160-174 | the project page lists exactly the task list filtered by that project |
| Queries.GetOwnedProject | apps/tasks/views.py:154-155 | the project is found exactly when the caller owns a project with that id |
| Queries.ProjectDetail | apps/tasks/views.py:154-174 | not found unless the caller owns the project; otherwise the project and its tasks, all the caller's and in that project, newest first |
| Queries.GetOwnedTask | apps/tasks/views.py:58-59 | a task is found exactly when the caller owns a task with that id; the found task has that id and owner |
| Queries.OwnedLookupFinds | apps/tasks/views.py:58-59 | with unique ids, the caller's stored task is found under its own id |
| Queries.ForeignTaskLooksMissing | apps/tasks/views.py:89-90 | another user's task is indistinguishable from an absent one |
| Views.CreateTask | apps/tasks/views.py:68-70 | a submission is stored exactly when the form is valid; one task is appended: the cleaned submission owned by the caller, with a non-empty title and a due date not in the past; the other tasks are unchanged; an invalid form yields its errors |
| Views.CreateThenFind | apps/tasks/views.py:58-70 | with unique ids and a fresh id, ids stay unique and the detail lookup finds the created task for its owner |
| Views.ForeignProjectAccepted | apps/tasks/views.py:68-70 | as written, creation files a task under a project another user owns |
| Views.CreateTaskChecked | apps/tasks/views.py:68-70 | with the corrected choices, every created task's project belongs to the caller |
| Views.UpdateTask | apps/tasks/views.py:73-81 | not found exactly when the caller owns no task with that id; done exactly when found and the form is valid; a valid edit rewrites only that task with the cleaned data, keeping its id, owner and creation time; an invalid form yields its errors |
| Views.UpdateThenFind | apps/tasks/views.py:58-81 | with unique ids, an update keeps them unique and the detail lookup finds the task as edited |
| Views.ForeignProjectKeptOnUpdate | apps/tasks/views.py:73-81 | as written, an update moves the caller's task under a project another user owns |
| Views.UpdateTaskChecked | apps/tasks/views.py:73-81 | with the corrected choices, an edited task's project belongs to the caller |
| Views.DeleteTask | apps/tasks/views.py:89-90 | not found exactly when the caller owns no task with that id; otherwise exactly the tasks with other ids remain, and the store shrinks |
| Views.DeleteKeepsOthersTasks | apps/tasks/views.py:89-90 | with unique ids, deletion never removes another user's task |
| Views.ErrorMessages | apps/tasks/views.py:106-108 | one `field: error` message per form error, in order |
| Views.Submit | apps/tasks/views.py:98-108 | a valid form adds one task owned by the caller with the success message; an invalid one stores nothing and reports every error |
| Views.Ingest | apps/tasks/views.py:93-111 | nothing happens without POST; empty or missing text gives "Task text cannot be empty."; the store changes only by appending a task the caller owns |
| Views.ParsedInputAsWritten | apps/tasks/views.py:97-98 | the form data holds the parser's title, description and priority, no status or project, and no date exactly when the parser set none |
| Views.ParsedInput | apps/tasks/views.py:97-98 | the corrected form data differs only in the due date, which is read from the date part alone |
| Views.ParsedFormResult | apps/tasks/views.py:98-108 | on the parser's form data only title and due date can fail: valid exactly when both pass, keeping the priority; otherwise the title error, then the date error |
| Views.ParseCreateTask | apps/tasks/views.py:93-111 | as written: an added task is the caller's and is appended; a refusal stores nothing and gives one message per error |
| Views.ParseCreateTaskFixed | apps/tasks/views.py:93-111 | the same view with the date part of the due date handed to the form |
| Views.AsWrittenDateUnreadable | apps/tasks/views.py:97-98 | the parser's due date string is never a date to the date field |
| Views.AsWrittenSubmit | apps/tasks/views.py:98-108 | as written, the form refuses exactly the parsed fields that carry a due date or a null character in the title, with the null-character title error and then the date error |
| Views.AsWrittenRejectsTomorrow | apps/tasks/views.py:95-108 | as written, posted text is refused exactly when it mentions "tomorrow" or holds a null character, with "title: Null characters are not allowed." and then "due_date: Enter a valid date." as they apply; any other text is added |
| Views.DatePartReadable | apps/tasks/views.py:97-98 | the date part of the parser's due date reads as the day after today and passes `clean_due_date` |
| Views.FixedAddsParsedTask | apps/tasks/views.py:95-103 | corrected, posted parsable text is refused only for a null character, with that single title error; any other text becomes a task with the parser's title and priority, status "todo", no project, and tomorrow's date exactly when "tomorrow" is mentioned |
| Views.PriorityStaysLower | apps/tasks/views.py:97-98 | the priority field keeps the parser's priority unchanged |
| Views.ParsedTitleAccepted | apps/tasks/views.py:97-98 | the parser's title passes the title check exactly when the text holds no null character, and is never refused as required |
| Views.NoFormWithoutText | apps/tasks/views.py:94-110 | no form is built unless non-empty text is posted |
| Views.IngestNeverTitleRequired | apps/tasks/views.py:95-108 | free text never draws the required-title error |
| Views.BlankTextAdded | apps/tasks/views.py:96-103 | posted white space is added as "New Task" with no due date and medium priority |
| Views.IngestKeepsIdsUnique | apps/tasks/views.py:100-102 | with a fresh id, the store's ids stay unique |

## Left out

- Pagination (`paginate_by` 20 and 10): the page split is not modelled. `Queries.TasksPerPage` and `Queries.ProjectsPerPage` record the constants.
- `ProjectListView` and the `get_context_data` of the list views only prepare template context. They are not part of this model.
- Templates, redirects, the messages framework, crispy-forms layout, login checks and URL routing are outside the core. The `owner` parameter stands for the authenticated user.
- Storage mechanics and atomicity are not modelled. The store is a pair of sequences. The task id and creation time are parameters, because `uuid4` and the clock cannot be modelled as pure functions.
- The Task model file is not part of this model. The model assumes that description, priority and status are optional text fields, that priority defaults to "medium" and status to "todo", that the due date is a date field, and that the project is an optional foreign key (blank and null allowed). The model-level choice and length checks on priority and status are not modelled. Neither is Django's UUID normalisation of the `project` parameter: ids are opaque strings compared for equality.
- Forms.CleanTitle: a `max_length` on the title would be in the Task model, which is not part of this model, so over-long titles are accepted here.
- Forms.CleanPriorityField: priority and status are taken to be text fields that strip their value. If the Task model gave them choices, the form would refuse values outside those choices; that is not modelled.
- Forms.CleanDueDate: one `today` stands for both clocks. The parser uses `date.today()` (local time) and `clean_due_date` uses `timezone.now().date()` (UTC). The two can differ by a day around midnight, and the model does not represent that.
- Queries.ListTasks: a `project` parameter that is not a UUID makes the source's `filter(project__id=...)` raise a validation error, which becomes a server error. The model compares opaque ids and lists no tasks instead.
- Views.AsWrittenRejectsTomorrow: the result assumes that status and project (both left out of the parser's data) are optional in the Task model. If either were required, every parsed text would also draw "status: This field is required." or "project: This field is required.". It also assumes the title has no `max_length`; with one, a long enough text would also draw a title length error.
- Views.FixedAddsParsedTask: the same assumptions: status and project optional, no title `max_length`. Without the first no parsed text could be added; without the second a long enough text would be refused.
- Views.BlankTextAdded: the same assumption that status and project are optional.
- Views.ParsedTitleAccepted: assumes the title has no `max_length`; with one, a parsed title longer than the limit would also be refused.
- Forms.CleanProject: assumes the project foreign key allows blank; if it did not, an empty choice would draw "This field is required." instead of meaning no project.
- Text.Lower: only ASCII capitals are lower-cased, for both `str.lower()` and `icontains`. Full Unicode case mapping is left out.
- Forms.ReadFormDate: only the `%Y-%m-%d` input format is read, and only with zero-padded month and day. Django also reads unpadded dates such as "2026-1-5" and its other default date formats; the model counts them as unreadable.
- Queries.SortNewestFirst: `order_by` fixes no order among equal creation times. So the contract states a permutation in non-increasing creation time rather than a single sequence.
- Queries.ListTasks: contents are stated as counts per task (a multiset) in newest-first order. Tasks with equal creation times may appear in any order.
- Views.Ingest: `date.today() + timedelta(days=1)` overflows on 9999-12-31. This is modelled as the outcome `DateOverflow` rather than an exception.
- Views.Submit: the parse path never sends a project, so its project choices play no part. It keeps the as-written choices of all projects.
- Views.ParseCreateTask: GET requests and empty text only redirect. The model reports them as `NotPosted` and `EmptyText` without a redirect target.

## Findings

| source | as written | input that shows it | evidently intended | confidence | as-written member | corrected member |
|---|---|---|---|---|---|---|
| apps/tasks/views.py:97-98 | The parser's due date is a 19-character datetime string (`2026-10-11T17:00:00`). `TaskForm(parsed_data)` hands it to a `%Y-%m-%d` date field, which cannot read it. | posted text "Buy groceries tomorrow high priority" | a task due tomorrow is created | medium, not executed: the Task model is not part of this model, so the date field type is inferred from clean_due_date comparing the value with a date, and status is assumed optional | Views.AsWrittenRejectsTomorrow | Views.FixedAddsParsedTask |
| apps/tasks/forms.py:27 | The `project` choice of `TaskForm` is every stored project, so a user can file a task under another user's project. | a store with a project owned by user B; user A submits a valid task form naming that project | only the caller's own projects are accepted, so a task and its project share an owner | high, not executed | Views.ForeignProjectAccepted | Views.CreateTaskChecked |
| apps/tasks/views.py:73-81 | `TaskUpdateView` uses the same `TaskForm`, whose project choices are every stored project, so a user can move their own task under another user's project. | a store with a project owned by user B; user A edits their own task and names that project | only the caller's own projects are accepted on update too | high, not executed | Views.ForeignProjectKeptOnUpdate | Views.UpdateTaskChecked |
