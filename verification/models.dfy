/** The stored records: tasks and projects, each owned by one user, and the
    store that holds them. Ids are UUIDs, kept here as opaque strings. */
module Models {
  import opened Optional
  import opened Calendar

  /** What the task model stores for a priority or status that a submission
      leaves out. */
  const DefaultTaskStatus := "todo"
  const DefaultTaskPriority := "medium"

  datatype Task = Task(
    id: string,
    owner: string,
    title: string,
    description: string,
    dueDate: Option<Date>,
    priority: string,
    status: string,
    project: Option<string>,
    createdAt: int)

  /** The cleaned data (`form.cleaned_data`) of a valid task form, which
      `form.save()` writes into a task; `None` for a priority or status the
      submission left out, which the model then does not set. */
  datatype CleanedTask = CleanedTask(
    title: string,
    description: string,
    dueDate: Option<Date>,
    priority: Option<string>,
    status: Option<string>,
    project: Option<string>)

  datatype Project = Project(id: string, owner: string, title: string, description: string)

  datatype Store = Store(tasks: seq<Task>, projects: seq<Project>)

  /** Primary keys are unique. */
  predicate UniqueIds(tasks: seq<Task>) {
    forall i, j :: 0 <= i < j < |tasks| ==> tasks[i].id != tasks[j].id
  }

  predicate HasTaskId(tasks: seq<Task>, id: string) {
    exists i :: 0 <= i < |tasks| && tasks[i].id == id
  }

  /** The project choices of the task form: every project in the store. */
  function ProjectIds(projects: seq<Project>): (ids: set<string>)
    ensures forall i :: 0 <= i < |projects| ==> projects[i].id in ids
    ensures forall id :: id in ids ==> exists i :: 0 <= i < |projects| && projects[i].id == id
  {
    set p | p in projects :: p.id
  }

  /** The ids of the projects `owner` owns: the project choices the form
      should offer that user. */
  function OwnedProjectIds(projects: seq<Project>, owner: string): (ids: set<string>)
    ensures forall i :: 0 <= i < |projects| && projects[i].owner == owner ==> projects[i].id in ids
    ensures forall id :: id in ids ==> exists i :: 0 <= i < |projects| && projects[i].id == id && projects[i].owner == owner
  {
    set p | p in projects && p.owner == owner :: p.id
  }

  /** `form.save(commit=False)` on a new instance, then the view's
      `task.owner = request.user`: the cleaned fields, the model's defaults
      for omitted ones, and the store-managed id and creation time. */
  function NewTask(cleaned: CleanedTask, owner: string, id: string, now: int): (t: Task)
    ensures t.id == id && t.owner == owner && t.createdAt == now
    ensures t.title == cleaned.title && t.description == cleaned.description
            && t.dueDate == cleaned.dueDate && t.project == cleaned.project
    ensures cleaned.priority.Some? ==> t.priority == cleaned.priority.value
    ensures cleaned.priority.None? ==> t.priority == DefaultTaskPriority
    ensures cleaned.status.Some? ==> t.status == cleaned.status.value
    ensures cleaned.status.None? ==> t.status == DefaultTaskStatus
  {
    Task(id, owner, cleaned.title, cleaned.description, cleaned.dueDate,
         cleaned.priority.GetOr(DefaultTaskPriority), cleaned.status.GetOr(DefaultTaskStatus),
         cleaned.project, now)
  }

  /** `form.save()` on an existing instance: the submitted fields replace
      the stored ones; an omitted priority or status keeps its value. */
  function EditTask(task: Task, cleaned: CleanedTask): (t: Task)
    ensures t.id == task.id && t.owner == task.owner && t.createdAt == task.createdAt
    ensures t.title == cleaned.title && t.description == cleaned.description
            && t.dueDate == cleaned.dueDate && t.project == cleaned.project
    ensures cleaned.priority.Some? ==> t.priority == cleaned.priority.value
    ensures cleaned.priority.None? ==> t.priority == task.priority
    ensures cleaned.status.Some? ==> t.status == cleaned.status.value
    ensures cleaned.status.None? ==> t.status == task.status
  {
    task.(title := cleaned.title, description := cleaned.description, dueDate := cleaned.dueDate,
          priority := cleaned.priority.GetOr(task.priority), status := cleaned.status.GetOr(task.status),
          project := cleaned.project)
  }

  /** Saving the same cleaned data twice is saving it once. */
  lemma EditTwiceIsEditOnce(task: Task, cleaned: CleanedTask)
    ensures EditTask(EditTask(task, cleaned), cleaned) == EditTask(task, cleaned)
  {
  }

  /** Editing a task created from some cleaned data with that same data
      leaves it as it is. */
  lemma EditWithOwnDataKeepsTask(cleaned: CleanedTask, owner: string, id: string, now: int)
    ensures EditTask(NewTask(cleaned, owner, id, now), cleaned) == NewTask(cleaned, owner, id, now)
  {
  }
}
