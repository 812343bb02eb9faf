/** The read side of the task views: the owner-scoped, filtered, searched
    and newest-first task listing, the same listing inside one project, and
    the owner-scoped lookup behind the detail, update and delete views. */
module Queries {
  import opened Optional
  import opened Text
  import opened Models

  /** `paginate_by` of the task list and project list views. */
  const TasksPerPage := 20
  const ProjectsPerPage := 10

  /** The GET parameters `status`, `priority`, `project` and `q`. */
  datatype ListParams = ListParams(status: Option<string>, priority: Option<string>, project: Option<string>, q: Option<string>)

  /** A parameter restricts the listing only when present and non-empty. */
  predicate Given(p: Option<string>) {
    p.Some? && p.value != ""
  }

  /** `Q(title__icontains=q) | Q(description__icontains=q)`. */
  predicate MatchesSearch(t: Task, q: string) {
    ContainsIgnoreCase(t.title, q) || ContainsIgnoreCase(t.description, q)
  }

  /** The criteria besides ownership, each one only when given. */
  predicate MatchesParams(t: Task, params: ListParams) {
    (Given(params.status) ==> t.status == params.status.value)
    && (Given(params.priority) ==> t.priority == params.priority.value)
    && (Given(params.project) ==> t.project == params.project)
    && (Given(params.q) ==> MatchesSearch(t, params.q.value))
  }

  /** Which tasks the listing shows: the caller's own, meeting every given
      criterion. */
  predicate Selected(t: Task, owner: string, params: ListParams) {
    t.owner == owner && MatchesParams(t, params)
  }

  /** `queryset.filter(...)`: keeps exactly the tasks `keep` accepts, each as
      often as it occurs. */
  function Filter(s: seq<Task>, keep: Task -> bool): (r: seq<Task>)
    ensures |r| <= |s|
    ensures (exists t :: t in s && !keep(t)) ==> |r| < |s|
    ensures forall t: Task :: multiset(r)[t] == if keep(t) then multiset(s)[t] else 0
    ensures forall t: Task :: t in r <==> t in s && keep(t)
  {
    if s == [] then []
    else
      var rest := Filter(s[1..], keep);
      assert s == [s[0]] + s[1..];
      if keep(s[0]) then [s[0]] + rest else rest
  }

  /** The optional filters of `get_queryset`, applied in the source's order. */
  function ApplyFilters(s: seq<Task>, params: ListParams): (r: seq<Task>)
    ensures forall t: Task :: multiset(r)[t] == if MatchesParams(t, params) then multiset(s)[t] else 0
  {
    var a := if Given(params.status) then Filter(s, (t: Task) => t.status == params.status.value) else s;
    var b := if Given(params.priority) then Filter(a, (t: Task) => t.priority == params.priority.value) else a;
    var c := if Given(params.project) then Filter(b, (t: Task) => t.project == params.project) else b;
    if Given(params.q) then Filter(c, (t: Task) => MatchesSearch(t, params.q.value)) else c
  }

  /** `order_by('-created_at')`: newest first. */
  predicate NewestFirst(s: seq<Task>) {
    forall i, j :: 0 <= i < j < |s| ==> s[i].createdAt >= s[j].createdAt
  }

  function Insert(t: Task, s: seq<Task>): (r: seq<Task>)
    requires NewestFirst(s)
    ensures |r| == |s| + 1
    ensures r[0] == t || (s != [] && r[0] == s[0])
    ensures NewestFirst(r)
    ensures multiset(r) == multiset(s) + multiset{t}
  {
    if s == [] || t.createdAt >= s[0].createdAt then
      ConsNewestFirst(t, s);
      [t] + s
    else
      var rest := Insert(t, s[1..]);
      assert s == [s[0]] + s[1..];
      assert multiset(s) == multiset{s[0]} + multiset(s[1..]);
      ConsNewestFirst(s[0], rest);
      [s[0]] + rest
  }

  /** A task no older than the head of a newest-first sequence can go in
      front of it. */
  lemma ConsNewestFirst(x: Task, s: seq<Task>)
    requires NewestFirst(s) && (s != [] ==> s[0].createdAt <= x.createdAt)
    ensures NewestFirst([x] + s)
  {
    var r := [x] + s;
    forall i, j | 0 <= i < j < |r|
      ensures r[i].createdAt >= r[j].createdAt
    {
      assert r[j] == s[j - 1];
      if i > 0 {
        assert r[i] == s[i - 1];
      } else if j > 1 {
        assert s[0].createdAt >= s[j - 1].createdAt;
      }
    }
  }

  /** The ordering step: a newest-first permutation of its input. */
  function SortNewestFirst(s: seq<Task>): (r: seq<Task>)
    ensures NewestFirst(r)
    ensures multiset(r) == multiset(s)
  {
    if s == [] then []
    else
      assert s == [s[0]] + s[1..];
      Insert(s[0], SortNewestFirst(s[1..]))
  }

  /** `TaskListView.get_queryset`: the caller's tasks meeting every given
      criterion, each exactly as often as stored, newest first. */
  function ListTasks(tasks: seq<Task>, owner: string, params: ListParams): (r: seq<Task>)
    ensures NewestFirst(r)
    ensures forall t: Task :: multiset(r)[t] == if Selected(t, owner, params) then multiset(tasks)[t] else 0
    ensures forall t: Task :: t in r <==> t in tasks && Selected(t, owner, params)
  {
    var mine := Filter(tasks, (t: Task) => t.owner == owner);
    var r := SortNewestFirst(ApplyFilters(mine, params));
    assert forall t: Task :: t in r <==> multiset(r)[t] > 0;
    r
  }

  /** The task listing of `ProjectDetailView`: the project's tasks that the
      caller owns, under the status, priority and search filters (a
      `project` parameter plays no part), newest first. */
  function ProjectTasks(tasks: seq<Task>, owner: string, projectId: string, params: ListParams): (r: seq<Task>)
    ensures NewestFirst(r)
    ensures forall t: Task :: t in r ==> t in tasks && t.owner == owner && t.project == Some(projectId)
  {
    var inProject := Filter(tasks, (t: Task) => t.project == Some(projectId) && t.owner == owner);
    var r := SortNewestFirst(ApplyFilters(inProject, params.(project := None)));
    assert forall t: Task :: t in r <==> multiset(r)[t] > 0;
    r
  }

  /** The `get_queryset` of `ProjectDetailView` followed by `get_object`:
      the caller's project with that id, if there is one. */
  function GetOwnedProject(projects: seq<Project>, owner: string, id: string): (r: Option<Project>)
    ensures r.Some? ==> r.value in projects && r.value.id == id && r.value.owner == owner
    ensures r.None? <==> forall p :: p in projects && p.id == id ==> p.owner != owner
  {
    if projects == [] then None
    else if projects[0].id == id && projects[0].owner == owner then Some(projects[0])
    else
      assert projects == [projects[0]] + projects[1..];
      GetOwnedProject(projects[1..], owner, id)
  }

  /** `ProjectDetailView`: not found unless the caller owns the project;
      otherwise the project with its filtered, newest-first tasks, all of
      them the caller's and the project's. */
  function ProjectDetail(store: Store, owner: string, projectId: string, params: ListParams): (r: Option<(Project, seq<Task>)>)
    ensures r.None? <==> forall p :: p in store.projects && p.id == projectId ==> p.owner != owner
    ensures r.Some? ==> r.value.0 in store.projects && r.value.0.owner == owner && r.value.0.id == projectId
    ensures r.Some? ==> NewestFirst(r.value.1)
    ensures r.Some? ==> forall t :: t in r.value.1 ==> t in store.tasks && t.owner == owner && t.project == Some(projectId)
  {
    match GetOwnedProject(store.projects, owner, projectId)
    case None => None
    case Some(project) => Some((project, ProjectTasks(store.tasks, owner, project.id, params)))
  }

  /** Without parameters the listing is all of the caller's tasks. */
  lemma NoParamsListsAllOwned(tasks: seq<Task>, owner: string, params: ListParams)
    requires !Given(params.status) && !Given(params.priority) && !Given(params.project) && !Given(params.q)
    ensures multiset(ListTasks(tasks, owner, params)) == multiset(Filter(tasks, (t: Task) => t.owner == owner))
  {
    var r := ListTasks(tasks, owner, params);
    var mine := Filter(tasks, (t: Task) => t.owner == owner);
    forall t: Task
      ensures multiset(r)[t] == multiset(mine)[t]
    {
      assert MatchesParams(t, params);
    }
  }

  /** One parameter set narrows another when it keeps each of the other's
      given parameters. */
  predicate Narrows(narrow: ListParams, wide: ListParams) {
    (Given(wide.status) ==> narrow.status == wide.status)
    && (Given(wide.priority) ==> narrow.priority == wide.priority)
    && (Given(wide.project) ==> narrow.project == wide.project)
    && (Given(wide.q) ==> narrow.q == wide.q)
  }

  /** Adding parameters only removes tasks from the listing. */
  lemma NarrowerListsFewer(tasks: seq<Task>, owner: string, narrow: ListParams, wide: ListParams)
    requires Narrows(narrow, wide)
    ensures forall t: Task :: multiset(ListTasks(tasks, owner, narrow))[t] <= multiset(ListTasks(tasks, owner, wide))[t]
  {
    var n := ListTasks(tasks, owner, narrow);
    var w := ListTasks(tasks, owner, wide);
    forall t: Task
      ensures multiset(n)[t] <= multiset(w)[t]
    {
      if Selected(t, owner, narrow) {
        assert Selected(t, owner, wide);
      }
    }
  }

  /** Other users' tasks never change what the caller is shown. */
  lemma ForeignTasksInvisible(tasks: seq<Task>, others: seq<Task>, owner: string, params: ListParams)
    requires forall t: Task :: t in others ==> t.owner != owner
    ensures multiset(ListTasks(tasks + others, owner, params)) == multiset(ListTasks(tasks, owner, params))
  {
    var with := ListTasks(tasks + others, owner, params);
    var without := ListTasks(tasks, owner, params);
    forall t: Task
      ensures multiset(with)[t] == multiset(without)[t]
    {
      assert multiset(tasks + others) == multiset(tasks) + multiset(others);
      if t.owner == owner {
        assert t !in others;
      }
    }
  }

  lemma SearchSelects(t: Task, owner: string, params: ListParams, q: string)
    requires Given(params.q) && q != "" && Lower(q) == Lower(params.q.value)
    ensures Selected(t, owner, params.(q := Some(q))) == Selected(t, owner, params)
  {
    assert MatchesSearch(t, q) == MatchesSearch(t, params.q.value);
  }

  /** The search ignores the case of the query. */
  lemma SearchIgnoresCase(tasks: seq<Task>, owner: string, params: ListParams, q: string)
    requires Given(params.q) && q != "" && Lower(q) == Lower(params.q.value)
    ensures multiset(ListTasks(tasks, owner, params.(q := Some(q)))) == multiset(ListTasks(tasks, owner, params))
  {
    var a := ListTasks(tasks, owner, params.(q := Some(q)));
    var b := ListTasks(tasks, owner, params);
    forall t: Task
      ensures multiset(a)[t] == multiset(b)[t]
    {
      SearchSelects(t, owner, params, q);
    }
  }

  /** The project page lists exactly what the task list shows for that
      project with the same filters. */
  lemma ProjectTasksAreFilteredList(tasks: seq<Task>, owner: string, projectId: string, params: ListParams)
    requires projectId != ""
    ensures multiset(ProjectTasks(tasks, owner, projectId, params)) == multiset(ListTasks(tasks, owner, params.(project := Some(projectId))))
  {
    var keep := (t: Task) => t.project == Some(projectId) && t.owner == owner;
    var inProject := Filter(tasks, keep);
    var filtered := ApplyFilters(inProject, params.(project := None));
    var p := ProjectTasks(tasks, owner, projectId, params);
    var l := ListTasks(tasks, owner, params.(project := Some(projectId)));
    assert multiset(p) == multiset(filtered);
    forall t: Task
      ensures multiset(p)[t] == multiset(l)[t]
    {
      assert Selected(t, owner, params.(project := Some(projectId)))
        == (keep(t) && MatchesParams(t, params.(project := None)));
    }
  }

  /** The `get_queryset` of the detail, update and delete views followed by
      `get_object`: the caller's task with that id, if there is one. */
  function GetOwnedTask(tasks: seq<Task>, owner: string, id: string): (r: Option<Task>)
    ensures r.Some? ==> r.value in tasks && r.value.id == id && r.value.owner == owner
    ensures r.None? <==> forall t: Task :: t in tasks && t.id == id ==> t.owner != owner
  {
    if tasks == [] then None
    else if tasks[0].id == id && tasks[0].owner == owner then Some(tasks[0])
    else
      assert tasks == [tasks[0]] + tasks[1..];
      GetOwnedTask(tasks[1..], owner, id)
  }

  /** Another user's task is indistinguishable from a missing one: the
      lookup answers as if it were not stored. */
  lemma {:induction false} ForeignTaskLooksMissing(tasks: seq<Task>, owner: string, id: string, i: nat)
    requires i < |tasks| && tasks[i].owner != owner
    ensures GetOwnedTask(tasks, owner, id) == GetOwnedTask(tasks[..i] + tasks[i + 1..], owner, id)
  {
    var dropped := tasks[..i] + tasks[i + 1..];
    if i == 0 {
      assert dropped == tasks[1..];
    } else {
      var rest := tasks[1..];
      ForeignTaskLooksMissing(rest, owner, id, i - 1);
      assert dropped[0] == tasks[0];
      assert dropped[1..] == rest[..i - 1] + rest[i..];
    }
  }

  /** With unique ids, the lookup finds the caller's stored task under its
      own id. */
  lemma {:induction false} OwnedLookupFinds(tasks: seq<Task>, owner: string, i: nat)
    requires UniqueIds(tasks) && i < |tasks| && tasks[i].owner == owner
    ensures GetOwnedTask(tasks, owner, tasks[i].id) == Some(tasks[i])
  {
    if i > 0 {
      var rest := tasks[1..];
      assert tasks[0].id != tasks[i].id;
      assert UniqueIds(rest) by {
        forall a, b | 0 <= a < b < |rest|
          ensures rest[a].id != rest[b].id
        {
          assert rest[a] == tasks[a + 1] && rest[b] == tasks[b + 1];
        }
      }
      OwnedLookupFinds(rest, owner, i - 1);
      assert rest[i - 1] == tasks[i];
    }
  }
}
