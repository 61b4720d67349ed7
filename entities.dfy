/** The two record kinds of the stored snapshot, their statuses, and the
    single-record state transitions the handlers apply. */
module Entities {
  import opened Seqs

  /** Ids are the numbers `Date.now()` produced when the record was created. */
  type Id = int

  /** ISO-8601 strings from `new Date().toISOString()`, passed in by the caller. */
  type Timestamp = string

  /** Projects have no completed state. */
  datatype ProjectStatus = Active | Deleted

  datatype TaskStatus = Active | Completed | Deleted

  datatype DeletedReason = IndividualDeletion | ProjectSoftDeleted

  datatype Project = Project(
    id: Id,
    name: string,
    status: ProjectStatus,
    createdAt: Timestamp,
    deletedAt: Option<Timestamp>)

  datatype Task = Task(
    id: Id,
    projectId: Id,
    description: string,
    isCompleted: bool,
    status: TaskStatus,
    createdAt: Timestamp,
    deletedReason: Option<DeletedReason>,
    deletedAt: Option<Timestamp>)

  /** Whether a handler succeeded, or which of its error banners it shows.
      `Ok` does not say whether a success banner appears: the checkbox
      handler shows one only when the task's status changes. */
  datatype Outcome = Ok | ValidationError | PreconditionError | NotFoundError

  /** Truthiness of an id held in a nullable variable or parsed from a form
      field: `null`, `NaN` (both `None` here) and `0` are falsy. */
  predicate Truthy(id: Option<Id>)
  {
    id.Some? && id.value != 0
  }

  /** A project is deleted exactly when it carries a deletion time. */
  predicate ProjectWellFormed(p: Project)
  {
    p.status.Deleted? <==> p.deletedAt.Some?
  }

  /** A task is deleted exactly when it carries a deletion reason, exactly
      when it carries a deletion time; a completed task is checked off. */
  predicate TaskWellFormed(t: Task)
  {
    && (t.status.Deleted? <==> t.deletedReason.Some?)
    && (t.deletedReason.Some? <==> t.deletedAt.Some?)
    && (t.status.Completed? ==> t.isCompleted)
  }

  /** The fields no handler ever rewrites. */
  predicate SameTask(a: Task, b: Task)
  {
    a.id == b.id && a.projectId == b.projectId && a.description == b.description && a.createdAt == b.createdAt
  }

  predicate SameProject(a: Project, b: Project)
  {
    a.id == b.id && a.name == b.name && a.createdAt == b.createdAt
  }

  /** Moving a project to the recycle bin. */
  function MarkProjectDeleted(p: Project, now: Timestamp): (r: Project)
    ensures r.status.Deleted? && r.deletedAt == Some(now)
    ensures SameProject(r, p)
    ensures ProjectWellFormed(r)
  {
    p.(status := ProjectStatus.Deleted, deletedAt := Some(now))
  }

  /** Taking a project out of the recycle bin. */
  function MarkProjectActive(p: Project): (r: Project)
    ensures r.status.Active? && r.deletedAt.None?
    ensures SameProject(r, p)
    ensures ProjectWellFormed(r)
  {
    p.(status := ProjectStatus.Active, deletedAt := None)
  }

  /** Recovering a project undoes moving it to the bin. */
  lemma ProjectRecoverUndoesDelete(p: Project, now: Timestamp)
    requires ProjectWellFormed(p) && p.status.Active?
    ensures MarkProjectActive(MarkProjectDeleted(p, now)) == p
  {
  }

  /** The checkbox handler: the flag always follows the checkbox; a task
      that is not deleted is completed exactly when checked; a deleted task
      keeps its status. */
  function Toggled(t: Task, checked: bool): (r: Task)
    ensures r.isCompleted == checked
    ensures t.status.Deleted? ==> r.status == t.status
    ensures !t.status.Deleted? ==> !r.status.Deleted? && (r.status.Completed? <==> checked)
    ensures r.(isCompleted := t.isCompleted, status := t.status) == t
    ensures TaskWellFormed(t) ==> TaskWellFormed(r)
  {
    var r := t.(isCompleted := checked);
    if checked && t.status.Active? then r.(status := TaskStatus.Completed)
    else if !checked && t.status.Completed? then r.(status := TaskStatus.Active)
    else r
  }

  /** Checking then unchecking an active task brings it back active and unchecked. */
  lemma ToggleRoundTrip(t: Task)
    requires t.status.Active?
    ensures Toggled(Toggled(t, true), false) == t.(isCompleted := false)
  {
  }

  /** Moving a task to the recycle bin, for either reason: it is no longer
      considered done. */
  function MarkTaskDeleted(t: Task, reason: DeletedReason, now: Timestamp): (r: Task)
    ensures r.status.Deleted? && !r.isCompleted
    ensures r.deletedReason == Some(reason) && r.deletedAt == Some(now)
    ensures SameTask(r, t)
    ensures TaskWellFormed(r)
  {
    t.(status := TaskStatus.Deleted, isCompleted := false, deletedReason := Some(reason), deletedAt := Some(now))
  }

  /** Taking a task out of the recycle bin: its checkbox is left as it was. */
  function MarkTaskActive(t: Task): (r: Task)
    ensures r.status.Active? && r.deletedReason.None? && r.deletedAt.None?
    ensures r.isCompleted == t.isCompleted
    ensures SameTask(r, t)
    ensures TaskWellFormed(r)
  {
    t.(status := TaskStatus.Active, deletedReason := None, deletedAt := None)
  }

  /** Deleting then recovering a task returns it active and unchecked, whatever
      state it was in before and for either deletion reason. */
  lemma TaskRecoverAfterDelete(t: Task, reason: DeletedReason, now: Timestamp)
    ensures MarkTaskActive(MarkTaskDeleted(t, reason, now))
         == t.(status := TaskStatus.Active, isCompleted := false, deletedReason := None, deletedAt := None)
  {
  }

  /** `projects.findIndex(p => p.id === id)` */
  function ProjectIndex(ps: seq<Project>, id: Id): (r: Option<nat>)
    ensures r.Some? ==> r.value < |ps| && ps[r.value].id == id
    ensures r.Some? ==> forall j :: 0 <= j < r.value ==> ps[j].id != id
    ensures r.None? <==> forall j :: 0 <= j < |ps| ==> ps[j].id != id
  {
    FirstIndex(ps, (p: Project) => p.id == id)
  }

  /** `tasks.findIndex(t => t.id === id)` */
  function TaskIndex(ts: seq<Task>, id: Id): (r: Option<nat>)
    ensures r.Some? ==> r.value < |ts| && ts[r.value].id == id
    ensures r.Some? ==> forall j :: 0 <= j < r.value ==> ts[j].id != id
    ensures r.None? <==> forall j :: 0 <= j < |ts| ==> ts[j].id != id
  {
    FirstIndex(ts, (t: Task) => t.id == id)
  }

  /** `projects.some(p => p.id === id && p.status === 'active')`: some
      record with the id, not necessarily the first, is active. */
  predicate HasActiveProject(ps: seq<Project>, id: Id)
  {
    exists j :: 0 <= j < |ps| && ps[j].id == id && ps[j].status.Active?
  }

  predicate HasProject(ps: seq<Project>, id: Id)
  {
    exists j :: 0 <= j < |ps| && ps[j].id == id
  }

  /** `projects.find(p => p.id === id)` exists and is active: the gate on
      recovering a task. Only the first project with that id is looked at. */
  function ParentIsActive(ps: seq<Project>, id: Id): (r: bool)
    ensures r <==> exists k :: 0 <= k < |ps| && ps[k].id == id && ps[k].status.Active?
                                && forall j :: 0 <= j < k ==> ps[j].id != id
    ensures r ==> HasActiveProject(ps, id)
    ensures !HasProject(ps, id) ==> !r
  {
    match ProjectIndex(ps, id)
    case None => false
    case Some(k) => ps[k].status.Active?
  }
}
