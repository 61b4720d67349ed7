/** The handlers of the page as one object: the stored snapshot (`projects`,
    `tasks`) and the current project (`focus`, the page's `currentProjectId`).
    Each successful handler rewrites the snapshot and saves it, and saving
    re-runs the focus rule; a handler that fails saves nothing. */
module Engine {
  import opened Seqs
  import opened Text
  import opened Entities
  import opened Lifecycle

  class Workspace {
    var projects: seq<Project>
    var tasks: seq<Task>
    var focus: Option<Id>

    /** The focus never names anything but an active project. */
    ghost predicate Valid()
      reads this
    {
      FocusOk(projects, focus)
    }

    /** The initial load: read the stored snapshot (an empty one when nothing
        is stored) and run the focus rule with no current project. */
    constructor (stored: Option<(seq<Project>, seq<Task>)>)
      ensures projects == (if stored.Some? then stored.value.0 else [])
      ensures tasks == (if stored.Some? then stored.value.1 else [])
      ensures focus == ResolveFocus(projects, None)
      ensures Valid()
    {
      projects := if stored.Some? then stored.value.0 else [];
      tasks := if stored.Some? then stored.value.1 else [];
      focus := ResolveFocus(if stored.Some? then stored.value.0 else [], None);
    }

    /** The focus part of saving: keep, move or clear the current project. */
    method Refresh()
      modifies this`focus
      ensures focus == ResolveFocus(projects, old(focus))
      ensures Valid()
    {
      focus := ResolveFocus(projects, focus);
    }

    /** Clicking a project in the active list (or auto-selecting one). */
    method SelectProject(id: Id)
      requires HasActiveProject(projects, id)
      modifies this`focus
      ensures focus == Some(id)
      ensures Valid()
    {
      focus := Some(id);
    }

    /** The new-project form: the trimmed name must not be empty; the new
        project is appended, active, and becomes the current project. */
    method CreateProject(id: Id, rawName: string, now: Timestamp) returns (outcome: Outcome)
      requires Valid()
      modifies this
      ensures Valid()
      ensures old(Consistent(projects, tasks)) ==> Consistent(projects, tasks)
      ensures Trim(rawName) == [] ==> outcome == ValidationError && unchanged(this)
      ensures Trim(rawName) != [] ==>
        && outcome == Ok
        && projects == old(projects) + [Project(id, Trim(rawName), ProjectStatus.Active, now, None)]
        && tasks == old(tasks)
        && focus == (if id != 0 then Some(id) else ResolveFocus(projects, old(focus)))
    {
      var name := Trim(rawName);
      if name == [] {
        return ValidationError;
      }
      var project := Project(id, name, ProjectStatus.Active, now, None);
      if Consistent(projects, tasks) {
        AppendProjectKeepsConsistency(projects, tasks, project);
      }
      projects := projects + [project];
      assert projects[|projects| - 1] == project;
      Refresh();
      if id != 0 {
        SelectProject(id);
      }
      outcome := Ok;
    }

    /** The new-task form: the trimmed description must not be empty and the
        target id must be truthy, and an active project must have that id;
        the new task is appended, active and unchecked. */
    method CreateTask(id: Id, target: Option<Id>, rawDescription: string, now: Timestamp)
      returns (outcome: Outcome)
      requires Valid()
      modifies this
      ensures Valid()
      ensures old(Consistent(projects, tasks)) ==> Consistent(projects, tasks)
      ensures Trim(rawDescription) == [] || !Truthy(target) ==> outcome == ValidationError && unchanged(this)
      ensures Trim(rawDescription) != [] && Truthy(target) && !HasActiveProject(old(projects), target.value) ==>
        outcome == PreconditionError && unchanged(this)
      ensures Trim(rawDescription) != [] && Truthy(target) && HasActiveProject(old(projects), target.value) ==>
        && outcome == Ok
        && tasks == old(tasks) + [Task(id, target.value, Trim(rawDescription), false, TaskStatus.Active, now, None, None)]
        && projects == old(projects)
        && focus == ResolveFocus(projects, old(focus))
    {
      var description := Trim(rawDescription);
      if description == [] || !Truthy(target) {
        return ValidationError;
      }
      if !HasActiveProject(projects, target.value) {
        return PreconditionError;
      }
      var task := Task(id, target.value, description, false, TaskStatus.Active, now, None, None);
      if Consistent(projects, tasks) {
        AppendTaskKeepsConsistency(projects, tasks, task);
      }
      tasks := tasks + [task];
      Refresh();
      outcome := Ok;
    }

    /** The project's "Delete" button: the first project with that id goes to
        the bin, all of its tasks follow, and the focus is dropped if it was
        that project. */
    method SoftDeleteProject(pid: Id, now: Timestamp) returns (outcome: Outcome)
      requires Valid()
      modifies this
      ensures Valid()
      ensures old(Consistent(projects, tasks)) ==> Consistent(projects, tasks)
      ensures old(ProjectIndex(projects, pid)).None? ==> outcome == NotFoundError && unchanged(this)
      ensures old(ProjectIndex(projects, pid)).Some? ==>
        var k := old(ProjectIndex(projects, pid)).value;
        && outcome == Ok
        && projects == old(projects)[k := MarkProjectDeleted(old(projects)[k], now)]
        && tasks == SoftDeleteCascade(old(tasks), pid, now)
        && focus == ResolveFocus(projects, if old(focus) == Some(pid) then None else old(focus))
    {
      var index := ProjectIndex(projects, pid);
      if index.None? {
        return NotFoundError;
      }
      var k := index.value;
      if Consistent(projects, tasks) {
        SoftDeleteKeepsConsistency(projects, tasks, k, now);
      }
      projects := projects[k := MarkProjectDeleted(projects[k], now)];
      tasks := SoftDeleteCascade(tasks, pid, now);
      if focus == Some(pid) {
        focus := None;
      }
      Refresh();
      outcome := Ok;
    }

    /** The task checkbox: writes the flag, and moves an active task to
        completed when checked, a completed one back to active when unchecked. */
    method ToggleTaskComplete(tid: Id, checked: bool) returns (outcome: Outcome)
      requires Valid()
      modifies this
      ensures Valid()
      ensures old(Consistent(projects, tasks)) ==> Consistent(projects, tasks)
      ensures old(TaskIndex(tasks, tid)).None? ==> outcome == NotFoundError && unchanged(this)
      ensures old(TaskIndex(tasks, tid)).Some? ==>
        var i := old(TaskIndex(tasks, tid)).value;
        && outcome == Ok
        && tasks == old(tasks)[i := Toggled(old(tasks)[i], checked)]
        && projects == old(projects)
        && focus == ResolveFocus(projects, old(focus))
    {
      var index := TaskIndex(tasks, tid);
      if index.None? {
        return NotFoundError;
      }
      var i := index.value;
      if Consistent(projects, tasks) {
        ReplaceTaskKeepsConsistency(projects, tasks, i, Toggled(tasks[i], checked));
      }
      tasks := tasks[i := Toggled(tasks[i], checked)];
      Refresh();
      outcome := Ok;
    }

    /** The task's "Delete" button: the first task with that id goes to the
        bin, unchecked, with reason `individual_deletion`. */
    method SoftDeleteIndividualTask(tid: Id, now: Timestamp) returns (outcome: Outcome)
      requires Valid()
      modifies this
      ensures Valid()
      ensures old(Consistent(projects, tasks)) ==> Consistent(projects, tasks)
      ensures old(TaskIndex(tasks, tid)).None? ==> outcome == NotFoundError && unchanged(this)
      ensures old(TaskIndex(tasks, tid)).Some? ==>
        var i := old(TaskIndex(tasks, tid)).value;
        && outcome == Ok
        && tasks == old(tasks)[i := MarkTaskDeleted(old(tasks)[i], IndividualDeletion, now)]
        && projects == old(projects)
        && focus == ResolveFocus(projects, old(focus))
    {
      var index := TaskIndex(tasks, tid);
      if index.None? {
        return NotFoundError;
      }
      var i := index.value;
      if Consistent(projects, tasks) {
        ReplaceTaskKeepsConsistency(projects, tasks, i, MarkTaskDeleted(tasks[i], IndividualDeletion, now));
      }
      tasks := tasks[i := MarkTaskDeleted(tasks[i], IndividualDeletion, now)];
      Refresh();
      outcome := Ok;
    }

    /** "Recover Project": the first project with that id becomes active again,
        the tasks its soft delete sent to the bin come back, and it becomes the
        current project if the focus rule left none (or a falsy one). */
    method RecoverProject(pid: Id) returns (outcome: Outcome)
      requires Valid()
      modifies this
      ensures Valid()
      ensures old(Consistent(projects, tasks)) ==> Consistent(projects, tasks)
      ensures old(ProjectIndex(projects, pid)).None? ==> outcome == NotFoundError && unchanged(this)
      ensures old(ProjectIndex(projects, pid)).Some? ==>
        var k := old(ProjectIndex(projects, pid)).value;
        && outcome == Ok
        && projects == old(projects)[k := MarkProjectActive(old(projects)[k])]
        && tasks == RecoverCascade(old(tasks), pid)
        && focus == (var f := ResolveFocus(projects, old(focus)); if Truthy(f) then f else Some(pid))
    {
      var index := ProjectIndex(projects, pid);
      if index.None? {
        return NotFoundError;
      }
      var k := index.value;
      if Consistent(projects, tasks) {
        RecoverKeepsConsistency(projects, tasks, k);
      }
      projects := projects[k := MarkProjectActive(projects[k])];
      tasks := RecoverCascade(tasks, pid);
      Refresh();
      if !Truthy(focus) {
        assert projects[k].id == pid && projects[k].status.Active?;
        SelectProject(pid);
      }
      outcome := Ok;
    }

    /** "Delete Permanently" on a project in the bin: every project with that
        id and every task that refers to it leave the snapshot for good. */
    method PermanentlyDeleteProject(pid: Id) returns (outcome: Outcome)
      requires Valid()
      modifies this
      ensures Valid()
      ensures old(Consistent(projects, tasks)) ==> Consistent(projects, tasks)
      ensures old(ProjectIndex(projects, pid)).None? ==> outcome == NotFoundError && unchanged(this)
      ensures old(ProjectIndex(projects, pid)).Some? ==>
        && outcome == Ok
        && projects == WithoutProject(old(projects), pid)
        && tasks == WithoutTasksOf(old(tasks), pid)
        && focus == ResolveFocus(projects, if old(focus) == Some(pid) then None else old(focus))
    {
      if ProjectIndex(projects, pid).None? {
        return NotFoundError;
      }
      if Consistent(projects, tasks) {
        PermanentDeleteKeepsConsistency(projects, tasks, pid);
      }
      projects := WithoutProject(projects, pid);
      tasks := WithoutTasksOf(tasks, pid);
      if focus == Some(pid) {
        focus := None;
      }
      Refresh();
      outcome := Ok;
    }

    /** "Recover Task": refused unless the first project with the task's
        project id exists and is active; the task becomes active with its
        checkbox as it was. */
    method RecoverIndividualTask(tid: Id) returns (outcome: Outcome)
      requires Valid()
      modifies this
      ensures Valid()
      ensures old(Consistent(projects, tasks)) ==> Consistent(projects, tasks)
      ensures old(TaskIndex(tasks, tid)).None? ==> outcome == NotFoundError && unchanged(this)
      ensures old(TaskIndex(tasks, tid)).Some? ==>
        var i := old(TaskIndex(tasks, tid)).value;
        if !ParentIsActive(old(projects), old(tasks)[i].projectId) then
          outcome == PreconditionError && unchanged(this)
        else
          && outcome == Ok
          && tasks == old(tasks)[i := MarkTaskActive(old(tasks)[i])]
          && projects == old(projects)
          && focus == ResolveFocus(projects, old(focus))
    {
      var index := TaskIndex(tasks, tid);
      if index.None? {
        return NotFoundError;
      }
      var i := index.value;
      if !ParentIsActive(projects, tasks[i].projectId) {
        return PreconditionError;
      }
      if Consistent(projects, tasks) {
        ReplaceTaskKeepsConsistency(projects, tasks, i, MarkTaskActive(tasks[i]));
      }
      tasks := tasks[i := MarkTaskActive(tasks[i])];
      Refresh();
      outcome := Ok;
    }

    /** "Delete Permanently" on a task in the bin: every task with that id
        leaves the snapshot; nothing is saved when none had it. */
    method PermanentlyDeleteTask(tid: Id) returns (outcome: Outcome)
      requires Valid()
      modifies this
      ensures Valid()
      ensures old(Consistent(projects, tasks)) ==> Consistent(projects, tasks)
      ensures old(TaskIndex(tasks, tid)).None? ==> outcome == NotFoundError && unchanged(this)
      ensures old(TaskIndex(tasks, tid)).Some? ==>
        && outcome == Ok
        && tasks == WithoutTask(old(tasks), tid)
        && projects == old(projects)
        && focus == ResolveFocus(projects, old(focus))
    {
      var remaining := WithoutTask(tasks, tid);
      if |remaining| < |tasks| {
        if Consistent(projects, tasks) {
          RemoveTaskKeepsConsistency(projects, tasks, tid);
        }
        tasks := remaining;
        Refresh();
        outcome := Ok;
      } else {
        outcome := NotFoundError;
      }
    }
  }
}
