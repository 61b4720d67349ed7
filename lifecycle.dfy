/** The whole-sequence rebuilds of the engine: the two project cascades
    (`tasks.map(...)`), the permanent deletions (`filter(...)`), and the rule
    that picks the current project after every save. */
module Lifecycle {
  import opened Seqs
  import opened Entities

  predicate AllProjectsWellFormed(ps: seq<Project>)
  {
    forall i :: 0 <= i < |ps| ==> ProjectWellFormed(ps[i])
  }

  predicate AllTasksWellFormed(ts: seq<Task>)
  {
    forall i :: 0 <= i < |ts| ==> TaskWellFormed(ts[i])
  }

  /** Every task belongs to a project that is still in the snapshot. */
  predicate NoOrphans(ps: seq<Project>, ts: seq<Task>)
  {
    forall i :: 0 <= i < |ts| ==> HasProject(ps, ts[i].projectId)
  }

  /** The snapshot invariant the handlers keep. */
  predicate Consistent(ps: seq<Project>, ts: seq<Task>)
  {
    AllProjectsWellFormed(ps) && AllTasksWellFormed(ts) && NoOrphans(ps, ts)
  }

  // ---------------------------------------------------------------------
  // Project soft delete and recovery cascades
  // ---------------------------------------------------------------------

  /** Soft-deleting project `pid` sends every one of its tasks to the bin with
      reason `project_soft_deleted`, unchecked, whatever state it was in; the
      tasks of other projects are untouched. */
  function SoftDeleteCascade(ts: seq<Task>, pid: Id, now: Timestamp): (r: seq<Task>)
    ensures |r| == |ts|
    ensures forall i :: 0 <= i < |ts| ==> SameTask(r[i], ts[i])
    ensures forall i :: 0 <= i < |ts| && ts[i].projectId == pid ==>
      && r[i].status.Deleted? && !r[i].isCompleted
      && r[i].deletedReason == Some(ProjectSoftDeleted) && r[i].deletedAt == Some(now)
    ensures forall i :: 0 <= i < |ts| && ts[i].projectId != pid ==> r[i] == ts[i]
    ensures AllTasksWellFormed(ts) ==> AllTasksWellFormed(r)
  {
    seq(|ts|, i requires 0 <= i < |ts| =>
      if ts[i].projectId == pid then MarkTaskDeleted(ts[i], ProjectSoftDeleted, now) else ts[i])
  }

  /** Recovering project `pid` restores only those of its tasks whose reason
      is `project_soft_deleted`, keeping their checkbox; tasks deleted on
      their own, and all tasks of other projects, are untouched. */
  function RecoverCascade(ts: seq<Task>, pid: Id): (r: seq<Task>)
    ensures |r| == |ts|
    ensures forall i :: 0 <= i < |ts| ==> SameTask(r[i], ts[i])
    ensures forall i :: 0 <= i < |ts| && ts[i].projectId == pid && ts[i].deletedReason == Some(ProjectSoftDeleted) ==>
      && r[i].status.Active? && r[i].deletedReason.None? && r[i].deletedAt.None?
      && r[i].isCompleted == ts[i].isCompleted
    ensures forall i :: 0 <= i < |ts| && (ts[i].projectId != pid || ts[i].deletedReason != Some(ProjectSoftDeleted)) ==>
      r[i] == ts[i]
    ensures AllTasksWellFormed(ts) ==> AllTasksWellFormed(r)
  {
    seq(|ts|, i requires 0 <= i < |ts| =>
      if ts[i].projectId == pid && ts[i].deletedReason == Some(ProjectSoftDeleted)
      then MarkTaskActive(ts[i]) else ts[i])
  }

  /** Soft delete followed by recovery brings back EVERY task of the project
      active and unchecked, including tasks that had been deleted on their
      own or completed before: the first cascade overwrote their reason. */
  lemma SoftDeleteThenRecover(ts: seq<Task>, pid: Id, now: Timestamp)
    ensures var r := RecoverCascade(SoftDeleteCascade(ts, pid, now), pid);
      && |r| == |ts|
      && (forall i :: 0 <= i < |ts| && ts[i].projectId == pid ==>
            r[i] == ts[i].(status := TaskStatus.Active, isCompleted := false, deletedReason := None, deletedAt := None))
      && (forall i :: 0 <= i < |ts| && ts[i].projectId != pid ==> r[i] == ts[i])
  {
    var d := SoftDeleteCascade(ts, pid, now);
    var r := RecoverCascade(d, pid);
    forall i | 0 <= i < |ts| && ts[i].projectId == pid
      ensures r[i] == ts[i].(status := TaskStatus.Active, isCompleted := false, deletedReason := None, deletedAt := None)
    {
      assert d[i] == MarkTaskDeleted(ts[i], ProjectSoftDeleted, now);
      TaskRecoverAfterDelete(ts[i], ProjectSoftDeleted, now);
    }
  }

  /** The soft-delete cascade keeps the snapshot consistent. */
  lemma SoftDeleteKeepsConsistency(ps: seq<Project>, ts: seq<Task>, k: nat, now: Timestamp)
    requires Consistent(ps, ts) && k < |ps|
    ensures Consistent(ps[k := MarkProjectDeleted(ps[k], now)], SoftDeleteCascade(ts, ps[k].id, now))
  {
    SameIdsKeepReferences(ps, ps[k := MarkProjectDeleted(ps[k], now)], ts, SoftDeleteCascade(ts, ps[k].id, now));
  }

  /** The recovery cascade keeps the snapshot consistent. */
  lemma RecoverKeepsConsistency(ps: seq<Project>, ts: seq<Task>, k: nat)
    requires Consistent(ps, ts) && k < |ps|
    ensures Consistent(ps[k := MarkProjectActive(ps[k])], RecoverCascade(ts, ps[k].id))
  {
    SameIdsKeepReferences(ps, ps[k := MarkProjectActive(ps[k])], ts, RecoverCascade(ts, ps[k].id));
  }

  /** Appending a well-formed project keeps the snapshot consistent. */
  lemma AppendProjectKeepsConsistency(ps: seq<Project>, ts: seq<Task>, p: Project)
    requires Consistent(ps, ts) && ProjectWellFormed(p)
    ensures Consistent(ps + [p], ts)
  {
    SameIdsKeepReferences(ps, ps, ts, ts);
    forall i | 0 <= i < |ts| ensures HasProject(ps + [p], ts[i].projectId) {
      var j :| 0 <= j < |ps| && ps[j].id == ts[i].projectId;
      assert (ps + [p])[j] == ps[j];
    }
  }

  /** Appending a well-formed task of an existing project keeps the snapshot
      consistent. */
  lemma AppendTaskKeepsConsistency(ps: seq<Project>, ts: seq<Task>, t: Task)
    requires Consistent(ps, ts) && TaskWellFormed(t) && HasProject(ps, t.projectId)
    ensures Consistent(ps, ts + [t])
  {
  }

  /** Rewriting one task in place, keeping its project, keeps the snapshot
      consistent when the new record is well formed. */
  lemma ReplaceTaskKeepsConsistency(ps: seq<Project>, ts: seq<Task>, i: nat, t: Task)
    requires Consistent(ps, ts) && i < |ts| && t.projectId == ts[i].projectId
    requires TaskWellFormed(ts[i]) ==> TaskWellFormed(t)
    ensures Consistent(ps, ts[i := t])
  {
    SameIdsKeepReferences(ps, ps, ts, ts[i := t]);
  }

  /** Removing tasks keeps the snapshot consistent. */
  lemma RemoveTaskKeepsConsistency(ps: seq<Project>, ts: seq<Task>, tid: Id)
    requires Consistent(ps, ts)
    ensures Consistent(ps, WithoutTask(ts, tid))
  {
    var r := WithoutTask(ts, tid);
    forall i | 0 <= i < |r| ensures HasProject(ps, r[i].projectId) && TaskWellFormed(r[i]) {
      assert r[i] in ts;
    }
  }

  /** Rewriting records in place without touching ids or project references
      keeps every task attached to a project. */
  lemma SameIdsKeepReferences(ps: seq<Project>, ps': seq<Project>, ts: seq<Task>, ts': seq<Task>)
    requires NoOrphans(ps, ts)
    requires |ps'| == |ps| && forall j :: 0 <= j < |ps| ==> ps'[j].id == ps[j].id
    requires |ts'| == |ts| && forall i :: 0 <= i < |ts| ==> ts'[i].projectId == ts[i].projectId
    ensures NoOrphans(ps', ts')
  {
    forall i | 0 <= i < |ts'| ensures HasProject(ps', ts'[i].projectId) {
      var j :| 0 <= j < |ps| && ps[j].id == ts[i].projectId;
      assert ps'[j].id == ts'[i].projectId;
    }
  }

  // ---------------------------------------------------------------------
  // Permanent deletion
  // ---------------------------------------------------------------------

  /** `projects.filter(p => p.id !== pid)`: no project with that id is left,
      every other project stays (in order, by `FilterAppend`). */
  function WithoutProject(ps: seq<Project>, pid: Id): (r: seq<Project>)
    ensures forall p :: p in r ==> p in ps && p.id != pid
    ensures forall i :: 0 <= i < |ps| && ps[i].id != pid ==> ps[i] in r
    ensures (forall i :: 0 <= i < |ps| ==> ps[i].id != pid) ==> r == ps
  {
    var keep := (p: Project) => p.id != pid;
    Filter(ps, keep)
  }

  /** `tasks.filter(task => task.projectId !== pid)`: every task of the project
      goes, whatever its status, and every other task stays. */
  function WithoutTasksOf(ts: seq<Task>, pid: Id): (r: seq<Task>)
    ensures forall t :: t in r ==> t in ts && t.projectId != pid
    ensures forall i :: 0 <= i < |ts| && ts[i].projectId != pid ==> ts[i] in r
    ensures (forall i :: 0 <= i < |ts| ==> ts[i].projectId != pid) ==> r == ts
  {
    var keep := (t: Task) => t.projectId != pid;
    Filter(ts, keep)
  }

  /** `tasks.filter(task => task.id !== tid)`: shorter exactly when some task
      had that id, and then no task with it is left. */
  function WithoutTask(ts: seq<Task>, tid: Id): (r: seq<Task>)
    ensures forall t :: t in r ==> t in ts && t.id != tid
    ensures forall i :: 0 <= i < |ts| && ts[i].id != tid ==> ts[i] in r
    ensures |r| < |ts| <==> TaskIndex(ts, tid).Some?
    ensures TaskIndex(ts, tid).None? ==> r == ts
  {
    var keep := (t: Task) => t.id != tid;
    Filter(ts, keep)
  }

  /** The permanent deletions keep the survivors in their original order:
      they distribute over any split of the snapshot. */
  lemma PermanentDeleteKeepsOrder(ps: seq<Project>, ps': seq<Project>, ts: seq<Task>, ts': seq<Task>, pid: Id, tid: Id)
    ensures WithoutProject(ps + ps', pid) == WithoutProject(ps, pid) + WithoutProject(ps', pid)
    ensures WithoutTasksOf(ts + ts', pid) == WithoutTasksOf(ts, pid) + WithoutTasksOf(ts', pid)
    ensures WithoutTask(ts + ts', tid) == WithoutTask(ts, tid) + WithoutTask(ts', tid)
  {
    FilterAppend(ps, ps', (p: Project) => p.id != pid);
    FilterAppend(ts, ts', (t: Task) => t.projectId != pid);
    FilterAppend(ts, ts', (t: Task) => t.id != tid);
  }

  /** Permanently deleting a project keeps the snapshot consistent: no task is
      left pointing at it, and every surviving task's project survives. */
  lemma {:induction false} PermanentDeleteKeepsConsistency(ps: seq<Project>, ts: seq<Task>, pid: Id)
    requires Consistent(ps, ts)
    ensures Consistent(WithoutProject(ps, pid), WithoutTasksOf(ts, pid))
  {
    var ps', ts' := WithoutProject(ps, pid), WithoutTasksOf(ts, pid);
    forall i | 0 <= i < |ts'| ensures HasProject(ps', ts'[i].projectId) {
      var t := ts'[i];
      assert t in ts;
      var k :| 0 <= k < |ts| && ts[k] == t;
      var j :| 0 <= j < |ps| && ps[j].id == t.projectId;
      assert ps[j] in ps';
      var j' :| 0 <= j' < |ps'| && ps'[j'] == ps[j];
    }
    forall j | 0 <= j < |ps'| ensures ProjectWellFormed(ps'[j]) {
      assert ps'[j] in ps;
    }
    forall i | 0 <= i < |ts'| ensures TaskWellFormed(ts'[i]) {
      assert ts'[i] in ts;
    }
  }

  /** Creating a task and permanently deleting it gives back the task list it
      was created in, when its id was new. */
  lemma {:induction false} DeleteUndoesCreateTask(ts: seq<Task>, t: Task)
    requires TaskIndex(ts, t.id).None?
    ensures WithoutTask(ts + [t], t.id) == ts
  {
    var keep := (x: Task) => x.id != t.id;
    FilterAppend(ts, [t], keep);
  }

  /** Creating a project and permanently deleting it gives back the snapshot
      it was created in, when its id was new (no task can refer to it). */
  lemma {:induction false} DeleteUndoesCreateProject(ps: seq<Project>, ts: seq<Task>, p: Project)
    requires !HasProject(ps, p.id) && NoOrphans(ps, ts)
    ensures WithoutProject(ps + [p], p.id) == ps
    ensures WithoutTasksOf(ts, p.id) == ts
  {
    var keep := (x: Project) => x.id != p.id;
    FilterAppend(ps, [p], keep);
  }

  // ---------------------------------------------------------------------
  // The current project
  // ---------------------------------------------------------------------

  predicate IsActiveProject(p: Project)
  {
    p.status.Active?
  }

  /** `projects.filter(p => p.status === 'active')` */
  function ActiveProjects(ps: seq<Project>): (r: seq<Project>)
    ensures forall p :: p in r ==> p in ps && p.status.Active?
    ensures forall i :: 0 <= i < |ps| && ps[i].status.Active? ==> ps[i] in r
  {
    Filter(ps, IsActiveProject)
  }

  /** The create-task gate `projects.some(p => p.id === id && p.status ===
      'active')` agrees with the focus rule's `find` over the active
      projects: one succeeds exactly when the other does. */
  lemma ActiveGateMatchesActiveFind(ps: seq<Project>, id: Id)
    ensures HasActiveProject(ps, id) <==> ProjectIndex(ActiveProjects(ps), id).Some?
  {
    var a := ActiveProjects(ps);
    if HasActiveProject(ps, id) {
      var j :| 0 <= j < |ps| && ps[j].id == id && ps[j].status.Active?;
      assert ps[j] in a;
    }
    if ProjectIndex(a, id).Some? {
      assert a[ProjectIndex(a, id).value] in ps;
    }
  }

  /** The focus is nothing, or an active project. */
  predicate FocusOk(ps: seq<Project>, focus: Option<Id>)
  {
    focus.Some? ==> HasActiveProject(ps, focus.value)
  }

  /** The focus rule run after every save: keep the current project if it is
      (truthy and) still active, else take the first active project in
      snapshot order, else clear the focus. */
  function ResolveFocus(ps: seq<Project>, focus: Option<Id>): (r: Option<Id>)
    ensures FocusOk(ps, r)
    ensures r.None? <==> forall i :: 0 <= i < |ps| ==> !ps[i].status.Active?
    ensures Truthy(focus) && HasActiveProject(ps, focus.value) ==> r == focus
    ensures !(Truthy(focus) && HasActiveProject(ps, focus.value)) ==>
      r == match FirstIndex(ps, IsActiveProject)
           case None => None
           case Some(k) => Some(ps[k].id)
  {
    var active := ActiveProjects(ps);
    FilterHeadIsFirstMatch(ps, IsActiveProject);
    var kept := if Truthy(focus) then ProjectIndex(active, focus.value) else None;
    if kept.Some? then
      assert active[kept.value] in ps;
      Some(active[kept.value].id)
    else
      if |active| > 0 then
        assert active[0] in ps;
        Some(active[0].id)
      else None
  }

  /** Resolving an already resolved focus changes nothing. */
  lemma ResolveFocusIdempotent(ps: seq<Project>, focus: Option<Id>)
    ensures ResolveFocus(ps, ResolveFocus(ps, focus)) == ResolveFocus(ps, focus)
  {
  }
}
