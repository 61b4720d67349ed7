/** Client scenarios: what a caller can conclude from the handlers'
    contracts alone. */
module Scenarios {
  import opened Seqs
  import opened Text
  import opened Entities
  import opened Engine

  /** Create "Launch" in an empty workspace: it is stored trimmed and
      becomes the current project. */
  method CreateScenario()
  {
    assert !IsWhiteSpace("Launch"[0]);
    var w := new Workspace(None);
    var outcome := w.CreateProject(1, "Launch", "t0");
    assert outcome == Ok;
    assert w.projects == [Project(1, Trim("Launch"), ProjectStatus.Active, "t0", None)];
    assert w.tasks == [] && w.focus == Some(1);
  }

  /** Continue from there: add "Write copy" to "Launch", delete that task on
      its own, and try to add a task with no current project. */
  method TaskScenario()
  {
    assert !IsWhiteSpace("Write copy"[0]);
    var p := Project(1, "Launch", ProjectStatus.Active, "t0", None);
    var w := new Workspace(Some(([p], [])));
    var outcome := w.CreateTask(2, w.focus, "Write copy", "t1");
    ghost var t := Task(2, 1, Trim("Write copy"), false, TaskStatus.Active, "t1", None, None);
    assert w.projects == [p] && w.tasks == [t];
    outcome := w.SoftDeleteIndividualTask(2, "t2");
    assert w.tasks == [MarkTaskDeleted(t, IndividualDeletion, "t2")];
    outcome := w.CreateTask(3, None, "Write copy", "t3");
    assert outcome == ValidationError;
  }

  /** Continue from there: move "Launch" to the bin and recover it. The
      project's cascade overwrote the task's own deletion reason, so the task
      comes back active with the project; while the project is in the bin the
      task cannot be recovered on its own. */
  method LaunchScenario()
  {
    var p := Project(1, "Launch", ProjectStatus.Active, "t0", None);
    var t := Task(2, 1, "Write copy", false, TaskStatus.Deleted, "t1", Some(IndividualDeletion), Some("t2"));
    var w := new Workspace(Some(([p], [t])));
    assert w.focus == Some(1);
    var outcome := w.SoftDeleteProject(1, "t3");
    assert |w.tasks| == 1 && w.tasks[0].deletedReason == Some(ProjectSoftDeleted);
    assert w.projects[0].status.Deleted? && w.focus == None;
    outcome := w.RecoverIndividualTask(2);
    assert outcome == PreconditionError;
    outcome := w.RecoverProject(1);
    assert w.tasks[0].status.Active? && !w.tasks[0].isCompleted;
    assert w.focus == Some(1);
  }

  /** Permanently deleting a project in the bin removes its tasks too, and
      the focus moves to the remaining active project. */
  method PermanentDeleteScenario()
  {
    var a := Project(1, "A", ProjectStatus.Deleted, "t0", Some("t2"));
    var b := Project(5, "B", ProjectStatus.Active, "t1", None);
    var t := Task(2, 1, "X", false, TaskStatus.Deleted, "t1", Some(ProjectSoftDeleted), Some("t2"));
    var w := new Workspace(Some(([a, b], [t])));
    var outcome := w.PermanentlyDeleteProject(1);
    assert outcome == Ok;
    assert w.tasks == [];
    assert b in w.projects && a !in w.projects;
    assert w.focus == Some(5);
  }
}
