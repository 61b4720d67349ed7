# Project/task lifecycle engine — Dafny model

This project models the lifecycle engine of a single-page project manager (`script.js`).
The page keeps a snapshot `{projects, tasks}` in browser storage and a "current project" id in memory.
Every handler reads the snapshot, changes it and writes it back, and each write re-runs the rule that picks the current project.

The model has five modules, one per concern:

- `Seqs` (seqs.dfy): `Option`, plus `FirstIndex` and `Filter`. These stand for the `findIndex`/`find` and `filter` calls the handlers make. The lemmas show that filtering keeps each survivor's multiplicity and its order, and that the head of a filtered list is the first match.
- `Text` (text.dfy): `String.prototype.trim`. It strips the WhiteSpace and LineTerminator code points of the ECMAScript language specification. Both form handlers trim their input before checking that it is non-empty.
- `Entities` (entities.dfy): the `Project` and `Task` records, their statuses and deletion reasons, and the "well formed" predicates (deleted ⇔ has a reason ⇔ has a deletion time; completed ⇒ checked). It also holds the single-record transitions that the handlers write in place: `Toggled`, `MarkTaskDeleted`, `MarkTaskActive`, `MarkProjectDeleted` and `MarkProjectActive`.
- `Lifecycle` (lifecycle.dfy): the operations that rebuild a whole sequence. These are the two project cascades (`tasks.map`), the permanent deletions (`filter`) and the focus rule. The file also holds the lemmas relating these operations: recovery after soft delete, delete after create, order preservation and preservation of the consistency invariant.
- `Engine` (engine.dfy): class `Workspace` with fields `projects`, `tasks` and `focus`, and one method per handler. Each method's `ensures` gives the whole new state in terms of the functions above, or says that nothing changed on an error path. Each method also keeps two invariants:
  - the focus is `None` or an active project;
  - a consistent snapshot stays consistent (well-formed records, and no task whose project is missing).
  Each method returns an `Outcome`: whether the handler succeeded, or which error banner it shows.
- `Scenarios` (scenarios.dfy): client methods that drive a `Workspace` through the handlers. Each asserts the expected states, and the asserts are proved from the methods' contracts alone.

The model follows the code's details:

- JavaScript truthiness of ids: `null`, `NaN` and `0` are falsy (`Truthy`).
- `find`/`findIndex` act on the first matching record only, while `filter` removes every record with the id.
- A handler that fails does not save, so it leaves the focus alone too.

## Behaviour worth noting

The model follows the code in each case below.

- **The cascade overwrites individual deletions.** The soft-delete cascade (script.js:172-183) sets `deletedReason = project_soft_deleted` on every task of the project, including tasks already deleted individually. Recovering the project therefore brings those tasks back too: a task deleted on its own before its project was soft-deleted is active again once the project is recovered. `SoftDeleteThenRecover` proves this, and `Scenarios.LaunchScenario` walks through it.
- **Selecting a project is unchecked.** `selectProject` (script.js:112-134) sets the current project without looking it up, so it would accept an unknown or inactive id. All its callers pass an active project, so `SelectProject` requires one.
- **Focus after recovering a project.** The recovered project becomes current only when the focus rule, run by the save just before, leaves no truthy focus (script.js:366-371). Since the recovered project is itself active by then, the rule always picks some active project: the current one if it is still active, otherwise the first active project in the list. The recovered project is therefore selected by the handler's own branch only when the rule's pick has the falsy id 0.
- **New task without a selected project.** The handler reports a missing project id with the same message as an empty description (script.js:244, 259). The model reports both as `ValidationError`. `PreconditionError` is kept for an id that matches no active project.

## Model

| member | source | states |
|---|---|---|
| Seqs.FirstIndex | script.js:160 | the index found matches, nothing before it matches, and `None` exactly when nothing matches (`findIndex`'s -1) |
| Seqs.Filter | script.js:384-386 | the result holds only kept elements of the input, holds every kept element, is shorter exactly when some element is dropped, and is the input itself when nothing is dropped |
| Seqs.FilterCounts | script.js:384-386 | each kept value occurs as often as in the input, and a dropped value does not occur at all |
| Seqs.FilterAppend | script.js:384-386 | filtering distributes over concatenation, so the survivors keep their original order |
| Seqs.FilterHeadIsFirstMatch | script.js:42-50 | `filter(...)[0]` is the first matching element of the input, and the filtered list is empty when nothing matches |
| Text.TrimStart | script.js:138 | the result is a suffix of the input, what was dropped is all white space, and the result does not start with white space |
| Text.TrimEnd | script.js:138 | the result is a prefix of the input, what was dropped is all white space, and the result does not end with white space |
| Text.Trim | script.js:138-139 | the trimmed name has no white space at either end, and is empty exactly when the input is all white space (the rejected case) |
| Text.TrimIsSlice | script.js:138 | the trimmed string is a slice of the input, and everything outside the slice is white space |
| Text.TrimIdempotent | script.js:138 | trimming a trimmed string changes nothing |
| Entities.MarkProjectDeleted | script.js:167-168 | the project becomes deleted with `deletedAt` set to the given time, keeps its id, name and creation time, and is well formed |
| Entities.MarkProjectActive | script.js:349-350 | the project becomes active without `deletedAt`, keeps its id, name and creation time, and is well formed |
| Entities.ProjectRecoverUndoesDelete | script.js:349-350 | recovering a well-formed active project after soft-deleting it gives back the same project |
| Entities.Toggled | script.js:267-274 | the flag always equals the checkbox; a task that is not deleted ends up completed exactly when checked; a deleted task keeps its status; no other field changes; well-formedness is kept |
| Entities.ToggleRoundTrip | script.js:267-274 | checking then unchecking an active task brings it back active and unchecked |
| Entities.MarkTaskDeleted | script.js:285-288 | the task becomes deleted and unchecked, with the given reason and time; id, project, description and creation time are kept |
| Entities.MarkTaskActive | script.js:476-479 | the task becomes active with no reason and no deletion time; its checkbox and identity fields are kept |
| Entities.TaskRecoverAfterDelete | script.js:476-479 | recovering a deleted task gives it back active and unchecked, whatever its earlier state and the deletion reason |
| Entities.ProjectIndex | script.js:160 | the first project with the id, or `None` exactly when no project has it |
| Entities.TaskIndex | script.js:265 | the first task with the id, or `None` exactly when no task has it |
| Entities.ParentIsActive | script.js:470-471 | true exactly when the first project with the id exists and is active |
| Lifecycle.SoftDeleteCascade | script.js:172-183 | every task of the project becomes deleted, unchecked, with reason `project_soft_deleted` and the time, whatever its prior state; tasks of other projects are unchanged; well-formedness is kept |
| Lifecycle.RecoverCascade | script.js:353-364 | only tasks of the project with reason `project_soft_deleted` become active, with no reason, no time and their checkbox kept; every other task is unchanged |
| Lifecycle.SoftDeleteThenRecover | script.js:353-364 | soft delete then recovery returns every task of the project active and unchecked, including tasks deleted individually before, and leaves the tasks of other projects unchanged |
| Lifecycle.SoftDeleteKeepsConsistency | script.js:158-190 | soft-deleting a project keeps every record well formed and every task attached to an existing project |
| Lifecycle.RecoverKeepsConsistency | script.js:340-372 | recovering a project keeps every record well formed and every task attached to an existing project |
| Lifecycle.AppendProjectKeepsConsistency | script.js:141-147 | appending a new well-formed project keeps the snapshot consistent |
| Lifecycle.AppendTaskKeepsConsistency | script.js:246-254 | appending a well-formed task of an existing project keeps the snapshot consistent |
| Lifecycle.ReplaceTaskKeepsConsistency | script.js:267-272 | rewriting one task in place with the same project keeps the snapshot consistent |
| Lifecycle.RemoveTaskKeepsConsistency | script.js:488 | permanently deleting tasks keeps the snapshot consistent |
| Lifecycle.WithoutProject | script.js:384 | no project with the id is left, every other project stays, and nothing changes when no project had the id |
| Lifecycle.WithoutTasksOf | script.js:386 | every task of the project is gone whatever its status, and every other task stays |
| Lifecycle.WithoutTask | script.js:487-490 | no task with the id is left, every other task stays, and the list is shorter exactly when some task had the id (the found/not-found test) |
| Lifecycle.PermanentDeleteKeepsOrder | script.js:384-386 | the permanent deletions keep the surviving projects and tasks in their original order |
| Lifecycle.PermanentDeleteKeepsConsistency | script.js:384-386 | after a permanent project delete no task refers to a missing project, and all records stay well formed |
| Lifecycle.DeleteUndoesCreateTask | script.js:488 | permanently deleting a task just created with a fresh id gives back the earlier task list |
| Lifecycle.DeleteUndoesCreateProject | script.js:384-386 | permanently deleting a project just created with a fresh id gives back the earlier projects and tasks |
| Lifecycle.ActiveProjects | script.js:42 | exactly the active projects of the snapshot |
| Lifecycle.ActiveGateMatchesActiveFind | script.js:246 | the create-task gate (some project with the id is active) succeeds exactly when the focus rule's `find` over the active projects (lines 42-46) finds the id |
| Lifecycle.ResolveFocus | script.js:42-60 | the result is the focus if it is truthy and still an active project, else the first active project in snapshot order, else `None`; so it is always `None` or an active project |
| Lifecycle.ResolveFocusIdempotent | script.js:42-60 | resolving an already resolved focus changes nothing |
| Engine.Workspace.constructor | script.js:24-28 | the initial load: the stored snapshot, or an empty one, with the focus rule run on no current project |
| Engine.Workspace.Refresh | script.js:30-36 | saving re-runs the focus rule on the current snapshot |
| Engine.Workspace.SelectProject | script.js:112-134 | selecting an active project makes it the focus |
| Engine.Workspace.CreateProject | script.js:136-156 | an all-blank name is rejected with no change; otherwise the trimmed name is appended as an active project without `deletedAt`, and a truthy new id becomes the focus |
| Engine.Workspace.CreateTask | script.js:240-261 | an all-blank description or falsy target is rejected, and so is a target that is no active project, with no change; otherwise one active, unchecked task is appended |
| Engine.Workspace.SoftDeleteProject | script.js:158-190 | an unknown id changes nothing; otherwise the project goes to the bin with its tasks cascaded, and a focus on it is cleared before the focus rule runs |
| Engine.Workspace.ToggleTaskComplete | script.js:263-279 | an unknown id changes nothing; otherwise only that task changes, as `Toggled` says |
| Engine.Workspace.SoftDeleteIndividualTask | script.js:281-294 | an unknown id changes nothing; otherwise only that task changes: deleted, unchecked, reason `individual_deletion` |
| Engine.Workspace.RecoverProject | script.js:340-372 | an unknown id changes nothing; otherwise the project becomes active, the recovery cascade runs, and the project becomes the focus if the focus rule left none |
| Engine.Workspace.PermanentlyDeleteProject | script.js:374-393 | an unknown id changes nothing; otherwise the project and all its tasks leave the snapshot, and a focus on it is cleared before the focus rule runs |
| Engine.Workspace.RecoverIndividualTask | script.js:461-483 | an unknown task changes nothing; a missing or inactive parent is refused with no change; otherwise only that task becomes active, with its checkbox kept |
| Engine.Workspace.PermanentlyDeleteTask | script.js:485-496 | an unknown id changes nothing (nothing is saved); otherwise every task with the id leaves the snapshot |

## Left out

- Rendering and event wiring are not modelled: `displayProjects`, `displayTasks`, `displayDeletedProjects`, `displayTaskRecycleBin`, `fetchTasksForCurrentProject`, the class toggling and `console.warn` in `selectProject`, and `escapeHTML`. These only present the snapshot.
- The recycle bin disables "Recover Task" for tasks whose parent is not active. This is presentation only; `RecoverIndividualTask` makes the same check itself.
- `displayMessage` and its `setTimeout` are not modelled. Each method returns instead whether it succeeded or which error banner it would show (`Outcome`). Success banners are not distinguished: the checkbox handler shows one only when the task's status changes (script.js:267-275), and otherwise saves silently; both are `Ok`.
- `localStorage`, `JSON.parse` and `JSON.stringify` are not modelled. The stored snapshot is the `projects`/`tasks` fields. Writing `undefined` drops the key, which is modelled as `None`.
- The `confirm()` prompts are not modelled. Confirmation happens before the handler is called.
- `Date.now()` ids and `new Date().toISOString()` times are not computed. The caller passes them as parameters.
- Engine.Workspace.SoftDeleteProject: one time stamps the project and all its tasks. The source reads the clock once per cascaded task, so those stamps may differ by milliseconds.
- Display sorting by parsed dates (script.js:209, 306, 406) is not modelled. It orders views, not the stored snapshot.
- `parseInt` of the hidden form field is not modelled. `CreateTask` takes the parsed value as `Option<Id>`, where `None` stands for `NaN`. That field always holds the current focus.
- Status or reason strings outside the enumerations cannot be represented. The handlers never write such values; only data loaded from elsewhere could hold them.
- Export and import of snapshots are not part of this model. They do not appear in `script.js`.
