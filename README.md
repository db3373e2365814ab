# Task-list engine: a Dafny model

This project models the core of a personal checklist manager. Its state is one
flat, ordered list of task records. A task marked as a *headline* is a grouping
marker. Every other task belongs to the nearest headline at or before its
position, or to no headline. There are no parent pointers.

The model has five modules:

- `Seqs` (`seqs.dfy`): the JavaScript `map`, `filter` and `every` the engine is
  written with, on sequences, with their characterising contracts.
- `Tasks` (`tasks.dfy`): the `Task` record, id predicates (`HasId`,
  `UniqueIds`, `SameShape`) and `findIndex`.
- `UseTasks` (`use_tasks.dfy`): the store hook. Each update body (append,
  toggle `map`, delete `filter`, edit `map`) is a pure function with lemmas. The
  class `TaskStore` holds the single `tasks` state cell. Its methods replace that
  cell with those functions' results.
- `App` (`app.dfy`): `isSubTaskOf` is modelled as the loop method `IsSubTaskOf`,
  proved equal to the function `SubTaskOf`. It also holds a linear forward-pass
  resolver `Owners`, proved to agree with the backward scan when ids are
  unique, and `checkAllSubTasks` (the cascade toggle) as the function
  `CheckedAllSubTasks` plus the method `CheckAllSubTasks`, which commits it to
  the store.
- `TaskListSection` (`task_list_section.dfy`): the completed and total counts
  and the condition for showing the progress line.

Modelling choices:

- `createdAt` is a `Timestamp(millis)`, the engine only copies it.
- `crypto.randomUUID()` becomes a caller-supplied id. `TaskStore.AddTask`
  requires it to be fresh (not in the list), which is what a random UUID gives.
- `new Date()` becomes a caller-supplied timestamp.
- `findIndex` is modelled exactly: the first position with the id, or -1.
  `isSubTaskOf` therefore matches the code even when ids repeat. The results
  that need one position per id say `UniqueIds` in their `requires`.
- A stricter store would reject a `reorder` that is not a permutation, and
  would report an error when `toggle` or `checkAllSubTasks` is given a missing
  id. The code does none of this: `reorderTasks` and `setTasks` store whatever
  they are given, and the map-based updates leave the list unchanged for a
  missing id. The model follows the code (`TaskStore.ReorderTasks`,
  `UseTasks.ToggledAbsent`, `App.CheckedAbsent`).
- With unique ids, if the id names a non-headline task, the code's
  `checkAllSubTasks` does not skip it: nothing is its subtask, so it sets that
  one task to not completed (`App.CheckedNonHeadline`). A no-op would be the
  natural alternative; the code does not do that. With repeated ids the same
  call can complete tasks too, which is why that lemma requires `UniqueIds` (`App.CheckedRepeatedId`).

## Model

| member | source | states |
|---|---|---|
| `Seqs.Map` | src/hooks/useTasks.ts:29-31 | `s.map(f)`: same length, element `i` of the result is `f(s[i])` |
| `Seqs.Filter` | src/hooks/useTasks.ts:36 | `s.filter(p)`: no longer than `s`; every kept element is in `s` and passes `p`; every element of `s` that passes is kept |
| `Seqs.Every` | src/App.tsx:95-97 | `s.every(p)` holds iff every element passes `p` (true on the empty list) |
| `Seqs.FilterConcat` | src/hooks/useTasks.ts:36 | filtering `a + b` is filtering `a` then `b`: survivors keep their relative order |
| `Seqs.FilterLength` | src/components/TaskListSection.tsx:32-33 | the length of a filter equals the number of positions whose element passes |
| `Tasks.FindIndex` | src/App.tsx:110 | `findIndex` by id: -1 iff no task has the id, otherwise a position holding it with no earlier position holding it |
| `Tasks.FindIndexUnique` | src/App.tsx:110 | with unique ids, `findIndex` of a task's id is that task's own position |
| `UseTasks.NewTask` | src/hooks/useTasks.ts:14-23 | the `newTask` literal: the created task is not completed (its other fields are the supplied ones; `AddedNewTask` gives its place in the list) |
| `UseTasks.AddedNewTask` | src/hooks/useTasks.ts:14-24 | with unique ids and a fresh id, appending the new task keeps ids unique and `findIndex` finds it at the last position, not completed |
| `UseTasks.Added` | src/hooks/useTasks.ts:24 | `[...prev, newTask]`: length grows by one, the old list is an unchanged prefix, the last element is the new task |
| `UseTasks.Toggled` | src/hooks/useTasks.ts:27-33 | same length and order; `completed` flips exactly on the tasks carrying the id; every other field and every other task is identical |
| `UseTasks.Deleted` | src/hooks/useTasks.ts:35-37 | no task with the id remains; every task without that id is kept; nothing new appears |
| `UseTasks.Edited` | src/hooks/useTasks.ts:39-51 | same length; `id`, `completed`, `isHeadline`, `createdAt` kept everywhere; matching tasks get the new `text`, `codeBlock`, `richText`, `optional`; other tasks untouched |
| `UseTasks.AddedPreservesUniqueIds` | src/hooks/useTasks.ts:14-24 | appending a task with a fresh id keeps ids unique |
| `UseTasks.ToggledTwice` | src/hooks/useTasks.ts:29-31 | toggling the same id twice returns the original list |
| `UseTasks.ToggledAbsent` | src/hooks/useTasks.ts:29-31 | toggling an id no task has leaves the list unchanged |
| `UseTasks.ToggledSameShape` | src/hooks/useTasks.ts:29-31 | toggling keeps ids and headline flags position by position, so unique ids stay unique |
| `UseTasks.DeletedAbsent` | src/hooks/useTasks.ts:36 | deleting an id no task has leaves the list unchanged |
| `UseTasks.DeletedAt` | src/hooks/useTasks.ts:35-37 | with unique ids, deleting the task at position k yields exactly the tasks before k followed by the tasks after k; a deleted headline's followers stay |
| `UseTasks.DeletedPreservesUniqueIds` | src/hooks/useTasks.ts:36 | deleting keeps ids unique |
| `UseTasks.EditedSameShape` | src/hooks/useTasks.ts:46-50 | editing keeps ids and headline flags position by position, so unique ids stay unique |
| `UseTasks.EditedIdempotent` | src/hooks/useTasks.ts:46-50 | applying the same edit twice equals applying it once |
| `UseTasks.TaskStore.constructor` | src/hooks/useTasks.ts:5 | the store starts with the empty list |
| `UseTasks.TaskStore.AddTask` | src/hooks/useTasks.ts:7-25 | given a fresh id, the state becomes the old list plus one new not-completed task with the given fields; unique ids stay unique |
| `UseTasks.TaskStore.ToggleTask` | src/hooks/useTasks.ts:27-33 | the state becomes `Toggled` of the old state; unique ids stay unique |
| `UseTasks.TaskStore.DeleteTask` | src/hooks/useTasks.ts:35-37 | the state becomes `Deleted` of the old state; unique ids stay unique |
| `UseTasks.TaskStore.EditTask` | src/hooks/useTasks.ts:39-51 | the state becomes `Edited` of the old state; unique ids stay unique |
| `UseTasks.TaskStore.ReorderTasks` | src/hooks/useTasks.ts:53-55 | the state becomes exactly the supplied list, with no permutation check |
| `UseTasks.TaskStore.SetTasks` | src/hooks/useTasks.ts:59 | wholesale replacement by the supplied list (also the import and example-loading path, src/App.tsx:131 and :143) |
| `App.NearestHeadline` | src/App.tsx:111-115 | the position found scanning backward from i is a headline with no headline after it up to i; none found means no headline at or before i |
| `App.NearestHeadlineId` | src/App.tsx:111-115 | the id of the headline the backward scan stops at, if any; that id is carried by some task of the list |
| `App.SubTaskOf` | src/App.tsx:108-117 | the value of `isSubTaskOf`: when it holds, the task is not a headline, its id and `headlineId` both occur in the list; `SubTaskOfNearest` and `SubTaskOfAt` characterise it both ways |
| `App.SubTaskOfNearest` | src/App.tsx:108-117 | `isSubTaskOf` holds iff the task is not a headline and a headline carrying the id sits at or before the task id's first position with no headline in between |
| `App.IsSubTaskOf` | src/App.tsx:108-117 | the decrementing loop with early return computes exactly `SubTaskOf` |
| `App.HeadlineIsNoSubTask` | src/App.tsx:109 | a headline is never a subtask |
| `App.SubTaskOfAt` | src/App.tsx:110-116 | with unique ids, a listed task is a subtask of H iff it is not a headline and the nearest headline at or before its own position has id H; with no headline before it, it is a subtask of nothing |
| `App.NoSuchHeadline` | src/App.tsx:112-113 | when no headline carries H, nothing is a subtask of H |
| `App.SubTaskOfSameShape` | src/App.tsx:108-117 | grouping depends only on ids and headline flags |
| `App.StoreUpdatesKeepGrouping` | src/hooks/useTasks.ts:27-50 | toggling and editing never change which headline a task belongs to |
| `App.OwnersFrom` | src/App.tsx:108-117 | the forward pass yields one owner entry per remaining position |
| `App.Owners` | src/App.tsx:108-117 | the forward pass yields one owner entry per task |
| `App.OwnersAt` | src/App.tsx:108-117 | the forward pass gives each non-headline task the id of the nearest headline at or before it, and nothing to a headline |
| `App.OwnersAgree` | src/App.tsx:108-117 | with unique ids, the linear forward pass and the quadratic backward scan agree on every task |
| `App.DeletedLeavesNoSubTasks` | src/hooks/useTasks.ts:35-37 | after deleting id H, no task is a subtask of H |
| `App.NearestHeadlineAfterRemoval` | src/hooks/useTasks.ts:35-37 | removing the nearest headline of position i makes the nearest headline of the shifted position the one before the removed headline |
| `App.DeletedHeadlineRegroups` | src/hooks/useTasks.ts:35-37 | deleting a headline keeps each former subtask in the list one place earlier, now grouped under the headline preceding the deleted one, if any |
| `App.InGroup` | src/App.tsx:100 | the update condition (the task carries H, or `isSubTaskOf` holds for H): a headline is in H's group only when it is H itself; `InGroupAt` and `CheckedKeepsGroup` characterise it |
| `App.InGroupAt` | src/App.tsx:100 | with unique ids, a task is in H's group iff it carries H or it is not a headline and the nearest headline at or before it carries H |
| `App.AllSubTasksCompleted` | src/App.tsx:95-97 | `isAllCompleted` holds iff every subtask of H is completed (vacuously true with none) |
| `App.CheckedAllSubTasks` | src/App.tsx:93-106 | length and every field except `completed` kept; H's task and its subtasks get `!isAllCompleted` (completed when some subtask is not, cleared otherwise); all other tasks unchanged |
| `App.CheckedKeepsGroup` | src/App.tsx:99-104 | the cascade keeps ids, headline flags and unique ids, so the same tasks form H's group afterwards |
| `App.CheckedGroupAgrees` | src/App.tsx:99-101 | after one call H's task and all its subtasks share one `completed` value |
| `App.CheckedTwice` | src/App.tsx:95-101 | starting with some subtask not completed, two calls leave the group not completed and everything else as it was |
| `App.CheckedTwiceFromCompleted` | src/App.tsx:95-101 | starting with at least one subtask, all completed, two calls leave the group completed and everything else as it was |
| `App.CheckedAbsent` | src/App.tsx:100-103 | when no task has id H, the list is unchanged |
| `App.CheckedNonHeadline` | src/App.tsx:95-101 | with unique ids and H naming a non-headline task, only that task changes, to not completed |
| `App.CheckedRepeatedId` | src/App.tsx:95-101 | with a headline and a non-headline task both carrying "x", one call on "x" completes both tasks: without unique ids a non-headline id can complete tasks |
| `App.CheckedScenario` | src/App.tsx:93-106 | for headline h1 owning a and b, all not completed: one call completes all three, a second call restores the original list |
| `App.CheckAllSubTasks` | src/App.tsx:93-106 | the store's state becomes `CheckedAllSubTasks` of the old state; unique ids stay unique |
| `TaskListSection.CompletedTasks` | src/components/TaskListSection.tsx:32 | equals the number of positions holding a completed non-headline task |
| `TaskListSection.TotalTasks` | src/components/TaskListSection.tsx:33 | equals the number of positions holding a non-headline task |
| `TaskListSection.ShowProgress` | src/components/TaskListSection.tsx:37-39 | the progress line shows iff some task is not a headline (so the list is non-empty and the total positive) |
| `TaskListSection.CompletedAtMostTotal` | src/components/TaskListSection.tsx:32-33 | completed count never exceeds total count |
| `TaskListSection.HeadlineCompletionIgnored` | src/components/TaskListSection.tsx:32-33 | changing `completed` on a headline changes neither count |
| `TaskListSection.ToggleCounts` | src/components/TaskListSection.tsx:32-33 | toggling a non-headline task (unique ids) keeps the total and moves the completed count by one in the matching direction |
| `TaskListSection.AddCounts` | src/components/TaskListSection.tsx:32-33 | adding a task keeps the completed count and raises the total by one iff the new task is not a headline |
| `TaskListSection.EditCounts` | src/components/TaskListSection.tsx:32-33 | editing changes neither count |

## Left out

- Fetching the predefined task lists (`fetchTaskLists`, `TaskListSelector.handleImport`): network I/O, `Promise.all` and JSON/`Date` parsing. The model covers an import only as the wholesale `SetTasks`.
- The snapshot export/import in `Header` (`JSON.stringify`/`JSON.parse`, `FileReader`, a DOM download). Its only logic, "replace the list with `parsed.data` when present", is `SetTasks`.
- `SettingsModal`: it clears browser storage and caches, which is all browser I/O.
- The tour flags in `localStorage`, `window.location.reload`, modal visibility and the error banner: UI and persistence plumbing.
- The drag-and-drop, rich-text and code-block widgets, and the `isIndented` presentation flag.
- `crypto.randomUUID` and `new Date()`: foreign calls. They appear as a supplied fresh id and a supplied timestamp. The model does not track ids issued earlier and then deleted.
- React's asynchronous batching of `setTasks` updaters: each store method applies its update at once.
- `src/types/task.ts` is not part of this model. The `Task` record follows the fields the core reads and writes.
