/** The hierarchy and the cascade toggle of the application component.
    Grouping is positional: a non-headline task belongs to the nearest
    headline at or before its position, or to none. */
module App {
  import opened Tasks
  import Seqs
  import UseTasks

  // ---- The backward scan of isSubTaskOf

  /** The position of the nearest headline at or before position `i`
      (`i` may be -1, the "no position" of `findIndex`). */
  function NearestHeadline(tasks: seq<Task>, i: int): (r: Option<nat>)
    requires -1 <= i < |tasks|
    ensures r.Some? ==> r.value <= i && tasks[r.value].isHeadline &&
                        forall k :: r.value < k <= i ==> !tasks[k].isHeadline
    ensures r.None? ==> forall k :: 0 <= k <= i ==> !tasks[k].isHeadline
    decreases i + 1
  {
    if i < 0 then None
    else if tasks[i].isHeadline then Some(i)
    else NearestHeadline(tasks, i - 1)
  }

  /** The id of that nearest headline, if any. */
  function NearestHeadlineId(tasks: seq<Task>, i: int): (r: Option<string>)
    requires -1 <= i < |tasks|
    ensures r.Some? ==> HasId(tasks, r.value)
  {
    match NearestHeadline(tasks, i)
    case Some(j) => Some(tasks[j].id)
    case None => None
  }

  /** What `isSubTaskOf(task, headlineId, tasks)` returns: a non-headline
      task is a subtask of `headlineId` when the first headline met scanning
      backward from the first position carrying its id has that id. */
  function SubTaskOf(task: Task, headlineId: string, tasks: seq<Task>): (r: bool)
    ensures r ==> !task.isHeadline && HasId(tasks, task.id) && HasId(tasks, headlineId)
  {
    !task.isHeadline && NearestHeadlineId(tasks, FindIndex(tasks, task.id)) == Some(headlineId)
  }

  /** `isSubTaskOf` holds exactly when the task is not a headline and some
      headline carrying `headlineId` sits at or before the first position of
      the task's id with no other headline in between. */
  lemma SubTaskOfNearest(task: Task, headlineId: string, tasks: seq<Task>)
    ensures SubTaskOf(task, headlineId, tasks) <==>
      !task.isHeadline &&
      exists j :: 0 <= j <= FindIndex(tasks, task.id) && tasks[j].isHeadline && tasks[j].id == headlineId &&
                  forall k :: j < k <= FindIndex(tasks, task.id) ==> !tasks[k].isHeadline
  {
  }

  /** `isSubTaskOf`, with its decrementing loop and early return. */
  method IsSubTaskOf(task: Task, headlineId: string, tasks: seq<Task>) returns (b: bool)
    ensures b == SubTaskOf(task, headlineId, tasks)
  {
    if task.isHeadline {
      return false;
    }
    var taskIndex := FindIndex(tasks, task.id);
    var i := taskIndex;
    while i >= 0
      invariant -1 <= i <= taskIndex
      invariant NearestHeadline(tasks, i) == NearestHeadline(tasks, taskIndex)
      decreases i
    {
      if tasks[i].isHeadline {
        return tasks[i].id == headlineId;
      }
      i := i - 1;
    }
    return false;
  }

  /** A headline is never a subtask. */
  lemma HeadlineIsNoSubTask(task: Task, headlineId: string, tasks: seq<Task>)
    requires task.isHeadline
    ensures !SubTaskOf(task, headlineId, tasks)
  {
  }

  /** With unique ids, a task in the list is a subtask of `headlineId`
      exactly when it is not a headline and the nearest headline at or
      before its own position carries `headlineId`; with no headline before
      it, it is a subtask of nothing. */
  lemma SubTaskOfAt(tasks: seq<Task>, headlineId: string, i: int)
    requires UniqueIds(tasks)
    requires 0 <= i < |tasks|
    ensures SubTaskOf(tasks[i], headlineId, tasks) <==>
            !tasks[i].isHeadline && NearestHeadlineId(tasks, i) == Some(headlineId)
    ensures NearestHeadline(tasks, i).None? ==> !SubTaskOf(tasks[i], headlineId, tasks)
  {
    FindIndexUnique(tasks, i);
  }

  /** When no headline carries `headlineId`, nothing is its subtask. */
  lemma NoSuchHeadline(tasks: seq<Task>, headlineId: string, task: Task)
    requires forall i :: 0 <= i < |tasks| && tasks[i].isHeadline ==> tasks[i].id != headlineId
    ensures !SubTaskOf(task, headlineId, tasks)
  {
  }

  /** Grouping depends only on ids and headline flags. */
  lemma {:induction false} NearestHeadlineSameShape(a: seq<Task>, b: seq<Task>, i: int)
    requires SameShape(a, b)
    requires -1 <= i < |a|
    ensures NearestHeadline(a, i) == NearestHeadline(b, i)
    decreases i + 1
  {
    if i >= 0 && !a[i].isHeadline {
      NearestHeadlineSameShape(a, b, i - 1);
    }
  }

  lemma SubTaskOfSameShape(a: seq<Task>, b: seq<Task>, headlineId: string, i: int)
    requires SameShape(a, b)
    requires 0 <= i < |a|
    ensures SubTaskOf(a[i], headlineId, a) == SubTaskOf(b[i], headlineId, b)
  {
    FindIndexSameShape(a, b, a[i].id);
    NearestHeadlineSameShape(a, b, FindIndex(a, a[i].id));
  }

  /** Toggling and editing never regroup a task. */
  lemma StoreUpdatesKeepGrouping(tasks: seq<Task>, id: string, headlineId: string, text: string,
                                 codeBlock: Option<CodeBlock>, richText: Option<string>,
                                 optional: Option<bool>, i: int)
    requires 0 <= i < |tasks|
    ensures var t := UseTasks.Toggled(tasks, id);
            SubTaskOf(t[i], headlineId, t) == SubTaskOf(tasks[i], headlineId, tasks)
    ensures var e := UseTasks.Edited(tasks, id, text, codeBlock, richText, optional);
            SubTaskOf(e[i], headlineId, e) == SubTaskOf(tasks[i], headlineId, tasks)
  {
    UseTasks.ToggledSameShape(tasks, id);
    SubTaskOfSameShape(tasks, UseTasks.Toggled(tasks, id), headlineId, i);
    UseTasks.EditedSameShape(tasks, id, text, codeBlock, richText, optional);
    SubTaskOfSameShape(tasks, UseTasks.Edited(tasks, id, text, codeBlock, richText, optional), headlineId, i);
  }

  // ---- The linear forward pass

  /** One forward pass with a "current headline" accumulator: the owner of
      every non-headline task from position `i` on (`None` for a headline
      and for an ungrouped task). */
  function OwnersFrom(tasks: seq<Task>, i: nat, current: Option<string>): (r: seq<Option<string>>)
    requires i <= |tasks|
    ensures |r| == |tasks| - i
    decreases |tasks| - i
  {
    if i == |tasks| then []
    else if tasks[i].isHeadline then [None] + OwnersFrom(tasks, i + 1, Some(tasks[i].id))
    else [current] + OwnersFrom(tasks, i + 1, current)
  }

  function Owners(tasks: seq<Task>): (r: seq<Option<string>>)
    ensures |r| == |tasks|
  {
    OwnersFrom(tasks, 0, None)
  }

  lemma {:induction false} OwnersFromAt(tasks: seq<Task>, i: nat, current: Option<string>, k: int)
    requires i <= k < |tasks|
    requires current == NearestHeadlineId(tasks, i - 1)
    ensures OwnersFrom(tasks, i, current)[k - i] ==
            if tasks[k].isHeadline then None else NearestHeadlineId(tasks, k)
    decreases |tasks| - i
  {
    if k > i {
      var next := if tasks[i].isHeadline then Some(tasks[i].id) else current;
      assert next == NearestHeadlineId(tasks, i);
      OwnersFromAt(tasks, i + 1, next, k);
    }
  }

  /** The forward pass gives every non-headline task the nearest headline
      before it. */
  lemma OwnersAt(tasks: seq<Task>, k: int)
    requires 0 <= k < |tasks|
    ensures Owners(tasks)[k] == if tasks[k].isHeadline then None else NearestHeadlineId(tasks, k)
  {
    OwnersFromAt(tasks, 0, None, k);
  }

  /** With unique ids, the linear forward pass and the quadratic backward
      scan of `isSubTaskOf` agree on every task. */
  lemma OwnersAgree(tasks: seq<Task>, headlineId: string, k: int)
    requires UniqueIds(tasks)
    requires 0 <= k < |tasks|
    ensures SubTaskOf(tasks[k], headlineId, tasks) <==> Owners(tasks)[k] == Some(headlineId)
  {
    OwnersAt(tasks, k);
    SubTaskOfAt(tasks, headlineId, k);
  }

  // ---- Deleting a headline

  lemma {:induction false} NearestHeadlineSkip(tasks: seq<Task>, j: int, i: int)
    requires -1 <= j <= i < |tasks|
    requires forall m :: j < m <= i ==> !tasks[m].isHeadline
    ensures NearestHeadline(tasks, i) == NearestHeadline(tasks, j)
    decreases i - j
  {
    if j < i {
      NearestHeadlineSkip(tasks, j, i - 1);
    }
  }

  lemma {:induction false} NearestHeadlinePrefix(a: seq<Task>, b: seq<Task>, n: int, i: int)
    requires 0 <= n <= |a| && n <= |b| && a[..n] == b[..n]
    requires -1 <= i < n
    ensures NearestHeadline(a, i) == NearestHeadline(b, i)
    decreases i + 1
  {
    if i >= 0 {
      assert a[i] == a[..n][i] == b[..n][i] == b[i];
      if !a[i].isHeadline {
        NearestHeadlinePrefix(a, b, n, i - 1);
      }
    }
  }

  /** After `deleteTask(id)` no task is grouped under `id`. */
  lemma DeletedLeavesNoSubTasks(tasks: seq<Task>, id: string, t: Task)
    ensures !SubTaskOf(t, id, UseTasks.Deleted(tasks, id))
  {
    NoSuchHeadline(UseTasks.Deleted(tasks, id), id, t);
  }

  /** Removing the headline at `k` that is the nearest one for position
      `i` makes the nearest headline for the shifted position the one
      before `k`. */
  lemma NearestHeadlineAfterRemoval(tasks: seq<Task>, k: int, i: int)
    requires 0 <= k < i < |tasks|
    requires NearestHeadline(tasks, i) == Some(k)
    ensures var r := tasks[..k] + tasks[k + 1..];
            NearestHeadlineId(r, i - 1) == NearestHeadlineId(tasks, k - 1)
  {
    var r := tasks[..k] + tasks[k + 1..];
    forall m | k <= m <= i - 1 ensures !r[m].isHeadline {
      assert r[m] == tasks[m + 1];
    }
    NearestHeadlineSkip(r, k - 1, i - 1);
    assert r[..k] == tasks[..k];
    NearestHeadlinePrefix(r, tasks, k, k - 1);
    if NearestHeadline(tasks, k - 1).Some? {
      var j := NearestHeadline(tasks, k - 1).value;
      assert r[j] == tasks[j];
    }
  }

  /** Deleting a headline (unique ids) keeps each of its former subtasks in
      the list, one place earlier, now grouped under the headline that
      preceded the deleted one, if any. */
  lemma DeletedHeadlineRegroups(tasks: seq<Task>, k: int, i: int, other: string)
    requires UniqueIds(tasks)
    requires 0 <= k < i < |tasks| && tasks[k].isHeadline
    requires SubTaskOf(tasks[i], tasks[k].id, tasks)
    ensures var r := UseTasks.Deleted(tasks, tasks[k].id);
            |r| == |tasks| - 1 && r[i - 1] == tasks[i] &&
            (SubTaskOf(r[i - 1], other, r) <==> NearestHeadlineId(tasks, k - 1) == Some(other))
  {
    var id := tasks[k].id;
    assert NearestHeadline(tasks, i) == Some(k) by {
      SubTaskOfAt(tasks, id, i);
      var j := NearestHeadline(tasks, i).value;
      assert tasks[j].id == id;
    }
    UseTasks.DeletedAt(tasks, k);
    UseTasks.DeletedPreservesUniqueIds(tasks, id);
    RemovedHeadlineRegroups(tasks, k, i, other);
  }

  lemma RemovedHeadlineRegroups(tasks: seq<Task>, k: int, i: int, other: string)
    requires 0 <= k < i < |tasks|
    requires UniqueIds(tasks[..k] + tasks[k + 1..])
    requires NearestHeadline(tasks, i) == Some(k)
    ensures var r := tasks[..k] + tasks[k + 1..];
            r[i - 1] == tasks[i] &&
            (SubTaskOf(r[i - 1], other, r) <==> NearestHeadlineId(tasks, k - 1) == Some(other))
  {
    var r := tasks[..k] + tasks[k + 1..];
    NearestHeadlineAfterRemoval(tasks, k, i);
    assert r[i - 1] == tasks[i];
    SubTaskOfAt(r, other, i - 1);
  }

  // ---- checkAllSubTasks

  /** A task the cascade toggle of `headlineId` sets: the task carrying
      that id, and its subtasks. */
  predicate InGroup(tasks: seq<Task>, headlineId: string, i: int): (r: bool)
    requires 0 <= i < |tasks|
    ensures r && tasks[i].isHeadline ==> tasks[i].id == headlineId
  {
    tasks[i].id == headlineId || SubTaskOf(tasks[i], headlineId, tasks)
  }

  /** With unique ids, the group of `headlineId` is the task carrying it and
      the non-headline tasks whose nearest headline at or before them carries
      it. */
  lemma InGroupAt(tasks: seq<Task>, headlineId: string, i: int)
    requires UniqueIds(tasks)
    requires 0 <= i < |tasks|
    ensures InGroup(tasks, headlineId, i) <==>
            tasks[i].id == headlineId ||
            (!tasks[i].isHeadline && NearestHeadlineId(tasks, i) == Some(headlineId))
  {
    SubTaskOfAt(tasks, headlineId, i);
  }

  /** `isAllCompleted`: every subtask of `headlineId` is completed
      (vacuously so when it has none). */
  function AllSubTasksCompleted(tasks: seq<Task>, headlineId: string): (r: bool)
    ensures r <==> forall i :: 0 <= i < |tasks| && SubTaskOf(tasks[i], headlineId, tasks) ==> tasks[i].completed
  {
    Seqs.Every((task: Task) => task.isHeadline || task.completed || !SubTaskOf(task, headlineId, tasks), tasks)
  }

  /** The list `checkAllSubTasks(headlineId)` commits: the task carrying
      `headlineId` and its subtasks all become completed when some subtask
      is not, and all become not completed otherwise; every other task, and
      every field other than `completed`, is left as it was. */
  function CheckedAllSubTasks(tasks: seq<Task>, headlineId: string): (r: seq<Task>)
    ensures |r| == |tasks|
    ensures forall i {:trigger r[i]} :: 0 <= i < |tasks| ==> r[i] == tasks[i].(completed := r[i].completed)
    ensures forall i {:trigger r[i]} :: 0 <= i < |tasks| && InGroup(tasks, headlineId, i) ==>
      r[i].completed == !AllSubTasksCompleted(tasks, headlineId)
    ensures forall i {:trigger r[i]} :: 0 <= i < |tasks| && !InGroup(tasks, headlineId, i) ==> r[i] == tasks[i]
  {
    var isAllCompleted := AllSubTasksCompleted(tasks, headlineId);
    Seqs.Map((task: Task) =>
      if task.id == headlineId || SubTaskOf(task, headlineId, tasks) then task.(completed := !isAllCompleted)
      else task,
      tasks)
  }

  /** The cascade toggle changes completion only, so it keeps the grouping:
      the same tasks form the group afterwards. */
  lemma CheckedKeepsGroup(tasks: seq<Task>, headlineId: string)
    ensures var r := CheckedAllSubTasks(tasks, headlineId);
            SameShape(tasks, r) &&
            (UniqueIds(tasks) ==> UniqueIds(r)) &&
            forall i :: 0 <= i < |tasks| ==> (InGroup(r, headlineId, i) <==> InGroup(tasks, headlineId, i))
  {
    var r := CheckedAllSubTasks(tasks, headlineId);
    assert SameShape(tasks, r);
    forall i | 0 <= i < |tasks| ensures InGroup(r, headlineId, i) <==> InGroup(tasks, headlineId, i) {
      SubTaskOfSameShape(tasks, r, headlineId, i);
    }
  }

  /** After one call the whole group shares one completion value. */
  lemma CheckedGroupAgrees(tasks: seq<Task>, headlineId: string, i: int, j: int)
    requires 0 <= i < |tasks| && 0 <= j < |tasks|
    ensures var r := CheckedAllSubTasks(tasks, headlineId);
            InGroup(r, headlineId, i) && InGroup(r, headlineId, j) ==> r[i].completed == r[j].completed
  {
    CheckedKeepsGroup(tasks, headlineId);
  }

  /** Two calls on a group that starts with some subtask not completed: the
      first completes the group, the second clears it, so the group ends
      not completed and everything else is as it was. */
  lemma CheckedTwice(tasks: seq<Task>, headlineId: string)
    requires !AllSubTasksCompleted(tasks, headlineId)
    ensures var r := CheckedAllSubTasks(CheckedAllSubTasks(tasks, headlineId), headlineId);
            |r| == |tasks| &&
            forall i {:trigger r[i]} :: 0 <= i < |tasks| ==>
              r[i] == if InGroup(tasks, headlineId, i) then tasks[i].(completed := false) else tasks[i]
  {
    var once := CheckedAllSubTasks(tasks, headlineId);
    var r := CheckedAllSubTasks(once, headlineId);
    CheckedKeepsGroup(tasks, headlineId);
    assert AllSubTasksCompleted(once, headlineId) by {
      forall i | 0 <= i < |once| && SubTaskOf(once[i], headlineId, once) ensures once[i].completed {
        assert InGroup(once, headlineId, i);
        assert InGroup(tasks, headlineId, i);
      }
    }
    forall i | 0 <= i < |tasks|
      ensures r[i] == if InGroup(tasks, headlineId, i) then tasks[i].(completed := false) else tasks[i]
    {
      if InGroup(tasks, headlineId, i) {
        assert InGroup(once, headlineId, i);
      } else {
        assert !InGroup(once, headlineId, i);
      }
    }
  }

  /** Two calls on a group whose subtasks, at least one, are all completed:
      the first clears the group, the second completes it. */
  lemma CheckedTwiceFromCompleted(tasks: seq<Task>, headlineId: string, s: int)
    requires AllSubTasksCompleted(tasks, headlineId)
    requires 0 <= s < |tasks| && SubTaskOf(tasks[s], headlineId, tasks)
    ensures var r := CheckedAllSubTasks(CheckedAllSubTasks(tasks, headlineId), headlineId);
            |r| == |tasks| &&
            forall i {:trigger r[i]} :: 0 <= i < |tasks| ==>
              r[i] == if InGroup(tasks, headlineId, i) then tasks[i].(completed := true) else tasks[i]
  {
    var once := CheckedAllSubTasks(tasks, headlineId);
    var r := CheckedAllSubTasks(once, headlineId);
    CheckedKeepsGroup(tasks, headlineId);
    assert InGroup(tasks, headlineId, s);
    assert SubTaskOf(once[s], headlineId, once) && !once[s].completed by {
      SubTaskOfSameShape(tasks, once, headlineId, s);
    }
    assert !AllSubTasksCompleted(once, headlineId);
    forall i | 0 <= i < |tasks|
      ensures r[i] == if InGroup(tasks, headlineId, i) then tasks[i].(completed := true) else tasks[i]
    {
      if InGroup(tasks, headlineId, i) {
        assert InGroup(once, headlineId, i);
      } else {
        assert !InGroup(once, headlineId, i);
      }
    }
  }

  /** When no task carries `headlineId` the list is left unchanged. */
  lemma CheckedAbsent(tasks: seq<Task>, headlineId: string)
    requires !HasId(tasks, headlineId)
    ensures CheckedAllSubTasks(tasks, headlineId) == tasks
  {
    var r := CheckedAllSubTasks(tasks, headlineId);
    forall i | 0 <= i < |tasks| ensures r[i] == tasks[i] {
      NoSuchHeadline(tasks, headlineId, tasks[i]);
    }
  }

  /** When `headlineId` names a task that is not a headline (unique ids),
      nothing is its subtask, so only that task changes: to not completed. */
  lemma CheckedNonHeadline(tasks: seq<Task>, k: int)
    requires UniqueIds(tasks)
    requires 0 <= k < |tasks| && !tasks[k].isHeadline
    ensures CheckedAllSubTasks(tasks, tasks[k].id) == tasks[k := tasks[k].(completed := false)]
  {
    var id := tasks[k].id;
    var r := CheckedAllSubTasks(tasks, id);
    forall i | 0 <= i < |tasks| ensures !SubTaskOf(tasks[i], id, tasks) {
      NoSuchHeadline(tasks, id, tasks[i]);
    }
    assert r == tasks[k := tasks[k].(completed := false)];
  }

  /** Without unique ids a non-headline id can complete tasks: a headline
      and a non-headline task both carrying "x", none completed; `findIndex`
      finds the headline, so the second task is a subtask of "x" and one
      call completes both. */
  lemma CheckedRepeatedId(ts: Timestamp)
    ensures var tasks := [Task("x", "H", false, true, ts, None, None, None),
                          Task("x", "T", false, false, ts, None, None, None)];
            var r := CheckedAllSubTasks(tasks, "x");
            |r| == 2 && r[0].completed && r[1].completed
  {
    var tasks := [Task("x", "H", false, true, ts, None, None, None),
                  Task("x", "T", false, false, ts, None, None, None)];
    assert FindIndex(tasks, "x") == 0;
    assert SubTaskOf(tasks[1], "x", tasks);
    assert InGroup(tasks, "x", 0) && InGroup(tasks, "x", 1);
    assert !AllSubTasksCompleted(tasks, "x");
  }

  /** Headline H1 owning A and B, none completed. */
  function Scenario(ts: Timestamp): (r: seq<Task>)
    ensures |r| == 3 && UniqueIds(r)
  {
    [Task("h1", "H1", false, true, ts, None, None, None),
     Task("a", "A", false, false, ts, None, None, None),
     Task("b", "B", false, false, ts, None, None, None)]
  }

  lemma ScenarioGroup(ts: Timestamp)
    ensures var tasks := Scenario(ts);
            InGroup(tasks, "h1", 0) && InGroup(tasks, "h1", 1) && InGroup(tasks, "h1", 2) &&
            !AllSubTasksCompleted(tasks, "h1")
  {
    var tasks := Scenario(ts);
    assert UniqueIds(tasks);
    assert NearestHeadline(tasks, 1) == Some(0);
    assert NearestHeadline(tasks, 2) == Some(0);
    SubTaskOfAt(tasks, "h1", 1);
    SubTaskOfAt(tasks, "h1", 2);
  }

  /** On that list one call completes all three tasks, and a second call
      clears all three again. */
  lemma CheckedScenario(ts: Timestamp)
    ensures var tasks := Scenario(ts);
            var once := CheckedAllSubTasks(tasks, "h1");
            var twice := CheckedAllSubTasks(once, "h1");
            |once| == 3 && |twice| == 3 &&
            once[0] == tasks[0].(completed := true) && once[1] == tasks[1].(completed := true) &&
            once[2] == tasks[2].(completed := true) &&
            twice[0] == tasks[0] && twice[1] == tasks[1] && twice[2] == tasks[2]
  {
    var tasks := Scenario(ts);
    ScenarioGroup(ts);
    CheckedTwice(tasks, "h1");
    var once := CheckedAllSubTasks(tasks, "h1");
    var twice := CheckedAllSubTasks(once, "h1");
    assert once[0] == tasks[0].(completed := true);
    assert once[1] == tasks[1].(completed := true);
    assert once[2] == tasks[2].(completed := true);
    assert twice[0] == tasks[0];
    assert twice[1] == tasks[1];
    assert twice[2] == tasks[2];
  }

  /** `checkAllSubTasks(headlineId)`, committed through `setTasks`. */
  method CheckAllSubTasks(store: UseTasks.TaskStore, headlineId: string)
    modifies store
    ensures store.tasks == CheckedAllSubTasks(old(store.tasks), headlineId)
    ensures UniqueIds(old(store.tasks)) ==> UniqueIds(store.tasks)
  {
    var next := CheckedAllSubTasks(store.tasks, headlineId);
    CheckedKeepsGroup(store.tasks, headlineId);
    store.SetTasks(next);
  }
}
