/** The progress line of the task list section: how many non-headline tasks
    there are and how many of them are completed. Headlines never count. */
module TaskListSection {
  import opened Tasks
  import Seqs
  import UseTasks

  /** `tasks.filter(task => !task.isHeadline && task.completed).length`:
      the number of positions holding a completed non-headline task. */
  function CompletedTasks(tasks: seq<Task>): (n: nat)
    ensures n == |set i | 0 <= i < |tasks| && !tasks[i].isHeadline && tasks[i].completed|
  {
    var p := (task: Task) => !task.isHeadline && task.completed;
    Seqs.FilterLength(p, tasks);
    assert Seqs.Positions(p, tasks) == set i | 0 <= i < |tasks| && !tasks[i].isHeadline && tasks[i].completed;
    |Seqs.Filter(p, tasks)|
  }

  /** `tasks.filter(task => !task.isHeadline).length`: the number of
      positions holding a non-headline task. */
  function TotalTasks(tasks: seq<Task>): (n: nat)
    ensures n == |set i | 0 <= i < |tasks| && !tasks[i].isHeadline|
  {
    var p := (task: Task) => !task.isHeadline;
    Seqs.FilterLength(p, tasks);
    assert Seqs.Positions(p, tasks) == set i | 0 <= i < |tasks| && !tasks[i].isHeadline;
    |Seqs.Filter(p, tasks)|
  }

  /** The "n of m tasks completed" line is shown exactly when some task is
      not a headline (the list is then non-empty as well). */
  function ShowProgress(tasks: seq<Task>): (b: bool)
    ensures b <==> exists i :: 0 <= i < |tasks| && !tasks[i].isHeadline
  {
    var show := |tasks| > 0 && TotalTasks(tasks) > 0;
    assert show ==> exists i :: 0 <= i < |tasks| && !tasks[i].isHeadline by {
      if show {
        var s := set i | 0 <= i < |tasks| && !tasks[i].isHeadline;
        assert |s| > 0;
        var i :| i in s;
      }
    }
    show
  }

  /** Completed tasks never outnumber tasks. */
  lemma CompletedAtMostTotal(tasks: seq<Task>)
    ensures CompletedTasks(tasks) <= TotalTasks(tasks)
  {
    var c := set i | 0 <= i < |tasks| && !tasks[i].isHeadline && tasks[i].completed;
    var t := set i | 0 <= i < |tasks| && !tasks[i].isHeadline;
    assert t == c + (t - c);
  }

  /** Changing the completion of a headline changes neither count. */
  lemma HeadlineCompletionIgnored(tasks: seq<Task>, k: int, c: bool)
    requires 0 <= k < |tasks| && tasks[k].isHeadline
    ensures var t := tasks[k := tasks[k].(completed := c)];
            CompletedTasks(t) == CompletedTasks(tasks) && TotalTasks(t) == TotalTasks(tasks)
  {
    var t := tasks[k := tasks[k].(completed := c)];
    assert (set i | 0 <= i < |t| && !t[i].isHeadline && t[i].completed) ==
           (set i | 0 <= i < |tasks| && !tasks[i].isHeadline && tasks[i].completed);
    assert (set i | 0 <= i < |t| && !t[i].isHeadline) ==
           (set i | 0 <= i < |tasks| && !tasks[i].isHeadline);
  }

  /** Toggling a non-headline task (unique ids) moves the completed count by
      one in the matching direction and leaves the total alone. */
  lemma ToggleCounts(tasks: seq<Task>, k: int)
    requires UniqueIds(tasks)
    requires 0 <= k < |tasks| && !tasks[k].isHeadline
    ensures var t := UseTasks.Toggled(tasks, tasks[k].id);
            TotalTasks(t) == TotalTasks(tasks) &&
            CompletedTasks(t) == if tasks[k].completed then CompletedTasks(tasks) - 1 else CompletedTasks(tasks) + 1
  {
    var id := tasks[k].id;
    var t := UseTasks.Toggled(tasks, id);
    forall i | 0 <= i < |tasks|
      ensures t[i].isHeadline == tasks[i].isHeadline
      ensures i != k ==> t[i].completed == tasks[i].completed
    {
      if i != k {
        assert tasks[i].id != id;
      }
    }
    assert t[k].completed == !tasks[k].completed;
    var before := set i | 0 <= i < |tasks| && !tasks[i].isHeadline && tasks[i].completed;
    var after := set i | 0 <= i < |t| && !t[i].isHeadline && t[i].completed;
    assert (set i | 0 <= i < |t| && !t[i].isHeadline) == (set i | 0 <= i < |tasks| && !tasks[i].isHeadline);
    if tasks[k].completed {
      assert after == before - {k};
    } else {
      assert after == before + {k};
    }
  }

  /** Adding a task leaves the completed count alone and adds one to the
      total exactly when the new task is not a headline. */
  lemma AddCounts(tasks: seq<Task>, id: string, text: string, isHeadline: bool,
                  codeBlock: Option<CodeBlock>, richText: Option<string>,
                  optional: Option<bool>, createdAt: Timestamp)
    ensures var t := UseTasks.Added(tasks, UseTasks.NewTask(id, text, isHeadline, codeBlock, richText, optional, createdAt));
            CompletedTasks(t) == CompletedTasks(tasks) &&
            TotalTasks(t) == if isHeadline then TotalTasks(tasks) else TotalTasks(tasks) + 1
  {
    var t := UseTasks.Added(tasks, UseTasks.NewTask(id, text, isHeadline, codeBlock, richText, optional, createdAt));
    var n := |tasks|;
    assert forall i :: 0 <= i < n ==> t[i] == tasks[i];
    assert (set i | 0 <= i < |t| && !t[i].isHeadline && t[i].completed) ==
           (set i | 0 <= i < |tasks| && !tasks[i].isHeadline && tasks[i].completed);
    var total := set i | 0 <= i < |tasks| && !tasks[i].isHeadline;
    if isHeadline {
      assert (set i | 0 <= i < |t| && !t[i].isHeadline) == total;
    } else {
      assert (set i | 0 <= i < |t| && !t[i].isHeadline) == total + {n};
    }
  }

  /** Editing content changes neither count. */
  lemma EditCounts(tasks: seq<Task>, id: string, text: string, codeBlock: Option<CodeBlock>,
                   richText: Option<string>, optional: Option<bool>)
    ensures var t := UseTasks.Edited(tasks, id, text, codeBlock, richText, optional);
            CompletedTasks(t) == CompletedTasks(tasks) && TotalTasks(t) == TotalTasks(tasks)
  {
    var t := UseTasks.Edited(tasks, id, text, codeBlock, richText, optional);
    assert (set i | 0 <= i < |t| && !t[i].isHeadline && t[i].completed) ==
           (set i | 0 <= i < |tasks| && !tasks[i].isHeadline && tasks[i].completed);
    assert (set i | 0 <= i < |t| && !t[i].isHeadline) == (set i | 0 <= i < |tasks| && !tasks[i].isHeadline);
  }
}
