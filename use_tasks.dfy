/** The task store hook: one list-valued state cell and the operations that
    replace it. Each update is a pure `map`/`filter`/append over the previous
    list (the functions below); the store commits the result. */
module UseTasks {
  import opened Tasks
  import Seqs

  /** The task `addTask` creates: not completed, with the supplied id and
      timestamp standing for `crypto.randomUUID()` and `new Date()`. */
  function NewTask(id: string, text: string, isHeadline: bool, codeBlock: Option<CodeBlock>,
                   richText: Option<string>, optional: Option<bool>, createdAt: Timestamp): (r: Task)
    ensures !r.completed
  {
    Task(id, text, false, isHeadline, createdAt, codeBlock, richText, optional)
  }

  /** `[...prev, newTask]`: the old list followed by exactly the new task. */
  function Added(tasks: seq<Task>, t: Task): (r: seq<Task>)
    ensures |r| == |tasks| + 1
    ensures r[..|tasks|] == tasks && r[|tasks|] == t
  {
    tasks + [t]
  }

  /** `prev.map(task => task.id === id ? {...task, completed: !task.completed} : task)` */
  function Toggled(tasks: seq<Task>, id: string): (r: seq<Task>)
    ensures |r| == |tasks|
    ensures forall i :: 0 <= i < |tasks| ==>
      r[i] == tasks[i].(completed := r[i].completed) &&
      (r[i].completed <==> (tasks[i].completed != (tasks[i].id == id)))
  {
    Seqs.Map((task: Task) => if task.id == id then task.(completed := !task.completed) else task, tasks)
  }

  /** `prev.filter(task => task.id !== id)` */
  function Deleted(tasks: seq<Task>, id: string): (r: seq<Task>)
    ensures !HasId(r, id)
    ensures forall i :: 0 <= i < |tasks| && tasks[i].id != id ==> tasks[i] in r
    ensures forall i :: 0 <= i < |r| ==> r[i] in tasks
  {
    Seqs.Filter((task: Task) => task.id != id, tasks)
  }

  /** `prev.map(task => task.id === id ? {...task, text, codeBlock, richText, optional} : task)` */
  function Edited(tasks: seq<Task>, id: string, text: string, codeBlock: Option<CodeBlock>,
                  richText: Option<string>, optional: Option<bool>): (r: seq<Task>)
    ensures |r| == |tasks|
    ensures forall i :: 0 <= i < |tasks| ==>
      r[i].id == tasks[i].id && r[i].completed == tasks[i].completed &&
      r[i].isHeadline == tasks[i].isHeadline && r[i].createdAt == tasks[i].createdAt
    ensures forall i :: 0 <= i < |tasks| && tasks[i].id == id ==>
      r[i].text == text && r[i].codeBlock == codeBlock &&
      r[i].richText == richText && r[i].optional == optional
    ensures forall i :: 0 <= i < |tasks| && tasks[i].id != id ==> r[i] == tasks[i]
  {
    Seqs.Map((task: Task) =>
      if task.id == id then task.(text := text, codeBlock := codeBlock, richText := richText, optional := optional)
      else task,
      tasks)
  }

  // ---- addTask

  /** A fresh id keeps identifiers unique. */
  lemma AddedPreservesUniqueIds(tasks: seq<Task>, t: Task)
    requires UniqueIds(tasks) && !HasId(tasks, t.id)
    ensures UniqueIds(Added(tasks, t))
  {
    var r := Added(tasks, t);
    forall i, j | 0 <= i < j < |r| ensures r[i].id != r[j].id {
      if j == |tasks| {
        assert r[i] == tasks[i];
      }
    }
  }

  /** The task `addTask` appends is the one `findIndex` finds for its id:
      with unique ids and a fresh id it sits last and is not completed. */
  lemma AddedNewTask(tasks: seq<Task>, id: string, text: string, isHeadline: bool,
                     codeBlock: Option<CodeBlock>, richText: Option<string>,
                     optional: Option<bool>, createdAt: Timestamp)
    requires UniqueIds(tasks) && !HasId(tasks, id)
    ensures var r := Added(tasks, NewTask(id, text, isHeadline, codeBlock, richText, optional, createdAt));
            UniqueIds(r) && FindIndex(r, id) == |tasks| && !r[FindIndex(r, id)].completed
  {
    var t := NewTask(id, text, isHeadline, codeBlock, richText, optional, createdAt);
    AddedPreservesUniqueIds(tasks, t);
    FindIndexUnique(Added(tasks, t), |tasks|);
  }

  // ---- toggleTask

  /** Toggling the same id twice gives back the original list. */
  lemma ToggledTwice(tasks: seq<Task>, id: string)
    ensures Toggled(Toggled(tasks, id), id) == tasks
  {
    var r := Toggled(Toggled(tasks, id), id);
    assert forall i :: 0 <= i < |tasks| ==> r[i] == tasks[i];
  }

  /** Toggling an id no task carries changes nothing. */
  lemma ToggledAbsent(tasks: seq<Task>, id: string)
    requires !HasId(tasks, id)
    ensures Toggled(tasks, id) == tasks
  {
    var r := Toggled(tasks, id);
    assert forall i :: 0 <= i < |tasks| ==> r[i] == tasks[i];
  }

  /** Toggling changes only completion, so ids, headline flags and hence
      uniqueness are kept. */
  lemma ToggledSameShape(tasks: seq<Task>, id: string)
    ensures SameShape(tasks, Toggled(tasks, id))
    ensures UniqueIds(tasks) ==> UniqueIds(Toggled(tasks, id))
  {
    var r := Toggled(tasks, id);
    assert forall i :: 0 <= i < |tasks| ==> r[i].id == tasks[i].id;
  }

  // ---- deleteTask

  /** Deleting an id no task carries changes nothing. */
  lemma {:induction false} DeletedAbsent(tasks: seq<Task>, id: string)
    requires !HasId(tasks, id)
    ensures Deleted(tasks, id) == tasks
  {
    Seqs.FilterKeepsAll((task: Task) => task.id != id, tasks);
  }

  /** With unique ids, deleting the task at position k removes exactly that
      position: everything before and after it stays, in order. In
      particular the tasks following a deleted headline stay in the list. */
  lemma DeletedAt(tasks: seq<Task>, k: int)
    requires UniqueIds(tasks)
    requires 0 <= k < |tasks|
    ensures Deleted(tasks, tasks[k].id) == tasks[..k] + tasks[k + 1..]
  {
    var id := tasks[k].id;
    var p := (task: Task) => task.id != id;
    assert tasks == tasks[..k] + ([tasks[k]] + tasks[k + 1..]);
    Seqs.FilterConcat(p, tasks[..k], [tasks[k]] + tasks[k + 1..]);
    Seqs.FilterConcat(p, [tasks[k]], tasks[k + 1..]);
    DeletedAbsent(tasks[..k], id);
    DeletedAbsent(tasks[k + 1..], id);
    assert Seqs.Filter(p, [tasks[k]]) == [] by {
      assert [tasks[k]][1..] == [];
    }
  }

  /** Any filter of a list with unique ids has unique ids. */
  lemma {:induction false} FilterPreservesUniqueIds(p: Task -> bool, tasks: seq<Task>)
    requires UniqueIds(tasks)
    ensures UniqueIds(Seqs.Filter(p, tasks))
  {
    if tasks != [] {
      var rest := tasks[1..];
      assert UniqueIds(rest) by {
        forall i, j | 0 <= i < j < |rest| ensures rest[i].id != rest[j].id {
          assert rest[i] == tasks[i + 1] && rest[j] == tasks[j + 1];
        }
      }
      FilterPreservesUniqueIds(p, rest);
      var fr := Seqs.Filter(p, rest);
      if p(tasks[0]) {
        var r := [tasks[0]] + fr;
        forall i, j | 0 <= i < j < |r| ensures r[i].id != r[j].id {
          if i == 0 {
            assert r[j] == fr[j - 1];
            assert fr[j - 1] in rest;
            var m :| 0 <= m < |rest| && rest[m] == fr[j - 1];
            assert tasks[m + 1] == rest[m];
          } else {
            assert r[i] == fr[i - 1] && r[j] == fr[j - 1];
          }
        }
      }
    }
  }

  /** Deleting keeps identifiers unique. */
  lemma DeletedPreservesUniqueIds(tasks: seq<Task>, id: string)
    requires UniqueIds(tasks)
    ensures UniqueIds(Deleted(tasks, id))
  {
    FilterPreservesUniqueIds((task: Task) => task.id != id, tasks);
  }

  // ---- editTask

  /** Editing changes only content, so ids, headline flags and hence
      uniqueness are kept. */
  lemma EditedSameShape(tasks: seq<Task>, id: string, text: string, codeBlock: Option<CodeBlock>,
                        richText: Option<string>, optional: Option<bool>)
    ensures SameShape(tasks, Edited(tasks, id, text, codeBlock, richText, optional))
    ensures UniqueIds(tasks) ==> UniqueIds(Edited(tasks, id, text, codeBlock, richText, optional))
  {
    var r := Edited(tasks, id, text, codeBlock, richText, optional);
    assert forall i :: 0 <= i < |tasks| ==> r[i].id == tasks[i].id;
  }

  /** Repeating the same edit changes nothing more. */
  lemma EditedIdempotent(tasks: seq<Task>, id: string, text: string, codeBlock: Option<CodeBlock>,
                         richText: Option<string>, optional: Option<bool>)
    ensures var once := Edited(tasks, id, text, codeBlock, richText, optional);
            Edited(once, id, text, codeBlock, richText, optional) == once
  {
    var once := Edited(tasks, id, text, codeBlock, richText, optional);
    var twice := Edited(once, id, text, codeBlock, richText, optional);
    assert forall i :: 0 <= i < |once| ==> twice[i] == once[i];
  }

  /** The store: one state cell holding the current list. Every operation
      replaces the whole list with a new one. */
  class TaskStore {
    var tasks: seq<Task>

    /** `useState<Task[]>([])` */
    constructor ()
      ensures tasks == []
    {
      tasks := [];
    }

    /** `addTask`: `id` stands for `crypto.randomUUID()`, which is fresh. */
    method AddTask(id: string, text: string, isHeadline: bool, codeBlock: Option<CodeBlock>,
                   richText: Option<string>, optional: Option<bool>, createdAt: Timestamp)
      requires !HasId(tasks, id)
      modifies this
      ensures tasks == Added(old(tasks), NewTask(id, text, isHeadline, codeBlock, richText, optional, createdAt))
      ensures UniqueIds(old(tasks)) ==> UniqueIds(tasks)
    {
      var t := NewTask(id, text, isHeadline, codeBlock, richText, optional, createdAt);
      if UniqueIds(tasks) {
        AddedPreservesUniqueIds(tasks, t);
      }
      tasks := Added(tasks, t);
    }

    /** `toggleTask` */
    method ToggleTask(id: string)
      modifies this
      ensures tasks == Toggled(old(tasks), id)
      ensures UniqueIds(old(tasks)) ==> UniqueIds(tasks)
    {
      ToggledSameShape(tasks, id);
      tasks := Toggled(tasks, id);
    }

    /** `deleteTask` */
    method DeleteTask(id: string)
      modifies this
      ensures tasks == Deleted(old(tasks), id)
      ensures UniqueIds(old(tasks)) ==> UniqueIds(tasks)
    {
      if UniqueIds(tasks) {
        DeletedPreservesUniqueIds(tasks, id);
      }
      tasks := Deleted(tasks, id);
    }

    /** `editTask` */
    method EditTask(id: string, text: string, codeBlock: Option<CodeBlock>,
                    richText: Option<string>, optional: Option<bool>)
      modifies this
      ensures tasks == Edited(old(tasks), id, text, codeBlock, richText, optional)
      ensures UniqueIds(old(tasks)) ==> UniqueIds(tasks)
    {
      EditedSameShape(tasks, id, text, codeBlock, richText, optional);
      tasks := Edited(tasks, id, text, codeBlock, richText, optional);
    }

    /** `reorderTasks`: the supplied list becomes the state as it is; no
        permutation check is made. */
    method ReorderTasks(newTasks: seq<Task>)
      modifies this
      ensures tasks == newTasks
    {
      SetTasks(newTasks);
    }

    /** The exposed `setTasks`, also used for importing a file and loading
        an example list: wholesale replacement. */
    method SetTasks(newTasks: seq<Task>)
      modifies this
      ensures tasks == newTasks
    {
      tasks := newTasks;
    }
  }
}
