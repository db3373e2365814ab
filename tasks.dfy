/** The task record and the identifier queries shared by the store, the
    hierarchy resolver and the progress counter. */
module Tasks {

  /** An optional field of a task (`undefined` when absent). */
  datatype Option<T> = None | Some(value: T)

  /** A code snippet attached to a task. */
  datatype CodeBlock = CodeBlock(language: string, code: string)

  /** A JavaScript `Date`, kept as its millisecond count; the engine only
      stores and copies it. */
  datatype Timestamp = Timestamp(millis: int)

  /** One entry of the flat, ordered task list. A headline is a grouping
      marker; every other task belongs to the nearest headline before it. */
  datatype Task = Task(
    id: string,
    text: string,
    completed: bool,
    isHeadline: bool,
    createdAt: Timestamp,
    codeBlock: Option<CodeBlock>,
    richText: Option<string>,
    optional: Option<bool>)

  /** Some task of the list carries `id`. */
  predicate HasId(tasks: seq<Task>, id: string)
  {
    exists i :: 0 <= i < |tasks| && tasks[i].id == id
  }

  /** No two tasks of the list share an identifier. */
  predicate UniqueIds(tasks: seq<Task>)
  {
    forall i, j :: 0 <= i < j < |tasks| ==> tasks[i].id != tasks[j].id
  }

  /** Two lists with the same identifiers and headline flags, position by
      position: they may differ only in content and completion. */
  predicate SameShape(a: seq<Task>, b: seq<Task>)
  {
    |a| == |b| &&
    forall i :: 0 <= i < |a| ==> a[i].id == b[i].id && a[i].isHeadline == b[i].isHeadline
  }

  /** `tasks.findIndex(t => t.id === id)`: the first position carrying `id`,
      or -1 when there is none. */
  function FindIndex(tasks: seq<Task>, id: string): (r: int)
    ensures -1 <= r < |tasks|
    ensures r == -1 <==> !HasId(tasks, id)
    ensures 0 <= r ==> tasks[r].id == id
    ensures forall k :: 0 <= k < r ==> tasks[k].id != id
  {
    if tasks == [] then -1
    else if tasks[0].id == id then 0
    else
      var r := FindIndex(tasks[1..], id);
      if r == -1 then -1 else r + 1
  }

  /** With unique identifiers, the first position of a task's id is that
      task's own position. */
  lemma FindIndexUnique(tasks: seq<Task>, i: int)
    requires UniqueIds(tasks)
    requires 0 <= i < |tasks|
    ensures FindIndex(tasks, tasks[i].id) == i
  {
  }

  /** `findIndex` looks only at identifiers. */
  lemma FindIndexSameShape(a: seq<Task>, b: seq<Task>, id: string)
    requires SameShape(a, b)
    ensures FindIndex(a, id) == FindIndex(b, id)
  {
    var ra, rb := FindIndex(a, id), FindIndex(b, id);
    if ra != -1 {
      assert b[ra].id == id;
    }
    if rb != -1 {
      assert a[rb].id == id;
    }
  }
}
