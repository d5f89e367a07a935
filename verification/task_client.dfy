/** The client's task cache (`useTasks`): two lists, all tasks and the
    signed-in user's tasks, patched from server responses. Each operation is
    modelled from the state before the call to the state after the call has
    settled; the in-flight state is `Started`. */
module TaskClient {
  import opened Wrappers
  import TaskModel

  type Task = TaskModel.Task

  /** A value thrown by an awaited call: an `Error` with its message, or
      anything else. */
  datatype Thrown = ErrorValue(message: string) | OtherValue

  /** How an awaited API call settled: a response whose `data` may be
      absent, or a thrown value. */
  datatype Settled<T> = Resolved(data: Option<T>) | Rejected(thrown: Thrown)

  datatype Hook = Hook(tasks: seq<Task>, userTasks: seq<Task>, loading: bool, error: Option<string>)

  const Unexpected: string := "An unexpected error occurred"

  /** The message the `catch` blocks store. */
  function ErrorText(e: Thrown): string
  {
    match e
    case ErrorValue(m) => m
    case OtherValue => Unexpected
  }

  /** The state while a call is in flight: loading, error cleared, lists kept. */
  function Started(h: Hook): (r: Hook)
    ensures r.loading && r.error.None?
    ensures r.tasks == h.tasks && r.userTasks == h.userTasks
  {
    h.(loading := true, error := None)
  }

  // ---------------------------------------------------------------------
  // List patches

  /** `list.map(task => task.id === id ? t : task)`. */
  function ReplaceById(xs: seq<Task>, id: TaskModel.TaskId, t: Task): (r: seq<Task>)
    ensures |r| == |xs|
    ensures forall i :: 0 <= i < |xs| ==> r[i] == if xs[i].id == id then t else xs[i]
    decreases |xs|
  {
    if |xs| == 0 then []
    else [if xs[0].id == id then t else xs[0]] + ReplaceById(xs[1..], id, t)
  }

  /** `list.filter(task => task.id !== id)`. */
  function RemoveById(xs: seq<Task>, id: TaskModel.TaskId): (r: seq<Task>)
    ensures forall t :: t in r <==> t in xs && t.id != id
    ensures |r| + CountId(xs, id) == |xs|
    decreases |xs|
  {
    if |xs| == 0 then []
    else
      var rest := RemoveById(xs[1..], id);
      assert forall t :: t in xs <==> t == xs[0] || t in xs[1..];
      if xs[0].id == id then rest else [xs[0]] + rest
  }

  /** How many tasks in `xs` carry `id`. */
  function CountId(xs: seq<Task>, id: TaskModel.TaskId): nat
    decreases |xs|
  {
    if |xs| == 0 then 0 else (if xs[0].id == id then 1 else 0) + CountId(xs[1..], id)
  }

  /** The filter keeps the relative order: it distributes over concatenation. */
  lemma {:induction false} RemoveByIdAppend(a: seq<Task>, b: seq<Task>, id: TaskModel.TaskId)
    ensures RemoveById(a + b, id) == RemoveById(a, id) + RemoveById(b, id)
    decreases |a|
  {
    if |a| == 0 {
      assert a + b == b;
    } else {
      assert (a + b)[0] == a[0];
      assert (a + b)[1..] == a[1..] + b;
      RemoveByIdAppend(a[1..], b, id);
    }
  }

  /** Replacing the task with id `id` and then filtering `id` out is the same
      as filtering it out directly. */
  lemma {:induction false} RemoveAfterReplace(xs: seq<Task>, id: TaskModel.TaskId, t: Task)
    requires t.id == id
    ensures RemoveById(ReplaceById(xs, id, t), id) == RemoveById(xs, id)
    decreases |xs|
  {
    if |xs| > 0 {
      var r := ReplaceById(xs, id, t);
      assert r[1..] == ReplaceById(xs[1..], id, t);
      RemoveAfterReplace(xs[1..], id, t);
    }
  }

  /** Replacing by the same task twice is replacing once. */
  lemma ReplaceIdempotent(xs: seq<Task>, id: TaskModel.TaskId, t: Task)
    requires t.id == id
    ensures ReplaceById(ReplaceById(xs, id, t), id, t) == ReplaceById(xs, id, t)
  {
  }

  /** Replacing by a task with the same id keeps the list's ids, in order. */
  lemma ReplaceKeepsIds(xs: seq<Task>, id: TaskModel.TaskId, t: Task)
    requires t.id == id
    ensures forall i :: 0 <= i < |xs| ==> ReplaceById(xs, id, t)[i].id == xs[i].id
  {
  }

  // ---------------------------------------------------------------------
  // Hook operations

  /** `fetchTasks`: a non-empty `data` array replaces the all-tasks list; an
      empty or absent one keeps the previous list. */
  function FetchTasks(h: Hook, res: Settled<seq<Task>>): (r: Hook)
    ensures !r.loading && r.userTasks == h.userTasks
    ensures res.Resolved? ==> r.error.None?
    ensures res.Resolved? && res.data.Some? && |res.data.value| > 0 ==> r.tasks == res.data.value
    ensures res.Resolved? && (res.data.None? || |res.data.value| == 0) ==> r.tasks == h.tasks
    ensures res.Rejected? ==> r.tasks == h.tasks && r.error == Some(ErrorText(res.thrown))
  {
    var h1 := Started(h);
    match res
    case Resolved(data) =>
      if data.Some? && |data.value| > 0 then h1.(tasks := data.value, loading := false)
      else h1.(loading := false)
    case Rejected(e) => h1.(error := Some(ErrorText(e)), loading := false)
  }

  /** `createTask`: the returned task goes to the front of both lists. */
  function CreateTask(h: Hook, res: Settled<Task>): (r: Hook)
    ensures !r.loading
    ensures res.Resolved? ==> r.error.None?
    ensures res.Resolved? && res.data.Some? ==>
      && |r.tasks| == |h.tasks| + 1 && r.tasks[0] == res.data.value && r.tasks[1..] == h.tasks
      && |r.userTasks| == |h.userTasks| + 1 && r.userTasks[0] == res.data.value && r.userTasks[1..] == h.userTasks
    ensures res.Rejected? || res.data.None? ==> r.tasks == h.tasks && r.userTasks == h.userTasks
    ensures res.Rejected? ==> r.error == Some(ErrorText(res.thrown))
  {
    var h1 := Started(h);
    match res
    case Resolved(data) =>
      if data.Some? then h1.(tasks := [data.value] + h.tasks, userTasks := [data.value] + h.userTasks, loading := false)
      else h1.(loading := false)
    case Rejected(e) => h1.(error := Some(ErrorText(e)), loading := false)
  }

  /** `updateTask`: every element carrying `id` is replaced by the returned task. */
  function UpdateTask(h: Hook, id: TaskModel.TaskId, res: Settled<Task>): (r: Hook)
    ensures !r.loading
    ensures res.Resolved? ==> r.error.None?
    ensures res.Resolved? && res.data.Some? ==>
      r.tasks == ReplaceById(h.tasks, id, res.data.value) && r.userTasks == ReplaceById(h.userTasks, id, res.data.value)
    ensures res.Rejected? || res.data.None? ==> r.tasks == h.tasks && r.userTasks == h.userTasks
    ensures res.Rejected? ==> r.error == Some(ErrorText(res.thrown))
  {
    var h1 := Started(h);
    match res
    case Resolved(data) =>
      if data.Some? then
        h1.(tasks := ReplaceById(h.tasks, id, data.value), userTasks := ReplaceById(h.userTasks, id, data.value), loading := false)
      else h1.(loading := false)
    case Rejected(e) => h1.(error := Some(ErrorText(e)), loading := false)
  }

  /** `deleteTask`: once the server call succeeds, every element carrying `id`
      leaves both lists; a failed call removes nothing. */
  function DeleteTask(h: Hook, id: TaskModel.TaskId, res: Settled<()>): (r: Hook)
    ensures !r.loading
    ensures res.Resolved? ==> r.error.None?
    ensures res.Resolved? ==> r.tasks == RemoveById(h.tasks, id) && r.userTasks == RemoveById(h.userTasks, id)
    ensures res.Rejected? ==> r.tasks == h.tasks && r.userTasks == h.userTasks
    ensures res.Rejected? ==> r.error == Some(ErrorText(res.thrown))
  {
    var h1 := Started(h);
    match res
    case Resolved(_) =>
      h1.(tasks := RemoveById(h.tasks, id), userTasks := RemoveById(h.userTasks, id), loading := false)
    case Rejected(e) => h1.(error := Some(ErrorText(e)), loading := false)
  }

  /** Creating a task and then deleting it leaves the lists as deleting its id
      from the original lists would. */
  lemma CreateThenDelete(h: Hook, t: Task, d: Settled<()>)
    requires d.Resolved?
    ensures var r := DeleteTask(CreateTask(h, Resolved(Some(t))), t.id, d);
      r.tasks == RemoveById(h.tasks, t.id) && r.userTasks == RemoveById(h.userTasks, t.id)
  {
    var c := CreateTask(h, Resolved(Some(t)));
    assert c.tasks == [t] + h.tasks;
    assert c.userTasks == [t] + h.userTasks;
    RemoveByIdAppend([t], h.tasks, t.id);
    RemoveByIdAppend([t], h.userTasks, t.id);
  }

  /** Updating a task and then deleting it is the same as deleting it. */
  lemma UpdateThenDelete(h: Hook, t: Task, d: Settled<()>)
    requires d.Resolved?
    ensures var r := DeleteTask(UpdateTask(h, t.id, Resolved(Some(t))), t.id, d);
      r.tasks == RemoveById(h.tasks, t.id) && r.userTasks == RemoveById(h.userTasks, t.id)
  {
    RemoveAfterReplace(h.tasks, t.id, t);
    RemoveAfterReplace(h.userTasks, t.id, t);
  }
}
