/** The order of `latest()`: newest `created_at` first. The database leaves
    ties unordered; this model breaks them by the larger id. */
module TaskOrder {
  import TaskModel

  type Task = TaskModel.Task

  predicate NewerThan(a: Task, b: Task)
  {
    a.createdAt > b.createdAt || (a.createdAt == b.createdAt && a.id > b.id)
  }

  /** Strictly newest first; in particular no task appears twice. */
  predicate NewestFirst(s: seq<Task>)
  {
    forall i, j :: 0 <= i < j < |s| ==> NewerThan(s[i], s[j])
  }

  predicate DistinctIds(s: seq<Task>)
  {
    forall i, j :: 0 <= i < j < |s| ==> s[i].id != s[j].id
  }

  /** Every task is stored under its own id. */
  predicate Keyed(tasks: map<TaskModel.TaskId, Task>)
  {
    forall k :: k in tasks ==> tasks[k].id == k
  }

  function Insert(x: Task, s: seq<Task>): (r: seq<Task>)
    ensures multiset(r) == multiset(s) + multiset{x}
    decreases |s|
  {
    if |s| == 0 then [x]
    else if NewerThan(x, s[0]) then [x] + s
    else
      assert s == [s[0]] + s[1..];
      [s[0]] + Insert(x, s[1..])
  }

  /** Inserting a task with a fresh id keeps a listing newest first. */
  lemma {:induction false} InsertNewestFirst(x: Task, s: seq<Task>)
    requires NewestFirst(s)
    requires forall i :: 0 <= i < |s| ==> s[i].id != x.id
    ensures NewestFirst(Insert(x, s))
    decreases |s|
  {
    if |s| > 0 && !NewerThan(x, s[0]) {
      var rest := Insert(x, s[1..]);
      InsertNewestFirst(x, s[1..]);
      assert NewerThan(s[0], x);
      forall y | y in rest ensures NewerThan(s[0], y) {
        assert y in multiset(rest);
        assert y == x || y in multiset(s[1..]);
      }
      var r := [s[0]] + rest;
      assert forall j :: 0 < j < |r| ==> r[j] == rest[j - 1] && r[j] in rest;
    }
  }

  function Sort(s: seq<Task>): (r: seq<Task>)
    requires DistinctIds(s)
    ensures multiset(r) == multiset(s)
    ensures NewestFirst(r)
    decreases |s|
  {
    if |s| == 0 then []
    else
      DistinctTail(s);
      var rest := Sort(s[1..]);
      SortStep(s, rest);
      Insert(s[0], rest)
  }

  /** Inserting the head into the sorted tail sorts the whole listing. */
  lemma SortStep(s: seq<Task>, rest: seq<Task>)
    requires |s| > 0 && DistinctIds(s)
    requires multiset(rest) == multiset(s[1..]) && NewestFirst(rest)
    ensures multiset(Insert(s[0], rest)) == multiset(s)
    ensures NewestFirst(Insert(s[0], rest))
  {
    DistinctTail(s);
    FreshInPermutation(s[0], s[1..], rest);
    InsertNewestFirst(s[0], rest);
    assert s == [s[0]] + s[1..];
  }

  /** Dropping the head of a listing with distinct ids leaves distinct ids,
      none of them the head's. */
  lemma DistinctTail(s: seq<Task>)
    requires |s| > 0 && DistinctIds(s)
    ensures DistinctIds(s[1..])
    ensures forall i :: 0 <= i < |s[1..]| ==> s[1..][i].id != s[0].id
  {
    forall i, j | 0 <= i < j < |s[1..]| ensures s[1..][i].id != s[1..][j].id {
      assert s[1..][i] == s[i + 1] && s[1..][j] == s[j + 1];
    }
    forall i | 0 <= i < |s[1..]| ensures s[1..][i].id != s[0].id {
      assert s[1..][i] == s[i + 1];
    }
  }

  /** Reordering a listing keeps every id other than `x`'s. */
  lemma FreshInPermutation(x: Task, s: seq<Task>, r: seq<Task>)
    requires multiset(r) == multiset(s)
    requires forall i :: 0 <= i < |s| ==> s[i].id != x.id
    ensures forall i :: 0 <= i < |r| ==> r[i].id != x.id
  {
    forall i | 0 <= i < |r| ensures r[i].id != x.id {
      assert r[i] in multiset(s);
      var j :| 0 <= j < |s| && s[j] == r[i];
    }
  }

  /** The tasks whose ids lie below `n`, largest id first. */
  function Collect(tasks: map<TaskModel.TaskId, Task>, n: nat): seq<Task>
    decreases n
  {
    if n == 0 then []
    else if n - 1 in tasks then [tasks[n - 1]] + Collect(tasks, n - 1)
    else Collect(tasks, n - 1)
  }

  /** Every collected task is the table's row under an id below `n`. */
  lemma {:induction false} CollectRows(tasks: map<TaskModel.TaskId, Task>, n: nat)
    requires Keyed(tasks)
    ensures forall t :: t in Collect(tasks, n) ==> t.id < n && t.id in tasks && tasks[t.id] == t
    decreases n
  {
    if n > 0 {
      CollectRows(tasks, n - 1);
    }
  }

  /** Every row under an id below `n` is collected. */
  lemma {:induction false} CollectComplete(tasks: map<TaskModel.TaskId, Task>, n: nat)
    ensures forall k :: k in tasks && k < n ==> tasks[k] in Collect(tasks, n)
    decreases n
  {
    if n > 0 {
      CollectComplete(tasks, n - 1);
    }
  }

  /** Collected ids strictly decrease. */
  lemma {:induction false} CollectDescending(tasks: map<TaskModel.TaskId, Task>, n: nat)
    requires Keyed(tasks)
    ensures DistinctIds(Collect(tasks, n))
    decreases n
  {
    if n > 0 && n - 1 in tasks {
      var rest := Collect(tasks, n - 1);
      var r := [tasks[n - 1]] + rest;
      CollectDescending(tasks, n - 1);
      CollectRows(tasks, n - 1);
      forall i, j | 0 <= i < j < |r| ensures r[i].id != r[j].id {
        assert r[j] == rest[j - 1] && r[j] in rest;
        if i > 0 {
          assert r[i] == rest[i - 1];
        }
      }
    } else if n > 0 {
      CollectDescending(tasks, n - 1);
    }
  }

  /** `latest()->get()` over the whole table, given that every id is below `bound`. */
  function Latest(tasks: map<TaskModel.TaskId, Task>, bound: nat): (r: seq<Task>)
    requires Keyed(tasks)
    requires forall k :: k in tasks ==> k < bound
    ensures NewestFirst(r)
    ensures forall t :: t in r <==> t.id in tasks && tasks[t.id] == t
  {
    var c := Collect(tasks, bound);
    CollectRows(tasks, bound);
    CollectComplete(tasks, bound);
    CollectDescending(tasks, bound);
    var r := Sort(c);
    assert forall t :: t in r <==> t in multiset(c);
    r
  }

  /** `where('user_id', owner)` applied to an ordered listing. */
  function OwnedBy(s: seq<Task>, owner: TaskModel.UserId): (r: seq<Task>)
    ensures forall t :: t in r <==> t in s && t.userId == owner
    ensures NewestFirst(s) ==> NewestFirst(r)
    decreases |s|
  {
    if |s| == 0 then []
    else
      var rest := OwnedBy(s[1..], owner);
      assert forall t :: t in s <==> t == s[0] || t in s[1..];
      if s[0].userId == owner then [s[0]] + rest else rest
  }
}
