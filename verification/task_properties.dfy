/** Properties that relate several backend operations. */
module TaskProperties {
  import opened Wrappers
  import TaskModel
  import TaskController

  type State = TaskController.State
  type Context = TaskController.Context

  /** No owner has two tasks with the same name. */
  predicate UniqueNamesPerOwner(tasks: map<TaskModel.TaskId, TaskModel.Task>)
  {
    forall a, b :: a in tasks && b in tasks && a != b && tasks[a].userId == tasks[b].userId ==>
      tasks[a].name != tasks[b].name
  }

  /** Only `store` checks for duplicate names: an owner may rename one task
      to the name of another, so unique names per owner is not an invariant
      of the task table. */
  lemma UpdateCanDuplicateName(s: State, ctx: Context, a: TaskModel.TaskId, b: TaskModel.TaskId)
    requires TaskController.Valid(s)
    requires a in s.tasks && b in s.tasks && a != b
    requires s.tasks[a].userId == ctx.caller && s.tasks[b].userId == ctx.caller
    ensures var r := TaskController.Update(s, ctx, b, [("name", TaskModel.Str(s.tasks[a].name))]);
      r.response.Ok? && !UniqueNamesPerOwner(r.state.tasks)
  {
    var input := [("name", TaskModel.Str(s.tasks[a].name))];
    var r := TaskController.Update(s, ctx, b, input);
    RenameSetsName(s.tasks[b], s.tasks[a].name, ctx.now);
    assert r.state.tasks[b] == TaskController.Revised(s.tasks[b], input, ctx.now);
    assert r.state.tasks[a] == s.tasks[a];
    assert a in r.state.tasks && b in r.state.tasks;
    assert r.state.tasks[a].userId == r.state.tasks[b].userId && r.state.tasks[a].name == r.state.tasks[b].name;
  }

  /** An update request carrying only a name renames the task and keeps its owner. */
  lemma RenameSetsName(t: TaskModel.Task, name: string, now: nat)
    ensures var after := TaskController.Revised(t, [("name", TaskModel.Str(name))], now);
      after.name == name && after.userId == t.userId
  {
    var input := [("name", TaskModel.Str(name))];
    assert TaskModel.Lookup(input, "name") == Some(TaskModel.Str(name));
    assert TaskModel.Supplied(t, input, TaskModel.NameCol) == TaskModel.Str(name);
    assert TaskModel.Column(TaskController.Revised(t, input, now), TaskModel.NameCol) == TaskModel.Str(name);
  }

  /** After a successful `store`, the same caller storing the same name again
      gets 400 and nothing changes. */
  lemma StoreRefusesSecondCopy(s: State, ctx: Context, req: TaskController.StoreRequest,
                               ctx2: Context, req2: TaskController.StoreRequest)
    requires TaskController.Valid(s)
    requires TaskController.Store(s, ctx, req).response.Ok?
    requires ctx2.caller == ctx.caller && req2.name == req.name
    requires TaskController.PassesValidation(req2)
    ensures var s1 := TaskController.Store(s, ctx, req).state;
      TaskController.Store(s1, ctx2, req2) == TaskController.Outcome(s1, TaskController.Err(400, TaskController.AlreadyExists))
  {
    var s1 := TaskController.Store(s, ctx, req).state;
    var k := s.nextTaskId;
    assert k in s1.tasks && s1.tasks[k].userId == ctx.caller && s1.tasks[k].name == req.name.value;
    assert TaskController.OwnsName(s1.tasks, ctx2.caller, req2.name.value);
  }

  /** `show` on the id `store` just assigned returns the stored task, the
      same one the `store` response carried. */
  lemma StoreThenShow(s: State, ctx: Context, req: TaskController.StoreRequest)
    requires TaskController.Valid(s)
    requires TaskController.Store(s, ctx, req).response.Ok?
    ensures var r := TaskController.Store(s, ctx, req);
      TaskController.Show(r.state, s.nextTaskId) == TaskController.Ok(200, TaskController.Bare(r.response.body.view.task))
  {
  }

  /** Once a task is destroyed, `show`, `update` and `destroy` on its id all
      answer 404, and the second `destroy` touches no file. */
  lemma DestroyThenGone(s: State, ctx: Context, id: TaskModel.TaskId, ctx2: Context, input: TaskModel.Attributes)
    requires TaskController.Valid(s)
    requires TaskController.Destroy(s, ctx, id).response.Ok?
    ensures var s1 := TaskController.Destroy(s, ctx, id).state;
      && TaskController.Show(s1, id) == TaskController.Err(404, TaskController.NotFound)
      && TaskController.Update(s1, ctx2, id, input) == TaskController.Outcome(s1, TaskController.Err(404, TaskController.NotFound))
      && TaskController.Destroy(s1, ctx2, id) == TaskController.Outcome(s1, TaskController.Err(404, TaskController.NotFound))
  {
  }

  /** The life of any stored task after its creation: another user may
      neither update nor delete it; its owner may mark it completed and then
      delete it, after which it is not found. */
  lemma OwnerLifecycle(s: State, a: Context, b: Context, id: TaskModel.TaskId)
    requires TaskController.Valid(s)
    requires id in s.tasks && s.tasks[id].userId == a.caller && a.caller != b.caller
    ensures
      var done: TaskModel.Attributes := [("completed", TaskModel.Bool(true))];
      var r2 := TaskController.Update(s, a, id, done);
      var r3 := TaskController.Destroy(r2.state, a, id);
      && TaskController.Update(s, b, id, done) == TaskController.Outcome(s, TaskController.Err(403, TaskController.Unauthorized))
      && TaskController.Destroy(s, b, id) == TaskController.Outcome(s, TaskController.Err(403, TaskController.Unauthorized))
      && r2.response.status == 200 && r2.state.tasks[id].completed
      && r3.response == TaskController.Ok(200, TaskController.Message(TaskController.Deleted))
      && TaskController.Show(r3.state, id).status == 404
  {
    var done: TaskModel.Attributes := [("completed", TaskModel.Bool(true))];
    var r2 := TaskController.Update(s, a, id, done);
    assert r2.response.Ok? && id in r2.state.tasks && r2.state.tasks[id].userId == a.caller;
    CompleteSetsFlag(s.tasks[id], a.now);
    assert r2.state.tasks[id] == TaskController.Revised(s.tasks[id], done, a.now);
    var r3 := TaskController.Destroy(r2.state, a, id);
    assert r3.response.Ok? && id !in r3.state.tasks;
  }

  /** An update request carrying `completed: true` marks the task completed
      and keeps its owner. */
  lemma CompleteSetsFlag(t: TaskModel.Task, now: nat)
    ensures var after := TaskController.Revised(t, [("completed", TaskModel.Bool(true))], now);
      after.completed && after.userId == t.userId
  {
    var input := [("completed", TaskModel.Bool(true))];
    assert TaskModel.Lookup(input, "completed") == Some(TaskModel.Bool(true));
    assert TaskModel.Supplied(t, input, TaskModel.CompletedCol) == TaskModel.Bool(true);
    assert TaskModel.Column(TaskController.Revised(t, input, now), TaskModel.CompletedCol) == TaskModel.Bool(true);
  }

  /** Storing "Buy milk" for a caller who has no task of that name creates
      an open task of theirs under the next id. */
  lemma StoreBuyMilk(s: State, a: Context)
    requires TaskController.Valid(s)
    requires !TaskController.OwnsName(s.tasks, a.caller, "Buy milk")
    ensures
      var r1 := TaskController.Store(s, a, TaskController.StoreRequest(Some("Buy milk"), None, None, None, None));
      && r1.response.status == 201 && TaskController.Valid(r1.state)
      && s.nextTaskId in r1.state.tasks && r1.state.tasks[s.nextTaskId].userId == a.caller
      && !r1.state.tasks[s.nextTaskId].completed
  {
    var req := TaskController.StoreRequest(Some("Buy milk"), None, None, None, None);
    assert !TaskController.Trimmable(req.name.value[0]);
    assert TaskController.PassesValidation(req);
  }

  /** A walk through the life of one task: A creates "Buy milk"; B may
      neither update nor delete it; A marks it completed; A deletes it, and
      it is gone. */
  lemma BuyMilkScenario(s: State, a: Context, b: Context)
    requires TaskController.Valid(s)
    requires a.caller != b.caller
    requires !TaskController.OwnsName(s.tasks, a.caller, "Buy milk")
    ensures
      var req := TaskController.StoreRequest(Some("Buy milk"), None, None, None, None);
      var id := s.nextTaskId;
      var done: TaskModel.Attributes := [("completed", TaskModel.Bool(true))];
      var r1 := TaskController.Store(s, a, req);
      var r2 := TaskController.Update(r1.state, a, id, done);
      var r3 := TaskController.Destroy(r2.state, a, id);
      && r1.response.status == 201
      && !r1.state.tasks[id].completed
      && TaskController.Update(r1.state, b, id, done) == TaskController.Outcome(r1.state, TaskController.Err(403, TaskController.Unauthorized))
      && TaskController.Destroy(r1.state, b, id) == TaskController.Outcome(r1.state, TaskController.Err(403, TaskController.Unauthorized))
      && r2.response.status == 200 && r2.state.tasks[id].completed
      && r3.response == TaskController.Ok(200, TaskController.Message(TaskController.Deleted))
      && TaskController.Show(r3.state, id).status == 404
  {
    var req := TaskController.StoreRequest(Some("Buy milk"), None, None, None, None);
    StoreBuyMilk(s, a);
    OwnerLifecycle(TaskController.Store(s, a, req).state, a, b, s.nextTaskId);
  }
}
