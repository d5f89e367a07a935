/** The backend task endpoints as pure transitions over the database
    (tasks and images), the public disk (a set of paths) and the users table.
    The caller id, the request IP, the clock and the asset root are explicit
    parameters instead of framework state. */
module TaskController {
  import opened Wrappers
  import ImageStore
  import TaskModel
  import ImageForeignKey
  import TaskOrder

  type Task = TaskModel.Task

  datatype State = State(
    users: set<TaskModel.UserId>,
    tasks: map<TaskModel.TaskId, Task>,
    nextTaskId: TaskModel.TaskId,
    images: ImageStore.ImageTable,
    files: set<string>)

  /** What the framework supplies to a request: the authenticated caller,
      the client IP, the time in seconds and the root for public URLs.
      The source reads the clock twice during a store, once with `time()`
      for the image filename and once with `now()` for the row timestamps;
      the model takes both readings to be the same second, `now`. */
  datatype Context = Context(caller: TaskModel.UserId, ip: string, now: nat, assetRoot: string)

  /** A task with its `user` and `image` relations loaded. */
  datatype TaskView = TaskView(task: Task, user: Option<TaskModel.UserId>, image: Option<ImageStore.Image>)

  datatype Body =
    | Listing(views: seq<TaskView>)
    | Joined(view: TaskView)
    | Bare(task: Task)
    | Message(text: string)

  datatype Response = Ok(status: nat, body: Body) | Err(status: nat, message: string)

  datatype Outcome = Outcome(state: State, response: Response)

  const AlreadyExists: string := "Task already exists"
  const Unauthorized: string := "Unauthorized"
  const Deleted: string := "Deleted successfully"
  /** The framework's messages for a failed validation and an unknown id.
      The validation message is a fixed stand-in: it is the text older
      Laravel versions give, while newer ones derive it from the first
      failing rule. */
  const Invalid: string := "The given data was invalid."
  const NotFound: string := "Not Found"

  /** No image row is referenced by two different tasks. */
  predicate ImagesUnshared(tasks: map<TaskModel.TaskId, Task>)
  {
    forall a, b :: a in tasks && b in tasks && a != b && tasks[a].imageId.Some? ==>
      tasks[a].imageId != tasks[b].imageId
  }

  /** The database invariant every operation keeps. */
  predicate Valid(s: State)
  {
    && TaskOrder.Keyed(s.tasks)
    && (forall k :: k in s.tasks ==> k < s.nextTaskId)
    && ImageStore.Valid(s.images)
    && ImageForeignKey.Referenced(s.tasks, s.images)
    && ImagesUnshared(s.tasks)
  }

  function View(s: State, t: Task): TaskView
    requires ImageStore.Valid(s.images)
  {
    TaskView(t, TaskModel.UserOf(t, s.users), TaskModel.ImageOf(t, s.images))
  }

  function Views(s: State, ts: seq<Task>): (r: seq<TaskView>)
    requires ImageStore.Valid(s.images)
    ensures |r| == |ts|
    ensures forall i :: 0 <= i < |r| ==> r[i] == View(s, ts[i])
  {
    seq(|ts|, i requires 0 <= i < |ts| => View(s, ts[i]))
  }

  function TasksOf(views: seq<TaskView>): seq<Task>
  {
    seq(|views|, i requires 0 <= i < |views| => views[i].task)
  }

  // ---------------------------------------------------------------------
  // index, mine, show

  /** `index`: every task, newest first, with its relations. */
  function Index(s: State): (r: Response)
    requires Valid(s)
    ensures r.Ok? && r.status == 200 && r.body.Listing?
    ensures TaskOrder.NewestFirst(TasksOf(r.body.views))
    ensures forall t :: t in TasksOf(r.body.views) <==> t.id in s.tasks && s.tasks[t.id] == t
    ensures forall v :: v in r.body.views ==> v == View(s, v.task)
  {
    var ts := TaskOrder.Latest(s.tasks, s.nextTaskId);
    var vs := Views(s, ts);
    assert TasksOf(vs) == ts;
    Ok(200, Listing(vs))
  }

  /** `mine`: the caller's tasks, newest first, with their relations. */
  function Mine(s: State, ctx: Context): (r: Response)
    requires Valid(s)
    ensures r.Ok? && r.status == 200 && r.body.Listing?
    ensures TaskOrder.NewestFirst(TasksOf(r.body.views))
    ensures forall t :: t in TasksOf(r.body.views) <==>
      t.id in s.tasks && s.tasks[t.id] == t && t.userId == ctx.caller
    ensures forall v :: v in r.body.views ==> v == View(s, v.task)
  {
    var ts := TaskOrder.OwnedBy(TaskOrder.Latest(s.tasks, s.nextTaskId), ctx.caller);
    var vs := Views(s, ts);
    assert TasksOf(vs) == ts;
    Ok(200, Listing(vs))
  }

  /** `show`: the route-bound task as stored, without its relations. */
  function Show(s: State, id: TaskModel.TaskId): (r: Response)
    requires Valid(s)
    ensures r.Ok? <==> id in s.tasks
    ensures r.Ok? ==> r.status == 200 && r.body.Bare? && r.body.task.id == id && r.body.task in s.tasks.Values
    ensures r.Err? ==> r.status == 404
  {
    if id in s.tasks then Ok(200, Bare(s.tasks[id])) else Err(404, NotFound)
  }

  // ---------------------------------------------------------------------
  // store

  /** The fields of a create request after the framework parsed it; a file
      field the client left out is `None`. */
  datatype StoreRequest = StoreRequest(
    name: Option<string>,
    description: Option<string>,
    image: Option<ImageStore.Upload>,
    completed: Option<bool>,
    gps: Option<string>)

  const MaxNameLength: nat := 255
  /** The `max` rule on the image, in kilobytes of 1024 bytes. */
  const MaxImageKilobytes: nat := 5055

  /** The characters PHP's `trim` strips by default: space, tab, line
      feed, carriage return, NUL and vertical tab. */
  predicate Trimmable(c: char)
  {
    c == ' ' || c == '\t' || c == '\n' || c == '\r' || c == '\0' || c == '\U{B}'
  }

  /** A string the `required` rule treats as missing: it is empty once
      trimmed. */
  predicate Blank(s: string)
  {
    forall k :: 0 <= k < |s| ==> Trimmable(s[k])
  }

  /** The validation rules of `store`: a name that is not blank and has at
      most 255 characters, and an optional file of at most 5055 KB. */
  predicate PassesValidation(req: StoreRequest)
  {
    && req.name.Some? && !Blank(req.name.value) && |req.name.value| <= MaxNameLength
    && (req.image.Some? ==> req.image.value.sizeBytes <= MaxImageKilobytes * 1024)
  }

  /** Whether `owner` already has a task called `name` (exact match). */
  predicate OwnsName(tasks: map<TaskModel.TaskId, Task>, owner: TaskModel.UserId, name: string)
  {
    exists k :: k in tasks && tasks[k].userId == owner && tasks[k].name == name
  }

  /** The array handed to `Task::create`. */
  function CreateAttributes(ctx: Context, req: StoreRequest, imageId: Option<ImageStore.ImageId>): TaskModel.Attributes
    requires req.name.Some?
  {
    [ ("user_id", TaskModel.Int(ctx.caller)),
      ("name", TaskModel.Str(req.name.value)),
      ("description", TaskModel.OptionalText(req.description)),
      ("image_id", if imageId.Some? then TaskModel.Int(imageId.value) else TaskModel.Null),
      ("completed", TaskModel.Bool(req.completed.GetOr(false))),
      ("gps_coordinates", TaskModel.OptionalText(req.gps)),
      ("user_ip", TaskModel.Str(ctx.ip)) ]
  }

  /** The create array names each column once. */
  lemma CreateKeysDistinct(ctx: Context, req: StoreRequest, imageId: Option<ImageStore.ImageId>)
    requires req.name.Some?
    ensures TaskModel.DistinctKeys(CreateAttributes(ctx, req, imageId))
  {
  }

  /** Filling a blank row with the create array sets the owner, image and
      IP fields from the context. */
  lemma CreateFillsOwnerColumns(blank: Task, ctx: Context, req: StoreRequest, imageId: Option<ImageStore.ImageId>)
    requires req.name.Some?
    ensures var t := TaskModel.Fill(blank, CreateAttributes(ctx, req, imageId));
      t.userId == ctx.caller && t.userIp == ctx.ip && t.imageId == imageId
  {
    var attrs := CreateAttributes(ctx, req, imageId);
    var t := TaskModel.Fill(blank, attrs);
    CreateKeysDistinct(ctx, req, imageId);
    assert t.userId == ctx.caller by {
      TaskModel.FillSetsColumn(blank, attrs, 0, TaskModel.UserIdCol);
    }
    assert t.imageId == imageId by {
      TaskModel.FillSetsColumn(blank, attrs, 3, TaskModel.ImageIdCol);
    }
    assert t.userIp == ctx.ip by {
      TaskModel.FillSetsColumn(blank, attrs, 6, TaskModel.UserIpCol);
    }
  }

  /** Filling a blank row with the create array sets the name, description,
      completion flag and coordinates from the request. */
  lemma CreateFillsRequestColumns(blank: Task, ctx: Context, req: StoreRequest, imageId: Option<ImageStore.ImageId>)
    requires req.name.Some?
    ensures var t := TaskModel.Fill(blank, CreateAttributes(ctx, req, imageId));
      && t.name == req.name.value && t.description == req.description && t.gps == req.gps
      && t.completed == req.completed.GetOr(false)
  {
    var attrs := CreateAttributes(ctx, req, imageId);
    var t := TaskModel.Fill(blank, attrs);
    CreateKeysDistinct(ctx, req, imageId);
    assert t.name == req.name.value by {
      TaskModel.FillSetsColumn(blank, attrs, 1, TaskModel.NameCol);
    }
    assert t.description == req.description by {
      TaskModel.FillSetsColumn(blank, attrs, 2, TaskModel.DescriptionCol);
    }
    assert t.completed == req.completed.GetOr(false) by {
      TaskModel.FillSetsColumn(blank, attrs, 4, TaskModel.CompletedCol);
    }
    assert t.gps == req.gps by {
      TaskModel.FillSetsColumn(blank, attrs, 5, TaskModel.GpsCol);
    }
  }

  /** The row `Task::create` inserts: a fresh model with id and timestamps,
      filled through the mass-assignment whitelist. */
  function CreatedTask(id: TaskModel.TaskId, ctx: Context, req: StoreRequest,
                       imageId: Option<ImageStore.ImageId>): (t: Task)
    requires req.name.Some?
    ensures t.id == id && t.createdAt == ctx.now && t.updatedAt == ctx.now
    ensures t.userId == ctx.caller && t.userIp == ctx.ip
    ensures t.name == req.name.value && t.description == req.description && t.gps == req.gps
    ensures t.completed == req.completed.GetOr(false)
    ensures t.imageId == imageId
  {
    var blank := TaskModel.Task(id, 0, "", None, None, false, None, "", ctx.now, ctx.now);
    CreateFillsOwnerColumns(blank, ctx, req, imageId);
    CreateFillsRequestColumns(blank, ctx, req, imageId);
    TaskModel.Fill(blank, CreateAttributes(ctx, req, imageId))
  }

  /** What a successful `store` leaves behind: one new row under the next
      id, owned by the caller and stamped with the request IP, with the
      defaults of the create array; an image row and a file exactly when a
      file was sent; everything else as it was. */
  predicate StoreSucceeded(s: State, ctx: Context, req: StoreRequest, r: Outcome)
  {
    && req.name.Some?
    && s.nextTaskId !in s.tasks
    && s.nextTaskId in r.state.tasks
    && r.state.tasks.Keys == s.tasks.Keys + {s.nextTaskId}
    && (forall k :: k in s.tasks ==> r.state.tasks[k] == s.tasks[k])
    && r.state.users == s.users
    && ImageStore.Valid(r.state.images)
    && var t := r.state.tasks[s.nextTaskId];
    && r.response == Ok(201, Joined(View(r.state, t)))
    && t.userId == ctx.caller && t.userIp == ctx.ip && t.createdAt == ctx.now
    && t.name == req.name.value && t.description == req.description && t.gps == req.gps
    && t.completed == req.completed.GetOr(false)
    && (t.imageId.Some? <==> req.image.Some?)
    && (req.image.None? ==> r.state.images == s.images && r.state.files == s.files)
    && (req.image.Some? ==>
          && t.imageId.value !in s.images.rows
          && t.imageId.value in r.state.images.rows
          && var img := r.state.images.rows[t.imageId.value];
          && r.state.images.rows == s.images.rows[img.id := img]
          && img.filename == ImageStore.StoredFilename(ctx.now, req.image.value.clientName)
          && ImageStore.ParseStoredFilename(img.filename) == Some((ctx.now, req.image.value.clientName))
          && img.path == ImageStore.Directory + img.filename
          && img.url == ctx.assetRoot + ImageStore.PublicPrefix + img.path
          && r.state.files == s.files + {img.path})
  }

  /** `store`: validate, refuse a name the caller already uses, then save the
      optional image and insert the task. */
  function Store(s: State, ctx: Context, req: StoreRequest): (r: Outcome)
    requires Valid(s)
    ensures Valid(r.state)
    ensures !PassesValidation(req) ==> r == Outcome(s, Err(422, Invalid))
    ensures PassesValidation(req) && OwnsName(s.tasks, ctx.caller, req.name.value) ==>
      r == Outcome(s, Err(400, AlreadyExists))
    ensures r.response.Ok? <==> PassesValidation(req) && !OwnsName(s.tasks, ctx.caller, req.name.value)
    ensures r.response.Ok? ==> StoreSucceeded(s, ctx, req, r)
  {
    if !PassesValidation(req) then Outcome(s, Err(422, Invalid))
    else if OwnsName(s.tasks, ctx.caller, req.name.value) then Outcome(s, Err(400, AlreadyExists))
    else Create(s, ctx, req)
  }

  /** Inserting a task under the next id keeps the invariant when the image
      table only grew and the task's image, if any, is a new row. */
  lemma InsertKeepsValid(s: State, t: Task, images: ImageStore.ImageTable, files: set<string>)
    requires Valid(s) && t.id == s.nextTaskId
    requires ImageStore.Valid(images)
    requires forall k :: k in s.images.rows ==> k in images.rows
    requires t.imageId.Some? ==> t.imageId.value in images.rows && t.imageId.value !in s.images.rows
    ensures Valid(State(s.users, s.tasks[t.id := t], s.nextTaskId + 1, images, files))
  {
    var tasks := s.tasks[t.id := t];
    assert t.id !in s.tasks;
    forall a, b | a in tasks && b in tasks && a != b && tasks[a].imageId.Some?
      ensures tasks[a].imageId != tasks[b].imageId
    {
      if a == t.id || b == t.id {
        var other := if a == t.id then b else a;
        assert s.tasks[other].imageId.Some? ==> s.tasks[other].imageId.value in s.images.rows;
      }
    }
  }

  /** The success path of `store`: save the optional image, then insert the
      task under the next id and answer 201. */
  function Create(s: State, ctx: Context, req: StoreRequest): (r: Outcome)
    requires Valid(s) && req.name.Some?
    ensures Valid(r.state)
    ensures r.response.Ok? && StoreSucceeded(s, ctx, req, r)
  {
    var saved := if req.image.Some?
      then Some(ImageStore.SaveFileToDisk(s.images, s.files, ctx.assetRoot, ctx.now, req.image.value))
      else None;
    var images := if saved.Some? then saved.value.table else s.images;
    var files := if saved.Some? then saved.value.files else s.files;
    var imageId := if saved.Some? then Some(saved.value.image.id) else None;
    var t := CreatedTask(s.nextTaskId, ctx, req, imageId);
    InsertKeepsValid(s, t, images, files);
    var s' := State(s.users, s.tasks[t.id := t], s.nextTaskId + 1, images, files);
    Outcome(s', Ok(201, Joined(View(s', t))))
  }

  // ---------------------------------------------------------------------
  // update

  /** The keys `update` reads from the request. */
  const UpdatableKeys: seq<string> := ["name", "description", "completed", "gps_coordinates"]

  /** The columns those keys name. */
  predicate Updatable(c: TaskModel.Col)
  {
    c == TaskModel.NameCol || c == TaskModel.DescriptionCol || c == TaskModel.CompletedCol || c == TaskModel.GpsCol
  }

  lemma UpdatableKeysNameUpdatable()
    ensures forall c :: TaskModel.ColumnName(c) in UpdatableKeys <==> Updatable(c)
  {
    forall c ensures TaskModel.ColumnName(c) in UpdatableKeys <==> Updatable(c) {
      assert UpdatableKeys[0] == "name" && UpdatableKeys[1] == "description";
      assert UpdatableKeys[2] == "completed" && UpdatableKeys[3] == "gps_coordinates";
    }
  }

  /** `$request->only(keys)`: the entries of `input` under the given keys, in
      the order of `keys`; absent keys are skipped. */
  function Only(input: TaskModel.Attributes, keys: seq<string>): (r: TaskModel.Attributes)
    requires forall i, j :: 0 <= i < j < |keys| ==> keys[i] != keys[j]
    ensures forall i :: 0 <= i < |r| ==> r[i].0 in keys
    ensures TaskModel.DistinctKeys(r)
    ensures forall k :: TaskModel.Lookup(r, k) == if k in keys then TaskModel.Lookup(input, k) else None
    decreases |keys|
  {
    if |keys| == 0 then []
    else
      assert forall i, j :: 0 <= i < j < |keys[1..]| ==> keys[1..][i] != keys[1..][j] by {
        forall i, j | 0 <= i < j < |keys[1..]| ensures keys[1..][i] != keys[1..][j] {
          assert keys[1..][i] == keys[i + 1] && keys[1..][j] == keys[j + 1];
        }
      }
      var rest := Only(input, keys[1..]);
      assert keys[0] !in keys[1..] by {
        forall i | 0 <= i < |keys[1..]| ensures keys[1..][i] != keys[0] {
          assert keys[1..][i] == keys[i + 1];
        }
      }
      assert forall i :: 0 <= i < |rest| ==> rest[i].0 != keys[0];
      match TaskModel.Lookup(input, keys[0])
      case None => rest
      case Some(v) =>
        var r := [(keys[0], v)] + rest;
        assert r[0] == (keys[0], v) && r[1..] == rest;
        r
  }

  lemma UpdatableKeysDistinct()
    ensures forall i, j :: 0 <= i < j < |UpdatableKeys| ==> UpdatableKeys[i] != UpdatableKeys[j]
  {
  }

  /** `$request->only(UpdatableKeys)`: the request's entries under the
      updatable keys, each key once. */
  function OnlyUpdatable(input: TaskModel.Attributes): (r: TaskModel.Attributes)
    ensures TaskModel.DistinctKeys(r)
    ensures forall c ::
      TaskModel.Lookup(r, TaskModel.ColumnName(c)) ==
      if Updatable(c) then TaskModel.Lookup(input, TaskModel.ColumnName(c)) else None
  {
    UpdatableKeysDistinct();
    UpdatableKeysNameUpdatable();
    Only(input, UpdatableKeys)
  }

  /** Filling an array that supplies exactly the updatable keys of a
      request sets the updatable columns as the request would and leaves the
      others. */
  lemma FillUpdatableSubset(t: Task, input: TaskModel.Attributes, only: TaskModel.Attributes)
    requires TaskModel.DistinctKeys(only)
    requires forall c ::
      TaskModel.Lookup(only, TaskModel.ColumnName(c)) ==
      if Updatable(c) then TaskModel.Lookup(input, TaskModel.ColumnName(c)) else None
    ensures forall c ::
      TaskModel.Column(TaskModel.Fill(t, only), c) ==
      if Updatable(c) then TaskModel.Supplied(t, input, c) else TaskModel.Column(t, c)
  {
    forall c ensures TaskModel.Column(TaskModel.Fill(t, only), c) ==
      if Updatable(c) then TaskModel.Supplied(t, input, c) else TaskModel.Column(t, c)
    {
      TaskModel.FillColumnAt(t, only, c);
    }
  }

  /** Filling the `only` subset of a request touches just the updatable columns. */
  lemma FillOnlyColumns(t: Task, input: TaskModel.Attributes)
    ensures forall c :: TaskModel.Column(TaskModel.Fill(t, OnlyUpdatable(input)), c) == if Updatable(c) then TaskModel.Supplied(t, input, c) else TaskModel.Column(t, c)
  {
    FillUpdatableSubset(t, input, OnlyUpdatable(input));
  }

  /** Whether the request leaves every updatable column as it is. */
  predicate Unchanged(t: Task, input: TaskModel.Attributes)
  {
    forall c :: Updatable(c) ==> TaskModel.Supplied(t, input, c) == TaskModel.Column(t, c)
  }

  /** Mass assignment of the `only` subset of a request: the owner, image
      and IP columns cannot change. */
  function FillUpdatable(t: Task, input: TaskModel.Attributes): (r: Task)
    ensures r.id == t.id && r.createdAt == t.createdAt && r.updatedAt == t.updatedAt
    ensures r.userId == t.userId && r.imageId == t.imageId && r.userIp == t.userIp
  {
    var filled := TaskModel.Fill(t, OnlyUpdatable(input));
    FillOnlyColumns(t, input);
    assert TaskModel.Column(filled, TaskModel.UserIdCol) == TaskModel.Column(t, TaskModel.UserIdCol);
    assert TaskModel.Column(filled, TaskModel.ImageIdCol) == TaskModel.Column(t, TaskModel.ImageIdCol);
    assert TaskModel.Column(filled, TaskModel.UserIpCol) == TaskModel.Column(t, TaskModel.UserIpCol);
    TaskModel.FixedColumnsAgree(filled, t);
    filled
  }

  /** ... and every updatable column takes the value the request supplies. */
  lemma FillUpdatableColumns(t: Task, input: TaskModel.Attributes, now: nat)
    ensures forall c :: Updatable(c) ==>
      TaskModel.Column(FillUpdatable(t, input).(updatedAt := now), c) == TaskModel.Supplied(t, input, c)
  {
    var filled := FillUpdatable(t, input);
    FillOnlyColumns(t, input);
    forall c | Updatable(c) ensures TaskModel.Column(filled.(updatedAt := now), c) == TaskModel.Supplied(t, input, c) {
      assert TaskModel.Column(filled.(updatedAt := now), c) == TaskModel.Column(filled, c);
    }
  }

  /** A task after the update request: the updatable columns the request
      supplies take its values, nothing else changes, and `updated_at`
      moves to `now` only when a column actually changed. */
  function Revised(t: Task, input: TaskModel.Attributes, now: nat): (after: Task)
    ensures after.id == t.id && after.createdAt == t.createdAt
    ensures after.userId == t.userId && after.imageId == t.imageId && after.userIp == t.userIp
    ensures forall c :: Updatable(c) ==> TaskModel.Column(after, c) == TaskModel.Supplied(t, input, c)
    ensures Unchanged(t, input) ==> after == t
    ensures !Unchanged(t, input) ==> after.updatedAt == now
  {
    if Unchanged(t, input) then t
    else
      FillUpdatableColumns(t, input, now);
      FillUpdatable(t, input).(updatedAt := now)
  }

  /** `update`: only the owner may change a task, and only through `Revised`. */
  function Update(s: State, ctx: Context, id: TaskModel.TaskId, input: TaskModel.Attributes): (r: Outcome)
    requires Valid(s)
    ensures Valid(r.state)
    ensures id !in s.tasks ==> r == Outcome(s, Err(404, NotFound))
    ensures id in s.tasks && s.tasks[id].userId != ctx.caller ==> r == Outcome(s, Err(403, Unauthorized))
    ensures r.response.Ok? <==> id in s.tasks && s.tasks[id].userId == ctx.caller
    ensures r.response.Ok? ==>
      && r.state == s.(tasks := r.state.tasks)
      && r.state.tasks.Keys == s.tasks.Keys
      && (forall k :: k in s.tasks && k != id ==> r.state.tasks[k] == s.tasks[k])
      && r.state.tasks[id] == Revised(s.tasks[id], input, ctx.now)
      && r.response == Ok(200, Joined(View(r.state, r.state.tasks[id])))
  {
    if id !in s.tasks then Outcome(s, Err(404, NotFound))
    else if s.tasks[id].userId != ctx.caller then Outcome(s, Err(403, Unauthorized))
    else
      var after := Revised(s.tasks[id], input, ctx.now);
      var s' := s.(tasks := s.tasks[id := after]);
      Outcome(s', Ok(200, Joined(View(s', after))))
  }

  // ---------------------------------------------------------------------
  // destroy

  /** `destroy`: only the owner may delete a task; its image file is removed
      if still on disk, its image row is deleted, then the task row. */
  function Destroy(s: State, ctx: Context, id: TaskModel.TaskId): (r: Outcome)
    requires Valid(s)
    ensures Valid(r.state)
    ensures id !in s.tasks ==> r == Outcome(s, Err(404, NotFound))
    ensures id in s.tasks && s.tasks[id].userId != ctx.caller ==> r == Outcome(s, Err(403, Unauthorized))
    ensures r.response.Ok? <==> id in s.tasks && s.tasks[id].userId == ctx.caller
    ensures r.response.Ok? ==>
      && r.response == Ok(200, Message(Deleted))
      && r.state.users == s.users && r.state.nextTaskId == s.nextTaskId
      && r.state.tasks.Keys == s.tasks.Keys - {id}
      && (forall k :: k in r.state.tasks ==> r.state.tasks[k] == s.tasks[k])
      && r.state.images.nextId == s.images.nextId
    ensures r.response.Ok? && s.tasks[id].imageId.None? ==>
      r.state.images == s.images && r.state.files == s.files
    ensures r.response.Ok? && s.tasks[id].imageId.Some? ==>
      var i := s.tasks[id].imageId.value;
      && i in s.images.rows
      && r.state.images.rows == s.images.rows - {i}
      && r.state.files == s.files - {s.images.rows[i].path}
  {
    if id !in s.tasks then Outcome(s, Err(404, NotFound))
    else if s.tasks[id].userId != ctx.caller then Outcome(s, Err(403, Unauthorized))
    else
      var t := s.tasks[id];
      match TaskModel.ImageOf(t, s.images)
      case None =>
        Outcome(State(s.users, s.tasks - {id}, s.nextTaskId, s.images, s.files), Ok(200, Message(Deleted)))
      case Some(img) =>
        var files := ImageStore.DeleteFileIfExists(s.files, img.path);
        var cleared := ImageForeignKey.DeleteImage(s.tasks, s.images, img.id);
        assert forall k :: k in s.tasks && k != id ==> s.tasks[k].imageId != Some(img.id);
        Outcome(State(s.users, cleared.tasks - {id}, s.nextTaskId, cleared.images, files), Ok(200, Message(Deleted)))
  }
}
