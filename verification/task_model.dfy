/** The `Task` Eloquent model: its columns, the mass-assignment whitelist
    and the two belongs-to lookups. */
module TaskModel {
  import opened Wrappers
  import ImageStore

  type TaskId = nat
  type UserId = nat

  /** A row of the `tasks` table. `userId` and `name` are required;
      `description`, `imageId` and `gps` are nullable. */
  datatype Task = Task(
    id: TaskId,
    userId: UserId,
    name: string,
    description: Option<string>,
    imageId: Option<ImageStore.ImageId>,
    completed: bool,
    gps: Option<string>,
    userIp: string,
    createdAt: nat,
    updatedAt: nat)

  /** A value in an attribute array, as PHP hands it to the model. */
  datatype Value = Null | Bool(b: bool) | Int(n: nat) | Str(s: string)

  /** An attribute array: keys in insertion order. PHP array keys are unique,
      which `DistinctKeys` records. */
  type Attributes = seq<(string, Value)>

  predicate DistinctKeys(attrs: Attributes)
  {
    forall i, j :: 0 <= i < j < |attrs| ==> attrs[i].0 != attrs[j].0
  }

  /** The value stored under `key`, if `attrs` has that key. */
  function Lookup(attrs: Attributes, key: string): Option<Value>
    decreases |attrs|
  {
    if |attrs| == 0 then None
    else if attrs[0].0 == key then Some(attrs[0].1)
    else Lookup(attrs[1..], key)
  }

  /** The mass-assignable columns. */
  datatype Col = UserIdCol | NameCol | DescriptionCol | ImageIdCol | CompletedCol | GpsCol | UserIpCol

  function ColumnName(c: Col): string
  {
    match c
    case UserIdCol => "user_id"
    case NameCol => "name"
    case DescriptionCol => "description"
    case ImageIdCol => "image_id"
    case CompletedCol => "completed"
    case GpsCol => "gps_coordinates"
    case UserIpCol => "user_ip"
  }

  /** The `$fillable` whitelist, as the model declares it. */
  const Fillable: seq<string> :=
    ["user_id", "name", "description", "image_id", "completed", "gps_coordinates", "user_ip"]

  /** The column a key names when the key is on the whitelist. */
  function FillableColumn(key: string): (r: Option<Col>)
    ensures r.Some? <==> key in Fillable
    ensures forall c :: r == Some(c) <==> ColumnName(c) == key
  {
    if key == "user_id" then Some(UserIdCol)
    else if key == "name" then Some(NameCol)
    else if key == "description" then Some(DescriptionCol)
    else if key == "image_id" then Some(ImageIdCol)
    else if key == "completed" then Some(CompletedCol)
    else if key == "gps_coordinates" then Some(GpsCol)
    else if key == "user_ip" then Some(UserIpCol)
    else None
  }

  function OptionalText(v: Option<string>): Value
  {
    if v.Some? then Str(v.value) else Null
  }

  /** The column `c` of `t` as an attribute value. */
  function Column(t: Task, c: Col): Value
  {
    match c
    case UserIdCol => Int(t.userId)
    case NameCol => Str(t.name)
    case DescriptionCol => OptionalText(t.description)
    case ImageIdCol => if t.imageId.Some? then Int(t.imageId.value) else Null
    case CompletedCol => Bool(t.completed)
    case GpsCol => OptionalText(t.gps)
    case UserIpCol => Str(t.userIp)
  }

  /** Whether `v` has a shape column `c` can hold. */
  predicate Fits(c: Col, v: Value)
  {
    match v
    case Null => c == DescriptionCol || c == ImageIdCol || c == GpsCol
    case Bool(_) => c == CompletedCol
    case Int(_) => c == UserIdCol || c == ImageIdCol
    case Str(_) => c == NameCol || c == DescriptionCol || c == GpsCol || c == UserIpCol
  }

  /** Sets column `c` of `t` to `v`. */
  function SetColumn(t: Task, c: Col, v: Value): (r: Task)
    requires Fits(c, v)
    ensures forall d :: Column(r, d) == if d == c then v else Column(t, d)
    ensures r.id == t.id && r.createdAt == t.createdAt && r.updatedAt == t.updatedAt
  {
    match c
    case UserIdCol => t.(userId := v.n)
    case NameCol => t.(name := v.s)
    case DescriptionCol => t.(description := if v.Str? then Some(v.s) else None)
    case ImageIdCol => t.(imageId := if v.Int? then Some(v.n) else None)
    case CompletedCol => t.(completed := v.b)
    case GpsCol => t.(gps := if v.Str? then Some(v.s) else None)
    case UserIpCol => t.(userIp := v.s)
  }

  /** Assigns one attribute: a whitelisted key with a fitting value sets its
      column; any other key, or a value of the wrong shape, is ignored. */
  function AssignOne(t: Task, key: string, v: Value): (r: Task)
    ensures forall c :: Column(r, c) == if key == ColumnName(c) && Fits(c, v) then v else Column(t, c)
    ensures key !in Fillable ==> r == t
    ensures r.id == t.id && r.createdAt == t.createdAt && r.updatedAt == t.updatedAt
  {
    match FillableColumn(key)
    case None => t
    case Some(c) => if Fits(c, v) then SetColumn(t, c, v) else t
  }

  /** Mass assignment (`fill`): the attributes are assigned in order. */
  function Fill(t: Task, attrs: Attributes): (r: Task)
    ensures r.id == t.id && r.createdAt == t.createdAt && r.updatedAt == t.updatedAt
    decreases |attrs|
  {
    if |attrs| == 0 then t else Fill(AssignOne(t, attrs[0].0, attrs[0].1), attrs[1..])
  }

  /** In an array with distinct keys, each key finds its own entry. */
  lemma {:induction false} LookupAt(attrs: Attributes, i: nat)
    requires DistinctKeys(attrs)
    requires i < |attrs|
    ensures Lookup(attrs, attrs[i].0) == Some(attrs[i].1)
    decreases i
  {
    if i > 0 {
      assert attrs[1..][i - 1] == attrs[i];
      LookupAt(attrs[1..], i - 1);
    }
  }

  /** Column `c` after assigning `attrs` to `t`, read off the array: the
      supplied value when it fits, the old column otherwise. */
  function Supplied(t: Task, attrs: Attributes, c: Col): Value
  {
    match Lookup(attrs, ColumnName(c))
    case Some(v) => if Fits(c, v) then v else Column(t, c)
    case None => Column(t, c)
  }

  /** Mass assignment changes exactly the columns the array supplies with a
      fitting value; every other column is left as it was. */
  lemma {:induction false} FillColumns(t: Task, attrs: Attributes)
    requires DistinctKeys(attrs)
    ensures forall c :: Column(Fill(t, attrs), c) == Supplied(t, attrs, c)
    decreases |attrs|
  {
    if |attrs| > 0 {
      var t1 := AssignOne(t, attrs[0].0, attrs[0].1);
      FillColumns(t1, attrs[1..]);
      forall c ensures Column(Fill(t, attrs), c) == Supplied(t, attrs, c) {
        if ColumnName(c) == attrs[0].0 {
          LookupAbsent(attrs[1..], attrs[0].0);
        }
      }
    }
  }

  /** One column after mass assignment, read off the array. */
  lemma FillColumnAt(t: Task, attrs: Attributes, c: Col)
    requires DistinctKeys(attrs)
    ensures Column(Fill(t, attrs), c) == Supplied(t, attrs, c)
  {
    FillColumns(t, attrs);
  }

  /** In an array with distinct keys, entry `i` decides its column when its
      value fits. */
  lemma FillSetsColumn(t: Task, attrs: Attributes, i: nat, c: Col)
    requires DistinctKeys(attrs)
    requires i < |attrs| && attrs[i].0 == ColumnName(c) && Fits(c, attrs[i].1)
    ensures Column(Fill(t, attrs), c) == attrs[i].1
  {
    FillColumns(t, attrs);
    LookupAt(attrs, i);
    assert Column(Fill(t, attrs), c) == Supplied(t, attrs, c);
  }

  /** In an array with distinct keys, the first key occurs nowhere else. */
  lemma LookupAbsent(rest: Attributes, key: string)
    requires forall i :: 0 <= i < |rest| ==> rest[i].0 != key
    ensures Lookup(rest, key).None?
    decreases |rest|
  {
    if |rest| > 0 {
      LookupAbsent(rest[1..], key);
    }
  }

  /** A key outside the whitelist is ignored wherever it appears in the array. */
  lemma {:induction false} FillIgnoresUnfillable(t: Task, front: Attributes, key: string, v: Value, back: Attributes)
    requires key !in Fillable
    ensures Fill(t, front + [(key, v)] + back) == Fill(t, front + back)
    decreases |front|
  {
    var whole := front + [(key, v)] + back;
    if |front| == 0 {
      assert whole[0] == (key, v) && whole[1..] == back;
      assert Fill(t, whole) == Fill(AssignOne(t, key, v), back);
      assert front + back == back;
    } else {
      var t1 := AssignOne(t, front[0].0, front[0].1);
      assert whole[0] == front[0] && whole[1..] == front[1..] + [(key, v)] + back;
      assert Fill(t, whole) == Fill(t1, front[1..] + [(key, v)] + back);
      assert (front + back)[0] == front[0] && (front + back)[1..] == front[1..] + back;
      assert Fill(t, front + back) == Fill(t1, front[1..] + back);
      FillIgnoresUnfillable(t1, front[1..], key, v, back);
    }
  }

  /** The owner, image and IP columns determine the corresponding fields. */
  lemma FixedColumnsAgree(a: Task, b: Task)
    requires Column(a, UserIdCol) == Column(b, UserIdCol)
    requires Column(a, ImageIdCol) == Column(b, ImageIdCol)
    requires Column(a, UserIpCol) == Column(b, UserIpCol)
    ensures a.userId == b.userId && a.imageId == b.imageId && a.userIp == b.userIp
  {
  }

  /** Tasks agree when their id, timestamps and every column agree. */
  lemma ColumnsDetermineTask(a: Task, b: Task)
    requires a.id == b.id && a.createdAt == b.createdAt && a.updatedAt == b.updatedAt
    requires forall c :: Column(a, c) == Column(b, c)
    ensures a == b
  {
    assert Column(a, UserIdCol) == Column(b, UserIdCol);
    assert Column(a, NameCol) == Column(b, NameCol);
    assert Column(a, DescriptionCol) == Column(b, DescriptionCol);
    assert Column(a, ImageIdCol) == Column(b, ImageIdCol);
    assert Column(a, CompletedCol) == Column(b, CompletedCol);
    assert Column(a, GpsCol) == Column(b, GpsCol);
    assert Column(a, UserIpCol) == Column(b, UserIpCol);
  }

  /** `$task->user`: the user whose id is the task's `user_id`, if that user exists. */
  function UserOf(t: Task, users: set<UserId>): (r: Option<UserId>)
    ensures r.Some? <==> t.userId in users
    ensures r.Some? ==> r.value == t.userId
  {
    if t.userId in users then Some(t.userId) else None
  }

  /** `$task->image`: the row whose id is the task's `image_id`; absent when
      `image_id` is null or names no row. */
  function ImageOf(t: Task, table: ImageStore.ImageTable): (r: Option<ImageStore.Image>)
    requires ImageStore.Valid(table)
    ensures r.Some? <==> t.imageId.Some? && t.imageId.value in table.rows
    ensures r.Some? ==> t.imageId == Some(r.value.id) && r.value in table.rows.Values
  {
    if t.imageId.Some? && t.imageId.value in table.rows then Some(table.rows[t.imageId.value]) else None
  }
}
