/** The browser-side API service: its token, the headers it sends, how a
    response becomes a result or a thrown error, and how task fields become
    multipart form entries. The network call itself is a parameter: each
    operation is given the reply the server sent. */
module ApiClient {
  import opened Wrappers
  import Text
  import ImageStore
  import TaskClient
  import AuthGuard

  const BaseUrl := "http://localhost:8000/api"

  /** The service's `token` field, the token kept in session storage, and
      the page the service sent the browser to, if any. */
  datatype Service = Service(token: Option<string>, stored: Option<string>, navigatedTo: Option<string>)

  /** A new service starts from the stored token. */
  function Construct(stored: Option<string>): (r: Service)
    ensures r.token == stored && r.stored == stored && r.navigatedTo.None?
  {
    Service(stored, stored, None)
  }

  /** Keeps the token; it is stored only when truthy, otherwise the stored
      token is removed. */
  function SetToken(svc: Service, token: Option<string>): (r: Service)
    ensures r.token == token && r.navigatedTo == svc.navigatedTo
    ensures r.stored.Some? <==> Text.Truthy(token)
    ensures r.stored.Some? ==> r.stored == token
  {
    svc.(token := token, stored := if Text.Truthy(token) then token else None)
  }

  /** What `setToken` leaves in storage is what the next page load and the
      route guard see: a real token survives a reload, and the guard
      decides as if it looked at the token itself. */
  lemma SetTokenSurvivesReload(svc: Service, token: Option<string>, path: string)
    ensures Text.Truthy(token) ==> Construct(SetToken(svc, token).stored).token == token
    ensures !Text.Truthy(token) ==> Construct(SetToken(svc, token).stored).token.None?
    ensures AuthGuard.Redirect(true, SetToken(svc, token).stored, path) == AuthGuard.Redirect(true, token, path)
  {
  }

  // ---------------------------------------------------------------------
  // Headers

  type Header = (string, string)

  /** A token interpolated into a template string: a missing one reads "null". */
  function Render(token: Option<string>): string
  {
    match token
    case None => "null"
    case Some(t) => t
  }

  /** No header in `headers` is called `name`. */
  predicate Unnamed(headers: seq<Header>, name: string)
  {
    forall k :: 0 <= k < |headers| ==> headers[k].0 != name
  }

  /** The value the server reads for header `name`: that of the first
      header so called, if there is one. */
  function HeaderValue(headers: seq<Header>, name: string): (r: Option<string>)
    ensures r.None? <==> Unnamed(headers, name)
    ensures r.Some? ==>
      exists i :: 0 <= i < |headers| && headers[i] == (name, r.value) && Unnamed(headers[..i], name)
    decreases |headers|
  {
    if |headers| == 0 then None
    else if headers[0].0 == name then
      assert headers[0] == (name, headers[0].1) && Unnamed(headers[..0], name);
      Some(headers[0].1)
    else
      var r := HeaderValue(headers[1..], name);
      assert forall i :: 1 <= i < |headers| ==> headers[i] == headers[1..][i - 1];
      if r.Some? then
        var i :| 0 <= i < |headers[1..]| && headers[1..][i] == (name, r.value) && Unnamed(headers[1..][..i], name);
        assert headers[..i + 1] == [headers[0]] + headers[1..][..i];
        assert headers[i + 1] == (name, r.value) && Unnamed(headers[..i + 1], name);
        r
      else r
  }

  function Headers(token: Option<string>, includeFiles: bool): (r: seq<Header>)
    ensures HeaderValue(r, "Authorization") == Some("Bearer " + Render(token))
    ensures HeaderValue(r, "Content-Type") == if includeFiles then None else Some("application/json")
    ensures forall i :: 0 <= i < |r| ==> r[i].0 in {"Authorization", "Content-Type"}
  {
    var auth := [("Authorization", "Bearer " + Render(token))];
    if includeFiles then auth else auth + [("Content-Type", "application/json")]
  }

  /** A missing token and the token "null" produce the same header, so the
      server cannot tell them apart. */
  lemma MissingTokenLooksLikeNull(includeFiles: bool)
    ensures Headers(None, includeFiles) == Headers(Some("null"), includeFiles)
  {
  }

  // ---------------------------------------------------------------------
  // Requests

  /** Multipart form entries: a text field or an uploaded file. */
  datatype Entry = TextEntry(key: string, text: string) | FileEntry(key: string, file: ImageStore.Upload)

  datatype Body = NoBody | Json | Form(entries: seq<Entry>)

  /** The request handed to `fetch`. */
  datatype Sent = Sent(url: string, verb: string, headers: seq<Header>, body: Body)

  /** What came back: a response with its status and the `message` and
      `token` fields of its JSON body, or a rejection of `fetch` itself. */
  datatype Reply = Answered(status: int, message: Option<string>, token: Option<string>) | Unreachable(error: TaskClient.Thrown)

  /** How the call settled for its caller. */
  datatype Result = Returned(message: Option<string>, token: Option<string>) | Threw(thrown: TaskClient.Thrown)

  datatype Call = Call(service: Service, sent: Option<Sent>, result: Result)

  const Unauthorized := "Unauthorized"
  const SomethingWentWrong := "Something went wrong"

  predicate Success(status: int)
  {
    200 <= status <= 299
  }

  /** The message of the error thrown for a failed response. */
  function FailureMessage(status: int, message: Option<string>): (r: string)
    requires !Success(status)
    ensures r != ""
    ensures status == 401 ==> r == Unauthorized
    ensures status != 401 && Text.Truthy(message) ==> r == message.value
    ensures status != 401 && !Text.Truthy(message) ==> r == SomethingWentWrong
  {
    if status == 401 then Unauthorized
    else if Text.Truthy(message) then message.value
    else SomethingWentWrong
  }

  function Request(svc: Service, endpoint: string, verb: string, body: Body, includeFiles: bool, reply: Reply): (r: Call)
    ensures r.sent == Some(Sent(BaseUrl + endpoint, verb, Headers(svc.token, includeFiles), body))
    ensures reply.Unreachable? ==> r.service == svc && r.result == Threw(reply.error)
    ensures reply.Answered? && Success(reply.status) ==>
      r.service == svc && r.result == Returned(reply.message, reply.token)
    ensures reply.Answered? && reply.status == 401 ==>
      r.service == Service(None, None, Some(AuthGuard.LoginPath)) && r.result == Threw(TaskClient.ErrorValue(Unauthorized))
    ensures reply.Answered? && !Success(reply.status) && reply.status != 401 ==>
      r.service == svc && r.result == Threw(TaskClient.ErrorValue(if Text.Truthy(reply.message) then reply.message.value else SomethingWentWrong))
  {
    var sent := Some(Sent(BaseUrl + endpoint, verb, Headers(svc.token, includeFiles), body));
    match reply
    case Unreachable(e) => Call(svc, sent, Threw(e))
    case Answered(status, message, token) =>
      if Success(status) then Call(svc, sent, Returned(message, token))
      else if status == 401 then
        Call(SetToken(svc, None).(navigatedTo := Some(AuthGuard.LoginPath)), sent, Threw(TaskClient.ErrorValue(FailureMessage(status, message))))
      else Call(svc, sent, Threw(TaskClient.ErrorValue(FailureMessage(status, message))))
  }

  /** A failed response always surfaces as an `Error` with a non-empty
      message. */
  lemma FailuresAreErrors(svc: Service, endpoint: string, verb: string, body: Body, includeFiles: bool, status: int, message: Option<string>, token: Option<string>)
    requires !Success(status)
    ensures Request(svc, endpoint, verb, body, includeFiles, Answered(status, message, token)).result.Threw?
    ensures TaskClient.ErrorText(Request(svc, endpoint, verb, body, includeFiles, Answered(status, message, token)).result.thrown) != ""
  {
  }

  /** After a 401 the visitor is signed out on the login page, and the
      route guard leaves them there. */
  lemma UnauthorizedSignsOut(svc: Service, endpoint: string, verb: string, body: Body, includeFiles: bool, message: Option<string>, token: Option<string>)
    ensures var r := Request(svc, endpoint, verb, body, includeFiles, Answered(401, message, token));
      && r.service.navigatedTo == Some(AuthGuard.LoginPath)
      && AuthGuard.Redirect(true, r.service.stored, AuthGuard.LoginPath).None?
      && Construct(r.service.stored).token.None?
  {
    assert AuthGuard.LoginPath in AuthGuard.PublicRoutes;
  }

  /** `login` keeps the token only when the call succeeded and carried one. */
  function Login(svc: Service, reply: Reply): (r: Call)
    ensures r.sent == Some(Sent(BaseUrl + "/login", "POST", Headers(svc.token, false), Json))
    ensures r.result == Request(svc, "/login", "POST", Json, false, reply).result
    ensures r.result.Returned? && Text.Truthy(r.result.token) ==>
      r.service.token == r.result.token && r.service.stored == r.result.token
    ensures !(r.result.Returned? && Text.Truthy(r.result.token)) ==>
      r.service == Request(svc, "/login", "POST", Json, false, reply).service
  {
    var c := Request(svc, "/login", "POST", Json, false, reply);
    if c.result.Returned? && Text.Truthy(c.result.token) then c.(service := SetToken(c.service, c.result.token))
    else c
  }

  /** `logout` clears the token however the call settles. It resolves to
      `undefined` (no message, no token) when the call succeeds and rethrows
      what the call threw otherwise; a 401 still sends the page to the login
      path. */
  function Logout(svc: Service, reply: Reply): (r: Call)
    ensures r.service.token.None? && r.service.stored.None?
    ensures r.result.Returned? <==> reply.Answered? && Success(reply.status)
    ensures r.result.Returned? ==> r.result == Returned(None, None)
    ensures r.result.Threw? ==> r.result == Request(svc, "/logout", "POST", NoBody, false, reply).result
    ensures r.service.navigatedTo ==
      if reply.Answered? && reply.status == 401 then Some(AuthGuard.LoginPath) else svc.navigatedTo
    ensures r.sent == Some(Sent(BaseUrl + "/logout", "POST", Headers(svc.token, false), NoBody))
  {
    var c := Request(svc, "/logout", "POST", NoBody, false, reply);
    var result := if c.result.Returned? then Returned(None, None) else c.result;
    c.(service := SetToken(c.service, None), result := result)
  }

  /** A successful login followed by a logout leaves no token anywhere,
      whatever the logout call returns. */
  lemma LoginThenLogout(svc: Service, loginReply: Reply, logoutReply: Reply)
    ensures Construct(Logout(Login(svc, loginReply).service, logoutReply).service.stored).token.None?
  {
  }

  // ---------------------------------------------------------------------
  // Form entries

  /** A value in the task data handed to `createTask` / `updateTask`. */
  datatype FieldValue = Undefined | Null | Text(s: string) | Flag(b: bool) | Number(n: nat) | Picked(file: ImageStore.Upload)

  /** What `toString` gives for a file that is not under the "image" key. */
  const FileText := "[object File]"
  /** The message of the error `null.toString()` throws. */
  const NullHasNoText := "Cannot read properties of null (reading 'toString')"

  /** `value.toString()`; `None` when the value has no such method. */
  function ToText(v: FieldValue): (r: Option<string>)
    ensures r.None? <==> v.Undefined? || v.Null?
    ensures v.Text? ==> r == Some(v.s)
    ensures v.Flag? ==> r == Some(if v.b then "true" else "false")
    ensures v.Number? ==> r == Some(Text.FromNat(v.n)) && Text.ToNat(r.value) == v.n
    ensures v.Picked? ==> r == Some(FileText)
  {
    match v
    case Undefined => None
    case Null => None
    case Text(s) => Some(s)
    case Flag(b) => Some(if b then "true" else "false")
    case Number(n) =>
      Text.ToNatFromNat(n);
      Some(Text.FromNat(n))
    case Picked(_) => Some(FileText)
  }

  /** The entry one defined field becomes: a file under "image", text
      otherwise. */
  predicate Encodes(field: (string, FieldValue), e: Entry)
  {
    if field.0 == "image" && field.1.Picked? then e == FileEntry("image", field.1.file)
    else e.TextEntry? && e.key == field.0 && Some(e.text) == ToText(field.1)
  }

  /** The fields whose value is not `undefined`, in order. */
  function Defined(fields: seq<(string, FieldValue)>): (r: seq<(string, FieldValue)>)
    ensures forall f :: f in r <==> f in fields && !f.1.Undefined?
    ensures |r| <= |fields|
    decreases |fields|
  {
    if |fields| == 0 then []
    else if fields[0].1.Undefined? then Defined(fields[1..])
    else [fields[0]] + Defined(fields[1..])
  }

  /** Filtering keeps order and multiplicity: the defined fields of a
      concatenation are those of each part, in turn. */
  lemma {:induction false} DefinedAppend(a: seq<(string, FieldValue)>, b: seq<(string, FieldValue)>)
    ensures Defined(a + b) == Defined(a) + Defined(b)
    decreases |a|
  {
    if |a| == 0 {
      assert a + b == b;
    } else {
      assert (a + b)[1..] == a[1..] + b;
      DefinedAppend(a[1..], b);
    }
  }

  predicate NoNull(fields: seq<(string, FieldValue)>)
  {
    forall i :: 0 <= i < |fields| ==> !fields[i].1.Null?
  }

  /** The entries built from `Object.entries(taskData)`; `None` when a
      `null` value makes `toString` throw. */
  function Encode(fields: seq<(string, FieldValue)>): (r: Option<seq<Entry>>)
    ensures r.Some? <==> NoNull(fields)
    decreases |fields|
  {
    if |fields| == 0 then Some([])
    else
      var (key, value) := fields[0];
      var rest := Encode(fields[1..]);
      assert NoNull(fields) <==> !value.Null? && NoNull(fields[1..]) by {
        assert forall i :: 1 <= i < |fields| ==> fields[i] == fields[1..][i - 1];
      }
      if value.Null? || rest.None? then None
      else Some(EntriesOf(key, value) + rest.value)
  }

  /** The entries one field contributes: none when `undefined`. */
  function EntriesOf(key: string, value: FieldValue): (r: seq<Entry>)
    requires !value.Null?
    ensures value.Undefined? ==> r == []
    ensures !value.Undefined? ==> |r| == 1 && Encodes((key, value), r[0])
  {
    if value.Undefined? then []
    else if key == "image" && value.Picked? then [FileEntry("image", value.file)]
    else [TextEntry(key, ToText(value).value)]
  }

  /** Each field that is not `undefined` becomes one entry, in order. */
  lemma {:induction false} EncodeMatchesFields(fields: seq<(string, FieldValue)>)
    requires NoNull(fields)
    ensures |Encode(fields).value| == |Defined(fields)|
    ensures forall i :: 0 <= i < |Defined(fields)| ==> Encodes(Defined(fields)[i], Encode(fields).value[i])
    decreases |fields|
  {
    if |fields| > 0 {
      var x, tail := fields[0], fields[1..];
      assert fields == [x] + tail;
      NoNullParts(x, tail);
      EncodeMatchesFields(tail);
      EncodeCons(x, tail);
      var es, ds := Encode(tail).value, Defined(tail);
      var out := Encode(fields).value;
      assert out == EntriesOf(x.0, x.1) + es;
      if x.1.Undefined? {
        assert Defined(fields) == ds && out == es;
      } else {
        assert Defined(fields) == [x] + ds;
        forall i | 0 <= i < |Defined(fields)|
          ensures Encodes(Defined(fields)[i], out[i])
        {
          if i > 0 {
            assert Defined(fields)[i] == ds[i - 1] && out[i] == es[i - 1];
          }
        }
      }
    }
  }

  /** Entries are built field by field: encoding a concatenation
      concatenates the encodings. */
  lemma {:induction false} EncodeAppend(a: seq<(string, FieldValue)>, b: seq<(string, FieldValue)>)
    requires NoNull(a) && NoNull(b)
    ensures NoNull(a + b)
    ensures Encode(a + b) == Some(Encode(a).value + Encode(b).value)
    decreases |a|
  {
    if |a| == 0 {
      assert a + b == b;
      assert Encode(a).value == [];
      assert Encode(a).value + Encode(b).value == Encode(b).value;
    } else {
      var tail := a[1..];
      assert a == [a[0]] + tail;
      NoNullParts(a[0], tail);
      EncodeAppend(tail, b);
      var x := a[0];
      assert a + b == [x] + (tail + b);
      NoNullParts(x, tail + b);
      calc {
        Encode(a + b);
        Encode([x] + (tail + b));
        { EncodeCons(x, tail + b); }
        Some(EntriesOf(x.0, x.1) + Encode(tail + b).value);
        { assert EntriesOf(x.0, x.1) + (Encode(tail).value + Encode(b).value) == (EntriesOf(x.0, x.1) + Encode(tail).value) + Encode(b).value; }
        Some((EntriesOf(x.0, x.1) + Encode(tail).value) + Encode(b).value);
        { EncodeCons(x, tail); }
        Some(Encode(a).value + Encode(b).value);
      }
    }
  }

  lemma NoNullParts(x: (string, FieldValue), rest: seq<(string, FieldValue)>)
    ensures NoNull([x] + rest) <==> !x.1.Null? && NoNull(rest)
  {
    var whole := [x] + rest;
    assert whole[0] == x;
    assert forall i :: 1 <= i < |whole| ==> whole[i] == rest[i - 1];
    assert forall j :: 0 <= j < |rest| ==> rest[j] == whole[j + 1];
  }

  lemma EncodeCons(x: (string, FieldValue), rest: seq<(string, FieldValue)>)
    requires !x.1.Null? && NoNull(rest)
    ensures Encode([x] + rest) == Some(EntriesOf(x.0, x.1) + Encode(rest).value)
  {
    NoNullParts(x, rest);
    assert ([x] + rest)[0] == x;
    assert ([x] + rest)[1..] == rest;
  }

  /** The number of entries is the number of fields that are not
      `undefined`. */
  lemma EntryCount(fields: seq<(string, FieldValue)>)
    requires NoNull(fields)
    ensures |Encode(fields).value| == |fields| - CountUndefined(fields)
    decreases |fields|
  {
    if |fields| > 0 {
      assert NoNull(fields[1..]) by {
        assert forall i :: 1 <= i < |fields| ==> fields[i] == fields[1..][i - 1];
      }
      EntryCount(fields[1..]);
    }
  }

  function CountUndefined(fields: seq<(string, FieldValue)>): nat
    decreases |fields|
  {
    if |fields| == 0 then 0 else (if fields[0].1.Undefined? then 1 else 0) + CountUndefined(fields[1..])
  }

  /** The entries of an update: the method override first, then the fields. */
  function UpdateEntries(fields: seq<(string, FieldValue)>): (r: Option<seq<Entry>>)
    ensures r.Some? <==> NoNull(fields)
    ensures r.Some? ==> |r.value| > 0 && r.value[0] == TextEntry("_method", "PATCH") && r.value[1..] == Encode(fields).value
  {
    match Encode(fields)
    case None => None
    case Some(es) => Some([TextEntry("_method", "PATCH")] + es)
  }

  function TaskPath(id: nat): string
  {
    "/task/" + Text.FromNat(id)
  }

  /** `createTask`: no request leaves when building the form throws. The
      form goes without a JSON content type, so the browser sets the
      multipart one. */
  function CreateTask(svc: Service, fields: seq<(string, FieldValue)>, reply: Reply): (r: Call)
    ensures r.sent.Some? <==> NoNull(fields)
    ensures r.sent.None? ==> r.service == svc && r.result == Threw(TaskClient.ErrorValue(NullHasNoText))
    ensures r.sent.Some? ==>
      && r.sent.value.url == BaseUrl + "/task/create" && r.sent.value.verb == "POST"
      && r.sent.value.body == Form(Encode(fields).value)
      && HeaderValue(r.sent.value.headers, "Content-Type").None?
  {
    match Encode(fields)
    case None => Call(svc, None, Threw(TaskClient.ErrorValue(NullHasNoText)))
    case Some(es) => Request(svc, "/task/create", "POST", Form(es), true, reply)
  }

  /** `updateTask`: a POST to the task's path whose form overrides the method. */
  function UpdateTask(svc: Service, id: nat, fields: seq<(string, FieldValue)>, reply: Reply): (r: Call)
    ensures r.sent.Some? <==> NoNull(fields)
    ensures r.sent.None? ==> r.service == svc && r.result == Threw(TaskClient.ErrorValue(NullHasNoText))
    ensures r.sent.Some? ==>
      && r.sent.value.url == BaseUrl + TaskPath(id) && r.sent.value.verb == "POST"
      && r.sent.value.body == Form(UpdateEntries(fields).value)
      && HeaderValue(r.sent.value.headers, "Content-Type").None?
  {
    match UpdateEntries(fields)
    case None => Call(svc, None, Threw(TaskClient.ErrorValue(NullHasNoText)))
    case Some(es) => Request(svc, TaskPath(id), "POST", Form(es), true, reply)
  }

  /** An update sends the same fields a create would, after the override. */
  lemma UpdateExtendsCreate(svc: Service, id: nat, fields: seq<(string, FieldValue)>, reply: Reply)
    requires NoNull(fields)
    ensures UpdateTask(svc, id, fields, reply).sent.value.body.entries ==
      [TextEntry("_method", "PATCH")] + CreateTask(svc, fields, reply).sent.value.body.entries
  {
  }

  /** Distinct tasks have distinct paths, and no task path is the listing
      path or the create path. */
  lemma TaskPathsDistinct(a: nat, b: nat)
    ensures TaskPath(a) == TaskPath(b) <==> a == b
    ensures TaskPath(a) != "/task/all" && TaskPath(a) != "/task/create"
  {
    var p := "/task/";
    assert TaskPath(a)[|p|..] == Text.FromNat(a);
    assert TaskPath(b)[|p|..] == Text.FromNat(b);
    Text.FromNatInjective(a, b);
    assert !Text.IsDigit("/task/all"[|p|]);
    assert !Text.IsDigit("/task/create"[|p|]);
    assert Text.IsDigit(TaskPath(a)[|p|]) by {
      assert TaskPath(a)[|p|] == Text.FromNat(a)[0];
    }
  }
}
