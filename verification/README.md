# Task manager: a verified model of the task store and its client

The application is a small task manager. A Laravel backend keeps users,
tasks and uploaded images. A Next.js frontend signs users in, lists tasks,
creates, edits and deletes them, and keeps a local copy of the lists.

This project models the parts of both halves that hold decisions. Each
operation is a pure function over explicit state, and the database, disk,
browser and network are abstracted away.

- **Backend task store** (`task_controller.dfy`). The state is the set of
  users, the task table, the image table with its autoincrement counter,
  and the set of files on the public disk. `store`, `update` and `destroy`
  are transitions on that state: each returns an outcome, the new state
  plus a response. `index`, `mine` and `show` only read the state and
  return a response. A response is either success (status, body) or error
  (status, message). The caller id, request IP, clock and asset root are
  parameters. Every transition preserves the state invariant
  `TaskController.Valid`:
  - task keys agree with task ids;
  - ids lie below their counters;
  - every non-null `image_id` references an existing image;
  - no image is shared by two tasks.
- **Task record and mass assignment** (`task_model.dfy`).
  - A task is a datatype.
  - The `$fillable` whitelist maps column names to a column enumeration.
  - `create`/`update` with an attribute list is a left fold, so later keys
    win and unknown keys are ignored.
  - The `user`/`image` belongs-to lookups are included.
- **Ordering** (`task_order.dfy`). `latest()` is newest first by
  `created_at`. It is built by insertion sort and proved to be a
  permutation of the table's rows.
- **Image records** (`image_store.dfy`). This models `saveFileToDisk`:
  - the stored filename is the decimal timestamp, "_", then the client
    name;
  - the path is "images/" followed by the filename;
  - the URL is the asset root, then "storage/", then the path;
  - a fresh id comes from the counter;
  - the file-exists-then-delete clean-up is included.
- **Foreign key** (`image_foreign_key.dfy`). Deleting an image row sets
  `image_id` to null in every referencing task, following the migration's
  `onDelete('set null')` rule.
- **Client task cache** (`task_client.dfy`). The four operations of
  `useTasks` work on its two lists, its `loading` flag and its `error`
  field. Each is modelled from the state before the call to the state
  after the awaited call settled.
- **New-task form** (`task_form.dfy`, `gps.dfy`).
  - The Yup schema is modelled field by field.
  - The GPS regular expression is stated twice: as a character-level
    predicate and as a deterministic scanner. A lemma proves that the two
    accept the same strings.
- **Sign-up form** (`register_form.dfy`). This covers the schema and the
  submit handler's error mapping.
- **Route guard** (`auth_guard.dfy`). This is the redirect decision of
  `useAuth`.
- **API service** (`api_client.dfy`). This covers:
  - the token field and its stored copy;
  - the headers;
  - the success, 401 and error branches of `request`;
  - the token handling of `login` and `logout`;
  - form-entry building for `createTask` and `updateTask`.

  The server's reply is a parameter of each call.

`wrappers.dfy` (option type) and `text.dfy` (decimal rendering and
character search) are shared helpers.

## Model

| member | source | states |
|---|---|---|
| TaskModel.FillableColumn | backend/adaa/app/Models/Task.php:36 | a key maps to a column exactly when it is one of the seven fillable names, and then to the column of that name |
| TaskModel.AssignOne | backend/adaa/app/Models/Task.php:36 | assigning one key changes only the column of that name, and only when the key is fillable; an unfillable key leaves the task as it was |
| TaskModel.FillColumns | backend/adaa/app/Models/Task.php:36 | after mass assignment of a list with distinct keys, each column holds the supplied value when its key is present and fillable, and its old value otherwise |
| TaskModel.FillIgnoresUnfillable | backend/adaa/app/Models/Task.php:36 | inserting an unfillable key anywhere in the attribute list does not change the result of mass assignment |
| TaskModel.ColumnsDetermineTask | backend/adaa/app/Models/Task.php:36 | two tasks with the same id and timestamps that agree on every fillable column are equal, so the columns describe the whole record |
| TaskModel.UserOf | backend/adaa/app/Models/Task.php:38-41 | `task.user` is present exactly when a user with id `user_id` exists, and is that user |
| TaskModel.ImageOf | backend/adaa/app/Models/Task.php:43-46 | `task.image` is absent when `image_id` is null or dangling; otherwise it is the image row whose id equals `image_id` |
| ImageStore.SaveFileToDisk | backend/adaa/app/Helpers/Utils.php:13-28 | the new image gets an id not used before and is added as the only new row; its filename is the canonical decimal timestamp, "_" and the client name, and parses back to both; its path is "images/" plus the filename; its URL is the asset root, "storage/" and the path; the file set gains that path; table validity is kept |
| ImageStore.ParseStoredFilenameInverts | backend/adaa/app/Helpers/Utils.php:15 | the stored filename can be split back into the timestamp and the original client name |
| ImageStore.StoredPathCollision | backend/adaa/app/Helpers/Utils.php:15-18 | two uploads get the same path exactly when they share both the timestamp second and the client name, so collisions are reduced but not prevented |
| ImageStore.DeleteFileIfExists | backend/adaa/app/Http/Controllers/TaskController.php:265-267 | afterwards the path is not on disk and no other file changed, whether or not it was there before |
| ImageForeignKey.DeleteImage | backend/adaa/database/migrations/2025_02_02_141312_add_image_id_foreign_key_to_tasks_table.php:14-19 | deleting an image row keeps every task; no task references the deleted id afterwards; tasks that referenced it get `image_id` null and nothing else changes; other tasks are untouched; table validity and referential integrity are kept |
| TaskOrder.Insert | backend/adaa/app/Http/Controllers/TaskController.php:47 | inserting a task into a list adds exactly that task (multiset of elements) |
| TaskOrder.InsertNewestFirst | backend/adaa/app/Http/Controllers/TaskController.php:47 | inserting into a newest-first list of distinct ids keeps it newest first |
| TaskOrder.Sort | backend/adaa/app/Http/Controllers/TaskController.php:47 | `latest()` is a permutation of its input ordered newest first |
| TaskOrder.Latest | backend/adaa/app/Http/Controllers/TaskController.php:47 | the ordered listing holds exactly the rows of the table and is newest first |
| TaskOrder.OwnedBy | backend/adaa/app/Http/Controllers/TaskController.php:69 | the `user_id` filter keeps exactly the tasks of that owner and preserves the newest-first order |
| TaskController.Index | backend/adaa/app/Http/Controllers/TaskController.php:45-49 | 200 with every task of the table, newest first, each joined with its user and image |
| TaskController.Mine | backend/adaa/app/Http/Controllers/TaskController.php:67-71 | 200 with exactly the caller's tasks, newest first, joined with user and image |
| TaskController.Show | backend/adaa/app/Http/Controllers/TaskController.php:97-100 | 200 with the stored task of that id, relations not loaded, exactly when the id exists; otherwise 404 |
| TaskController.CreatedTask | backend/adaa/app/Http/Controllers/TaskController.php:162-170 | the created row has the caller as owner, the request IP and the clock for both timestamps; it takes the validated name and the image id; description and GPS default to null and `completed` to false |
| TaskController.Store | backend/adaa/app/Http/Controllers/TaskController.php:139-175 | invalid input (a missing or blank name, a name over 255 characters, a file over 5055 KB) gives 422 and no change; a name the caller already owns gives 400 "Task already exists" with no task, image row or file created; the store succeeds exactly when the input is valid and the caller owns no task of that name; on success one task and, iff a file was sent, one image row and one file are added, the task references that image, whose filename is built from the request time and the client name, and the response is 201 joined; validity is kept |
| TaskController.Only | backend/adaa/app/Http/Controllers/TaskController.php:222 | `only(...)` keeps exactly the listed keys with their first supplied values |
| TaskController.FillOnlyColumns | backend/adaa/app/Http/Controllers/TaskController.php:222 | after `update(only(...))` the four updatable columns take the supplied values and all other columns keep theirs |
| TaskController.UpdatableKeysNameUpdatable | backend/adaa/app/Http/Controllers/TaskController.php:222 | the key list of `only` names exactly the name, description, completed and GPS columns |
| TaskController.FillUpdatable | backend/adaa/app/Http/Controllers/TaskController.php:222 | an update never changes the id, owner, image, IP or timestamps of the row |
| TaskController.FillUpdatableColumns | backend/adaa/app/Http/Controllers/TaskController.php:222 | each updatable column ends up with the supplied value when one is given and keeps its value otherwise |
| TaskController.Revised | backend/adaa/app/Http/Controllers/TaskController.php:222 | the revised row keeps id, owner, image, IP and creation time; each updatable column takes the supplied value; the row is returned unchanged when nothing changes, and otherwise `updated_at` becomes the clock |
| TaskController.Update | backend/adaa/app/Http/Controllers/TaskController.php:216-226 | unknown id gives 404; a caller who is not the owner gets 403 and nothing changes; the update succeeds exactly for the owner, changes only that task, to the revised row, leaves images and files alone and answers 200 joined; validity is kept |
| TaskController.Destroy | backend/adaa/app/Http/Controllers/TaskController.php:257-274 | unknown id gives 404; a non-owner gets 403 and nothing changes; for the owner, the task disappears, all other tasks are unchanged, the task's image row and file (if any) are removed and nothing else on disk or in the image table changes, and the answer is "Deleted successfully"; validity is kept |
| TaskProperties.UpdateCanDuplicateName | backend/adaa/app/Http/Controllers/TaskController.php:216-226 | an owner can rename one task to the name of another of their tasks, so names unique per owner is not an invariant of the table |
| TaskProperties.StoreRefusesSecondCopy | backend/adaa/app/Http/Controllers/TaskController.php:149-153 | after a successful store, storing the same name again for the same caller answers 400 and changes nothing |
| TaskProperties.StoreThenShow | backend/adaa/app/Http/Controllers/TaskController.php:97-100 | `show` on the id a successful store assigned returns the task that store answered with |
| TaskProperties.DestroyThenGone | backend/adaa/app/Http/Controllers/TaskController.php:257-274 | after a successful destroy, show, update and destroy on that id all answer 404 and change nothing |
| TaskProperties.OwnerLifecycle | backend/adaa/app/Http/Controllers/TaskController.php:216-274 | for any stored task, another user's update and delete get 403 and change nothing; its owner's update with `completed: true` gives 200 and marks it completed; the owner's delete then gives 200 "Deleted successfully" and `show` answers 404 |
| TaskProperties.BuyMilkScenario | backend/adaa/app/Http/Controllers/TaskController.php:139-274 | a task stored by one user is refused (403) to another for update and delete, can be completed by its owner and, once deleted by its owner, is not found |
| TaskClient.Started | frontend/src/hooks/useTask.tsx:50-51 | starting a call sets `loading`, clears `error` and keeps both lists |
| TaskClient.ReplaceById | frontend/src/hooks/useTask.tsx:76-85 | replacing by id keeps the length and order; exactly the elements with that id become the new task |
| TaskClient.RemoveById | frontend/src/hooks/useTask.tsx:103-104 | filtering by id keeps exactly the elements with another id, and its length drops by the number of matches |
| TaskClient.RemoveByIdAppend | frontend/src/hooks/useTask.tsx:103-104 | filtering distributes over concatenation, so the kept elements stay in their order |
| TaskClient.RemoveAfterReplace | frontend/src/hooks/useTask.tsx:76-104 | deleting a task after updating it leaves the same list as deleting it straight away |
| TaskClient.ReplaceIdempotent | frontend/src/hooks/useTask.tsx:76-85 | applying the same update response twice is the same as once |
| TaskClient.ReplaceKeepsIds | frontend/src/hooks/useTask.tsx:76-85 | an update never changes which id sits at which position |
| TaskClient.FetchTasks | frontend/src/hooks/useTask.tsx:11-28 | the list is replaced only by non-empty response data; empty or missing data keeps it; a failure keeps it and sets the error to the message or "An unexpected error occurred"; loading ends false |
| TaskClient.CreateTask | frontend/src/hooks/useTask.tsx:49-67 | a returned task is put in front of both lists; otherwise both lists are kept; a failure sets the error text; loading ends false |
| TaskClient.UpdateTask | frontend/src/hooks/useTask.tsx:69-96 | a returned task replaces by id in both lists; otherwise both are kept; a failure sets the error text; loading ends false |
| TaskClient.DeleteTask | frontend/src/hooks/useTask.tsx:98-114 | only after the call succeeds is the id filtered out of both lists; a failure keeps both and sets the error text; loading ends false |
| TaskClient.CreateThenDelete | frontend/src/hooks/useTask.tsx:49-114 | creating a task and then deleting its id leaves both lists as they were without that id |
| TaskClient.UpdateThenDelete | frontend/src/hooks/useTask.tsx:69-114 | updating and then deleting a task leaves the same lists as deleting it directly |
| Gps.MatchGpsCorrect | frontend/src/components/newTask.tsx:40-43 | the scanner accepts a string exactly when it matches: optional minus, digits, optional point and digits, a comma, white space, and a second number of the same form |
| Gps.ScannerSplits | frontend/src/components/newTask.tsx:41 | when the scanner accepts, the comma it finds and the end of the white space after it split the string as the pattern requires |
| Gps.PatternMatches | frontend/src/components/newTask.tsx:41 | a string split as the pattern requires is accepted by the scanner |
| Gps.MatchNumberCorrect | frontend/src/components/newTask.tsx:41 | the number scanner accepts exactly the strings of the form optional minus, digits, optional point and digits |
| Gps.MatchUnsignedCorrect | frontend/src/components/newTask.tsx:41 | the unsigned scanner accepts exactly digits with at most one inner decimal point |
| Gps.NumberChars | frontend/src/components/newTask.tsx:41 | a matched number is non-empty and consists of digits, minus and point only |
| Gps.GpsShape | frontend/src/components/newTask.tsx:41 | every accepted coordinate string has exactly one comma, otherwise only digits, signs, points and white space, and no letters |
| Gps.SkipSpaces | frontend/src/components/newTask.tsx:41 | the scanner's `\s*` step stops at the first character that is not white space |
| TaskForm.ImageError | frontend/src/components/newTask.tsx:26-36 | no image error exactly when there is no file, or the file is at most 5,000,000 bytes and of type image/jpeg, image/png or image/gif; "File too large" exactly when it is over the size; "Unsupported format" exactly when it is within the size and of another type |
| TaskForm.Errors | frontend/src/components/newTask.tsx:23-44 | a name or description error exactly when that field is empty; an image error exactly when the image rule fails; a coordinates error exactly when the field is non-empty and does not match the pattern; each with its message, the image's being the one its size-then-format test gives |
| TaskForm.SubmitAcceptsExactly | frontend/src/components/newTask.tsx:23-44 | the dialog submits exactly the values that meet every field rule |
| TaskForm.AcceptedMeetsServerRules | frontend/src/components/newTask.tsx:23-36 | a request carrying an accepted dialog's name and image passes the server's store rules exactly when the name is at most 255 characters and not made only of characters PHP's `trim` strips, since every accepted image is within the server's 5055 KB |
| TaskForm.LongNameGap | frontend/src/components/newTask.tsx:24 | the dialog accepts names longer than the server allows |
| TaskForm.BlankNameGap | frontend/src/components/newTask.tsx:24 | the dialog accepts a name of spaces only, short enough for the server, which the server's `required` rule refuses |
| TaskForm.CoordinatesExamples | frontend/src/components/newTask.tsx:38-43 | "-1.5, 36.8" is accepted and "abc" refused |
| RegisterForm.PasswordError | frontend/src/components/register.tsx:16-18 | no password error exactly when it has at least 8 characters; "Password is required" exactly when it is empty; "Password must be at least 8 characters" exactly when it is non-empty and shorter than 8 |
| RegisterForm.ConfirmationError | frontend/src/components/register.tsx:19-21 | no confirmation error exactly when it is non-empty and equals the password; "Confirm password is required" exactly when it is empty; "Passwords do not match" exactly when it is present and differs from the password |
| RegisterForm.Errors | frontend/src/components/register.tsx:11-22 | each field has an error exactly when its rule fails: empty name, empty email, password under 8 characters, confirmation empty or different; the name and email errors read "Name is required" and "Email is required", and the password and confirmation errors are the messages their field rules give |
| RegisterForm.NoErrorsIffAcceptable | frontend/src/components/register.tsx:11-22 | the schema passes exactly when name and email are present, the password has at least 8 characters and the confirmation equals it |
| RegisterForm.HandleSubmit | frontend/src/components/register.tsx:39-55 | submitting ends false on both paths; success shows the response message or "" and schedules the move to the login page; failure replaces the errors with a general error holding the message, or "An unexpected error occurred" for values that are not Errors |
| RegisterForm.SubmitOutcomes | frontend/src/components/register.tsx:39-55 | from a fresh page the banner appears exactly when the response carried a non-empty message, and the login move is scheduled exactly on success |
| AuthGuard.Redirect | frontend/src/hooks/withAuth.tsx:5-24 | in the browser, no token on a non-public path goes to "/login"; a token on "/login" or "/register" goes to "/"; every other case stays; the target is never the current path |
| AuthGuard.RedirectSettles | frontend/src/hooks/withAuth.tsx:5-24 | running the guard again at its own target with the same token does not redirect |
| ApiClient.SetToken | frontend/src/lib/request.ts:26-33 | the token field takes the given value; the stored token is that value when it is a non-empty string and is removed otherwise |
| ApiClient.SetTokenSurvivesReload | frontend/src/lib/request.ts:21-33 | a service constructed from what `setToken` stored gets the same token back when it was non-empty and none otherwise, and the route guard decides on the stored token as on the token itself |
| ApiClient.Headers | frontend/src/lib/request.ts:35-45 | Authorization is "Bearer " followed by the token, or by "null" when there is none; Content-Type is "application/json" exactly when no files are sent |
| ApiClient.MissingTokenLooksLikeNull | frontend/src/lib/request.ts:36-38 | a missing token and the token "null" give identical headers |
| ApiClient.HeaderValue | frontend/src/lib/request.ts:35-45 | a header lookup finds nothing exactly when no header has that name; otherwise its value is that of the first header with that name |
| ApiClient.FailureMessage | frontend/src/lib/request.ts:57-65 | the thrown message is never empty; it is "Unauthorized" for a 401, the server's message for other failures that carry a non-empty one, and "Something went wrong" otherwise |
| ApiClient.Request | frontend/src/lib/request.ts:47-69 | the request goes to the base URL plus the endpoint with the built headers; a 2xx reply is returned; a 401 clears the token and its stored copy, sends the browser to "/login" and throws "Unauthorized"; other failures throw the server message or "Something went wrong"; a rejected fetch passes its error on |
| ApiClient.FailuresAreErrors | frontend/src/lib/request.ts:57-65 | every failed response throws an Error with a non-empty message |
| ApiClient.UnauthorizedSignsOut | frontend/src/lib/request.ts:57-62 | after a 401 the browser is sent to "/login", nothing is stored, a reload has no token, and the route guard keeps the visitor on the login page |
| ApiClient.Login | frontend/src/lib/request.ts:72-81 | the result is that of the login request; the token is kept and stored only when the call succeeded and carried a non-empty token, otherwise the service is as the request left it |
| ApiClient.Logout | frontend/src/lib/request.ts:90-96 | the token and its stored copy are cleared however the call settles; a successful call resolves to nothing (no message, no token), a failed one rethrows the call's error; a 401 still moves the page to /login |
| ApiClient.LoginThenLogout | frontend/src/lib/request.ts:72-96 | after a login and a logout, whatever their replies, a reload has no token |
| ApiClient.ToText | frontend/src/lib/request.ts:119 | `toString` exists for every value except undefined and null; it leaves strings as they are, gives "true"/"false" for booleans, the canonical decimal text that reads back as the number for numbers, and "[object File]" for a file |
| ApiClient.Defined | frontend/src/lib/request.ts:114-115 | the fields kept are exactly those whose value is not undefined, and there are no more of them than fields |
| ApiClient.DefinedAppend | frontend/src/lib/request.ts:114-115 | the kept fields of a concatenation are those of each part in turn, so order and repeats are kept |
| ApiClient.Encode | frontend/src/lib/request.ts:112-122 | building the entries fails exactly when some value is null |
| ApiClient.EncodeMatchesFields | frontend/src/lib/request.ts:114-122 | one entry per field whose value is not undefined, in entry order; a file under "image" becomes a file entry, anything else a text entry of that key holding `toString` of the value |
| ApiClient.EncodeAppend | frontend/src/lib/request.ts:114-122 | the entries of concatenated fields are the concatenated entries |
| ApiClient.EntryCount | frontend/src/lib/request.ts:114-122 | the number of entries is the number of fields minus those that are undefined |
| ApiClient.UpdateEntries | frontend/src/lib/request.ts:135-146 | an update form starts with `_method=PATCH` followed by the field entries |
| ApiClient.CreateTask | frontend/src/lib/request.ts:111-129 | no request is sent when a value is null, and the call throws; otherwise a POST to "/task/create" carries the entries with no JSON content type |
| ApiClient.UpdateTask | frontend/src/lib/request.ts:131-153 | no request when a value is null; otherwise a POST to the task's path carrying the override and the entries, with no JSON content type |
| ApiClient.UpdateExtendsCreate | frontend/src/lib/request.ts:131-153 | an update form is the create form of the same fields with `_method=PATCH` in front |
| ApiClient.TaskPathsDistinct | frontend/src/lib/request.ts:107-156 | distinct task ids give distinct paths, and no task path equals "/task/all" or "/task/create" |
| Text.ToNatFromNat | backend/adaa/app/Helpers/Utils.php:15 | the decimal rendering of the timestamp reads back as the same number |
| Text.FromNatInjective | backend/adaa/app/Helpers/Utils.php:15 | distinct timestamps render as distinct decimal strings |

## Left out

- Laravel plumbing is abstracted rather than modelled:
  - Eloquent queries are maps.
  - The public disk is a set of paths.
  - `time()`, `asset()` and `$request->ip()` are parameters. The clock is read once per request: the filename's `time()` and the row's `now()` are taken to be the same second.
  - `$request->validate` is a predicate on the request. Its failure is a 422 with a fixed stand-in message, the text older Laravel versions give; newer versions derive the message from the first failing rule, and per-field messages are framework output.
- TaskController.PassesValidation checks the name (present, not blank under PHP's default `trim` set, at most 255 characters) and the file size (at most 5055 KB). The framework's default input middleware is not modelled: strings are not trimmed, so names are stored and measured as sent, and empty strings are not turned into null, so an empty description is stored as `Some("")` where the framework would store null. The `string` and `boolean` type rules and the `file` rule are typed away: requests carry strings, booleans and uploads.
- TaskController.OwnsName compares names exactly. The database's case-insensitive collation is not modelled.
- The check-then-insert race between the duplicate check and the insert is a concurrency issue. Operations are sequential.
- The client cache is modelled one settled call at a time. Overlapping calls of `useTasks` are not modelled, such as one call clearing `loading` while another is still pending.
- The order among tasks created in the same second is not specified by `latest()`. The model breaks such ties by descending id.
- TaskController.Show returns the route-bound task without relations. The `{task}` binding's 404 is modelled as the error path of an unknown id, with its message abstracted to "Not Found".
- Authentication middleware and the 401 it sends are not part of this model. The caller id is a parameter.
- TaskModel.Fill ignores a value of the wrong type for its column. Eloquent's casts and the database's coercions are not modelled.
- ImageUploadController.php and routes/api.php are not part of this model. The routes name methods the controller does not define. `mine` has no route.
- `fetchUserTasks` calls a method the API service does not define, so it is left out.
- TaskClient.FetchTasks is modelled for `tasks` only.
- The UI, rendering, previews, the dialogs' open/close state and timers are left out. The 5-second delay before moving to the login page is reduced to a flag.
- Browser I/O is abstracted:
  - Session storage is an optional token.
  - `window.location` is the page the service asks to go to.
  - `fetch` is a given reply.
  - A reply body that is not JSON is not modelled.
- The service constructed during server-side rendering, where storage is unavailable and the header would read "Bearer undefined", is not modelled.
- The JSON body of login and register is not modelled (`JSON.stringify`).
- Plain objects as field values are not modelled. `ApiClient.FieldValue` has no case for one, whose `toString()` is "[object Object]". The `Task` type allows object-valued `image` and `user` fields, but no caller sends a task that has them.
- The message of the TypeError from `null.toString()` is engine-specific. It is a constant here.
- How Laravel reads the multipart strings ("true", "false", "") back into typed values is framework behaviour. It is not connected to the backend model.
- Yup's email-format rule is library-internal. The email field is checked for presence only.
- Yup measures string length in UTF-16 code units. The model counts characters.
- Formik's conversion of empty inputs to `undefined` is folded into the form values: an empty string stands for an absent field.
- TaskForm.Errors takes the image's size test before its format test. This follows the declared order; when both fail, only the first message is modelled.
- User.php and Image.php are record shapes only. Password hashing is foreign.
