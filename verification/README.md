# User directory service — a Dafny model

The service keeps one table of `User` rows and serves CRUD requests on it:
read one user, create a user, update the profile, update the password,
grant the admin role, delete a user, and bulk-import users from an uploaded
`.json` file. This project models the sequential logic of those handlers:

- `json.dfy` (`Json`): the decoded request body as a map from keys to JSON
  values, and Python truthiness of a value.
- `validation.dfy` (`Validation`): `complete_data`, the required-field
  presence check, and `allowed_file`, the upload-name extension check.
- `users.dfy` (`Users`): the `User` row, the table as a map from
  `public_id` to row, its invariant, the clock, and the `updated_at` hook.
- `handlers.dfy` (`Handlers`): `get_one_user`, `create_user`,
  `update_user`, `update_password`, `set_admin_role` and `delete_user`, each
  a pure transition returning the reply message and the new table.
- `lifecycle.dfy` (`Lifecycle`): properties that relate several requests:
  read-after-write, idempotence, check ordering, and the table invariant
  across any sequence of requests.
- `bulk_import.dfy` (`BulkImport`): the checks of `upload_file`, the
  ten-record cap and the per-entry transform that prepares the rows.

How the environment enters the model:

- Password hashing is a function parameter `hash: Value -> string`. Each
  handler call may be given a different one, which covers the random salt.
  The bulk import takes one hash routine and one local clock reading per
  entry, because the loop calls the hash and `datetime.now()` once per
  iteration. So two entries with the same password need not get the same
  hash, and their expiry times may differ.
- `uuid4` and the database's primary key become caller-supplied ids.
  A `requires` states they are not already in use.
- Time is a `Clock` of two integer readings in seconds. `created_at` and
  the `updated_at` hook use `datetime.utcnow()`. The expiry uses
  `datetime.now()`. So `expired_at` is the local time plus thirty days. It
  equals `created_at` plus thirty days only when local time is UTC.
- `updated_at` is stamped by the ORM hook when a commit writes a changed
  row. A row whose columns were all set to the values they already held is
  not written. This is why granting admin twice equals granting it once.
- The model stores the body's JSON value in the name and e-mail columns.
  For a string value, which is what clients send, this is what the
  database stores. Other truthy values are not faithful; see the
  `Handlers.CreateUser` and `Handlers.UpdateUser` lines under "Left out".
- `allowed_file` lower-cases with an ASCII mapping. This is exact for the
  comparison with `json`: no other character lower-cases to `j`, `s`, `o`
  or `n`.

The bulk-import path writes the timestamp under the key `expire_at`. That
is not the name of the `expired_at` column. The model keeps the key as
written (`BulkImport.ExpireKey`).

## Model

| member | source | states |
|---|---|---|
| Validation.CompleteData | main.py:36-40 | true iff every listed field is a key of the body with a truthy value; false names a field that is absent or falsy; an empty field list passes |
| Validation.MissingAndEmptyRejected | main.py:36-40 | a listed field that is absent, or present only as the empty string, fails the check wherever it sits in the list |
| Validation.CompleteDataSameFields | main.py:36-40 | the verdict depends only on which fields are listed, not their order or repetition |
| Validation.AfterLastDot | main.py:165 | `rsplit('.', 1)[1]`: None iff the name holds no `.`; otherwise the suffix that follows a `.` and holds no `.` itself |
| Validation.AfterLastDotIsLastDot | main.py:165 | the suffix found is the one after the unique last `.` of the name |
| Validation.AllowedFile | main.py:163-165 | true iff the name has a last `.` and the lower-cased text after it is in the allowed extension list `['json']` |
| Validation.UpperCaseExtensionAllowed | main.py:163-165 | `a.JSON` and `.json` are accepted |
| Validation.OtherNamesRefused | main.py:163-165 | `json`, `a.json.txt` and `a.json.` are refused |
| Users.Touch | main.py:31 | a row with no changed column is left as it was; a changed row gets `updated_at` set to the current UTC time |
| Handlers.TextsDistinct | main.py:65-158 | distinct reply messages have distinct texts |
| Handlers.GetOneUser | main.py:65-83 | returns the row iff its `public_id` is in the table, otherwise `No user found!` |
| Handlers.CreateUser | main.py:86-101 | incomplete body: `Incorrect input data!` and the table unchanged; else exactly one row added under the fresh id, with the body's profile, the hashed password, no role, no admin flag, `created_at` now (UTC), no `updated_at`, expiry local now plus 30 days; all other rows kept; table invariant kept |
| Handlers.UpdateUser | main.py:104-118 | unknown id: `User not found!` whatever the body; incomplete body: `Incorrect input data!`; both leave the table unchanged; else only the target row changes, only in the three profile fields and `updated_at`; invariant kept |
| Handlers.UpdatePassword | main.py:122-135 | unknown id first, then the presence check, each with no change; else only the target row's password changes, to the hash of the new one, plus `updated_at` |
| Handlers.SetAdminRole | main.py:139-147 | unknown id: `User not found!`, no change; else the target row's admin flag is set, nothing else in the table changes, and an already-admin row is left as it was |
| Handlers.DeleteUser | main.py:150-158 | unknown id: `User not found!`, no change; else exactly the target key is removed and all other rows are kept |
| Lifecycle.CreateThenGet | main.py:86-101 | after a successful create, reading the fresh id returns the submitted profile, the hashed password, no admin flag and the expiry |
| Lifecycle.IncompleteCreateNotReadable | main.py:89-90 | after a rejected create, reading the fresh id returns `No user found!` |
| Lifecycle.UpdateThenGet | main.py:104-118 | get, update, get: the new profile is visible; `public_id` and `created_at` are unchanged; `updated_at` is the update time when the row changed |
| Lifecycle.NotFoundBeforeValidation | main.py:104-130 | for an unknown id, `update_user` and `update_password` give the same result for every body |
| Lifecycle.SetAdminIdempotent | main.py:139-147 | granting admin twice equals granting it once, whatever the clock reads the second time |
| Lifecycle.UpdateUserIdempotent | main.py:104-118 | repeating a profile update with the same body changes nothing more |
| Lifecycle.DeleteTwice | main.py:150-158 | after a delete the row reads as `No user found!`, and a second delete answers `User not found!` with the table unchanged |
| Lifecycle.FailuresLeaveStoreUnchanged | main.py:86-158 | every rejection by the five mutating handlers leaves the table exactly as it was |
| Lifecycle.RunPreservesWf | main.py:22-24 | across any sequence of requests, every row stays under its own `public_id` and primary keys stay distinct |
| Lifecycle.RunLeavesOthersAlone | main.py:65-158 | a row that no request of a sequence names reads the same after the sequence |
| BulkImport.Prepare | main.py:190-194 | the prepared entry has the generated id under `public_id`, the password hashed by that iteration's routine under `password`, that iteration's local time plus 30 days under `expire_at`, and every other key as uploaded |
| BulkImport.PrepareRows | main.py:189-195 | nothing is prepared iff some entry lacks `password`; otherwise one prepared row per entry, in order, each with its own generated id, hash routine and clock reading |
| BulkImport.UploadFile | main.py:168-200 | GET gets the form; a missing file part, an empty name, or a non-`.json` name get their own answers, in that order; more than 10 entries are refused before any is looked at; otherwise all entries are prepared |
| BulkImport.PreparedIdsDistinctAndFresh | main.py:192 | distinct generated ids give the prepared rows distinct `public_id`s, none of them in use in the table |

## Left out

- HTTP routing, `jsonify`, `flash`, `print`, status codes and the HTML form body. They are transport and UI plumbing; the form is the `UploadForm` reply.
- `get_all_users` and its field formatting (main.py:44-62). It is a listing of the table, with no logic to state.
- Request parsing: `get_json(force=True)` on a body that is not a JSON object, `json.loads` of the file, and the `users` key lookup. The model takes the decoded body or list as input.
- The database write of the bulk import (`bulk_update_mappings` and `commit`). Its semantics are in the ORM library. Called on rows with no primary key, it most likely inserts nothing. The model stops at the prepared rows.
- The unique constraint on `email` (main.py:25). A duplicate e-mail fails at commit with an unhandled error. The model does not enforce e-mail uniqueness.
- Column length limits of `String(n)`. SQLite does not enforce them.
- Hash algorithm and salting. `hash` is an uninterpreted parameter, so a contract cannot say the stored password differs from the plaintext.
- Handlers.CreateUser: the hash routine raising on a non-string `password` value is not modelled; the hash is total on every JSON value.
- Handlers.CreateUser: non-string profile values are not modelled faithfully. The model stores the JSON value and answers `New user CREATED.`. The database behaves differently. A number or boolean is stored by SQLite as text and reads back as a string. A list or object cannot be bound at commit (main.py:100): the request fails with an unhandled error and no row is written. `Lifecycle.CreateThenGet` inherits this: its read-back promise holds for string values.
- Handlers.UpdateUser: the same holds for the profile fields of an update. At commit (main.py:117) the database coerces a number or boolean to text and refuses a list or object. `Lifecycle.UpdateThenGet` and `Lifecycle.UpdateUserIdempotent` inherit this.
- Handlers.UpdatePassword: a truthy non-string `password` (a number, `true`, a list or an object) makes the hash routine raise at main.py:132. The request then fails with a server error and the row is unchanged. The model instead answers `User password has been UPDATED` and stores the hash of the value, because the hash is total.
- BulkImport.PrepareRows: the same holds for a non-string `password` of an uploaded entry. An entry that is not a JSON object is not modelled either.
- Json.Truthy: NaN is not modelled. Numbers are reals and only zero is falsy.
- Concurrency between requests. Each request is one transition of the table.
