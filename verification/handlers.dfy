/**
 The single-user request handlers as transitions of the table. Each one
 takes the table (and whatever the request, the clock, the hash routine and
 the id generator supply) and returns the reply message with the new table.
 */
module Handlers {

  import opened Wrappers
  import opened Json
  import opened Users
  import opened Validation

  /** The `message` strings the handlers reply with. */
  datatype Message =
    | NoUserFound
    | UserNotFound
    | IncorrectInput
    | UserCreated
    | UserUpdated
    | PasswordUpdated
    | AdminRoleUpdated
    | UserDeleted
  {
    function Text(): string
    {
      match this
      case NoUserFound => "No user found!"
      case UserNotFound => "User not found!"
      case IncorrectInput => "Incorrect input data!"
      case UserCreated => "New user CREATED."
      case UserUpdated => "User has been UPDATED"
      case PasswordUpdated => "User password has been UPDATED"
      case AdminRoleUpdated => "Admin role updated"
      case UserDeleted => "User has been DELETED"
    }

    /** The replies that report a rejected request. */
    predicate IsFailure()
    {
      NoUserFound? || UserNotFound? || IncorrectInput?
    }
  }

  /** A handler's reply together with the table after the request. */
  datatype Step = Step(msg: Message, store: Store)

  /** What `get_one_user` answers: a message or the row's fields. */
  datatype Reply = Notice(msg: Message) | Record(user: User)

  /** Body keys the handlers read. */
  const FirstName: string := "first_name"
  const LastName: string := "last_name"
  const Email: string := "email"
  const Password: string := "password"

  /** The field lists handed to `complete_data`. */
  const CreateFields: seq<string> := [FirstName, LastName, Email, Password]
  const ProfileFields: seq<string> := [FirstName, LastName, Email]
  const PasswordFields: seq<string> := [Password]

  /** The table is the same except that row `key` may differ; no row is
      added or removed. */
  ghost predicate OnlyRowChanged(store: Store, store': Store, key: string)
  {
    && store'.Keys == store.Keys
    && forall k :: k in store && k != key ==> store'[k] == store[k]
  }

  /** Distinct messages have distinct texts, so a client can tell every
      outcome apart from the `message` field alone. */
  lemma TextsDistinct(m: Message, m': Message)
    requires m != m'
    ensures m.Text() != m'.Text()
  {
  }

  /** `get_one_user`. */
  function GetOneUser(store: Store, publicId: string): (r: Reply)
    ensures r.Record? <==> publicId in store
    ensures r.Record? ==> r.user == store[publicId]
    ensures r.Notice? ==> r.msg == NoUserFound
  {
    if publicId in store then Record(store[publicId]) else Notice(NoUserFound)
  }

  /** `create_user`: after the presence check, hash the password, stamp the
      expiry thirty days ahead of the local clock and insert the row under
      the freshly generated `public_id`. */
  function CreateUser(store: Store, body: Body, freshId: string, rowId: int,
                      hash: Value -> string, clock: Clock): (s: Step)
    requires freshId !in store
    requires IdUnused(store, rowId)
    ensures !CompleteData(body, CreateFields) ==> s == Step(IncorrectInput, store)
    ensures CompleteData(body, CreateFields) ==>
      && s.msg == UserCreated
      && s.store.Keys == store.Keys + {freshId}
      && (forall k :: k in store ==> s.store[k] == store[k])
    ensures CompleteData(body, CreateFields) ==>
      var u := s.store[freshId];
      && u.id == rowId
      && u.public_id == freshId
      && u.first_name == body[FirstName]
      && u.last_name == body[LastName]
      && u.email == body[Email]
      && u.password == hash(body[Password])
      && u.user_role == None
      && u.created_at == clock.utc
      && u.updated_at == None
      && u.expired_at == Some(clock.local + ExpiryPeriod)
      && !u.admin
    ensures Wf(store) ==> Wf(s.store)
  {
    if !CompleteData(body, CreateFields) then Step(IncorrectInput, store)
    else
      var user := User(
        id := rowId,
        public_id := freshId,
        email := body[Email],
        password := hash(body[Password]),
        first_name := body[FirstName],
        last_name := body[LastName],
        user_role := None,
        created_at := clock.utc,
        updated_at := None,
        expired_at := Some(clock.local + ExpiryPeriod),
        admin := false);
      Step(UserCreated, store[freshId := user])
  }

  /** `update_user`: an unknown `public_id` is reported before the body is
      looked at; then the three profile fields are overwritten. */
  function UpdateUser(store: Store, publicId: string, body: Body, clock: Clock): (s: Step)
    ensures publicId !in store ==> s == Step(UserNotFound, store)
    ensures publicId in store && !CompleteData(body, ProfileFields) ==> s == Step(IncorrectInput, store)
    ensures publicId in store && CompleteData(body, ProfileFields) ==>
      && s.msg == UserUpdated
      && OnlyRowChanged(store, s.store, publicId)
    ensures publicId in store && CompleteData(body, ProfileFields) ==>
      var u, u' := store[publicId], s.store[publicId];
      && u'.first_name == body[FirstName]
      && u'.last_name == body[LastName]
      && u'.email == body[Email]
      && u'.id == u.id
      && u'.public_id == u.public_id
      && u'.password == u.password
      && u'.user_role == u.user_role
      && u'.admin == u.admin
      && u'.created_at == u.created_at
      && u'.expired_at == u.expired_at
      && (u' == u || u'.updated_at == Some(clock.utc))
    ensures Wf(store) ==> Wf(s.store)
  {
    if publicId !in store then Step(UserNotFound, store)
    else if !CompleteData(body, ProfileFields) then Step(IncorrectInput, store)
    else
      var u := store[publicId];
      var changed := u.(first_name := body[FirstName],
                        last_name := body[LastName],
                        email := body[Email]);
      Step(UserUpdated, store[publicId := Touch(u, changed, clock.utc)])
  }

  /** `update_password`: not-found first, then the presence check on
      `password`, then the hash replaces the stored password. */
  function UpdatePassword(store: Store, publicId: string, body: Body,
                          hash: Value -> string, clock: Clock): (s: Step)
    ensures publicId !in store ==> s == Step(UserNotFound, store)
    ensures publicId in store && !CompleteData(body, PasswordFields) ==> s == Step(IncorrectInput, store)
    ensures publicId in store && CompleteData(body, PasswordFields) ==>
      && s.msg == PasswordUpdated
      && OnlyRowChanged(store, s.store, publicId)
      && (var u, u' := store[publicId], s.store[publicId];
          && u'.password == hash(body[Password])
          && u' in {u.(password := u'.password), u.(password := u'.password, updated_at := Some(clock.utc))})
    ensures Wf(store) ==> Wf(s.store)
  {
    if publicId !in store then Step(UserNotFound, store)
    else if !CompleteData(body, PasswordFields) then Step(IncorrectInput, store)
    else
      var u := store[publicId];
      Step(PasswordUpdated, store[publicId := Touch(u, u.(password := hash(body[Password])), clock.utc)])
  }

  /** `set_admin_role`: grants the admin flag to an existing row. */
  function SetAdminRole(store: Store, publicId: string, clock: Clock): (s: Step)
    ensures publicId !in store ==> s == Step(UserNotFound, store)
    ensures publicId in store ==>
      && s.msg == AdminRoleUpdated
      && OnlyRowChanged(store, s.store, publicId)
      && s.store[publicId].admin
      && (var u := store[publicId];
          s.store[publicId] in {u, u.(admin := true, updated_at := Some(clock.utc))})
      && (store[publicId].admin ==> s.store == store)
    ensures Wf(store) ==> Wf(s.store)
  {
    if publicId !in store then Step(UserNotFound, store)
    else
      var u := store[publicId];
      Step(AdminRoleUpdated, store[publicId := Touch(u, u.(admin := true), clock.utc)])
  }

  /** `delete_user`: a hard delete of the row. */
  function DeleteUser(store: Store, publicId: string): (s: Step)
    ensures publicId !in store ==> s == Step(UserNotFound, store)
    ensures publicId in store ==>
      && s.msg == UserDeleted
      && s.store.Keys == store.Keys - {publicId}
      && (forall k :: k in s.store ==> s.store[k] == store[k])
    ensures Wf(store) ==> Wf(s.store)
  {
    if publicId !in store then Step(UserNotFound, store)
    else Step(UserDeleted, store - {publicId})
  }
}
