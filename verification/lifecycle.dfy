/**
 Properties that relate several requests: what a later read sees after a
 write, idempotence of repeated requests, and the table invariant across
 any sequence of requests.
 */
module Lifecycle {

  import opened Wrappers
  import opened Json
  import opened Users
  import opened Validation
  import opened Handlers

  /** A created row is readable under its new `public_id`, with the
      submitted profile, the hashed password and no admin flag. */
  lemma CreateThenGet(store: Store, body: Body, freshId: string, rowId: int,
                      hash: Value -> string, clock: Clock)
    requires freshId !in store && IdUnused(store, rowId)
    requires CompleteData(body, CreateFields)
    ensures var r := GetOneUser(CreateUser(store, body, freshId, rowId, hash, clock).store, freshId);
      && r.Record?
      && r.user.public_id == freshId
      && r.user.first_name == body[FirstName]
      && r.user.last_name == body[LastName]
      && r.user.email == body[Email]
      && r.user.password == hash(body[Password])
      && !r.user.admin
      && r.user.created_at == clock.utc
      && r.user.expired_at == Some(clock.local + ExpiryPeriod)
  {
  }

  /** A rejected create leaves the row unreadable. */
  lemma IncompleteCreateNotReadable(store: Store, body: Body, freshId: string, rowId: int,
                                    hash: Value -> string, clock: Clock)
    requires freshId !in store && IdUnused(store, rowId)
    requires !CompleteData(body, CreateFields)
    ensures GetOneUser(CreateUser(store, body, freshId, rowId, hash, clock).store, freshId) == Notice(NoUserFound)
  {
  }

  /** get, update, get: the second read shows the new profile, the same
      `public_id` and `created_at`, and an `updated_at` of the update's time
      whenever the profile actually changed. */
  lemma UpdateThenGet(store: Store, publicId: string, body: Body, clock: Clock)
    requires publicId in store
    requires CompleteData(body, ProfileFields)
    ensures var before := GetOneUser(store, publicId);
            var after := GetOneUser(UpdateUser(store, publicId, body, clock).store, publicId);
      && before.Record? && after.Record?
      && after.user.first_name == body[FirstName]
      && after.user.last_name == body[LastName]
      && after.user.email == body[Email]
      && after.user.public_id == before.user.public_id
      && after.user.created_at == before.user.created_at
      && (after.user != before.user ==> after.user.updated_at == Some(clock.utc))
  {
  }

  /** The not-found answer of `update_user` and `update_password` does not
      depend on the body: it comes before any validation. */
  lemma NotFoundBeforeValidation(store: Store, publicId: string, body: Body, body': Body,
                                 hash: Value -> string, clock: Clock, clock': Clock)
    requires publicId !in store
    ensures UpdateUser(store, publicId, body, clock) == UpdateUser(store, publicId, body', clock')
    ensures UpdatePassword(store, publicId, body, hash, clock) == UpdatePassword(store, publicId, body', hash, clock')
    ensures UpdateUser(store, publicId, body, clock).msg == UserNotFound
  {
  }

  /** Granting admin twice is the same as granting it once, whatever the
      clock reads the second time. */
  lemma SetAdminIdempotent(store: Store, publicId: string, clock: Clock, clock': Clock)
    ensures var once := SetAdminRole(store, publicId, clock);
      SetAdminRole(once.store, publicId, clock') == once
  {
  }

  /** Repeating a profile update with the same body changes nothing more. */
  lemma UpdateUserIdempotent(store: Store, publicId: string, body: Body, clock: Clock, clock': Clock)
    ensures var once := UpdateUser(store, publicId, body, clock);
      UpdateUser(once.store, publicId, body, clock') == once
  {
  }

  /** Deleting a row makes it unreadable, and a second delete reports it
      missing without touching the table. */
  lemma DeleteTwice(store: Store, publicId: string)
    requires publicId in store
    ensures var once := DeleteUser(store, publicId);
      && once.msg == UserDeleted
      && GetOneUser(once.store, publicId) == Notice(NoUserFound)
      && DeleteUser(once.store, publicId) == Step(UserNotFound, once.store)
  {
  }

  /** Every request a handler rejects leaves the table exactly as it was. */
  lemma FailuresLeaveStoreUnchanged(store: Store, publicId: string, body: Body, freshId: string,
                                    rowId: int, hash: Value -> string, clock: Clock)
    requires freshId !in store && IdUnused(store, rowId)
    ensures var s := CreateUser(store, body, freshId, rowId, hash, clock); s.msg.IsFailure() ==> s.store == store
    ensures var s := UpdateUser(store, publicId, body, clock); s.msg.IsFailure() ==> s.store == store
    ensures var s := UpdatePassword(store, publicId, body, hash, clock); s.msg.IsFailure() ==> s.store == store
    ensures var s := SetAdminRole(store, publicId, clock); s.msg.IsFailure() ==> s.store == store
    ensures var s := DeleteUser(store, publicId); s.msg.IsFailure() ==> s.store == store
  {
  }

  /** One request to the single-user endpoints, with what the environment
      supplies for it (fresh ids, the hash routine, the clock). */
  datatype Request =
    | Create(body: Body, freshId: string, rowId: int, hash: Value -> string, clock: Clock)
    | Get(publicId: string)
    | Update(publicId: string, body: Body, clock: Clock)
    | ChangePassword(publicId: string, body: Body, hash: Value -> string, clock: Clock)
    | SetAdmin(publicId: string, clock: Clock)
    | Delete(publicId: string)

  /** The generated ids of a create are not in use: `uuid4` does not
      collide and the database assigns an unused primary key. */
  predicate Admissible(store: Store, req: Request)
  {
    req.Create? ==> req.freshId !in store && IdUnused(store, req.rowId)
  }

  /** Serve one request. */
  function Serve(store: Store, req: Request): Store
    requires Admissible(store, req)
  {
    match req
    case Create(body, freshId, rowId, hash, clock) => CreateUser(store, body, freshId, rowId, hash, clock).store
    case Get(_) => store
    case Update(publicId, body, clock) => UpdateUser(store, publicId, body, clock).store
    case ChangePassword(publicId, body, hash, clock) => UpdatePassword(store, publicId, body, hash, clock).store
    case SetAdmin(publicId, clock) => SetAdminRole(store, publicId, clock).store
    case Delete(publicId) => DeleteUser(store, publicId).store
  }

  /** Every request of the sequence is admissible in the table it meets. */
  predicate AdmissibleRun(store: Store, reqs: seq<Request>)
    decreases |reqs|
  {
    |reqs| == 0 || (Admissible(store, reqs[0]) && AdmissibleRun(Serve(store, reqs[0]), reqs[1..]))
  }

  /** Serve the requests one after another. */
  function Run(store: Store, reqs: seq<Request>): Store
    requires AdmissibleRun(store, reqs)
    decreases |reqs|
  {
    if |reqs| == 0 then store else Run(Serve(store, reqs[0]), reqs[1..])
  }

  /** `public_id` stays the unique key of its row, and primary keys stay
      distinct, across any admissible sequence of requests. */
  lemma {:induction false} RunPreservesWf(store: Store, reqs: seq<Request>)
    requires Wf(store)
    requires AdmissibleRun(store, reqs)
    ensures Wf(Run(store, reqs))
    decreases |reqs|
  {
    if |reqs| > 0 {
      RunPreservesWf(Serve(store, reqs[0]), reqs[1..]);
    }
  }

  /** Rows no request of the sequence names are never touched, so another
      user's row reads the same before and after. */
  lemma {:induction false} RunLeavesOthersAlone(store: Store, reqs: seq<Request>, key: string)
    requires AdmissibleRun(store, reqs)
    requires key in store
    requires forall i :: 0 <= i < |reqs| ==> Names(reqs[i]) != key
    ensures GetOneUser(Run(store, reqs), key) == GetOneUser(store, key)
    decreases |reqs|
  {
    if |reqs| > 0 {
      var next := Serve(store, reqs[0]);
      assert key in next && next[key] == store[key];
      assert forall i :: 0 <= i < |reqs[1..]| ==> Names(reqs[1..][i]) != key by {
        forall i | 0 <= i < |reqs[1..]| ensures Names(reqs[1..][i]) != key {
          assert reqs[1..][i] == reqs[i + 1];
        }
      }
      RunLeavesOthersAlone(next, reqs[1..], key);
    }
  }

  /** The `public_id` a request addresses, or creates. */
  function Names(req: Request): string
  {
    match req
    case Create(_, freshId, _, _, _) => freshId
    case Get(publicId) => publicId
    case Update(publicId, _, _) => publicId
    case ChangePassword(publicId, _, _, _) => publicId
    case SetAdmin(publicId, _) => publicId
    case Delete(publicId) => publicId
  }
}
