/**
 The `User` table and the clock the handlers read. The table is a map from
 `public_id` to the row; timestamps are integer seconds.
 */
module Users {

  import opened Wrappers
  import opened Json

  /** `datetime.utcnow()` (the column defaults and the update hook) and
      `datetime.now()` (the expiry computation) are two distinct readings. */
  datatype Clock = Clock(utc: int, local: int)

  /** `timedelta(days=30)` in seconds. */
  const ExpiryPeriod: int := 30 * 24 * 60 * 60

  /** One row of the `User` table. The name and e-mail columns hold the
      JSON value the request carried; the password column holds a hash. */
  datatype User = User(
    id: int,
    public_id: string,
    email: Value,
    password: string,
    first_name: Value,
    last_name: Value,
    user_role: Option<string>,
    created_at: int,
    updated_at: Option<int>,
    expired_at: Option<int>,
    admin: bool)

  /** The table, addressed by `public_id`. */
  type Store = map<string, User>

  /** Every row sits under its own `public_id` (so `public_id` is unique),
      and no two rows share the primary key `id`. */
  ghost predicate Wf(store: Store)
  {
    && (forall k :: k in store ==> store[k].public_id == k)
    && (forall a, b :: a in store && b in store && a != b ==> store[a].id != store[b].id)
  }

  /** No row uses primary key `id`. */
  predicate IdUnused(store: Store, id: int)
  {
    forall k :: k in store ==> store[k].id != id
  }

  /** The `onupdate=datetime.utcnow` hook on `updated_at`: when a commit
      writes a changed row, the column is stamped; a row whose columns were
      all set to the values they already held is not written at all. */
  function Touch(before: User, after: User, now: int): (u: User)
    requires after.updated_at == before.updated_at
    ensures u == before <==> after == before
    ensures u != before ==> u == after.(updated_at := Some(now))
  {
    if after == before then before else after.(updated_at := Some(now))
  }
}
