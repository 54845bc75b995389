/**
 The `POST /file_import` path up to the database write: the upload checks,
 the record cap and the per-entry transform that prepares the rows.
 */
module BulkImport {

  import opened Wrappers
  import opened Json
  import opened Users
  import opened Validation

  /** `N_RECORDS`: the most entries one upload may carry. */
  const MaxRecords: nat := 10

  /** Keys the transform writes into each entry. `expire_at` is not the name
      of the `expired_at` column. */
  const PublicIdKey: string := "public_id"
  const PasswordKey: string := "password"
  const ExpireKey: string := "expire_at"

  /** One entry of the uploaded `users` list after the transform: its JSON
      fields (with `public_id` and `password` replaced) and the timestamp
      stored under `expire_at`, which is not a JSON value. */
  datatype Row = Row(fields: map<string, Value>, expireAt: int)

  /** The HTTP method of the request. */
  datatype Verb = Get | Post

  /** The uploaded file part: its name and the `users` list decoded from it. */
  datatype FilePart = FilePart(filename: string, users: seq<Body>)

  /** What `upload_file` answers. */
  datatype UploadReply =
    | UploadForm                  // the HTML form
    | NoFilePart                  // "No file part"
    | NoSelectedFile              // "No selected file"
    | TooManyRecords              // "Too many records for insert!"
    | MissingPassword             // an entry without `password`: the lookup raises
    | Uploaded(rows: seq<Row>)    // "File UPLOADED !", with the prepared rows

  /** The sequence holds no value twice. */
  predicate Distinct(ids: seq<string>)
  {
    forall i, j :: 0 <= i < j < |ids| ==> ids[i] != ids[j]
  }

  /** `row` is what the loop body makes of `entry`: the generated id under
      `public_id`, the hashed password under `password`, the expiry under
      `expire_at`, and every other key of the entry as it was. */
  ghost predicate PreparedFrom(entry: Body, id: string, hash: Value -> string, local: int, row: Row)
    requires PasswordKey in entry
  {
    && row.fields.Keys == (entry.Keys - {ExpireKey}) + {PublicIdKey}
    && row.fields[PublicIdKey] == Str(id)
    && row.fields[PasswordKey] == Str(hash(entry[PasswordKey]))
    && (forall k :: k in entry && k !in {PublicIdKey, PasswordKey, ExpireKey} ==> row.fields[k] == entry[k])
    && row.expireAt == local + ExpiryPeriod
  }

  /** The per-entry transform, with the hash routine (a fresh salt) and the
      `datetime.now()` reading of that iteration. */
  function Prepare(entry: Body, id: string, hash: Value -> string, local: int): (row: Row)
    requires PasswordKey in entry
    ensures PreparedFrom(entry, id, hash, local, row)
  {
    var fields := (entry - {ExpireKey})[PublicIdKey := Str(id)][PasswordKey := Str(hash(entry[PasswordKey]))];
    Row(fields, local + ExpiryPeriod)
  }

  /** The loop over the entries. Iteration `i` uses the generated id
      `ids[i]`, the hash routine `hashes[i]` (each call draws its own salt)
      and the local clock reading `locals[i]`. The first entry without a
      `password` key aborts the request with nothing prepared. */
  method PrepareRows(entries: seq<Body>, ids: seq<string>, hashes: seq<Value -> string>, locals: seq<int>)
    returns (rows: Option<seq<Row>>)
    requires |ids| == |entries| && |hashes| == |entries| && |locals| == |entries|
    ensures rows.None? <==> exists i :: 0 <= i < |entries| && PasswordKey !in entries[i]
    ensures rows.Some? ==>
      && |rows.value| == |entries|
      && forall i :: 0 <= i < |entries| ==> PreparedFrom(entries[i], ids[i], hashes[i], locals[i], rows.value[i])
  {
    var out: seq<Row> := [];
    var i := 0;
    while i < |entries|
      invariant 0 <= i <= |entries|
      invariant |out| == i
      invariant forall j :: 0 <= j < i ==> PasswordKey in entries[j]
      invariant forall j :: 0 <= j < i ==> PreparedFrom(entries[j], ids[j], hashes[j], locals[j], out[j])
    {
      if PasswordKey !in entries[i] {
        return None;
      }
      out := out + [Prepare(entries[i], ids[i], hashes[i], locals[i])];
      i := i + 1;
    }
    return Some(out);
  }

  /** `upload_file`: a GET, or a file that is not `.json`, gets the form; a
      POST without a file part or with an empty name gets the matching
      message; more than `N_RECORDS` entries are refused before any is
      touched; otherwise every entry is prepared. */
  method UploadFile(verb: Verb, files: map<string, FilePart>, ids: seq<string>,
                    hashes: seq<Value -> string>, locals: seq<int>) returns (r: UploadReply)
    requires "file" in files ==>
      var n := |files["file"].users|; |ids| == n && |hashes| == n && |locals| == n
    ensures verb == Get ==> r == UploadForm
    ensures verb == Post && "file" !in files ==> r == NoFilePart
    ensures verb == Post && "file" in files ==>
      var part := files["file"];
      && (part.filename == "" ==> r == NoSelectedFile)
      && (part.filename != "" && !AllowedFile(part.filename) ==> r == UploadForm)
      && (part.filename != "" && AllowedFile(part.filename) ==>
            && (|part.users| > MaxRecords ==> r == TooManyRecords)
            && (|part.users| <= MaxRecords ==>
                  && (r == MissingPassword <==> exists i :: 0 <= i < |part.users| && PasswordKey !in part.users[i])
                  && (r.Uploaded? <==> forall i :: 0 <= i < |part.users| ==> PasswordKey in part.users[i])))
    ensures r.Uploaded? ==>
      && verb == Post && "file" in files
      && AllowedFile(files["file"].filename)
      && |r.rows| == |files["file"].users| <= MaxRecords
      && forall i :: 0 <= i < |r.rows| ==>
           PreparedFrom(files["file"].users[i], ids[i], hashes[i], locals[i], r.rows[i])
  {
    if verb == Get {
      return UploadForm;
    }
    if "file" !in files {
      return NoFilePart;
    }
    var part := files["file"];
    if part.filename == "" {
      return NoSelectedFile;
    }
    if !AllowedFile(part.filename) {
      return UploadForm;
    }
    if |part.users| > MaxRecords {
      return TooManyRecords;
    }
    var rows := PrepareRows(part.users, ids, hashes, locals);
    match rows
    case None => return MissingPassword;
    case Some(prepared) => return Uploaded(prepared);
  }

  /** Distinct generated ids give the prepared rows distinct `public_id`s;
      ids not in use by the table stay unused by its rows. */
  lemma PreparedIdsDistinctAndFresh(entries: seq<Body>, ids: seq<string>, hashes: seq<Value -> string>,
                                    locals: seq<int>, rows: seq<Row>, store: Store)
    requires |ids| == |entries| == |rows| == |hashes| == |locals|
    requires Distinct(ids)
    requires forall i :: 0 <= i < |ids| ==> ids[i] !in store
    requires forall i :: 0 <= i < |entries| ==> PasswordKey in entries[i]
    requires forall i :: 0 <= i < |entries| ==> PreparedFrom(entries[i], ids[i], hashes[i], locals[i], rows[i])
    ensures forall i :: 0 <= i < |rows| ==>
      && PublicIdKey in rows[i].fields
      && rows[i].fields[PublicIdKey].Str?
      && rows[i].fields[PublicIdKey].s !in store
    ensures forall i, j :: 0 <= i < j < |rows| ==>
      && PublicIdKey in rows[i].fields && PublicIdKey in rows[j].fields
      && rows[i].fields[PublicIdKey] != rows[j].fields[PublicIdKey]
  {
  }
}
