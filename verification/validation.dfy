/**
 The two pure validators of the service: the required-field presence check
 used by every handler that reads a body (`complete_data`) and the upload
 filename check used by the bulk import (`allowed_file`).
 */
module Validation {

  import opened Wrappers
  import opened Json

  /** `in_data.get(field)` is truthy: the key is there and its value is not
      `None`, `False`, zero or empty. A missing key reads as `None`. */
  predicate Present(body: Body, field: string)
  {
    field in body && Truthy(body[field])
  }

  /** `complete_data`: walks the field list and answers false at the first
      field that is missing or falsy, true when none is. */
  function CompleteData(body: Body, fields: seq<string>): (r: bool)
    ensures r <==> forall i :: 0 <= i < |fields| ==> Present(body, fields[i])
    ensures r <==> forall f :: f in fields ==> f in body && Truthy(body[f])
    ensures !r ==> exists i :: 0 <= i < |fields| && (fields[i] !in body || !Truthy(body[fields[i]]))
    ensures |fields| == 0 ==> r
  {
    if |fields| == 0 then true
    else if !Present(body, fields[0]) then false
    else CompleteData(body, fields[1..])
  }

  /** A key absent from the body and a key holding the empty string are
      rejected alike, for every position in the field list. */
  lemma {:induction false} MissingAndEmptyRejected(body: Body, fields: seq<string>, i: nat)
    requires i < |fields|
    ensures fields[i] !in body ==> !CompleteData(body, fields)
    ensures fields[i] in body && body[fields[i]] == Str("") ==> !CompleteData(body, fields)
  {
    assert !Present(body, fields[i]) ==> !CompleteData(body, fields);
  }

  /** Only which fields are asked for matters, not their order or repetition. */
  lemma CompleteDataSameFields(body: Body, fields: seq<string>, other: seq<string>)
    requires forall f :: f in fields <==> f in other
    ensures CompleteData(body, fields) == CompleteData(body, other)
  {
    if CompleteData(body, fields) {
      forall j | 0 <= j < |other| ensures Present(body, other[j]) {
        assert other[j] in fields;
        var i :| 0 <= i < |fields| && fields[i] == other[j];
      }
    } else {
      var i :| 0 <= i < |fields| && !Present(body, fields[i]);
      assert fields[i] in other;
      var j :| 0 <= j < |other| && other[j] == fields[i];
    }
  }

  /** `ALLOWED_EXTENSIONS`. */
  const AllowedExtensions: seq<string> := ["json"]

  /** `str.lower` on one character. Only ASCII letters are mapped: no other
      character lower-cases to one of the letters of an allowed extension,
      so the comparison below is unaffected. */
  function LowerChar(c: char): char
  {
    if 'A' <= c <= 'Z' then (c as int - 'A' as int + 'a' as int) as char else c
  }

  function Lower(s: string): string
  {
    seq(|s|, i requires 0 <= i < |s| => LowerChar(s[i]))
  }

  /** `s.rsplit('.', 1)[1]`: the text after the last `.`, or None when the
      string holds no `.` (then `rsplit` yields a single piece). */
  function AfterLastDot(s: string): (r: Option<string>)
    ensures r.None? <==> '.' !in s
    ensures r.Some? ==>
      && |r.value| < |s|
      && s[|s| - |r.value| - 1] == '.'
      && r.value == s[|s| - |r.value|..]
      && '.' !in r.value
  {
    if |s| == 0 then None
    else if s[|s| - 1] == '.' then Some([])
    else
      match AfterLastDot(s[..|s| - 1])
      case None => None
      case Some(t) => Some(t + [s[|s| - 1]])
  }

  /** Position `i` holds the last `.` of `s`. */
  predicate LastDotAt(s: string, i: int)
  {
    0 <= i < |s| && s[i] == '.' && '.' !in s[i + 1..]
  }

  /** A `.` at position `j` means no earlier position holds the last one. */
  lemma DotLaterNotLast(s: string, i: int, j: int)
    requires 0 <= i < j < |s| && s[j] == '.'
    ensures !LastDotAt(s, i)
  {
    assert s[i + 1..][j - i - 1] == '.';
  }

  /** `AfterLastDot` finds exactly the suffix after the unique last `.`. */
  lemma AfterLastDotIsLastDot(s: string)
    ensures AfterLastDot(s).Some? <==> exists i :: LastDotAt(s, i)
    ensures forall i :: LastDotAt(s, i) ==> AfterLastDot(s) == Some(s[i + 1..])
  {
    match AfterLastDot(s)
    case None =>
    case Some(ext) =>
      var i := |s| - |ext| - 1;
      assert s[i + 1..] == ext;
      assert LastDotAt(s, i);
      forall j | 0 <= j < i ensures !LastDotAt(s, j) {
        DotLaterNotLast(s, j, i);
      }
      forall j | i < j < |s| ensures !LastDotAt(s, j) {
        assert s[j] == ext[j - i - 1];
      }
  }

  /** `allowed_file`: the name holds a `.` and the lower-cased text after the
      last one is an allowed extension. */
  function AllowedFile(filename: string): (r: bool)
    ensures r <==> exists i :: LastDotAt(filename, i) && Lower(filename[i + 1..]) in AllowedExtensions
  {
    AfterLastDotIsLastDot(filename);
    match AfterLastDot(filename)
    case None => false
    case Some(ext) => Lower(ext) in AllowedExtensions
  }

  /** The extension is compared case-insensitively. */
  lemma UpperCaseExtensionAllowed()
    ensures AllowedFile("a.JSON")
    ensures AllowedFile(".json")
  {
    assert AfterLastDot("a.JSON") == Some("JSON");
    assert Lower("JSON") == "json";
    assert AfterLastDot(".json") == Some("json");
    assert Lower("json") == "json";
  }

  /** No dot, or a different last suffix, is refused. */
  lemma OtherNamesRefused()
    ensures !AllowedFile("json")
    ensures !AllowedFile("a.json.txt")
    ensures !AllowedFile("a.json.")
  {
    assert AfterLastDot("json") == None;
    assert AfterLastDot("a.json.txt") == Some("txt");
    assert Lower("txt") == "txt";
    assert AfterLastDot("a.json.") == Some("");
  }
}
