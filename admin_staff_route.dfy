/**
 * `POST` of src/app/api/admin/staff/route.js: an administrator creates a staff member. The
 * three required fields are checked first, then the e-mail address must be free; the
 * allow-list arrives as one comma-separated string and is split, trimmed and cleared of empty
 * entries. The member is returned without the password.
 */
module AdminStaffRoute {
  import opened Wrappers
  import opened JsRuntime
  import opened StaffModel

  datatype CreateStaffRequest = CreateStaffRequest(
    name: Option<string>,
    email: Option<string>,
    password: Option<string>,
    allowedIps: Option<string>)

  datatype CreateStaffResponse =
    | FieldsRequired           // 400 'Name, email, and password are required'
    | EmailExists              // 400 'Staff member with this email already exists'
    | StaffCreated(data: StaffView)  // 201

  /** `name && email && password`. */
  predicate HasRequired(req: CreateStaffRequest) {
    Truthy(req.name) && Truthy(req.email) && Truthy(req.password)
  }

  /** `parts.map(ip => ip.trim())`. */
  function TrimEach(parts: seq<string>): (r: seq<string>)
    ensures |r| == |parts|
  {
    if parts == [] then [] else [Trim(parts[0])] + TrimEach(parts[1..])
  }

  /** `parts.filter(ip => ip !== '')`. */
  function DropEmpty(parts: seq<string>): (r: seq<string>)
    ensures |r| <= |parts|
  {
    if parts == [] then []
    else if parts[0] == "" then DropEmpty(parts[1..])
    else [parts[0]] + DropEmpty(parts[1..])
  }

  /** The allow-list the route stores: empty for an absent or blank string, otherwise the
      comma-separated entries, trimmed, without the empty ones. */
  function ParseAllowedIps(allowedIps: Option<string>): seq<string> {
    if Truthy(allowedIps) && Trim(allowedIps.value) != "" then
      DropEmpty(TrimEach(Split(allowedIps.value, ',')))
    else []
  }

  /** `POST`: validation, the e-mail lookup, then the creation. */
  method Post(dir: StaffDirectory, req: CreateStaffRequest) returns (resp: CreateStaffResponse)
    requires dir.Valid()
    modifies dir
    ensures dir.Valid()
    ensures !HasRequired(req) ==> resp == FieldsRequired && dir.members == old(dir.members)
    ensures HasRequired(req) && IndexOfEmail(old(dir.members), req.email.value).Some? ==>
      resp == EmailExists && dir.members == old(dir.members)
    ensures HasRequired(req) && IndexOfEmail(old(dir.members), req.email.value).None? ==>
      var m := StaffMember(old(dir.nextId), req.name.value, req.email.value, req.password.value,
        DEFAULT_ROLE, ParseAllowedIps(req.allowedIps));
      dir.members == old(dir.members) + [m] && resp == StaffCreated(WithoutPassword(m))
  {
    if !HasRequired(req) {
      return FieldsRequired;
    }
    if IndexOfEmail(dir.members, req.email.value).Some? {
      return EmailExists;
    }
    var ips := ParseAllowedIps(req.allowedIps);
    var r := dir.Create(req.name.value, req.email.value, req.password.value, ips);
    resp := StaffCreated(WithoutPassword(r.value));
  }

  // ---------------------------------------------------------------------------------------
  // Lemmas
  // ---------------------------------------------------------------------------------------

  lemma {:induction false} TrimEachAt(parts: seq<string>)
    ensures forall i :: 0 <= i < |parts| ==> TrimEach(parts)[i] == Trim(parts[i])
  {
    if parts != [] {
      TrimEachAt(parts[1..]);
    }
  }

  lemma {:induction false} DropEmptyMembers(parts: seq<string>)
    ensures forall e :: e in DropEmpty(parts) <==> e in parts && e != ""
  {
    if parts != [] {
      DropEmptyMembers(parts[1..]);
      assert parts == [parts[0]] + parts[1..];
    }
  }

  /** No stored entry is empty or has whitespace around it. */
  lemma ParsedEntriesClean(allowedIps: Option<string>)
    ensures forall e :: e in ParseAllowedIps(allowedIps) ==> e != "" && Trim(e) == e
  {
    if Truthy(allowedIps) && Trim(allowedIps.value) != "" {
      var parts := Split(allowedIps.value, ',');
      TrimEachAt(parts);
      DropEmptyMembers(TrimEach(parts));
      forall e | e in ParseAllowedIps(allowedIps)
        ensures e != "" && Trim(e) == e
      {
        var i :| 0 <= i < |parts| && TrimEach(parts)[i] == e;
        TrimIdempotent(parts[i]);
      }
    }
  }

  /** An absent or all-whitespace allow-list stores no entry. */
  lemma ParseBlank(allowedIps: Option<string>)
    requires allowedIps.None? || AllSpace(allowedIps.value)
    ensures ParseAllowedIps(allowedIps) == []
  {
    if allowedIps.Some? {
      TrimEmptyIffAllSpace(allowedIps.value);
    }
  }

  /** The stored entries are exactly the non-empty trimmed pieces between the commas. */
  lemma ParseMembers(s: string, e: string)
    requires !AllSpace(s)
    ensures e in ParseAllowedIps(Some(s)) <==>
      e != "" && exists p :: p in Split(s, ',') && Trim(p) == e
  {
    TrimEmptyIffAllSpace(s);
    assert ParseAllowedIps(Some(s)) == DropEmpty(TrimEach(Split(s, ',')));
    TrimmedPieces(Split(s, ','), e);
  }

  lemma TrimmedPieces(parts: seq<string>, e: string)
    ensures e in DropEmpty(TrimEach(parts)) <==> e != "" && exists p :: p in parts && Trim(p) == e
  {
    TrimEachAt(parts);
    DropEmptyMembers(TrimEach(parts));
    if e in DropEmpty(TrimEach(parts)) {
      var i :| 0 <= i < |parts| && TrimEach(parts)[i] == e;
      assert parts[i] in parts;
    }
    if e != "" && exists p :: p in parts && Trim(p) == e {
      var p :| p in parts && Trim(p) == e;
      var i :| 0 <= i < |parts| && parts[i] == p;
      assert TrimEach(parts)[i] == e;
    }
  }

  /** A non-empty entry with no whitespace at either end. */
  predicate CleanEntry(e: string) {
    e != "" && !IsSpace(e[0]) && !IsSpace(e[|e| - 1])
  }

  /** A list of clean, comma-free entries written out with commas is read back as it was:
      parsing keeps the order and the duplicates. */
  lemma ParseRoundTrip(entries: seq<string>)
    requires |entries| >= 1
    requires forall i :: 0 <= i < |entries| ==> ',' !in entries[i] && CleanEntry(entries[i])
    ensures ParseAllowedIps(Some(Join(entries, ','))) == entries
  {
    var s := Join(entries, ',');
    JoinSplit(entries, ',');
    JoinStarts(entries, ',');
    assert CleanEntry(entries[0]);
    assert !AllSpace(s) by {
      assert s[0] == entries[0][0];
    }
    TrimEmptyIffAllSpace(s);
    CleanEntriesKept(entries);
  }

  lemma {:induction false} JoinStarts(parts: seq<string>, sep: char)
    requires |parts| >= 1 && parts[0] != ""
    ensures |Join(parts, sep)| >= 1 && Join(parts, sep)[0] == parts[0][0]
  {
  }

  lemma {:induction false} CleanEntriesKept(entries: seq<string>)
    requires forall i :: 0 <= i < |entries| ==> CleanEntry(entries[i])
    ensures DropEmpty(TrimEach(entries)) == entries
  {
    if entries != [] {
      assert CleanEntry(entries[0]);
      TrimNoSpace(entries[0]);
      CleanEntriesKept(entries[1..]);
      assert entries == [entries[0]] + entries[1..];
    }
  }
}
