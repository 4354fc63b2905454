/**
 * The Staff collection of src/models/staff.js, as far as the modelled routes use it: a staff
 * member's name, e-mail address, password, role and network allow-list. `findById` and
 * `findOne({ email })` look members up; saving a new member enforces the required fields and
 * the unique e-mail index.
 */
module StaffModel {
  import opened Wrappers

  datatype StaffMember = StaffMember(
    id: nat,
    name: string,
    email: string,
    password: string,
    role: string,
    allowedIps: seq<string>)

  /** A member as the routes return it: every field but the password. */
  datatype StaffView = StaffView(id: nat, name: string, email: string, role: string, allowedIps: seq<string>)

  /** The `{ id, name, email }` the attendance routes echo back. */
  datatype StaffSummary = StaffSummary(id: nat, name: string, email: string)

  const DEFAULT_ROLE := "staff"

  function WithoutPassword(m: StaffMember): (v: StaffView)
    ensures v.id == m.id && v.name == m.name && v.email == m.email && v.role == m.role
    ensures v.allowedIps == m.allowedIps
  {
    StaffView(m.id, m.name, m.email, m.role, m.allowedIps)
  }

  /** The `required` validators: a required string rejects the empty string. */
  predicate MemberValid(m: StaffMember) {
    m.name != "" && m.email != "" && m.password != ""
  }

  /** The position of the first member, in storage order, with the given id. */
  function IndexOfId(ms: seq<StaffMember>, id: nat): (r: Option<nat>)
    ensures r.Some? ==> r.value < |ms| && ms[r.value].id == id
    ensures r.None? <==> forall i :: 0 <= i < |ms| ==> ms[i].id != id
  {
    if ms == [] then None
    else if ms[0].id == id then Some(0)
    else match IndexOfId(ms[1..], id)
      case None => None
      case Some(i) => Some(i + 1)
  }

  /** The position of the first member, in storage order, with the given e-mail address. */
  function IndexOfEmail(ms: seq<StaffMember>, email: string): (r: Option<nat>)
    ensures r.Some? ==> r.value < |ms| && ms[r.value].email == email
    ensures r.None? <==> forall i :: 0 <= i < |ms| ==> ms[i].email != email
  {
    if ms == [] then None
    else if ms[0].email == email then Some(0)
    else match IndexOfEmail(ms[1..], email)
      case None => None
      case Some(i) => Some(i + 1)
  }

  /** `Staff.findById(id)`. */
  function FindById(ms: seq<StaffMember>, id: nat): (r: Option<StaffMember>)
    ensures r.Some? <==> exists i :: 0 <= i < |ms| && ms[i].id == id
    ensures r.Some? ==> r.value in ms && r.value.id == id
  {
    match IndexOfId(ms, id)
    case None => None
    case Some(i) => Some(ms[i])
  }

  datatype CreateError = MemberInvalid | DuplicateEmail

  class StaffDirectory {
    var members: seq<StaffMember>
    var nextId: nat

    ghost predicate Valid()
      reads this
    {
      (forall i :: 0 <= i < |members| ==> members[i].id < nextId && MemberValid(members[i]))
      && (forall i, j :: 0 <= i < j < |members| ==> members[i].id != members[j].id)
      && (forall i, j :: 0 <= i < j < |members| ==> members[i].email != members[j].email)
    }

    constructor ()
      ensures Valid() && members == []
    {
      members := [];
      nextId := 0;
    }

    /** `new Staff({ name, email, password, allowedIps }).save()`: the role takes its default;
        a missing required field fails validation and a taken e-mail address the unique index.
        The new member gets a fresh id and is appended. */
    method Create(name: string, email: string, password: string, allowedIps: seq<string>)
      returns (r: Result<StaffMember, CreateError>)
      requires Valid()
      modifies this
      ensures Valid()
      ensures name == "" || email == "" || password == "" ==>
        r == Err(MemberInvalid) && members == old(members)
      ensures name != "" && email != "" && password != "" && IndexOfEmail(old(members), email).Some? ==>
        r == Err(DuplicateEmail) && members == old(members)
      ensures name != "" && email != "" && password != "" && IndexOfEmail(old(members), email).None? ==>
        r.Ok? && members == old(members) + [r.value]
        && r.value == StaffMember(old(nextId), name, email, password, DEFAULT_ROLE, allowedIps)
    {
      if name == "" || email == "" || password == "" {
        return Err(MemberInvalid);
      }
      if IndexOfEmail(members, email).Some? {
        return Err(DuplicateEmail);
      }
      var m := StaffMember(nextId, name, email, password, DEFAULT_ROLE, allowedIps);
      members := members + [m];
      nextId := nextId + 1;
      return Ok(m);
    }
  }
}
