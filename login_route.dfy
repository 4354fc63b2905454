/**
 * `POST` of src/app/api/staff/login/route.js: a staff member clocks in. The route checks the
 * staff id and the member, applies the member's network allow-list to the client address,
 * closes the member's open session (if one is found) with a system logout, and stores a new
 * open session. `LoginOutcome` states the response and the collection afterwards; `Login`
 * performs the same steps on the store and is proved to agree with it.
 */
module LoginRoute {
  import opened Wrappers
  import opened JsRuntime
  import opened CivilDate
  import opened IpUtils
  import opened AttendanceRecord
  import opened AttendanceStore
  import opened StaffModel

  /** The JSON body's `staffId` (absent or falsy as `None`), the request headers and the
      `user-agent` header. */
  datatype LoginRequest = LoginRequest(staffId: Option<nat>, headers: Request, userAgent: Option<string>)

  /** 400, 404, 403 (with the address that was refused), 201, and 500 for a save that throws. */
  datatype LoginResponse =
    | LoginStaffIdRequired
    | LoginStaffNotFound
    | LoginNotAllowed(clientIp: string)
    | LoginRecorded(attendanceId: nat, loginTime: Instant, staff: StaffSummary, ipAddress: string)
    | LoginFailed

  const UNKNOWN_AGENT := "Unknown"

  /** `req.headers.get('user-agent') || 'Unknown'`. */
  function UserAgentOf(header: Option<string>): string {
    if Truthy(header) then header.value else UNKNOWN_AGENT
  }

  /** `new StaffAttendance({...})` as the route fills it in; the `trim` setters of `ipAddress`
      and `userAgent` apply. */
  function NewSession(id: nat, staff: nat, ip: string, userAgent: string, now: Instant): Session {
    Session(id, staff, now, None, Trim(ip), Some(Trim(userAgent)), None, Active,
      Some(AutoDeleteDate(now)), Some(MonthYear(now)), Retained, NO_DEVICE_INFO, None)
  }

  /** The record stored for it: the pre-save hook adds the device information. */
  function Opened(id: nat, staff: nat, ip: string, userAgent: string, now: Instant): Session {
    NewSession(id, staff, ip, userAgent, now).(deviceInfo := ExtractedDeviceInfo(Some(Trim(userAgent)), NO_DEVICE_INFO))
  }

  /** The records after the first open session of `staff` is closed by
      `logLogout(now, 'system-logout')` and saved; `None` when that save fails validation. */
  function Superseded(rs: seq<Session>, staff: nat, now: Instant): Option<seq<Session>> {
    match FindFirst(rs, ActiveOf(staff))
    case None => Some(rs)
    case Some(k) =>
      var closed := LoggedOut(rs[k], now, SystemLogout, "");
      if SessionValid(closed) then Some(rs[k := closed]) else None
  }

  /** The response and the stored records after a login request at `now`, when the store
      hands out `id` as the next object id. */
  function LoginOutcome(rs: seq<Session>, members: seq<StaffMember>, req: LoginRequest, now: Instant, id: nat)
    : (LoginResponse, seq<Session>)
  {
    if req.staffId.None? then (LoginStaffIdRequired, rs)
    else
      var staff := req.staffId.value;
      match FindById(members, staff)
      case None => (LoginStaffNotFound, rs)
      case Some(m) =>
        var ip := GetClientIp(req.headers);
        if |m.allowedIps| > 0 && !ValidateIp(ip, Some(m.allowedIps)) then (LoginNotAllowed(ip), rs)
        else match Superseded(rs, staff, now)
          case None => (LoginFailed, rs)
          case Some(rs1) =>
            var ua := UserAgentOf(req.userAgent);
            if !SessionValid(NewSession(id, staff, ip, ua, now)) then (LoginFailed, rs1)
            else (LoginRecorded(id, now, StaffSummary(m.id, m.name, m.email), ip), rs1 + [Opened(id, staff, ip, ua, now)])
  }

  // ---------------------------------------------------------------------------------------
  // The route
  // ---------------------------------------------------------------------------------------

  method Login(store: Attendance, dir: StaffDirectory, req: LoginRequest, now: Instant) returns (resp: LoginResponse)
    requires store.Valid()
    modifies store
    ensures store.Valid()
    ensures (resp, store.records) == LoginOutcome(old(store.records), dir.members, req, now, old(store.nextId))
  {
    if req.staffId.None? {
      return LoginStaffIdRequired;
    }
    var staffId := req.staffId.value;
    var staff := FindById(dir.members, staffId);
    if staff.None? {
      return LoginStaffNotFound;
    }
    var clientIp := GetClientIp(req.headers);
    var userAgent := UserAgentOf(req.userAgent);
    if |staff.value.allowedIps| > 0 {
      var isAllowed := ValidateIp(clientIp, Some(staff.value.allowedIps));
      if !isAllowed {
        return LoginNotAllowed(clientIp);
      }
    }
    var superseded := SupersedeActive(store, staffId, now);
    if !superseded {
      return LoginFailed;
    }
    var created := OpenSession(store, staffId, clientIp, userAgent, now);
    if created.None? {
      return LoginFailed;
    }
    resp := LoginRecorded(created.value, now, StaffSummary(staff.value.id, staff.value.name, staff.value.email), clientIp);
  }

  /** Find the open session of `staff`, close it with a system logout at `now`, and save it. */
  method SupersedeActive(store: Attendance, staff: nat, now: Instant) returns (ok: bool)
    requires store.Valid()
    modifies store
    ensures store.Valid() && store.nextId == old(store.nextId)
    ensures var out := Superseded(old(store.records), staff, now);
      ok == out.Some? && store.records == if ok then out.value else old(store.records)
  {
    ghost var k := FindFirst(store.records, ActiveOf(staff));
    var activeSession := store.FindOne(ActiveOf(staff));
    if activeSession == null {
      return true;
    }
    var how := LogLogoutAt(now, SystemLogout, "");
    activeSession.LogLogout(now, SystemLogout, "");
    assert activeSession.data == Close(store.records[k.value], how);
    PreSaveAfterClosing(store.records[k.value], how, activeSession.modified);
    SaveReplaces(store.records, k.value, activeSession.data, activeSession.modified);
    var r := store.Save(activeSession);
    ok := r.Ok?;
  }

  /** Construct the new record under a fresh id and save it; the id when the save succeeds. */
  method OpenSession(store: Attendance, staff: nat, ip: string, userAgent: string, now: Instant)
    returns (id: Option<nat>)
    requires store.Valid()
    modifies store
    ensures store.Valid()
    ensures var s := NewSession(old(store.nextId), staff, ip, userAgent, now);
      (id.Some? <==> SessionValid(s))
      && store.records == (if id.Some? then old(store.records) + [Opened(id.value, staff, ip, userAgent, now)]
                           else old(store.records))
      && (id.Some? ==> id.value == old(store.nextId))
  {
    var newId := store.NewId();
    var attendanceRecord := new SessionDoc(NewSession(newId, staff, ip, userAgent, now));
    SaveAppends(store.records, attendanceRecord.data, attendanceRecord.modified);
    OpenedByHook(newId, staff, ip, userAgent, now, attendanceRecord.modified);
    var r := store.Save(attendanceRecord);
    if r.Err? {
      return None;
    }
    id := Some(newId);
  }

  // ---------------------------------------------------------------------------------------
  // Lemmas
  // ---------------------------------------------------------------------------------------

  /** The values the route writes into `autoDeleteDate` and `monthYear` are the ones the
      hook computes from the login time, so the hook changes nothing but the device
      information, whatever paths are marked. */
  lemma OpenedByHook(id: nat, staff: nat, ip: string, userAgent: string, now: Instant, modified: set<Path>)
    ensures PreSave(NewSession(id, staff, ip, userAgent, now), true, modified) == Opened(id, staff, ip, userAgent, now)
  {
  }

  /** The new record passes validation exactly when the trimmed client address is not empty. */
  lemma NewSessionValid(id: nat, staff: nat, ip: string, userAgent: string, now: Instant)
    ensures SessionValid(NewSession(id, staff, ip, userAgent, now)) <==> Trim(ip) != ""
  {
  }

  /** The three refusals, each with its exact condition, and none of them touches the store.
      The `length > 0` guard adds nothing: an empty allow-list admits every address. */
  lemma LoginRefusals(rs: seq<Session>, members: seq<StaffMember>, req: LoginRequest, now: Instant, id: nat)
    ensures var out := LoginOutcome(rs, members, req, now, id);
      var found := if req.staffId.Some? then FindById(members, req.staffId.value) else None;
      (out.0 == LoginStaffIdRequired <==> req.staffId.None?)
      && (out.0 == LoginStaffNotFound <==> req.staffId.Some? && found.None?)
      && (out.0.LoginNotAllowed? <==>
            found.Some? && !ValidateIp(GetClientIp(req.headers), Some(found.value.allowedIps)))
      && (out.0.LoginNotAllowed? ==> out.0.clientIp == GetClientIp(req.headers))
      && (out.0.LoginStaffIdRequired? || out.0.LoginStaffNotFound? || out.0.LoginNotAllowed? ==> out.1 == rs)
  {
  }

  /** A member without an allow-list is never refused, whatever address the request comes
      from. */
  lemma NoAllowListNoCheck(rs: seq<Session>, members: seq<StaffMember>, req: LoginRequest, now: Instant, id: nat)
    requires req.staffId.Some? && FindById(members, req.staffId.value).Some?
    requires FindById(members, req.staffId.value).value.allowedIps == []
    ensures var out := LoginOutcome(rs, members, req, now, id);
      out.0.LoginRecorded? || out.0 == LoginFailed
  {
  }

  /** Superseding closes exactly the first open session of the member and keeps the rest. */
  lemma SupersededShape(rs: seq<Session>, staff: nat, now: Instant)
    requires Superseded(rs, staff, now).Some?
    ensures var rs1 := Superseded(rs, staff, now).value;
      var k := FindFirst(rs, ActiveOf(staff));
      |rs1| == |rs|
      && (forall j :: 0 <= j < |rs| && Some(j) != k ==> rs1[j] == rs[j])
      && (k.Some? ==> rs1[k.value] == LoggedOut(rs[k.value], now, SystemLogout, ""))
  {
  }

  /** The records of a successful login: the superseded records, then the new one. */
  lemma LoginAppends(rs: seq<Session>, members: seq<StaffMember>, req: LoginRequest, now: Instant, id: nat)
    requires LoginOutcome(rs, members, req, now, id).0.LoginRecorded?
    ensures req.staffId.Some? && Superseded(rs, req.staffId.value, now).Some?
    ensures LoginOutcome(rs, members, req, now, id).1 ==
      Superseded(rs, req.staffId.value, now).value
      + [Opened(id, req.staffId.value, GetClientIp(req.headers), UserAgentOf(req.userAgent), now)]
  {
  }

  /** A successful login: the member's first open session, if any, is closed with a system
      logout at the login time, notes kept; every other earlier record is unchanged and the
      new record is appended. */
  lemma LoginSupersedes(rs: seq<Session>, members: seq<StaffMember>, req: LoginRequest, now: Instant, id: nat)
    requires LoginOutcome(rs, members, req, now, id).0.LoginRecorded?
    ensures var after := LoginOutcome(rs, members, req, now, id).1;
      var k := FindFirst(rs, ActiveOf(req.staffId.value));
      |after| == |rs| + 1
      && (forall j :: 0 <= j < |rs| && Some(j) != k ==> after[j] == rs[j])
      && (k.Some? ==> after[k.value] == LoggedOut(rs[k.value], now, SystemLogout, "")
                      && after[k.value].status == SystemLogout && after[k.value].logoutTime == Some(now)
                      && after[k.value].notes == rs[k.value].notes)
  {
    LoginAppends(rs, members, req, now, id);
    var staff := req.staffId.value;
    var rs1 := Superseded(rs, staff, now).value;
    SupersededShape(rs, staff, now);
    var after := LoginOutcome(rs, members, req, now, id).1;
    assert forall j :: 0 <= j < |rs| ==> after[j] == rs1[j];
  }

  /** The record a successful login appends: the fresh id, the member, the login time, open,
      its address as sent, its deletion date and month key derived from the login time. */
  lemma LoginOpens(rs: seq<Session>, members: seq<StaffMember>, req: LoginRequest, now: Instant, id: nat)
    requires LoginOutcome(rs, members, req, now, id).0.LoginRecorded?
    ensures var (resp, after) := LoginOutcome(rs, members, req, now, id);
      var s := after[|after| - 1];
      resp.attendanceId == id && resp.loginTime == now && resp.staff.id == req.staffId.value
      && resp.ipAddress == GetClientIp(req.headers)
      && s.id == id && s.staff == req.staffId.value && s.loginTime == now
      && s.status == Active && s.logoutTime.None? && s.sessionDuration.None?
      && s.ipAddress == Trim(GetClientIp(req.headers)) && s.ipAddress != ""
      && s.autoDeleteDate == Some(AutoDeleteDate(now)) && s.monthYear == Some(MonthYear(now))
      && s.userAgent == Some(Trim(UserAgentOf(req.userAgent)))
  {
  }

  /** A failed save (500): either the supersede failed validation and nothing changed, or the
      new record had an empty address and only the supersede was stored. */
  lemma LoginFailures(rs: seq<Session>, members: seq<StaffMember>, req: LoginRequest, now: Instant, id: nat)
    requires LoginOutcome(rs, members, req, now, id).0 == LoginFailed
    ensures var after := LoginOutcome(rs, members, req, now, id).1;
      var sup := Superseded(rs, req.staffId.value, now);
      (sup.None? && after == rs) || (sup.Some? && after == sup.value && Trim(GetClientIp(req.headers)) == "")
  {
  }

  /** With at most one open session before a successful login, the new record is the only
      open session of the member afterwards. */
  lemma LoginLeavesOneActive(rs: seq<Session>, members: seq<StaffMember>, req: LoginRequest, now: Instant, id: nat)
    requires req.staffId.Some?
    requires AtMostOneOpen(rs, req.staffId.value)
    requires LoginOutcome(rs, members, req, now, id).0.LoginRecorded?
    ensures var after := LoginOutcome(rs, members, req, now, id).1;
      forall j :: 0 <= j < |after| ==> (Matches(after[j], ActiveOf(req.staffId.value)) <==> j == |rs|)
  {
    LoginSupersedes(rs, members, req, now, id);
    LoginOpens(rs, members, req, now, id);
    OneOpenAfter(rs, LoginOutcome(rs, members, req, now, id).1, req.staffId.value);
  }

  /** Closing the first open session and appending an open one leaves the appended one as the
      only open session, when there was at most one before. */
  lemma OneOpenAfter(rs: seq<Session>, after: seq<Session>, staff: nat)
    requires AtMostOneOpen(rs, staff) && |after| == |rs| + 1
    requires var k := FindFirst(rs, ActiveOf(staff));
      (forall j :: 0 <= j < |rs| && Some(j) != k ==> after[j] == rs[j])
      && (k.Some? ==> after[k.value].status == SystemLogout)
    requires Matches(after[|rs|], ActiveOf(staff))
    ensures forall j :: 0 <= j < |after| ==> (Matches(after[j], ActiveOf(staff)) <==> j == |rs|)
  {
    var k := FindFirst(rs, ActiveOf(staff));
    forall j | 0 <= j < |after|
      ensures Matches(after[j], ActiveOf(staff)) <==> j == |rs|
    {
      if j < |rs| && Some(j) != k {
        assert after[j] == rs[j];
      }
    }
  }
}
