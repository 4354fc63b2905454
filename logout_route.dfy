/**
 * `POST` of src/app/api/staff/logout/route.js: a staff member clocks out. The route checks
 * the staff id and the member, selects one record (by id and staff when an attendance id is
 * given, otherwise the member's first open session), closes it with
 * `logLogout(now, 'completed')` and saves it. `LogoutOutcome` states the response and the
 * collection afterwards; `Logout` performs the same steps on the store.
 */
module LogoutRoute {
  import opened Wrappers
  import opened CivilDate
  import opened AttendanceRecord
  import opened AttendanceStore
  import opened StaffModel

  /** The JSON body's `staffId` and `attendanceId`; an absent or falsy one is `None`. */
  datatype LogoutRequest = LogoutRequest(staffId: Option<nat>, attendanceId: Option<nat>)

  /** 400, 404 for the member, 404 for the record, 200 with the closed record, and 500 for a
      save that throws. */
  datatype LogoutResponse =
    | LogoutStaffIdRequired
    | LogoutStaffNotFound
    | NoSessionFound
    | LogoutRecorded(attendanceId: nat, loginTime: Instant, logoutTime: Option<Instant>,
                     sessionDuration: Option<int>, formattedDuration: Option<string>, staff: StaffSummary)
    | LogoutFailed

  /** The filter the route passes to `findOne`. */
  function Selection(staff: nat, attendanceId: Option<nat>): Query {
    if attendanceId.Some? then ByIdAndStaff(attendanceId.value, staff) else ActiveOf(staff)
  }

  /** The record `logLogout(now, 'completed')` leaves. */
  function Completing(s: Session, now: Instant): Session {
    LoggedOut(s, now, Completed, "")
  }

  /** The response and the stored records after a logout request at `now`. */
  function LogoutOutcome(rs: seq<Session>, members: seq<StaffMember>, req: LogoutRequest, now: Instant)
    : (LogoutResponse, seq<Session>)
  {
    if req.staffId.None? then (LogoutStaffIdRequired, rs)
    else
      var staff := req.staffId.value;
      match FindById(members, staff)
      case None => (LogoutStaffNotFound, rs)
      case Some(m) =>
        match FindFirst(rs, Selection(staff, req.attendanceId))
        case None => (NoSessionFound, rs)
        case Some(k) =>
          var closed := Completing(rs[k], now);
          if !SessionValid(closed) then (LogoutFailed, rs)
          else
            (LogoutRecorded(closed.id, closed.loginTime, closed.logoutTime, closed.sessionDuration,
                            FormattedDuration(closed), StaffSummary(m.id, m.name, m.email)),
             rs[k := closed])
  }

  // ---------------------------------------------------------------------------------------
  // The route
  // ---------------------------------------------------------------------------------------

  method Logout(store: Attendance, dir: StaffDirectory, req: LogoutRequest, now: Instant) returns (resp: LogoutResponse)
    requires store.Valid()
    modifies store
    ensures store.Valid()
    ensures (resp, store.records) == LogoutOutcome(old(store.records), dir.members, req, now)
  {
    if req.staffId.None? {
      return LogoutStaffIdRequired;
    }
    var staffId := req.staffId.value;
    var staff := FindById(dir.members, staffId);
    if staff.None? {
      return LogoutStaffNotFound;
    }
    var q := Selection(staffId, req.attendanceId);
    ghost var k := FindFirst(store.records, q);
    var attendanceRecord := store.FindOne(q);
    if attendanceRecord == null {
      return NoSessionFound;
    }
    var how := LogLogoutAt(now, Completed, "");
    attendanceRecord.LogLogout(now, Completed, "");
    assert attendanceRecord.data == Close(store.records[k.value], how);
    PreSaveAfterClosing(store.records[k.value], how, attendanceRecord.modified);
    SaveReplaces(store.records, k.value, attendanceRecord.data, attendanceRecord.modified);
    var r := store.Save(attendanceRecord);
    if r.Err? {
      return LogoutFailed;
    }
    var s := attendanceRecord.data;
    resp := LogoutRecorded(s.id, s.loginTime, s.logoutTime, s.sessionDuration, FormattedDuration(s),
      StaffSummary(staff.value.id, staff.value.name, staff.value.email));
  }

  // ---------------------------------------------------------------------------------------
  // Lemmas
  // ---------------------------------------------------------------------------------------

  /** The three 404/400 answers, each with its exact condition, and none of them touches the
      store. */
  lemma LogoutRefusals(rs: seq<Session>, members: seq<StaffMember>, req: LogoutRequest, now: Instant)
    ensures var out := LogoutOutcome(rs, members, req, now);
      var found := if req.staffId.Some? then FindById(members, req.staffId.value) else None;
      (out.0 == LogoutStaffIdRequired <==> req.staffId.None?)
      && (out.0 == LogoutStaffNotFound <==> req.staffId.Some? && found.None?)
      && (out.0 == NoSessionFound <==>
            found.Some? && forall i :: 0 <= i < |rs| ==> !Matches(rs[i], Selection(req.staffId.value, req.attendanceId)))
      && (out.0.LogoutStaffIdRequired? || out.0.LogoutStaffNotFound? || out.0.NoSessionFound? ==> out.1 == rs)
  {
  }

  /** A successful logout closes exactly the selected record: status completed, logout time
      `now`, duration recomputed, notes kept; nothing else changes, and the response reports
      the closed record. */
  lemma LogoutCloses(rs: seq<Session>, members: seq<StaffMember>, req: LogoutRequest, now: Instant)
    requires LogoutOutcome(rs, members, req, now).0.LogoutRecorded?
    ensures var (resp, after) := LogoutOutcome(rs, members, req, now);
      var k := FindFirst(rs, Selection(req.staffId.value, req.attendanceId));
      k.Some? && after == rs[k.value := Completing(rs[k.value], now)]
      && after[k.value].status == Completed && after[k.value].logoutTime == Some(now)
      && after[k.value].sessionDuration == Some(DurationMinutes(rs[k.value].loginTime, now))
      && after[k.value].notes == rs[k.value].notes
      && resp.attendanceId == rs[k.value].id && resp.logoutTime == Some(now)
      && resp.formattedDuration == FormattedDuration(after[k.value])
  {
  }

  /** With an attendance id the record is found by id and staff whatever its status, so an
      already closed record is closed again. */
  lemma LogoutByIdAnyStatus(rs: seq<Session>, members: seq<StaffMember>, req: LogoutRequest, now: Instant, i: nat)
    requires req.staffId.Some? && FindById(members, req.staffId.value).Some? && req.attendanceId.Some?
    requires UniqueIds(rs) && i < |rs| && rs[i].id == req.attendanceId.value && rs[i].staff == req.staffId.value
    ensures var out := LogoutOutcome(rs, members, req, now);
      out.0 != NoSessionFound
      && (SessionValid(Completing(rs[i], now)) ==> out.0.LogoutRecorded? && out.1 == rs[i := Completing(rs[i], now)])
  {
    UniqueIndex(rs, i);
  }

  /** Without an attendance id only an open session is selected. */
  lemma LogoutWithoutIdSelectsOpen(rs: seq<Session>, members: seq<StaffMember>, req: LogoutRequest, now: Instant)
    requires LogoutOutcome(rs, members, req, now).0.LogoutRecorded? && req.attendanceId.None?
    ensures var k := FindFirst(rs, ActiveOf(req.staffId.value));
      k.Some? && rs[k.value].status == Active && rs[k.value].logoutTime.None?
      && rs[k.value].staff == req.staffId.value
  {
  }

  /** When the member had at most one open session, a second logout without an attendance id
      finds nothing. */
  lemma SecondLogoutWithoutId(rs: seq<Session>, members: seq<StaffMember>, req: LogoutRequest, now: Instant, later: Instant)
    requires req.attendanceId.None? && req.staffId.Some? && AtMostOneOpen(rs, req.staffId.value)
    requires LogoutOutcome(rs, members, req, now).0.LogoutRecorded?
    ensures LogoutOutcome(LogoutOutcome(rs, members, req, now).1, members, req, later).0 == NoSessionFound
  {
    var staff := req.staffId.value;
    var after := LogoutOutcome(rs, members, req, now).1;
    var k := FindFirst(rs, ActiveOf(staff)).value;
    assert after == rs[k := Completing(rs[k], now)];
    forall j | 0 <= j < |after|
      ensures !Matches(after[j], ActiveOf(staff))
    {
      if j != k {
        assert after[j] == rs[j];
      }
    }
  }

  /** A second logout by attendance id overwrites the first close: the records are as if only
      the second logout had happened. */
  lemma SecondLogoutById(rs: seq<Session>, members: seq<StaffMember>, req: LogoutRequest, now: Instant, later: Instant)
    requires req.attendanceId.Some?
    requires LogoutOutcome(rs, members, req, now).0.LogoutRecorded?
    requires LogoutOutcome(rs, members, req, later).0.LogoutRecorded?
    ensures var after := LogoutOutcome(rs, members, req, now).1;
      LogoutOutcome(after, members, req, later) == LogoutOutcome(rs, members, req, later)
  {
    var q := Selection(req.staffId.value, req.attendanceId);
    var after := LogoutOutcome(rs, members, req, now).1;
    var k := FindFirst(rs, q).value;
    assert after == rs[k := Completing(rs[k], now)];
    FirstMatchKept(rs, q, k, Completing(rs[k], now));
    LoggedOutOverwrites(rs[k], now, later, Completed, Completed);
    assert after[k := Completing(after[k], later)] == rs[k := Completing(rs[k], later)];
  }

  /** Replacing the first match by another record that matches keeps it the first match. */
  lemma FirstMatchKept(rs: seq<Session>, q: Query, k: nat, s: Session)
    requires FindFirst(rs, q) == Some(k) && Matches(s, q)
    ensures FindFirst(rs[k := s], q) == Some(k)
  {
    var rs' := rs[k := s];
    assert Matches(rs'[k], q);
    assert FindFirst(rs', q).Some?;
  }
}
