/**
 * `GET` of src/app/api/staff/attendance/status/route.js: whether a staff member is clocked
 * in, and a summary of the sessions they opened today, the total of their durations and
 * that total as "Hh Mm". The route only reads the collection.
 */
module StatusRoute {
  import opened Wrappers
  import opened JsRuntime
  import opened CivilDate
  import opened AttendanceRecord
  import opened AttendanceStore

  datatype ActiveView = ActiveView(id: nat, loginTime: Instant, ipAddress: string, duration: Option<string>)

  datatype SessionView = SessionView(id: nat, loginTime: Instant, logoutTime: Option<Instant>,
                                     duration: Option<string>, status: SessionStatus)

  datatype TodaySummary = TodaySummary(totalSessions: nat, totalDuration: int, formattedDuration: string,
                                       sessions: seq<SessionView>)

  /** 400 without a `staffId` query parameter, otherwise 200 with the report. */
  datatype StatusResponse =
    | StatusStaffIdRequired
    | StatusReport(isLoggedIn: bool, activeSession: Option<ActiveView>, today: TodaySummary)

  /** `session.sessionDuration || 0`. */
  function DurationOrZero(s: Session): int {
    if s.sessionDuration.Some? then s.sessionDuration.value else 0
  }

  /** `sessions.reduce((total, s) => total + (s.sessionDuration || 0), 0)`, folding from the
      left. */
  function TotalDuration(ss: seq<Session>): int {
    if ss == [] then 0 else TotalDuration(ss[..|ss| - 1]) + DurationOrZero(ss[|ss| - 1])
  }

  function ViewOf(s: Session): SessionView {
    SessionView(s.id, s.loginTime, s.logoutTime, FormattedDuration(s), s.status)
  }

  function Views(ss: seq<Session>): (r: seq<SessionView>)
    ensures |r| == |ss|
    ensures forall i :: 0 <= i < |ss| ==> r[i] == ViewOf(ss[i])
  {
    if ss == [] then [] else [ViewOf(ss[0])] + Views(ss[1..])
  }

  /** The sessions with a login time from 00:00:00.000 to 23:59:59.999 of `now`'s day. */
  function TodayQuery(staff: nat, now: Instant): Query {
    LoggedInBetween(staff, SetTimeOfDay(now, 0), SetTimeOfDay(now, END_OF_DAY_MS))
  }

  /** The response at time `now`. */
  function Status(rs: seq<Session>, staffId: Option<nat>, now: Instant): StatusResponse {
    if staffId.None? then StatusStaffIdRequired
    else
      var staff := staffId.value;
      var active := FindFirst(rs, ActiveOf(staff));
      var today := FindAll(rs, TodayQuery(staff, now));
      var total := TotalDuration(today);
      StatusReport(
        active.Some?,
        if active.Some? then
          var s := rs[active.value]; Some(ActiveView(s.id, s.loginTime, s.ipAddress, FormattedDuration(s)))
        else None,
        TodaySummary(|today|, total, FormatHm(total), Views(today)))
  }

  // ---------------------------------------------------------------------------------------
  // Lemmas
  // ---------------------------------------------------------------------------------------

  /** `isLoggedIn` holds exactly when the member has an open session, and then the active
      session shown is one of theirs. */
  lemma IsLoggedInIff(rs: seq<Session>, staff: nat, now: Instant)
    ensures var r := Status(rs, Some(staff), now);
      (r.isLoggedIn <==> exists i :: 0 <= i < |rs| && rs[i].staff == staff && IsActive(rs[i]))
      && (r.isLoggedIn <==> r.activeSession.Some?)
  {
    var k := FindFirst(rs, ActiveOf(staff));
    if exists i :: 0 <= i < |rs| && rs[i].staff == staff && IsActive(rs[i]) {
      var i :| 0 <= i < |rs| && rs[i].staff == staff && IsActive(rs[i]);
      assert Matches(rs[i], ActiveOf(staff));
    }
  }

  /** Today's sessions are exactly the member's sessions that began on the calendar day of
      `now`. */
  lemma TodayIsCalendarDay(s: Session, staff: nat, now: Instant)
    ensures Matches(s, TodayQuery(staff, now)) <==>
      s.staff == staff && s.loginTime.year == now.year && s.loginTime.month == now.month
      && s.loginTime.day == now.day
  {
  }

  /** The summary counts today's sessions and lists each of them. */
  lemma TodaySessionsCounted(rs: seq<Session>, staff: nat, now: Instant)
    ensures var r := Status(rs, Some(staff), now);
      r.today.totalSessions == |r.today.sessions|
      && forall v :: v in r.today.sessions <==>
        exists s :: s in rs && Matches(s, TodayQuery(staff, now)) && v == ViewOf(s)
  {
    var today := FindAll(rs, TodayQuery(staff, now));
    FindAllMembers(rs, TodayQuery(staff, now));
    var vs := Views(today);
    forall v | v in vs
      ensures exists s :: s in rs && Matches(s, TodayQuery(staff, now)) && v == ViewOf(s)
    {
      var i :| 0 <= i < |vs| && vs[i] == v;
      assert today[i] in today;
    }
    forall v | exists s :: s in rs && Matches(s, TodayQuery(staff, now)) && v == ViewOf(s)
      ensures v in vs
    {
      var s :| s in rs && Matches(s, TodayQuery(staff, now)) && v == ViewOf(s);
      var i :| 0 <= i < |today| && today[i] == s;
      assert vs[i] == v;
    }
  }

  /** The fold is a sum: it splits over concatenation, a session without a duration adds
      nothing, and non-negative durations give a non-negative total. */
  lemma {:induction false} TotalDurationAppend(a: seq<Session>, b: seq<Session>)
    ensures TotalDuration(a + b) == TotalDuration(a) + TotalDuration(b)
    decreases |b|
  {
    if b != [] {
      var b0 := b[..|b| - 1];
      assert (a + b)[..|a + b| - 1] == a + b0;
      assert (a + b)[|a + b| - 1] == b[|b| - 1];
      TotalDurationAppend(a, b0);
    } else {
      assert a + b == a;
    }
  }

  lemma TotalDurationSingle(s: Session)
    ensures TotalDuration([s]) == DurationOrZero(s)
    ensures s.sessionDuration.None? ==> TotalDuration([s]) == 0
  {
    assert [s][..0] == [];
  }

  lemma {:induction false} TotalDurationNonNegative(ss: seq<Session>)
    requires forall i :: 0 <= i < |ss| ==> ss[i].sessionDuration.None? || ss[i].sessionDuration.value >= 0
    ensures TotalDuration(ss) >= 0
  {
    if ss != [] {
      TotalDurationNonNegative(ss[..|ss| - 1]);
    }
  }

  /** The summary's formatted total: "0m" without sessions; otherwise, for a non-negative
      total, the whole hours (when there are any) lead the string and it reads back as the
      hours, or as the minutes when under an hour. */
  lemma TodayFormatted(rs: seq<Session>, staff: nat, now: Instant)
    ensures var r := Status(rs, Some(staff), now);
      var total := r.today.totalDuration;
      var f := r.today.formattedDuration;
      f == FormatHm(total)
      && (r.today.totalSessions == 0 ==> total == 0 && f == "0m")
      && (total >= 60 ==> ReadInt10(f) == Int(total / 60) && f[|f| - 1] == 'm')
      && (0 <= total < 60 ==> ReadInt10(f) == Int(total) && f[|f| - 1] == 'm')
  {
    var today := FindAll(rs, TodayQuery(staff, now));
    var total := TotalDuration(today);
    if |today| == 0 {
      assert FormatHm(0) == "0m";
    }
    if total >= 0 {
      FormatHmReadBack(total);
    }
  }
}
