/**
 * The attendance helpers of src/app/utils/attendanceUtils.js: the sweep that closes sessions
 * left open for more than a day, and the first day of the window the attendance statistics
 * cover.
 */
module AttendanceUtils {
  import opened Wrappers
  import opened JsRuntime
  import opened CivilDate
  import opened AttendanceRecord
  import opened AttendanceStore
  import opened SeqFacts

  /** How the sweep closes a session: logged out at the cutoff itself, by the system, with
      the inactivity reason as its note. */
  function Inactive(now: Instant): Closing {
    LogLogoutAt(DayBefore(now), SystemLogout, INACTIVITY_REASON)
  }

  /** `autoLogoutInactiveSessions()` at time `now`: every active, never closed session that
      started before the cutoff `now - 24h` is closed by `logLogout(cutoff, 'system-logout',
      reason)` and saved, in storage order. Returns how many were selected. */
  method AutoLogoutInactiveSessions(store: Attendance, now: Instant) returns (count: nat)
    requires store.Valid()
    modifies store
    ensures store.Valid()
    ensures store.records == CloseEach(old(store.records), StaleBefore(DayBefore(now)), Inactive(now))
    ensures count == |FindAll(old(store.records), StaleBefore(DayBefore(now)))|
  {
    var q := StaleBefore(DayBefore(now));
    count := |FindAll(store.records, q)|;
    var i, n := 0, |store.records|;
    while i < n
      invariant i <= n == |old(store.records)|
      invariant store.Valid()
      invariant store.records == CloseEach(old(store.records)[..i], q, Inactive(now)) + old(store.records)[i..]
    {
      InactiveStep(store, old(store.records), i, now);
      i := i + 1;
    }
    assert old(store.records)[..n] == old(store.records);
  }

  /** Record i of the records `rs0` the sweep started from: closed and saved when it is
      stale. */
  method InactiveStep(store: Attendance, ghost rs0: seq<Session>, i: nat, now: Instant)
    requires store.Valid() && i < |rs0|
    requires store.records == CloseEach(rs0[..i], StaleBefore(DayBefore(now)), Inactive(now)) + rs0[i..]
    modifies store
    ensures store.Valid()
    ensures store.records == CloseEach(rs0[..i + 1], StaleBefore(DayBefore(now)), Inactive(now)) + rs0[i + 1..]
  {
    var q := StaleBefore(DayBefore(now));
    ghost var rs := store.records;
    assert store.records[i] == rs0[i];
    if Matches(store.records[i], q) {
      CloseInactive(store, i, now);
    }
    CloseEachStep(rs0, i, q, Inactive(now), rs, store.records);
  }

  /** Closes stored record i, which is stale, and saves it. */
  method CloseInactive(store: Attendance, i: nat, now: Instant)
    requires store.Valid() && i < |store.records| && Matches(store.records[i], StaleBefore(DayBefore(now)))
    modifies store
    ensures store.Valid()
    ensures store.records == old(store.records)[i := Close(old(store.records)[i], Inactive(now))]
  {
    var s := store.records[i];
    assert Stored(s);
    var doc := new SessionDoc.Loaded(s);
    doc.LogLogout(DayBefore(now), SystemLogout, INACTIVITY_REASON);
    assert doc.data == Close(s, Inactive(now));
    InactiveCloseSaves(s, now);
    PreSaveAfterClosing(s, Inactive(now), doc.modified);
    SaveReplaces(store.records, i, doc.data, doc.modified);
    var r := store.Save(doc);
  }

  /** A stale session closed at the cutoff passes validation: its duration is not negative,
      because it started before the cutoff. */
  lemma InactiveCloseSaves(s: Session, now: Instant)
    requires Stored(s) && Matches(s, StaleBefore(DayBefore(now)))
    ensures var c := Close(s, Inactive(now));
      SessionValid(c) && c.id == s.id && c.sessionDuration.Some? && c.sessionDuration.value >= 0
  {
    BeforeMillis(DayBefore(now), s.loginTime);
    InactivityReasonTrimmed();
  }

  lemma InactivityReasonTrimmed()
    ensures Trim(INACTIVITY_REASON) == INACTIVITY_REASON
  {
    var r := INACTIVITY_REASON;
    assert r[0] == 'A' && r[|r| - 1] == 'y';
    TrimNoSpace(r);
  }

  /** A stale session closed by the sweep: logged out at the cutoff by the system, with the
      inactivity reason as its note and a non-negative duration. */
  lemma InactiveClose(s: Session, now: Instant)
    requires Matches(s, StaleBefore(DayBefore(now)))
    ensures var r := Close(s, Inactive(now));
      r.id == s.id && r.staff == s.staff && r.loginTime == s.loginTime
      && r.logoutTime == Some(DayBefore(now)) && r.status == SystemLogout
      && r.notes == Some(INACTIVITY_REASON)
      && r.sessionDuration.Some? && r.sessionDuration.value >= 0
  {
    InactivityReasonTrimmed();
    BeforeMillis(DayBefore(now), s.loginTime);
  }

  /** The sweep closes exactly the stale records, as `InactiveClose` says, and leaves every
      other record as it was. */
  lemma InactiveSweepMeaning(rs: seq<Session>, now: Instant, j: nat)
    requires j < |rs|
    ensures var q := StaleBefore(DayBefore(now));
      var r := CloseEach(rs, q, Inactive(now))[j];
      (Matches(rs[j], q) ==>
         r == Close(rs[j], Inactive(now)) && r.logoutTime == Some(DayBefore(now))
         && r.status == SystemLogout && r.sessionDuration.value >= 0)
      && (!Matches(rs[j], q) ==> r == rs[j])
  {
    var q := StaleBefore(DayBefore(now));
    CloseEachAt(rs, q, Inactive(now));
    if Matches(rs[j], q) {
      InactiveClose(rs[j], now);
    }
  }

  /** A second sweep at the same time selects nothing. */
  lemma InactiveSweepRerun(rs: seq<Session>, now: Instant)
    ensures var q := StaleBefore(DayBefore(now));
      FindAll(CloseEach(rs, q, Inactive(now)), q) == []
  {
    CloseEachLeavesNoneStale(rs, DayBefore(now), Inactive(now));
  }

  // ---------------------------------------------------------------------------------------
  // The statistics window
  // ---------------------------------------------------------------------------------------

  /** The first instant `getStaffAttendanceStats(staffId, period)` counts from: a week back
      with `setDate`, three months back for 'quarter', and one month back with `setMonth`
      for 'month', for any other period and when none is given. */
  function StatsWindowStart(now: Instant, period: Option<string>): Instant {
    var p := if period.Some? then period.value else "month";
    if p == "week" then ShiftDays(now, -7)
    else if p == "quarter" then SetMonth(now, now.month - 3)
    else SetMonth(now, now.month - 1)
  }

  /** The window start of every period lies strictly before `now`; a week is exactly seven
      days; an unknown period counts as a month. */
  lemma StatsWindowStartMeaning(now: Instant, period: Option<string>)
    ensures Before(StatsWindowStart(now, period), now)
    ensures period == Some("week") ==> Millis(StatsWindowStart(now, period)) == Millis(now) - 7 * MS_PER_DAY
    ensures period.None? || (period.value != "week" && period.value != "quarter") ==>
      StatsWindowStart(now, period) == StatsWindowStart(now, Some("month"))
  {
    var p := if period.Some? then period.value else "month";
    if p == "week" {
      ShiftDaysMillis(now, -7);
      BeforeMillis(StatsWindowStart(now, period), now);
    } else if p == "quarter" {
      MonthsBackBefore(now, 3);
    } else {
      MonthsBackBefore(now, 1);
    }
  }

  /** A month back from March 31 overflows February: the window starts on March 3 in a
      common year. */
  lemma StatsWindowMonthExample()
    ensures StatsWindowStart(Civil(2023, 2, 31, 0), None) == Civil(2023, 2, 3, 0)
  {
    assert 1 / 12 == 0 && 1 % 12 == 1;
    assert NormDay(2023, 1, 31, 0) == NormDay(2023, 2, 3, 0);
  }
}
