/**
 * The StaffAttendance collection of src/models/logTime.js and the documents read from it.
 * A `SessionDoc` is a Mongoose document: the record, whether it is new, and which paths were
 * modified since it was loaded; its instance methods assign paths on it. The collection
 * `Attendance` holds the stored records in insertion order; `findOne` returns the first
 * match in that order. `Save` validates every path, runs the pre-save hook, then inserts a
 * new record (refusing a duplicate id) or replaces the stored record with the same id.
 */
module AttendanceStore {
  import opened Wrappers
  import opened JsRuntime
  import opened CivilDate
  import opened AttendanceRecord
  import opened SeqFacts

  /** The filters the modelled code passes to `find`, `findOne` and `deleteMany`. */
  datatype Query =
    | ById(id: nat)
    | ByIdAndStaff(id: nat, staff: nat)
    | ActiveOf(staff: nat)
    | AllActive
    | DueForPurge(now: Instant)
    | StaleBefore(cutoff: Instant)
    | LoggedInBetween(staff: nat, start: Instant, end: Instant)

  predicate Matches(s: Session, q: Query) {
    match q
    case ById(id) => s.id == id
    case ByIdAndStaff(id, staff) => s.id == id && s.staff == staff
    // { staff, status: 'active', logoutTime: { $exists: false } }
    case ActiveOf(staff) => s.staff == staff && s.status == Active && s.logoutTime.None?
    case AllActive => s.status == Active && s.logoutTime.None?
    // { autoDeleteDate: { $lte: now }, retentionStatus: 'active' }
    case DueForPurge(now) =>
      s.autoDeleteDate.Some? && AtOrBefore(s.autoDeleteDate.value, now) && s.retentionStatus == Retained
    // { status: 'active', loginTime: { $lt: cutoff }, logoutTime: { $exists: false } }
    case StaleBefore(cutoff) => s.status == Active && Before(s.loginTime, cutoff) && s.logoutTime.None?
    // { staff, loginTime: { $gte: start, $lte: end } }
    case LoggedInBetween(staff, start, end) =>
      s.staff == staff && AtOrBefore(start, s.loginTime) && AtOrBefore(s.loginTime, end)
  }

  /** `findOne`: the position of the first record, in storage order, that matches. */
  function FindFirst(rs: seq<Session>, q: Query): (r: Option<nat>)
    ensures r.Some? ==> r.value < |rs| && Matches(rs[r.value], q)
    ensures r.Some? ==> forall i :: 0 <= i < r.value ==> !Matches(rs[i], q)
    ensures r.None? <==> forall i :: 0 <= i < |rs| ==> !Matches(rs[i], q)
  {
    if rs == [] then None
    else if Matches(rs[0], q) then Some(0)
    else match FindFirst(rs[1..], q)
      case None => None
      case Some(i) => Some(i + 1)
  }

  /** `find`: the matching records, in storage order. */
  function FindAll(rs: seq<Session>, q: Query): (r: seq<Session>)
    ensures |r| <= |rs|
  {
    if rs == [] then []
    else FindAll(rs[..|rs| - 1], q) + (if Matches(rs[|rs| - 1], q) then [rs[|rs| - 1]] else [])
  }

  /** `deleteMany`: the records that remain, in storage order. */
  function DeleteMany(rs: seq<Session>, q: Query): (r: seq<Session>)
    ensures |r| <= |rs|
  {
    if rs == [] then []
    else DeleteMany(rs[..|rs| - 1], q) + (if Matches(rs[|rs| - 1], q) then [] else [rs[|rs| - 1]])
  }

  /** `updateMany(q, { $set: { retentionStatus: 'deleted' } })`. */
  function MarkDeleted(rs: seq<Session>, q: Query): (r: seq<Session>)
    ensures |r| == |rs|
  {
    if rs == [] then []
    else
      var s := rs[|rs| - 1];
      MarkDeleted(rs[..|rs| - 1], q) + [if Matches(s, q) then s.(retentionStatus := RetentionDeleted) else s]
  }

  /** Which instance method closes the records a sweep selects. */
  datatype Closing =
    | SystemLogoutAt(now: Instant, reason: string)
    | LogLogoutAt(logoutTime: Instant, status: SessionStatus, reason: string)

  function Close(s: Session, how: Closing): Session {
    match how
    case SystemLogoutAt(now, reason) => ClosedWith(s, now, SystemLogout, reason)
    case LogLogoutAt(t, status, reason) => LoggedOut(s, t, status, reason)
  }

  /** A record after a sweep with filter q: closed if it matches, as it was otherwise. */
  function Swept(s: Session, q: Query, how: Closing): Session {
    if Matches(s, q) then Close(s, how) else s
  }

  /** The records after a sweep has closed and saved each record matching q. */
  function CloseEach(rs: seq<Session>, q: Query, how: Closing): (r: seq<Session>)
    ensures |r| == |rs|
  {
    if rs == [] then [] else CloseEach(rs[..|rs| - 1], q, how) + [Swept(rs[|rs| - 1], q, how)]
  }

  /** No staff member has two open sessions. */
  predicate AtMostOneOpen(rs: seq<Session>, staff: nat) {
    forall i, j :: 0 <= i < |rs| && 0 <= j < |rs| && Matches(rs[i], ActiveOf(staff)) && Matches(rs[j], ActiveOf(staff)) ==> i == j
  }

  predicate UniqueIds(rs: seq<Session>) {
    forall i, j :: 0 <= i < |rs| && 0 <= j < |rs| && rs[i].id == rs[j].id ==> i == j
  }

  /** What every stored record satisfies: the validators the pre-save hook cannot break
      passed when it was saved. (The `min: 0` of the duration is checked before the hook
      recomputes it, so a stored duration may be negative.) */
  predicate Stored(s: Session) {
    s.ipAddress != "" && s.autoDeleteDate.Some? && s.monthYear.Some? && s.monthYear.value != ""
    && (s.notes.Some? ==> Utf16Length(s.notes.value) <= NOTES_MAX_LENGTH)
  }

  datatype SaveError = ValidationFailed | DuplicateKey | DocumentNotFound

  /** The collection after `save()` of a document holding `s`: validation first, then the
      hook, then the write. */
  function SaveResult(rs: seq<Session>, s: Session, isNew: bool, modified: set<Path>): Result<seq<Session>, SaveError> {
    if !SessionValid(s) then Err(ValidationFailed)
    else
      var h := PreSave(s, isNew, modified);
      var i := FindFirst(rs, ById(h.id));
      if isNew then (if i.Some? then Err(DuplicateKey) else Ok(rs + [h]))
      else if i.None? then Err(DocumentNotFound)
      else Ok(rs[i.value := h])
  }

  const INACTIVITY_REASON := "Auto-logout due to 24-hour inactivity"

  /** `new Date(Date.now() - 24 * 60 * 60 * 1000)`; `DayBeforeMillis` says it is one day
      earlier. */
  function DayBefore(now: Instant): Instant {
    ShiftDays(now, -1)
  }

  lemma DayBeforeMillis(now: Instant)
    ensures Millis(DayBefore(now)) == Millis(now) - MS_PER_DAY
  {
    ShiftDaysMillis(now, -1);
  }

  // ---------------------------------------------------------------------------------------
  // Documents
  // ---------------------------------------------------------------------------------------

  class SessionDoc {
    var data: Session
    var isNew: bool
    var modified: set<Path>

    /** `new StaffAttendance({...})`: a new document; every path it is given counts as
        modified. */
    constructor (s: Session)
      ensures data == s && isNew
      ensures modified == (if s.logoutTime.Some? then {LogoutTimePath} else {})
        + (if s.sessionDuration.Some? then {DurationPath} else {})
        + (if s.notes.Some? then {NotesPath} else {})
        + (if s.autoDeleteDate.Some? then {AutoDeleteDatePath} else {})
        + (if s.monthYear.Some? then {MonthYearPath} else {})
        + {StatusPath}
    {
      data := s;
      isNew := true;
      modified := (if s.logoutTime.Some? then {LogoutTimePath} else {})
        + (if s.sessionDuration.Some? then {DurationPath} else {})
        + (if s.notes.Some? then {NotesPath} else {})
        + (if s.autoDeleteDate.Some? then {AutoDeleteDatePath} else {})
        + (if s.monthYear.Some? then {MonthYearPath} else {})
        + {StatusPath};
    }

    /** A document as a query returns it: stored, nothing modified. */
    constructor Loaded(s: Session)
      ensures data == s && !isNew && modified == {}
    {
      data := s;
      isNew := false;
      modified := {};
    }

    /** `logLogout(logoutTime, status, reason)`. */
    method LogLogout(logoutTime: Instant, status: SessionStatus, reason: string)
      modifies this
      ensures data == LoggedOut(old(data), logoutTime, status, reason) && isNew == old(isNew)
      ensures modified == Mark(old(modified), isNew,
        {LogoutTimePath, StatusPath, DurationPath} + (if reason != "" then {NotesPath} else {}),
        old(data), data)
    {
      var before := data;
      data := data.(logoutTime := Some(logoutTime));
      data := data.(status := status);
      data := data.(sessionDuration := Some(DurationMinutes(data.loginTime, logoutTime)));
      if reason != "" {
        data := data.(notes := Some(Trim(reason)));
      }
      modified := Mark(modified, isNew,
        {LogoutTimePath, StatusPath, DurationPath} + (if reason != "" then {NotesPath} else {}),
        before, data);
    }

    /** `forceLogout(reason)` at time `now`. */
    method ForceLogout(reason: string, now: Instant)
      modifies this
      ensures data == ClosedWith(old(data), now, ForcedLogout, reason) && isNew == old(isNew)
      ensures modified == Mark(old(modified), isNew, {LogoutTimePath, StatusPath, NotesPath, DurationPath},
        old(data), data)
    {
      var before := data;
      data := data.(logoutTime := Some(now));
      data := data.(status := ForcedLogout);
      data := data.(notes := Some(Trim(reason)));
      data := data.(sessionDuration := Some(DurationMinutes(data.loginTime, now)));
      modified := Mark(modified, isNew, {LogoutTimePath, StatusPath, NotesPath, DurationPath}, before, data);
    }

    /** `systemLogout(reason)` at time `now`. */
    method SystemLogout(reason: string, now: Instant)
      modifies this
      ensures data == ClosedWith(old(data), now, AttendanceRecord.SystemLogout, reason) && isNew == old(isNew)
      ensures modified == Mark(old(modified), isNew, {LogoutTimePath, StatusPath, NotesPath, DurationPath},
        old(data), data)
    {
      var before := data;
      data := data.(logoutTime := Some(now));
      data := data.(status := AttendanceRecord.SystemLogout);
      data := data.(notes := Some(Trim(reason)));
      data := data.(sessionDuration := Some(DurationMinutes(data.loginTime, now)));
      modified := Mark(modified, isNew, {LogoutTimePath, StatusPath, NotesPath, DurationPath}, before, data);
    }

    /** `extractDeviceInfo()`. */
    method ExtractDeviceInfo()
      modifies this
      ensures data == old(data).(deviceInfo := ExtractedDeviceInfo(old(data).userAgent, old(data).deviceInfo))
      ensures isNew == old(isNew)
      ensures modified == Mark(old(modified), isNew, if Truthy(data.userAgent) then {DeviceInfoPath} else {},
        old(data), data)
    {
      var before := data;
      if Truthy(data.userAgent) {
        var ua := ToLower(data.userAgent.value);
        data := data.(deviceInfo := data.deviceInfo.(browser := Some(BrowserOf(ua))));
        data := data.(deviceInfo := data.deviceInfo.(os := Some(OsOf(ua))));
        data := data.(deviceInfo := data.deviceInfo.(deviceType := Some(DeviceTypeOf(ua))));
      }
      modified := Mark(modified, isNew, if Truthy(data.userAgent) then {DeviceInfoPath} else {}, before, data);
    }

    /** The pre-save hook, run by `save()` after validation. */
    method PreSaveHook()
      modifies this
      ensures data == PreSave(old(data), old(isNew), old(modified)) && isNew == old(isNew)
      ensures modified == Mark(old(modified), isNew, PreSaveAssigns(old(data), isNew, old(modified)),
        old(data), data)
    {
      var before, marks := data, modified;
      if isNew {
        data := data.(autoDeleteDate := Some(AutoDeleteDate(data.loginTime)));
        data := data.(monthYear := Some(MonthYear(data.loginTime)));
        ExtractDeviceInfo();
      }
      assert data == if isNew then before.(autoDeleteDate := Some(AutoDeleteDate(before.loginTime)),
        monthYear := Some(MonthYear(before.loginTime)),
        deviceInfo := ExtractedDeviceInfo(before.userAgent, before.deviceInfo)) else before;
      assert LogoutTimePath in modified <==> LogoutTimePath in marks;
      if LogoutTimePath in modified && data.logoutTime.Some? {
        data := data.(sessionDuration := Some(DurationMinutes(data.loginTime, data.logoutTime.value)));
        if data.status == Active {
          data := data.(status := Completed);
        }
      }
      modified := Mark(marks, isNew, PreSaveAssigns(before, isNew, marks), before, data);
    }
  }

  // ---------------------------------------------------------------------------------------
  // The collection
  // ---------------------------------------------------------------------------------------

  class Attendance {
    var records: seq<Session>
    var nextId: nat

    ghost predicate Valid()
      reads this
    {
      UniqueIds(records)
      && forall i :: 0 <= i < |records| ==> records[i].id < nextId && Stored(records[i])
    }

    constructor ()
      ensures Valid() && records == []
    {
      records := [];
      nextId := 0;
    }

    /** A fresh object id, as `new StaffAttendance(...)` generates one. */
    method NewId() returns (id: nat)
      requires Valid()
      modifies this
      ensures Valid() && records == old(records) && id == old(nextId) && nextId == id + 1
      ensures forall i :: 0 <= i < |records| ==> records[i].id != id
    {
      id := nextId;
      nextId := nextId + 1;
    }

    /** `findOne(q)`: a document for the first match, or null. */
    method FindOne(q: Query) returns (doc: SessionDoc?)
      ensures var k := FindFirst(records, q);
        (doc == null <==> k.None?)
        && (doc != null ==> fresh(doc) && doc.data == records[k.value] && !doc.isNew && doc.modified == {})
    {
      var k := FindFirst(records, q);
      if k.None? {
        return null;
      }
      doc := new SessionDoc.Loaded(records[k.value]);
    }

    /** `getActiveSessions(staffId)`: the open sessions, of one staff member if one is given. */
    method GetActiveSessions(staff: Option<nat>) returns (found: seq<Session>)
      ensures forall s :: s in found <==> s in records && IsActive(s) && (staff.Some? ==> s.staff == staff.value)
    {
      found := FindAll(records, if staff.Some? then ActiveOf(staff.value) else AllActive);
      FindAllMembers(records, if staff.Some? then ActiveOf(staff.value) else AllActive);
    }

    /** `doc.save()`. */
    method Save(doc: SessionDoc) returns (r: Result<(), SaveError>)
      requires Valid()
      modifies this, doc
      ensures Valid()
      ensures var out := SaveResult(old(records), old(doc.data), old(doc.isNew), old(doc.modified));
        && (r.Ok? <==> out.Ok?)
        && (out.Ok? ==> records == out.value && !doc.isNew && doc.modified == {})
        && (out.Err? ==> records == old(records) && out == Err(r.error) && doc.isNew == old(doc.isNew))
      ensures doc.data == if SessionValid(old(doc.data)) then PreSave(old(doc.data), old(doc.isNew), old(doc.modified))
        else old(doc.data)
      ensures !old(doc.isNew) ==> nextId == old(nextId)
    {
      if !SessionValid(doc.data) {
        return Err(ValidationFailed);
      }
      ghost var s0, new0, m0 := doc.data, doc.isNew, doc.modified;
      doc.PreSaveHook();
      PreSaveKeepsStored(s0, new0, m0);
      var i := FindFirst(records, ById(doc.data.id));
      if doc.isNew {
        if i.Some? {
          return Err(DuplicateKey);
        }
        AppendKeepsUnique(records, doc.data);
        records := records + [doc.data];
        if doc.data.id >= nextId {
          nextId := doc.data.id + 1;
        }
      } else {
        if i.None? {
          return Err(DocumentNotFound);
        }
        ReplaceKeepsUnique(records, i.value, doc.data);
        records := records[i.value := doc.data];
      }
      doc.isNew := false;
      doc.modified := {};
      return Ok(());
    }

    /** `autoDeleteOldRecords()` at time `now`: the due records are listed, deleted, and then
        marked deleted by an `updateMany` with the same filter. */
    method AutoDeleteOldRecords(now: Instant) returns (deletedCount: nat, found: seq<Session>)
      requires Valid()
      modifies this
      ensures Valid()
      ensures records == DeleteMany(old(records), DueForPurge(now))
      ensures found == FindAll(old(records), DueForPurge(now))
      ensures deletedCount == |old(records)| - |records| == |found|
    {
      var q := DueForPurge(now);
      found := FindAll(records, q);
      var before := |records|;
      DeleteManyKeepsValid(records, q, nextId);
      records := DeleteMany(records, q);
      deletedCount := before - |records|;
      MarkDeletedAfterDelete(old(records), q);
      records := MarkDeleted(records, q);
      FindAllDeleteManyCount(old(records), q);
    }

    /** One step of the inactivity sweep: stored record i, which is stale, is closed by
        `systemLogout` and saved. */
    method CloseStale(i: nat, now: Instant)
      requires Valid() && i < |records| && Matches(records[i], StaleBefore(DayBefore(now)))
      modifies this
      ensures Valid()
      ensures records == old(records)[i := Close(old(records)[i], SystemLogoutAt(now, INACTIVITY_REASON))]
    {
      var s := records[i];
      var how := SystemLogoutAt(now, INACTIVITY_REASON);
      assert Stored(s);
      var doc := new SessionDoc.Loaded(s);
      doc.SystemLogout(INACTIVITY_REASON, now);
      assert doc.data == Close(s, how);
      StaleCloseSaves(s, how, now);
      PreSaveAfterClosing(s, how, doc.modified);
      SaveReplaces(records, i, doc.data, doc.modified);
      var r := Save(doc);
    }

    /** Record i of the records `rs0` the inactivity sweep started from: closed by
        `systemLogout` and saved when it is stale. */
    method SweepStep(ghost rs0: seq<Session>, i: nat, now: Instant)
      requires Valid() && i < |rs0|
      requires records == CloseEach(rs0[..i], StaleBefore(DayBefore(now)), SystemLogoutAt(now, INACTIVITY_REASON)) + rs0[i..]
      modifies this
      ensures Valid()
      ensures records == CloseEach(rs0[..i + 1], StaleBefore(DayBefore(now)), SystemLogoutAt(now, INACTIVITY_REASON)) + rs0[i + 1..]
    {
      var q := StaleBefore(DayBefore(now));
      var how := SystemLogoutAt(now, INACTIVITY_REASON);
      ghost var rs := records;
      assert records[i] == rs0[i];
      if Matches(records[i], q) {
        CloseStale(i, now);
      }
      CloseEachStep(rs0, i, q, how, rs, records);
    }

    /** `cleanupIncompleteSessions()` at time `now`: every active session opened more than 24
        hours ago and never closed is closed by `systemLogout` and saved, in storage order.
        Returns how many were selected. */
    method CleanupIncompleteSessions(now: Instant) returns (count: nat)
      requires Valid()
      modifies this
      ensures Valid()
      ensures records == CloseEach(old(records), StaleBefore(DayBefore(now)), SystemLogoutAt(now, INACTIVITY_REASON))
      ensures count == |FindAll(old(records), StaleBefore(DayBefore(now)))|
    {
      var q := StaleBefore(DayBefore(now));
      var how := SystemLogoutAt(now, INACTIVITY_REASON);
      count := |FindAll(records, q)|;
      var i, n := 0, |records|;
      while i < n
        invariant i <= n == |old(records)|
        invariant Valid()
        invariant records == CloseEach(old(records)[..i], q, how) + old(records)[i..]
      {
        SweepStep(old(records), i, now);
        i := i + 1;
      }
      assert old(records)[..|old(records)|] == old(records);
    }
  }

  // ---------------------------------------------------------------------------------------
  // Lemmas
  // ---------------------------------------------------------------------------------------

  /** `find` returns exactly the matching records. */
  lemma {:induction false} FindAllMembers(rs: seq<Session>, q: Query)
    ensures forall s :: s in FindAll(rs, q) <==> s in rs && Matches(s, q)
  {
    if rs != [] {
      var init := rs[..|rs| - 1];
      FindAllMembers(init, q);
      SplitLast(rs);
    }
  }

  /** `deleteMany` keeps exactly the records that do not match. */
  lemma {:induction false} DeleteManyMembers(rs: seq<Session>, q: Query)
    ensures forall s :: s in DeleteMany(rs, q) <==> s in rs && !Matches(s, q)
  {
    if rs != [] {
      var init := rs[..|rs| - 1];
      DeleteManyMembers(init, q);
      SplitLast(rs);
    }
  }

  /** The pre-save hook keeps what stored records satisfy. */
  lemma PreSaveKeepsStored(s: Session, isNew: bool, modified: set<Path>)
    requires SessionValid(s)
    ensures Stored(PreSave(s, isNew, modified))
  {
  }

  /** With unique ids, looking a stored record up by its id finds that record. */
  lemma UniqueIndex(rs: seq<Session>, i: nat)
    requires UniqueIds(rs) && i < |rs|
    ensures FindFirst(rs, ById(rs[i].id)) == Some(i)
  {
  }

  /** Saving an existing document that the hook leaves alone replaces its stored record in
      place when it is valid, and fails validation otherwise. */
  lemma SaveReplaces(rs: seq<Session>, i: nat, s: Session, modified: set<Path>)
    requires UniqueIds(rs) && i < |rs| && rs[i].id == s.id
    requires PreSave(s, false, modified) == s
    ensures SaveResult(rs, s, false, modified) == if SessionValid(s) then Ok(rs[i := s]) else Err(ValidationFailed)
  {
    UniqueIndex(rs, i);
  }

  /** Saving a new, valid document whose id is not stored appends the hooked record. */
  lemma SaveAppends(rs: seq<Session>, s: Session, modified: set<Path>)
    requires forall i :: 0 <= i < |rs| ==> rs[i].id != s.id
    ensures SaveResult(rs, s, true, modified) ==
      if SessionValid(s) then Ok(rs + [PreSave(s, true, modified)]) else Err(ValidationFailed)
  {
  }

  lemma AppendKeepsUnique(rs: seq<Session>, s: Session)
    requires UniqueIds(rs) && FindFirst(rs, ById(s.id)).None?
    ensures UniqueIds(rs + [s])
  {
    assert forall i :: 0 <= i < |rs| ==> rs[i].id != s.id;
  }

  lemma ReplaceKeepsUnique(rs: seq<Session>, k: nat, s: Session)
    requires UniqueIds(rs) && k < |rs| && rs[k].id == s.id
    ensures UniqueIds(rs[k := s])
  {
  }

  lemma DeleteManyKeepsValid(rs: seq<Session>, q: Query, bound: nat)
    requires UniqueIds(rs)
    requires forall i :: 0 <= i < |rs| ==> rs[i].id < bound && Stored(rs[i])
    ensures UniqueIds(DeleteMany(rs, q))
    ensures forall i :: 0 <= i < |DeleteMany(rs, q)| ==> DeleteMany(rs, q)[i].id < bound && Stored(DeleteMany(rs, q)[i])
  {
    DeleteManyIsSubsequence(rs, q);
  }

  /** The records `deleteMany` leaves keep their ids unique. */
  lemma {:induction false} DeleteManyIsSubsequence(rs: seq<Session>, q: Query)
    requires UniqueIds(rs)
    ensures UniqueIds(DeleteMany(rs, q))
  {
    if rs != [] {
      var init := rs[..|rs| - 1];
      var last := rs[|rs| - 1];
      assert UniqueIds(init);
      DeleteManyIsSubsequence(init, q);
      var d := DeleteMany(init, q);
      if !Matches(last, q) {
        InitIdsDiffer(rs);
        DeleteManyMembers(init, q);
        assert forall x :: x in d ==> x in init;
        assert DeleteMany(rs, q) == d + [last];
      }
    }
  }

  lemma InitIdsDiffer(rs: seq<Session>)
    requires UniqueIds(rs) && rs != []
    ensures forall x :: x in rs[..|rs| - 1] ==> x.id != rs[|rs| - 1].id
  {
    forall x | x in rs[..|rs| - 1]
      ensures x.id != rs[|rs| - 1].id
    {
      var k :| 0 <= k < |rs| - 1 && rs[..|rs| - 1][k] == x;
      assert rs[k] == x;
    }
  }

  /** The `updateMany` after the `deleteMany` finds nothing left to mark. */
  lemma {:induction false} MarkDeletedAfterDelete(rs: seq<Session>, q: Query)
    ensures MarkDeleted(DeleteMany(rs, q), q) == DeleteMany(rs, q)
  {
    if rs != [] {
      var init := rs[..|rs| - 1];
      var last := rs[|rs| - 1];
      MarkDeletedAfterDelete(init, q);
      var d0 := DeleteMany(init, q);
      if !Matches(last, q) {
        var d := d0 + [last];
        assert DeleteMany(rs, q) == d;
        assert d[..|d| - 1] == d0 && d[|d| - 1] == last;
        assert MarkDeleted(d, q) == MarkDeleted(d0, q) + [last];
      } else {
        assert DeleteMany(rs, q) == d0;
      }
    }
  }

  /** Every record is either found or kept by the same filter. */
  lemma {:induction false} FindAllDeleteManyCount(rs: seq<Session>, q: Query)
    ensures |FindAll(rs, q)| + |DeleteMany(rs, q)| == |rs|
  {
    if rs != [] {
      FindAllDeleteManyCount(rs[..|rs| - 1], q);
    }
  }

  /** The purge is idempotent: a second run at the same time finds and deletes nothing. */
  lemma PurgeIdempotent(rs: seq<Session>, now: Instant)
    ensures DeleteMany(DeleteMany(rs, DueForPurge(now)), DueForPurge(now)) == DeleteMany(rs, DueForPurge(now))
    ensures FindAll(DeleteMany(rs, DueForPurge(now)), DueForPurge(now)) == []
  {
    var q := DueForPurge(now);
    var d := DeleteMany(rs, q);
    DeleteManyMembers(rs, q);
    assert forall i :: 0 <= i < |d| ==> d[i] in d;
    NoneMatch(d, q);
  }

  /** With no record matching, `deleteMany` keeps all and `find` finds none. */
  lemma NoneMatch(rs: seq<Session>, q: Query)
    requires forall i :: 0 <= i < |rs| ==> !Matches(rs[i], q)
    ensures DeleteMany(rs, q) == rs && FindAll(rs, q) == []
  {
    NoneMatchKeeps(rs, q);
    NoneMatchFinds(rs, q);
  }

  lemma {:induction false} NoneMatchKeeps(rs: seq<Session>, q: Query)
    requires forall i :: 0 <= i < |rs| ==> !Matches(rs[i], q)
    ensures DeleteMany(rs, q) == rs
  {
    if rs != [] {
      var init, last := rs[..|rs| - 1], rs[|rs| - 1];
      assert !Matches(last, q);
      SplitLast(rs);
      NoneMatchKeeps(init, q);
    }
  }

  lemma {:induction false} NoneMatchFinds(rs: seq<Session>, q: Query)
    requires forall i :: 0 <= i < |rs| ==> !Matches(rs[i], q)
    ensures FindAll(rs, q) == []
  {
    if rs != [] {
      var init, last := rs[..|rs| - 1], rs[|rs| - 1];
      assert !Matches(last, q);
      SplitLast(rs);
      NoneMatchFinds(init, q);
    }
  }

  /** The purge removes exactly the records the `shouldBeDeleted` virtual reports at `now`. */
  lemma PurgeMeaning(rs: seq<Session>, now: Instant, s: Session)
    ensures s in DeleteMany(rs, DueForPurge(now)) <==> s in rs && !ShouldBeDeleted(s, now)
    ensures s in FindAll(rs, DueForPurge(now)) <==> s in rs && ShouldBeDeleted(s, now)
  {
    DeleteManyMembers(rs, DueForPurge(now));
    FindAllMembers(rs, DueForPurge(now));
  }

  /** A closed record has no more work for the hook: saving it again changes nothing. */
  lemma PreSaveAfterClosing(s: Session, how: Closing, modified: set<Path>)
    requires how.LogLogoutAt? ==> how.status != Active
    ensures PreSave(Close(s, how), false, modified) == Close(s, how)
  {
  }

  /** A stale session closed by the inactivity sweep passes validation. */
  lemma StaleCloseSaves(s: Session, how: Closing, now: Instant)
    requires Stored(s) && Matches(s, StaleBefore(DayBefore(now)))
    requires how == SystemLogoutAt(now, INACTIVITY_REASON)
    ensures SessionValid(Close(s, how)) && Stored(Close(s, how)) && Close(s, how).id == s.id
  {
    DayBeforeMillis(now);
    BeforeMillis(s.loginTime, DayBefore(now));
    BeforeMillis(now, s.loginTime);
    Utf16LengthTrim(INACTIVITY_REASON);
  }

  /** A sweep closes each matching record where it stands and leaves the others. */
  lemma {:induction false} CloseEachAt(rs: seq<Session>, q: Query, how: Closing)
    ensures forall j :: 0 <= j < |rs| ==> CloseEach(rs, q, how)[j] == Swept(rs[j], q, how)
  {
    if rs != [] {
      var init := rs[..|rs| - 1];
      CloseEachAt(init, q, how);
      var c := CloseEach(rs, q, how);
      assert c == CloseEach(init, q, how) + [Swept(rs[|rs| - 1], q, how)];
      forall j | 0 <= j < |rs|
        ensures c[j] == Swept(rs[j], q, how)
      {
        if j < |init| {
          assert c[j] == CloseEach(init, q, how)[j];
          SplitLast(rs);
        }
      }
    }
  }

  /** One step of a sweep: closing record i of the remaining ones extends the closed prefix. */
  lemma CloseEachStep(rs0: seq<Session>, i: nat, q: Query, how: Closing, before: seq<Session>, after: seq<Session>)
    requires i < |rs0|
    requires before == CloseEach(rs0[..i], q, how) + rs0[i..]
    requires after == if Matches(rs0[i], q) then before[i := Close(rs0[i], how)] else before
    ensures after == CloseEach(rs0[..i + 1], q, how) + rs0[i + 1..]
  {
    var p := CloseEach(rs0[..i], q, how);
    TakeTake(rs0, i);
    assert CloseEach(rs0[..i + 1], q, how) == p + [Swept(rs0[i], q, how)];
    UpdateMiddle(p, rs0[i], Swept(rs0[i], q, how), rs0[i + 1..]);
  }

  /** After the inactivity sweep no record is stale at the same cutoff: a second run at the
      same time selects nothing. */
  lemma CloseEachLeavesNoneStale(rs: seq<Session>, cutoff: Instant, how: Closing)
    requires how.LogLogoutAt? ==> how.status != Active
    ensures FindAll(CloseEach(rs, StaleBefore(cutoff), how), StaleBefore(cutoff)) == []
  {
    var r := CloseEach(rs, StaleBefore(cutoff), how);
    CloseEachAt(rs, StaleBefore(cutoff), how);
    assert forall i :: 0 <= i < |r| ==> !Matches(r[i], StaleBefore(cutoff));
    NoneMatch(r, StaleBefore(cutoff));
  }

  /** The sweep touches exactly the selected records; the others keep every field. A
      selected record is closed at the sweep's time with its status, and a system logout
      also stores the reason as its notes. */
  lemma CloseEachMeaning(rs: seq<Session>, q: Query, how: Closing, j: nat)
    requires j < |rs| && (how.LogLogoutAt? ==> how.status != Active)
    ensures var r := CloseEach(rs, q, how)[j];
      r.id == rs[j].id && r.staff == rs[j].staff && r.loginTime == rs[j].loginTime
      && (Matches(rs[j], q) ==> r.logoutTime.Some? && r.status != Active)
      && (!Matches(rs[j], q) ==> r == rs[j])
    ensures var r := CloseEach(rs, q, how)[j];
      Matches(rs[j], q) && how.SystemLogoutAt? ==>
        r.status == SystemLogout && r.logoutTime == Some(how.now)
        && r.notes == Some(Trim(how.reason))
        && r.sessionDuration == Some(DurationMinutes(rs[j].loginTime, how.now))
    ensures var r := CloseEach(rs, q, how)[j];
      Matches(rs[j], q) && how.LogLogoutAt? ==>
        r.status == how.status && r.logoutTime == Some(how.logoutTime)
        && r.sessionDuration == Some(DurationMinutes(rs[j].loginTime, how.logoutTime))
  {
    CloseEachAt(rs, q, how);
  }
}
