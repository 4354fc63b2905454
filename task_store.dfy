/**
 * The Task collection of src/models/task.js and its statics. `Tasks` holds the stored tasks
 * in insertion order. `Save` validates every path at time `now`, applies the timestamps, runs
 * the pre-save hook, then inserts a new task or replaces the stored task with the same id.
 * Two sweeps keep the retention machine moving: `AutoDeleteOldTasks` deletes completed
 * storage whose deletion date has come, and `UpdateRetentionPeriods` ends expired grace
 * periods and dates completed tasks that have no deletion date, saving them one by one.
 */
module TaskStore {
  import opened Wrappers
  import opened CivilDate
  import opened TaskRecord
  import opened SeqFacts

  /** The filters the modelled statics pass to the database. */
  datatype TaskQuery =
    | TaskById(id: nat)
    | DueForDeletion(now: Instant)
    | GraceExpired(threeMonthsAgo: Instant)
    | CompletedUndated
    | ByStaff(staff: nat, includeCompleted: bool, now: Instant)

  predicate Matches(t: Task, q: TaskQuery) {
    match q
    case TaskById(id) => t.id == id
    // { scheduledDeletionDate: { $lte: now }, retentionPeriod: 'completed-storage' }
    case DueForDeletion(now) =>
      t.scheduledDeletionDate.Some? && AtOrBefore(t.scheduledDeletionDate.value, now)
      && t.retentionPeriod == CompletedStorage
    // { createdAt: { $lt: threeMonthsAgo }, retentionPeriod: 'grace-period' }
    case GraceExpired(threeMonthsAgo) =>
      t.createdAt.Some? && Before(t.createdAt.value, threeMonthsAgo) && t.retentionPeriod == GracePeriod
    // { status: 'completed', scheduledDeletionDate: { $exists: false }, completedAt: { $exists: true } }
    case CompletedUndated =>
      t.status == TaskCompleted && t.scheduledDeletionDate.None? && t.completedAt.Some?
    // getTasksByStaff: { assignedTo, status: { $ne: 'completed' } unless completed ones are
    // included, $or: [ not completed storage, completed storage still before its date ] }
    case ByStaff(staff, includeCompleted, now) =>
      t.assignedTo == staff && (includeCompleted || t.status != TaskCompleted) && Visible(t, now)
  }

  /** `findOne`: the position of the first task, in storage order, that matches. */
  function FindFirst(ts: seq<Task>, q: TaskQuery): (r: Option<nat>)
    ensures r.Some? ==> r.value < |ts| && Matches(ts[r.value], q)
    ensures r.Some? ==> forall i :: 0 <= i < r.value ==> !Matches(ts[i], q)
    ensures r.None? <==> forall i :: 0 <= i < |ts| ==> !Matches(ts[i], q)
  {
    if ts == [] then None
    else if Matches(ts[0], q) then Some(0)
    else match FindFirst(ts[1..], q)
      case None => None
      case Some(i) => Some(i + 1)
  }

  /** `find`: the matching tasks, in storage order. */
  function FindAll(ts: seq<Task>, q: TaskQuery): (r: seq<Task>)
    ensures |r| <= |ts|
  {
    if ts == [] then []
    else FindAll(ts[..|ts| - 1], q) + (if Matches(ts[|ts| - 1], q) then [ts[|ts| - 1]] else [])
  }

  /** `deleteMany`: the tasks that remain, in storage order. */
  function DeleteMany(ts: seq<Task>, q: TaskQuery): (r: seq<Task>)
    ensures |r| <= |ts|
  {
    if ts == [] then []
    else DeleteMany(ts[..|ts| - 1], q) + (if Matches(ts[|ts| - 1], q) then [] else [ts[|ts| - 1]])
  }

  /** `updateMany(q, { $set: { retentionPeriod: period } })`. */
  function SetRetention(ts: seq<Task>, q: TaskQuery, period: RetentionPeriod): (r: seq<Task>)
    ensures |r| == |ts|
  {
    if ts == [] then []
    else
      var t := ts[|ts| - 1];
      SetRetention(ts[..|ts| - 1], q, period) + [if Matches(t, q) then t.(retentionPeriod := period) else t]
  }

  predicate UniqueIds(ts: seq<Task>) {
    forall i, j :: 0 <= i < |ts| && 0 <= j < |ts| && ts[i].id == ts[j].id ==> i == j
  }

  datatype TaskSaveError = TaskValidationFailed | DueDateNotInFuture | DuplicateTaskKey | TaskNotFound

  /** The collection after `save()` at time `now` of a document holding `t`: validation,
      then the timestamps and the hook, then the write. */
  function SaveResult(ts: seq<Task>, t: Task, isNew: bool, modified: set<TaskPath>, now: Instant): Result<seq<Task>, TaskSaveError> {
    if !TaskValid(t, now) then Err(TaskValidationFailed)
    else
      var h := TaskPreSave(Timestamped(t, isNew, now), isNew, modified, now);
      if HookRejects(h, modified, now) then Err(DueDateNotInFuture)
      else
        var i := FindFirst(ts, TaskById(h.id));
        if isNew then (if i.Some? then Err(DuplicateTaskKey) else Ok(ts + [h]))
        else if i.None? then Err(TaskNotFound)
        else Ok(ts[i.value := h])
  }

  // ---------------------------------------------------------------------------------------
  // The retention sweep, as a function of the stored tasks
  // ---------------------------------------------------------------------------------------

  /** A task after the dating loop: dated when it is completed without a deletion date. */
  function Dated(t: Task): Task {
    if Matches(t, CompletedUndated) then WithDeletionDate(t) else t
  }

  /** The tasks after the dating loop has dated and saved each one that matches. */
  function DateEach(ts: seq<Task>): (r: seq<Task>)
    ensures |r| == |ts|
  {
    if ts == [] then [] else DateEach(ts[..|ts| - 1]) + [Dated(ts[|ts| - 1])]
  }

  /** A task the dating loop selects and whose save fails validation at `now`. */
  predicate Unsaveable(t: Task, now: Instant) {
    Matches(t, CompletedUndated) && !TaskValid(t, now)
  }

  /** The position of the first task whose save makes the dating loop throw. */
  function FirstUnsaveable(ts: seq<Task>, now: Instant): (r: Option<nat>)
    ensures r.Some? ==> r.value < |ts| && Unsaveable(ts[r.value], now)
    ensures r.Some? ==> forall i :: 0 <= i < r.value ==> !Unsaveable(ts[i], now)
    ensures r.None? <==> forall i :: 0 <= i < |ts| ==> !Unsaveable(ts[i], now)
  {
    if ts == [] then None
    else if Unsaveable(ts[0], now) then Some(0)
    else match FirstUnsaveable(ts[1..], now)
      case None => None
      case Some(i) => Some(i + 1)
  }

  /** What `updateRetentionPeriods` resolves to. */
  datatype RetentionCounts = RetentionCounts(gracePeriodUpdated: nat, deletionDatesSet: nat)

  /** The two `updateMany` calls of `updateRetentionPeriods` at time `now`. */
  function Reclassified(ts: seq<Task>, now: Instant): seq<Task> {
    SetRetention(SetRetention(ts, GraceExpired(ThreeMonthsAgo(now)), Permanent), CompletedUndated, CompletedStorage)
  }

  /** `updateRetentionPeriods()` at time `now`: its result and the stored tasks afterwards.
      The dating loop stops at the first save that throws, and the function then rejects
      with that error; the tasks dated before it stay saved. */
  function RetentionOutcome(ts: seq<Task>, now: Instant): (Result<RetentionCounts, TaskSaveError>, seq<Task>) {
    var ts2 := Reclassified(ts, now);
    match FirstUnsaveable(ts2, now)
    case None =>
      (Ok(RetentionCounts(|FindAll(ts, GraceExpired(ThreeMonthsAgo(now)))|, |FindAll(ts2, CompletedUndated)|)),
       DateEach(ts2))
    case Some(k) => (Err(TaskValidationFailed), DateEach(ts2[..k]) + ts2[k..])
  }

  // ---------------------------------------------------------------------------------------
  // The collection
  // ---------------------------------------------------------------------------------------

  class Tasks {
    var tasks: seq<Task>
    var nextId: nat

    ghost predicate Valid()
      reads this
    {
      UniqueIds(tasks) && forall i :: 0 <= i < |tasks| ==> tasks[i].id < nextId
    }

    constructor ()
      ensures Valid() && tasks == []
    {
      tasks := [];
      nextId := 0;
    }

    /** A fresh object id, as `new Task(...)` generates one. */
    method NewId() returns (id: nat)
      requires Valid()
      modifies this
      ensures Valid() && tasks == old(tasks) && id == old(nextId) && nextId == id + 1
      ensures forall i :: 0 <= i < |tasks| ==> tasks[i].id != id
    {
      id := nextId;
      nextId := nextId + 1;
    }

    /** `doc.save()` at time `now`. */
    method Save(doc: TaskDoc, now: Instant) returns (r: Result<(), TaskSaveError>)
      requires Valid()
      modifies this, doc
      ensures Valid()
      ensures var out := SaveResult(old(tasks), old(doc.data), old(doc.isNew), old(doc.modified), now);
        && (r.Ok? <==> out.Ok?)
        && (out.Ok? ==> tasks == out.value && !doc.isNew && doc.modified == {})
        && (out.Err? ==> tasks == old(tasks) && out == Err(r.error)
                         && doc.isNew == old(doc.isNew) && doc.modified == old(doc.modified))
      ensures doc.data == if TaskValid(old(doc.data), now)
        then TaskPreSave(Timestamped(old(doc.data), old(doc.isNew), now), old(doc.isNew), old(doc.modified), now)
        else old(doc.data)
      ensures !old(doc.isNew) ==> nextId == old(nextId)
    {
      if !TaskValid(doc.data, now) {
        return Err(TaskValidationFailed);
      }
      doc.data := Timestamped(doc.data, doc.isNew, now);
      var ok := doc.PreSaveHook(now);
      if !ok {
        return Err(DueDateNotInFuture);
      }
      var i := FindFirst(tasks, TaskById(doc.data.id));
      if doc.isNew {
        if i.Some? {
          return Err(DuplicateTaskKey);
        }
        AppendKeepsUnique(tasks, doc.data);
        tasks := tasks + [doc.data];
        if doc.data.id >= nextId {
          nextId := doc.data.id + 1;
        }
      } else {
        if i.None? {
          return Err(TaskNotFound);
        }
        tasks := tasks[i.value := doc.data];
      }
      doc.isNew := false;
      doc.modified := {};
      return Ok(());
    }

    /** `autoDeleteOldTasks()` at time `now`: deletes completed storage whose deletion date
        has come and returns how many went. */
    method AutoDeleteOldTasks(now: Instant) returns (deletedCount: nat)
      requires Valid()
      modifies this
      ensures Valid()
      ensures tasks == DeleteMany(old(tasks), DueForDeletion(now))
      ensures deletedCount == |old(tasks)| - |tasks| == |FindAll(old(tasks), DueForDeletion(now))|
    {
      var before := |tasks|;
      DeleteManyKeepsValid(tasks, DueForDeletion(now), nextId);
      tasks := DeleteMany(tasks, DueForDeletion(now));
      deletedCount := before - |tasks|;
      FindAllDeleteManyCount(old(tasks), DueForDeletion(now));
    }

    /** `getTasksByStaff(staff, _, _, includeCompleted)` at time `now`: the member's tasks
        that the listings show. */
    method GetTasksByStaff(staff: nat, includeCompleted: bool, now: Instant) returns (found: seq<Task>)
      ensures forall t :: t in found <==>
        t in tasks && t.assignedTo == staff && (includeCompleted || t.status != TaskCompleted) && Visible(t, now)
    {
      found := FindAll(tasks, ByStaff(staff, includeCompleted, now));
      FindAllMembers(tasks, ByStaff(staff, includeCompleted, now));
    }

    /** One step of the dating loop over the tasks `ts2` the two `updateMany` calls left: task
        i, when it is completed without a deletion date, is dated and saved. */
    method DateStep(ghost ts2: seq<Task>, i: nat, now: Instant) returns (ok: bool)
      requires Valid() && i < |ts2| && tasks == DateEach(ts2[..i]) + ts2[i..]
      requires Matches(ts2[i], CompletedUndated) ==> ts2[i].retentionPeriod == CompletedStorage
      modifies this
      ensures Valid()
      ensures ok <==> !Unsaveable(ts2[i], now)
      ensures ok ==> tasks == DateEach(ts2[..i + 1]) + ts2[i + 1..]
      ensures !ok ==> tasks == old(tasks)
    {
      ghost var before := tasks;
      assert tasks[i] == ts2[i] by {
        Pieces(DateEach(ts2[..i]), [], ts2[i..]);
      }
      if Matches(tasks[i], CompletedUndated) {
        var doc := new TaskDoc.Loaded(tasks[i]);
        doc.SetScheduledDeletionDate();
        DatedSaves(tasks, i, now);
        var r := Save(doc, now);
        if r.Err? {
          return false;
        }
      }
      DateEachStep(ts2, i, before, tasks);
      return true;
    }

    /** The two `updateMany` calls: expired grace periods become permanent, then completed
        tasks without a deletion date move to completed storage. */
    method Reclassify(now: Instant) returns (gracePeriodUpdated: nat)
      requires Valid()
      modifies this
      ensures Valid() && nextId == old(nextId)
      ensures tasks == Reclassified(old(tasks), now)
      ensures gracePeriodUpdated == |FindAll(old(tasks), GraceExpired(ThreeMonthsAgo(now)))|
    {
      var threeMonthsAgo := ThreeMonthsAgo(now);
      gracePeriodUpdated := |FindAll(tasks, GraceExpired(threeMonthsAgo))|;
      SetRetentionKeepsValid(tasks, GraceExpired(threeMonthsAgo), Permanent, nextId);
      tasks := SetRetention(tasks, GraceExpired(threeMonthsAgo), Permanent);
      SetRetentionKeepsValid(tasks, CompletedUndated, CompletedStorage, nextId);
      tasks := SetRetention(tasks, CompletedUndated, CompletedStorage);
    }

    /** The dating loop: each completed task without a deletion date is dated and saved, in
        storage order, until a save throws. */
    method DateAll(now: Instant) returns (ok: bool)
      requires Valid()
      requires forall j :: 0 <= j < |tasks| && Matches(tasks[j], CompletedUndated) ==>
        tasks[j].retentionPeriod == CompletedStorage
      modifies this
      ensures Valid()
      ensures ok <==> FirstUnsaveable(old(tasks), now).None?
      ensures ok ==> tasks == DateEach(old(tasks))
      ensures !ok ==> var k := FirstUnsaveable(old(tasks), now).value;
        tasks == DateEach(old(tasks)[..k]) + old(tasks)[k..]
    {
      ghost var ts2 := tasks;
      var i, n := 0, |tasks|;
      while i < n
        invariant i <= n == |ts2| && Valid()
        invariant tasks == DateEach(ts2[..i]) + ts2[i..]
        invariant forall j :: 0 <= j < i ==> !Unsaveable(ts2[j], now)
      {
        ok := DateStep(ts2, i, now);
        if !ok {
          FirstUnsaveableAt(ts2, now, i);
          return;
        }
        i := i + 1;
      }
      assert ts2[..n] == ts2 && ts2[n..] == [];
      ok := true;
    }

    /** `updateRetentionPeriods()` at time `now`. */
    method UpdateRetentionPeriods(now: Instant) returns (r: Result<RetentionCounts, TaskSaveError>)
      requires Valid()
      modifies this
      ensures Valid()
      ensures (r, tasks) == RetentionOutcome(old(tasks), now)
    {
      var gracePeriodUpdated := Reclassify(now);
      ReclassifiedStored(old(tasks), now);
      var tasksToUpdate := FindAll(tasks, CompletedUndated);
      var ok := DateAll(now);
      if !ok {
        return Err(TaskValidationFailed);
      }
      return Ok(RetentionCounts(gracePeriodUpdated, |tasksToUpdate|));
    }
  }

  // ---------------------------------------------------------------------------------------
  // Lemmas: the collection
  // ---------------------------------------------------------------------------------------

  /** `find` returns exactly the matching tasks. */
  lemma {:induction false} FindAllMembers(ts: seq<Task>, q: TaskQuery)
    ensures forall t :: t in FindAll(ts, q) <==> t in ts && Matches(t, q)
  {
    if ts != [] {
      FindAllMembers(ts[..|ts| - 1], q);
      SplitLast(ts);
    }
  }

  /** `deleteMany` keeps exactly the tasks that do not match. */
  lemma {:induction false} DeleteManyMembers(ts: seq<Task>, q: TaskQuery)
    ensures forall t :: t in DeleteMany(ts, q) <==> t in ts && !Matches(t, q)
  {
    if ts != [] {
      DeleteManyMembers(ts[..|ts| - 1], q);
      SplitLast(ts);
    }
  }

  /** Every task is either found or kept by the same filter. */
  lemma {:induction false} FindAllDeleteManyCount(ts: seq<Task>, q: TaskQuery)
    ensures |FindAll(ts, q)| + |DeleteMany(ts, q)| == |ts|
  {
    if ts != [] {
      FindAllDeleteManyCount(ts[..|ts| - 1], q);
    }
  }

  /** `updateMany` sets the retention of each matching task where it stands. */
  lemma {:induction false} SetRetentionAt(ts: seq<Task>, q: TaskQuery, period: RetentionPeriod)
    ensures forall j :: 0 <= j < |ts| ==>
      SetRetention(ts, q, period)[j] == if Matches(ts[j], q) then ts[j].(retentionPeriod := period) else ts[j]
  {
    if ts != [] {
      var init := ts[..|ts| - 1];
      SetRetentionAt(init, q, period);
      SplitLast(ts);
    }
  }

  /** The dating loop dates each selected task where it stands. */
  lemma {:induction false} DateEachAt(ts: seq<Task>)
    ensures forall j :: 0 <= j < |ts| ==> DateEach(ts)[j] == Dated(ts[j])
  {
    if ts != [] {
      DateEachAt(ts[..|ts| - 1]);
      SplitLast(ts);
    }
  }

  lemma UniqueIndex(ts: seq<Task>, i: nat)
    requires UniqueIds(ts) && i < |ts|
    ensures FindFirst(ts, TaskById(ts[i].id)) == Some(i)
  {
  }

  lemma AppendKeepsUnique(ts: seq<Task>, t: Task)
    requires UniqueIds(ts) && FindFirst(ts, TaskById(t.id)).None?
    ensures UniqueIds(ts + [t])
  {
    assert forall i :: 0 <= i < |ts| ==> ts[i].id != t.id;
  }

  lemma SetRetentionKeepsValid(ts: seq<Task>, q: TaskQuery, period: RetentionPeriod, bound: nat)
    requires UniqueIds(ts) && forall i :: 0 <= i < |ts| ==> ts[i].id < bound
    ensures var r := SetRetention(ts, q, period);
      UniqueIds(r) && forall i :: 0 <= i < |r| ==> r[i].id < bound
  {
    SetRetentionAt(ts, q, period);
  }

  lemma DeleteManyKeepsValid(ts: seq<Task>, q: TaskQuery, bound: nat)
    requires UniqueIds(ts) && forall i :: 0 <= i < |ts| ==> ts[i].id < bound
    ensures var r := DeleteMany(ts, q);
      UniqueIds(r) && forall i :: 0 <= i < |r| ==> r[i].id < bound
  {
    DeleteManyUnique(ts, q);
    DeleteManyMembers(ts, q);
    var r := DeleteMany(ts, q);
    forall i | 0 <= i < |r|
      ensures r[i].id < bound
    {
      assert r[i] in ts;
    }
  }

  lemma {:induction false} DeleteManyUnique(ts: seq<Task>, q: TaskQuery)
    requires UniqueIds(ts)
    ensures UniqueIds(DeleteMany(ts, q))
  {
    if ts != [] {
      var init, last := ts[..|ts| - 1], ts[|ts| - 1];
      assert UniqueIds(init);
      DeleteManyUnique(init, q);
      if !Matches(last, q) {
        var d := DeleteMany(init, q);
        DeleteManyMembers(init, q);
        forall x | x in d
          ensures x.id != last.id
        {
          var k :| 0 <= k < |init| && init[k] == x;
          assert ts[k] == x;
        }
        assert DeleteMany(ts, q) == d + [last];
      }
    }
  }

  /** Saving task i of the dating loop: dated, validated, and written back in place, or
      refused by validation. */
  lemma DatedSaves(ts: seq<Task>, i: nat, now: Instant)
    requires UniqueIds(ts) && i < |ts| && Matches(ts[i], CompletedUndated)
    requires ts[i].retentionPeriod == CompletedStorage
    ensures SaveResult(ts, WithDeletionDate(ts[i]), false, {}, now) ==
      if TaskValid(ts[i], now) then Ok(ts[i := Dated(ts[i])]) else Err(TaskValidationFailed)
  {
    UniqueIndex(ts, i);
  }

  /** One step of the dating loop extends the dated prefix. */
  lemma DateEachStep(ts2: seq<Task>, i: nat, before: seq<Task>, after: seq<Task>)
    requires i < |ts2|
    requires before == DateEach(ts2[..i]) + ts2[i..]
    requires after == if Matches(ts2[i], CompletedUndated) then before[i := Dated(ts2[i])] else before
    ensures after == DateEach(ts2[..i + 1]) + ts2[i + 1..]
  {
    var p := DateEach(ts2[..i]);
    TakeTake(ts2, i);
    assert DateEach(ts2[..i + 1]) == p + [Dated(ts2[i])];
    UpdateMiddle(p, ts2[i], Dated(ts2[i]), ts2[i + 1..]);
  }

  // ---------------------------------------------------------------------------------------
  // Lemmas: the sweeps and the listing filter
  // ---------------------------------------------------------------------------------------

  /** `autoDeleteOldTasks` deletes exactly the completed storage whose `shouldBeDeleted` holds
      at `now`, and every task it deletes was already hidden from the listings. */
  lemma AutoDeleteMeaning(ts: seq<Task>, now: Instant, t: Task)
    ensures t in DeleteMany(ts, DueForDeletion(now)) <==>
      t in ts && !(t.retentionPeriod == CompletedStorage && ShouldBeDeleted(t, now))
    ensures t in FindAll(ts, DueForDeletion(now)) ==> !Visible(t, now)
  {
    DeleteManyMembers(ts, DueForDeletion(now));
    FindAllMembers(ts, DueForDeletion(now));
  }

  /** A second run at the same time deletes nothing. */
  lemma AutoDeleteIdempotent(ts: seq<Task>, now: Instant)
    ensures var d := DeleteMany(ts, DueForDeletion(now));
      DeleteMany(d, DueForDeletion(now)) == d && |FindAll(d, DueForDeletion(now))| == 0
  {
    var q := DueForDeletion(now);
    var d := DeleteMany(ts, q);
    DeleteManyMembers(ts, q);
    assert forall i :: 0 <= i < |d| ==> d[i] in d;
    NoneMatchKeeps(d, q);
    FindAllDeleteManyCount(d, q);
  }

  lemma {:induction false} NoneMatchKeeps(ts: seq<Task>, q: TaskQuery)
    requires forall i :: 0 <= i < |ts| ==> !Matches(ts[i], q)
    ensures DeleteMany(ts, q) == ts
  {
    if ts != [] {
      assert !Matches(ts[|ts| - 1], q);
      SplitLast(ts);
      NoneMatchKeeps(ts[..|ts| - 1], q);
    }
  }

  /** What stays hidden after the purge: only completed storage without a deletion date,
      which the purge never deletes. */
  lemma HiddenAfterPurge(ts: seq<Task>, now: Instant, t: Task)
    requires t in DeleteMany(ts, DueForDeletion(now)) && !Visible(t, now)
    ensures t.retentionPeriod == CompletedStorage && t.scheduledDeletionDate.None?
  {
    DeleteManyMembers(ts, DueForDeletion(now));
  }

  /** Position by position, the two `updateMany` calls make each expired grace period
      permanent and move each completed task without a deletion date to completed storage. */
  lemma ReclassifiedAt(ts: seq<Task>, now: Instant, j: nat)
    requires j < |ts|
    ensures var r := Reclassified(ts, now);
      var t := ts[j];
      |r| == |ts|
      && (Matches(t, CompletedUndated) ==> r[j] == t.(retentionPeriod := CompletedStorage))
      && (Matches(t, GraceExpired(ThreeMonthsAgo(now))) && !Matches(t, CompletedUndated) ==>
            r[j] == t.(retentionPeriod := Permanent))
      && (!Matches(t, GraceExpired(ThreeMonthsAgo(now))) && !Matches(t, CompletedUndated) ==> r[j] == t)
  {
    var g := GraceExpired(ThreeMonthsAgo(now));
    var ts1 := SetRetention(ts, g, Permanent);
    SetRetentionAt(ts, g, Permanent);
    SetRetentionAt(ts1, CompletedUndated, CompletedStorage);
    assert ts1[j] == if Matches(ts[j], g) then ts[j].(retentionPeriod := Permanent) else ts[j];
  }

  /** After the two `updateMany` calls every task the dating loop selects is in completed
      storage. */
  lemma ReclassifiedStored(ts: seq<Task>, now: Instant)
    ensures var r := Reclassified(ts, now);
      forall j :: 0 <= j < |r| && Matches(r[j], CompletedUndated) ==> r[j].retentionPeriod == CompletedStorage
  {
    var g := GraceExpired(ThreeMonthsAgo(now));
    SetRetentionAt(SetRetention(ts, g, Permanent), CompletedUndated, CompletedStorage);
  }

  /** The dating loop stops at the first task whose save throws. */
  lemma FirstUnsaveableAt(ts: seq<Task>, now: Instant, i: nat)
    requires i < |ts| && Unsaveable(ts[i], now)
    requires forall j :: 0 <= j < i ==> !Unsaveable(ts[j], now)
    ensures FirstUnsaveable(ts, now) == Some(i)
  {
  }

  /** Setting the retention period changes nothing the dating loop selects by. */
  lemma {:induction false} SelectionUnderRetention(ts: seq<Task>, q: TaskQuery, period: RetentionPeriod)
    ensures |FindAll(SetRetention(ts, q, period), CompletedUndated)| == |FindAll(ts, CompletedUndated)|
  {
    if ts != [] {
      var init := ts[..|ts| - 1];
      SelectionUnderRetention(init, q, period);
      var r := SetRetention(ts, q, period);
      assert r[..|r| - 1] == SetRetention(init, q, period);
    }
  }

  /** Position by position, a sweep that resolves ends each expired grace period in
      permanent retention and moves each completed task without a deletion date to completed
      storage, dated from its completion time; every other task is left as it was. Its
      counts are the expired grace periods and the dated tasks. */
  lemma RetentionSweepAt(ts: seq<Task>, now: Instant, j: nat)
    requires RetentionOutcome(ts, now).0.Ok? && j < |ts|
    ensures var (r, after) := RetentionOutcome(ts, now);
      var t := ts[j];
      |after| == |ts| && after[j].id == t.id && after[j].status == t.status && after[j].dueDate == t.dueDate
      && (Matches(t, CompletedUndated) ==>
            after[j].retentionPeriod == CompletedStorage
            && after[j].scheduledDeletionDate == Some(ScheduledDeletionDate(t.completedAt.value)))
      && (Matches(t, GraceExpired(ThreeMonthsAgo(now))) && !Matches(t, CompletedUndated) ==>
            after[j] == t.(retentionPeriod := Permanent))
      && (!Matches(t, GraceExpired(ThreeMonthsAgo(now))) && !Matches(t, CompletedUndated) ==> after[j] == t)
  {
    var ts2 := Reclassified(ts, now);
    ReclassifiedAt(ts, now, j);
    DateEachAt(ts2);
    assert RetentionOutcome(ts, now).1 == DateEach(ts2);
  }

  /** The counts of a sweep that resolves: the expired grace periods and the completed tasks
      without a deletion date. */
  lemma RetentionCountsMeaning(ts: seq<Task>, now: Instant)
    requires RetentionOutcome(ts, now).0.Ok?
    ensures RetentionOutcome(ts, now).0.value ==
      RetentionCounts(|FindAll(ts, GraceExpired(ThreeMonthsAgo(now)))|, |FindAll(ts, CompletedUndated)|)
  {
    var g := GraceExpired(ThreeMonthsAgo(now));
    SelectionUnderRetention(ts, g, Permanent);
    SelectionUnderRetention(SetRetention(ts, g, Permanent), CompletedUndated, CompletedStorage);
  }

  /** A sweep that resolves leaves every completed task with a completion time dated and no
      grace period expired, so a second run at the same time changes nothing and counts
      nothing. */
  lemma RetentionIdempotent(ts: seq<Task>, now: Instant)
    requires RetentionOutcome(ts, now).0.Ok?
    ensures var after := RetentionOutcome(ts, now).1;
      RetentionOutcome(after, now) == (Ok(RetentionCounts(0, 0)), after)
  {
    var after := RetentionOutcome(ts, now).1;
    var g := GraceExpired(ThreeMonthsAgo(now));
    forall j | 0 <= j < |after|
      ensures !Matches(after[j], g) && !Matches(after[j], CompletedUndated)
    {
      RetentionSweepAt(ts, now, j);
    }
    NoneMatchSetRetention(after, g, Permanent);
    NoneMatchSetRetention(after, CompletedUndated, CompletedStorage);
    assert Reclassified(after, now) == after;
    NoneMatchDateEach(after);
    NoneMatchFinds(after, g);
    NoneMatchFinds(after, CompletedUndated);
  }

  lemma {:induction false} NoneMatchSetRetention(ts: seq<Task>, q: TaskQuery, period: RetentionPeriod)
    requires forall i :: 0 <= i < |ts| ==> !Matches(ts[i], q)
    ensures SetRetention(ts, q, period) == ts
  {
    if ts != [] {
      assert !Matches(ts[|ts| - 1], q);
      SplitLast(ts);
      NoneMatchSetRetention(ts[..|ts| - 1], q, period);
    }
  }

  lemma {:induction false} NoneMatchDateEach(ts: seq<Task>)
    requires forall i :: 0 <= i < |ts| ==> !Matches(ts[i], CompletedUndated)
    ensures DateEach(ts) == ts
  {
    if ts != [] {
      assert !Matches(ts[|ts| - 1], CompletedUndated);
      SplitLast(ts);
      NoneMatchDateEach(ts[..|ts| - 1]);
    }
  }

  lemma {:induction false} NoneMatchFinds(ts: seq<Task>, q: TaskQuery)
    requires forall i :: 0 <= i < |ts| ==> !Matches(ts[i], q)
    ensures FindAll(ts, q) == []
  {
    if ts != [] {
      assert !Matches(ts[|ts| - 1], q);
      SplitLast(ts);
      NoneMatchFinds(ts[..|ts| - 1], q);
    }
  }

  /** A completed task without a deletion date that is past its due date cannot be saved at
      `now`, so the sweep rejects with a validation error and leaves it, and every task
      after it, undated. */
  lemma OverdueCompletedAbortsSweep(ts: seq<Task>, now: Instant, j: nat)
    requires j < |ts| && Matches(ts[j], CompletedUndated) && AtOrBefore(ts[j].dueDate, now)
    ensures var (r, after) := RetentionOutcome(ts, now);
      r == Err(TaskValidationFailed) && |after| == |ts|
      && after[j] == ts[j].(retentionPeriod := CompletedStorage) && after[j].scheduledDeletionDate.None?
  {
    var ts2 := Reclassified(ts, now);
    ReclassifiedAt(ts, now, j);
    assert Unsaveable(ts2[j], now);
    var k := FirstUnsaveable(ts2, now).value;
    assert k <= j;
    var after := DateEach(ts2[..k]) + ts2[k..];
    assert after[j] == ts2[j];
  }

  /** Even when the sweep rejects, the two `updateMany` calls have taken effect on every task
      the loop did not reach. */
  lemma AbortedSweepKeepsReclassified(ts: seq<Task>, now: Instant, j: nat)
    requires RetentionOutcome(ts, now).0.Err? && j < |ts|
    requires FirstUnsaveable(Reclassified(ts, now), now).value <= j
    ensures RetentionOutcome(ts, now).1[j] == Reclassified(ts, now)[j]
  {
    var ts2 := Reclassified(ts, now);
    var k := FirstUnsaveable(ts2, now).value;
    assert RetentionOutcome(ts, now).1 == DateEach(ts2[..k]) + ts2[k..];
  }
}
