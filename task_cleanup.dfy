/**
 * The task retention jobs of src/app/utils/taskCleanup.js. The monthly job (16th, 02:00)
 * deletes due completed storage and then runs the retention sweep; the weekly job (Mondays,
 * 03:00) only deletes. Both catch and log whatever goes wrong. `manualCleanup` runs the
 * monthly pair and lets errors through. `getNextCleanupDate` computes the next 16th at 02:00
 * by moving a date step by step. The schedule itself (node-cron) is not modelled: each job
 * is a method called at its time `now`.
 */
module TaskCleanup {
  import opened Wrappers
  import opened JsRuntime
  import opened CivilDate
  import opened TaskRecord
  import opened TaskStore

  /** 02:00:00.000 as a millisecond of the day. */
  const CLEANUP_MS: int := 7_200_000
  /** The day of the month the monthly job runs. */
  const CLEANUP_DAY: int := 16
  /** What a template literal prints for a plain object. */
  const OBJECT_STRING: string := "[object Object]"

  /** What a job leaves in the log. The ISO time stamp that ends the monthly line is not
      modelled. */
  datatype JobLog =
    | CleanupLogged(message: string)
    | CleanupErrorLogged(error: TaskSaveError)
    | WeeklyLogged(message: string)
    | NothingLogged

  /** The monthly line: `${updatedCount}` interpolates the counts object, so the counts never
      reach the log. */
  function CleanupMessage(deleted: nat): string {
    "Task cleanup: Deleted " + NatToString(deleted) + " old tasks, updated " + OBJECT_STRING
    + " retention periods on "
  }

  function WeeklyMessage(deleted: nat): string {
    "Weekly safety check: Deleted " + NatToString(deleted) + " overdue tasks"
  }

  /** The tasks left by `autoDeleteOldTasks` at `now`. */
  function Purged(ts: seq<Task>, now: Instant): seq<Task> {
    DeleteMany(ts, DueForDeletion(now))
  }

  /** The monthly job at `now`: its log line and the stored tasks afterwards. A sweep that
      rejects is logged; the deletions and the saves made before it stand. */
  function MonthlyOutcome(ts: seq<Task>, now: Instant): (JobLog, seq<Task>) {
    var d := Purged(ts, now);
    var (r, after) := RetentionOutcome(d, now);
    (if r.Ok? then CleanupLogged(CleanupMessage(|ts| - |d|)) else CleanupErrorLogged(r.error), after)
  }

  /** The weekly job at `now`: a line only when something was deleted. */
  function WeeklyOutcome(ts: seq<Task>, now: Instant): (JobLog, seq<Task>) {
    var d := Purged(ts, now);
    (if |ts| - |d| > 0 then WeeklyLogged(WeeklyMessage(|ts| - |d|)) else NothingLogged, d)
  }

  /** `manualCleanup()` at `now`: both results, or the sweep's error. */
  function ManualOutcome(ts: seq<Task>, now: Instant): (Result<(nat, RetentionCounts), TaskSaveError>, seq<Task>) {
    var d := Purged(ts, now);
    var (r, after) := RetentionOutcome(d, now);
    (if r.Ok? then Ok((|ts| - |d|, r.value)) else Err(r.error), after)
  }

  /** `getNextCleanupDate()` at `now`. */
  function NextCleanupDate(now: Instant): Instant {
    var c := if now.day >= CLEANUP_DAY then SetMonth(now, now.month + 1) else now;
    SetTimeOfDay(SetDate(c, CLEANUP_DAY), CLEANUP_MS)
  }

  /** When the monthly schedule `0 2 16 * *` fires. */
  predicate MonthlyRun(c: Instant) {
    c.day == CLEANUP_DAY && c.ms == CLEANUP_MS
  }

  // ---------------------------------------------------------------------------------------
  // The jobs
  // ---------------------------------------------------------------------------------------

  /** The body of the monthly schedule. */
  method MonthlyJob(store: Tasks, now: Instant) returns (log: JobLog)
    requires store.Valid()
    modifies store
    ensures store.Valid()
    ensures (log, store.tasks) == MonthlyOutcome(old(store.tasks), now)
  {
    var deletedCount := store.AutoDeleteOldTasks(now);
    var updatedCount := store.UpdateRetentionPeriods(now);
    if updatedCount.Err? {
      return CleanupErrorLogged(updatedCount.error);
    }
    return CleanupLogged(CleanupMessage(deletedCount));
  }

  /** The body of the weekly schedule. */
  method WeeklyJob(store: Tasks, now: Instant) returns (log: JobLog)
    requires store.Valid()
    modifies store
    ensures store.Valid()
    ensures (log, store.tasks) == WeeklyOutcome(old(store.tasks), now)
  {
    var deletedCount := store.AutoDeleteOldTasks(now);
    if deletedCount > 0 {
      return WeeklyLogged(WeeklyMessage(deletedCount));
    }
    return NothingLogged;
  }

  method ManualCleanup(store: Tasks, now: Instant) returns (r: Result<(nat, RetentionCounts), TaskSaveError>)
    requires store.Valid()
    modifies store
    ensures store.Valid()
    ensures (r, store.tasks) == ManualOutcome(old(store.tasks), now)
  {
    var deletedCount := store.AutoDeleteOldTasks(now);
    var updatedCount := store.UpdateRetentionPeriods(now);
    if updatedCount.Err? {
      return Err(updatedCount.error);
    }
    return Ok((deletedCount, updatedCount.value));
  }

  /** `getNextCleanupDate()`, moving a copy of `now` step by step. */
  method GetNextCleanupDate(now: Instant) returns (nextCleanup: Instant)
    ensures nextCleanup.day == CLEANUP_DAY && nextCleanup.ms == CLEANUP_MS && Before(now, nextCleanup)
    ensures now.day < CLEANUP_DAY ==> MonthIndex(nextCleanup) == MonthIndex(now)
    ensures now.day >= CLEANUP_DAY ==> 1 <= MonthIndex(nextCleanup) - MonthIndex(now) <= 2
  {
    nextCleanup := now;
    if now.day >= CLEANUP_DAY {
      nextCleanup := SetMonth(nextCleanup, now.month + 1);
    }
    nextCleanup := SetDate(nextCleanup, CLEANUP_DAY);
    nextCleanup := SetTimeOfDay(nextCleanup, CLEANUP_MS);
    NextCleanupShape(now);
  }

  // ---------------------------------------------------------------------------------------
  // Lemmas: the next cleanup date
  // ---------------------------------------------------------------------------------------

  /** Always the 16th at 02:00:00.000 and later than `now`: this month before the 16th, the
      next month from the 16th on, or the month after that when the day overflows the next
      month (days 29 to 31). */
  lemma NextCleanupShape(now: Instant)
    ensures var r := NextCleanupDate(now);
      var k := MonthIndex(r) - MonthIndex(now);
      r.day == CLEANUP_DAY && r.ms == CLEANUP_MS && Before(now, r)
      && (now.day < CLEANUP_DAY ==> k == 0)
      && (now.day >= CLEANUP_DAY ==> (k == 1 || (k == 2 && now.day > 28)))
  {
    var c := if now.day >= CLEANUP_DAY then SetMonth(now, now.month + 1) else now;
    if now.day >= CLEANUP_DAY {
      SetMonthForward(now, 1);
    }
    var r := NextCleanupDate(now);
    assert SetDate(c, CLEANUP_DAY) == Civil(c.year, c.month, CLEANUP_DAY, c.ms);
    if now.day >= CLEANUP_DAY {
      MonthIndexOrder(now, r);
    }
  }

  /** Before the 16th the result is the next run of the monthly schedule. */
  lemma NextCleanupIsNextRun(now: Instant, c: Instant)
    requires now.day < CLEANUP_DAY && MonthlyRun(c) && Before(now, c)
    ensures MonthlyRun(NextCleanupDate(now)) && AtOrBefore(NextCleanupDate(now), c)
  {
    NextCleanupShape(now);
    var r := NextCleanupDate(now);
    if MonthIndex(c) < MonthIndex(r) {
      MonthIndexOrder(c, now);
    }
  }

  /** On 31 January the next cleanup date overflows February and lands on 16 March. */
  lemma NextCleanupJanuary31()
    ensures NextCleanupDate(Civil(2024, 0, 31, 0)) == Civil(2024, 2, 16, CLEANUP_MS)
  {
    var c := SetMonth(Civil(2024, 0, 31, 0), 1);
    assert c == NormDay(2024, 1, 31, 0);
    NormDayOneStep(2024, 1, 31, 0);
    assert c == Civil(2024, 2, 2, 0);
  }

  /** So on 31 January the result skips the run of 16 February. */
  lemma NextCleanupSkipsFebruary()
    ensures Before(Civil(2024, 0, 31, 0), Civil(2024, 1, 16, CLEANUP_MS))
      && Before(Civil(2024, 1, 16, CLEANUP_MS), NextCleanupDate(Civil(2024, 0, 31, 0)))
  {
    NextCleanupJanuary31();
  }

  /** On the 16th before 02:00 the result skips that day's run. */
  lemma NextCleanupSkipsToday()
    ensures NextCleanupDate(Civil(2024, 0, 16, 0)) == Civil(2024, 1, 16, CLEANUP_MS)
      && Before(Civil(2024, 0, 16, 0), Civil(2024, 0, 16, CLEANUP_MS))
  {
    var c := SetMonth(Civil(2024, 0, 16, 0), 1);
    assert DaysInMonth(2024, 1) == 29;
    assert c == Civil(2024, 1, 16, 0);
    assert SetDate(c, CLEANUP_DAY) == c;
  }

  // ---------------------------------------------------------------------------------------
  // Lemmas: the jobs
  // ---------------------------------------------------------------------------------------

  /** Whatever the sweep does to a task, position by position: it is the reclassified task,
      dated or not. */
  lemma RetentionOutcomeAt(ts: seq<Task>, now: Instant, j: nat)
    requires j < |ts|
    ensures var after := RetentionOutcome(ts, now).1;
      var r := Reclassified(ts, now);
      |after| == |ts| && (after[j] == r[j] || after[j] == Dated(r[j]))
  {
    var r := Reclassified(ts, now);
    ReclassifiedAt(ts, now, 0);
    match FirstUnsaveable(r, now)
    case None =>
      DateEachAt(r);
    case Some(k) =>
      var after := DateEach(r[..k]) + r[k..];
      if j < k {
        DateEachAt(r[..k]);
        assert after[j] == DateEach(r[..k])[j];
      } else {
        assert after[j] == r[j];
      }
  }

  /** The sweep never adds, removes or reorders tasks, nor changes their ids. */
  lemma RetentionKeepsIds(ts: seq<Task>, now: Instant, j: nat)
    requires j < |ts|
    ensures var after := RetentionOutcome(ts, now).1;
      |after| == |ts| && after[j].id == ts[j].id
  {
    RetentionOutcomeAt(ts, now, j);
    ReclassifiedAt(ts, now, j);
  }

  /** The monthly job deletes first: whether or not the sweep rejects, no task that was due
      for deletion at `now` is left, and the log reports how many went. */
  lemma MonthlyDeletesFirst(ts: seq<Task>, now: Instant, j: nat)
    requires UniqueIds(ts) && j < |ts| && Matches(ts[j], DueForDeletion(now))
    ensures var (log, after) := MonthlyOutcome(ts, now);
      (forall i :: 0 <= i < |after| ==> after[i].id != ts[j].id)
      && (log.CleanupLogged? ==> log.message == CleanupMessage(|FindAll(ts, DueForDeletion(now))|))
  {
    var d := Purged(ts, now);
    var after := MonthlyOutcome(ts, now).1;
    DeleteManyMembers(ts, DueForDeletion(now));
    FindAllDeleteManyCount(ts, DueForDeletion(now));
    forall i | 0 <= i < |after|
      ensures after[i].id != ts[j].id
    {
      RetentionKeepsIds(d, now, i);
      assert d[i] in d;
      var k :| 0 <= k < |ts| && ts[k] == d[i];
    }
  }

  /** The monthly line reads back the number of deleted tasks: the counts of the sweep never
      appear in it. */
  lemma CleanupMessageReadsBack(deleted: nat)
    ensures var m := CleanupMessage(deleted);
      m[..22] == "Task cleanup: Deleted " && ReadInt10(m[22..]) == Int(deleted)
  {
    var p := "Task cleanup: Deleted ";
    var rest := " old tasks, updated " + OBJECT_STRING + " retention periods on ";
    var d := NatToString(deleted);
    assert |p| == 22;
    Pieces3(p, d, rest);
    assert CleanupMessage(deleted) == p + d + rest;
    NatToStringValue(deleted);
    ParseDigitsThen(d, rest);
  }

  lemma Pieces3(p: string, d: string, rest: string)
    ensures (p + d + rest)[..|p|] == p && (p + d + rest)[|p|..] == d + rest
  {
  }

  /** A non-overdue task is never due for deletion after the sweep unless it was before:
      the only dates the sweep sets come from completion times. */
  lemma SweepSetsNoDueDate(ts: seq<Task>, now: Instant, j: nat)
    requires j < |ts| && !Matches(ts[j], DueForDeletion(now))
    requires Matches(ts[j], CompletedUndated) ==> Before(now, ScheduledDeletionDate(ts[j].completedAt.value))
    ensures !Matches(RetentionOutcome(ts, now).1[j], DueForDeletion(now))
  {
    RetentionOutcomeAt(ts, now, j);
    ReclassifiedAt(ts, now, j);
  }

  /** The weekly job run after the monthly one at the same time deletes nothing, provided
      every completed task without a deletion date was completed recently enough that the
      date the sweep gives it is still ahead. */
  lemma WeeklyAfterMonthly(ts: seq<Task>, now: Instant)
    requires forall j :: 0 <= j < |ts| && Matches(ts[j], CompletedUndated) ==>
      Before(now, ScheduledDeletionDate(ts[j].completedAt.value))
    ensures var after := MonthlyOutcome(ts, now).1;
      WeeklyOutcome(after, now) == (NothingLogged, after)
  {
    var d := Purged(ts, now);
    var after := MonthlyOutcome(ts, now).1;
    DeleteManyMembers(ts, DueForDeletion(now));
    forall j | 0 <= j < |after|
      ensures !Matches(after[j], DueForDeletion(now))
    {
      assert d[j] in d;
      var k :| 0 <= k < |ts| && ts[k] == d[j];
      SweepSetsNoDueDate(d, now, j);
    }
    NoneMatchKeeps(after, DueForDeletion(now));
  }

  /** Without that proviso the claim fails: a completed task from long ago without a
      deletion date, still valid at `now`, is dated into the past by the monthly sweep, and
      the weekly job at the same time then deletes it. */
  lemma WeeklyAfterMonthlyDeletesLegacy(ts: seq<Task>, now: Instant, j: nat)
    requires j < |ts| && Matches(ts[j], CompletedUndated)
    requires AtOrBefore(ScheduledDeletionDate(ts[j].completedAt.value), now)
    requires MonthlyOutcome(ts, now).0.CleanupLogged?
    ensures var after := MonthlyOutcome(ts, now).1;
      WeeklyOutcome(after, now).0.WeeklyLogged? && |WeeklyOutcome(after, now).1| < |after|
  {
    var d := Purged(ts, now);
    DeleteManyMembers(ts, DueForDeletion(now));
    assert ts[j] in d;
    var i :| 0 <= i < |d| && d[i] == ts[j];
    RetentionSweepAt(d, now, i);
    var after := MonthlyOutcome(ts, now).1;
    assert Matches(after[i], DueForDeletion(now));
    FindAllMembers(after, DueForDeletion(now));
    assert after[i] in FindAll(after, DueForDeletion(now));
    FindAllDeleteManyCount(after, DueForDeletion(now));
  }

  /** `manualCleanup` leaves the same tasks as the monthly job, succeeds exactly when the
      monthly job logs success, and then returns the count the log shows and the sweep's
      counts. */
  lemma ManualAgreesWithMonthly(ts: seq<Task>, now: Instant)
    ensures var (r, after) := ManualOutcome(ts, now);
      var (log, monthly) := MonthlyOutcome(ts, now);
      after == monthly
      && (r.Ok? <==> log.CleanupLogged?)
      && (r.Ok? ==> log.message == CleanupMessage(r.value.0)
                    && r.value.0 == |FindAll(ts, DueForDeletion(now))|
                    && r.value.1 == RetentionOutcome(Purged(ts, now), now).0.value)
      && (r.Err? ==> log == CleanupErrorLogged(r.error))
  {
    FindAllDeleteManyCount(ts, DueForDeletion(now));
  }

  /** The weekly job logs exactly when it deletes something, and reports how many. */
  lemma WeeklyLogsDeletions(ts: seq<Task>, now: Instant)
    ensures var (log, after) := WeeklyOutcome(ts, now);
      var n := |FindAll(ts, DueForDeletion(now))|;
      |after| == |ts| - n
      && (log.WeeklyLogged? <==> n > 0) && (log.WeeklyLogged? ==> log.message == WeeklyMessage(n))
      && (log.NothingLogged? <==> n == 0)
  {
    FindAllDeleteManyCount(ts, DueForDeletion(now));
  }
}
