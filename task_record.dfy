/**
 * The task record of src/models/task.js. A task moves through a workflow status (pending,
 * in progress, completed, rejected, cancelled) and, independently, through a retention
 * period (a grace period, completed storage with a scheduled deletion date, or permanent).
 * Its status history and comments only ever grow. This module holds the record as a value,
 * the schema validators, the virtuals, the instance methods as functions of the record, the
 * pre-save hook as a function of the record, the `isNew` flag and the modified paths, and the
 * document class `TaskDoc` whose methods assign those same fields in place.
 */
module TaskRecord {
  import opened Wrappers
  import opened JsRuntime
  import opened CivilDate

  datatype TaskStatus = Pending | InProgress | TaskCompleted | Rejected | Cancelled

  /** The stored string of a status, as the history notes print it. */
  function StatusName(s: TaskStatus): string {
    match s
    case Pending => "pending"
    case InProgress => "in-progress"
    case TaskCompleted => "completed"
    case Rejected => "rejected"
    case Cancelled => "cancelled"
  }

  /** `retentionPeriod`: 'grace-period', 'completed-storage', 'permanent'. */
  datatype RetentionPeriod = GracePeriod | CompletedStorage | Permanent

  /** The `userType` of a history entry or a comment: 'Admin' or 'Staff'. */
  datatype UserType = AdminUser | StaffUser

  datatype HistoryEntry = HistoryEntry(status: TaskStatus, changedAt: Instant, changedBy: nat,
                                       userType: UserType, note: string)

  datatype TaskComment = TaskComment(user: nat, userType: UserType, comment: string,
                                     createdAt: Instant, isSystem: bool)

  /** One task. Ids are object ids, modelled as numbers; `createdAt` is set by the timestamps
      on the first save. Priority, attachments, hours, tags and `updatedAt` are not
      modelled. */
  datatype Task = Task(
    id: nat,
    title: string,
    description: string,
    assignedTo: nat,
    assignedBy: nat,
    status: TaskStatus,
    dueDate: Instant,
    completedAt: Option<Instant>,
    statusHistory: seq<HistoryEntry>,
    retentionPeriod: RetentionPeriod,
    scheduledDeletionDate: Option<Instant>,
    comments: seq<TaskComment>,
    rejectionReason: Option<string>,
    progress: int,
    createdAt: Option<Instant>)

  /** The paths whose modification the pre-save hook asks about. */
  datatype TaskPath = TaskStatusPath | DueDatePath

  const TITLE_MAX_LENGTH := 100
  const DESCRIPTION_MAX_LENGTH := 1000
  const NOTE_MAX_LENGTH := 200
  const COMMENT_MAX_LENGTH := 500
  const REJECTION_REASON_MAX_LENGTH := 500
  /** The day of the month on which completed tasks are deleted. */
  const DELETION_DAY := 15

  const CREATED_NOTE := "Task created"
  const COMPLETED_NOTE := "Task completed"
  const REJECTED_NOTE := "Task rejected"
  const PROGRESS_STARTED_NOTE := "Progress started"
  const REJECTED_PREFIX := "Task rejected: "

  // ---------------------------------------------------------------------------------------
  // Validators and virtuals
  // ---------------------------------------------------------------------------------------

  predicate NoteFits(e: HistoryEntry) {
    Utf16Length(e.note) <= NOTE_MAX_LENGTH
  }

  /** A comment's text is required (so not empty) and at most 500 characters. */
  predicate CommentFits(c: TaskComment) {
    c.comment != [] && Utf16Length(c.comment) <= COMMENT_MAX_LENGTH
  }

  /** The schema validators that `save()` runs at time `now`, on every path of the task:
      required, non-empty title and description within their lengths, a due date in the
      future, bounded history notes, comments and rejection reason, and progress in 0..100. */
  predicate TaskValid(t: Task, now: Instant) {
    t.title != [] && Utf16Length(t.title) <= TITLE_MAX_LENGTH
    && t.description != [] && Utf16Length(t.description) <= DESCRIPTION_MAX_LENGTH
    && Before(now, t.dueDate)
    && (forall i :: 0 <= i < |t.statusHistory| ==> NoteFits(t.statusHistory[i]))
    && (forall i :: 0 <= i < |t.comments| ==> CommentFits(t.comments[i]))
    && (t.rejectionReason.Some? ==> Utf16Length(t.rejectionReason.value) <= REJECTION_REASON_MAX_LENGTH)
    && 0 <= t.progress <= 100
  }

  /** The `isOverdue` virtual: past its due date and not finished. */
  predicate IsOverdue(t: Task, now: Instant) {
    Before(t.dueDate, now) && !(t.status == TaskCompleted || t.status == Cancelled || t.status == Rejected)
  }

  /** The `shouldBeDeleted` virtual: a deletion date that has been reached. */
  predicate ShouldBeDeleted(t: Task, now: Instant) {
    t.scheduledDeletionDate.Some? && AtOrBefore(t.scheduledDeletionDate.value, now)
  }

  /** The filter the task listings share: a task is shown unless it is in completed storage
      without a deletion date still in the future. */
  predicate Visible(t: Task, now: Instant) {
    t.retentionPeriod != CompletedStorage
    || (t.scheduledDeletionDate.Some? && Before(now, t.scheduledDeletionDate.value))
  }

  // ---------------------------------------------------------------------------------------
  // Retention dates
  // ---------------------------------------------------------------------------------------

  /** The deletion date of a task completed at `completedAt`: three months on with
      `setMonth`, one month more when the day is past the 15th, then day 15 at
      23:59:59.999. `ScheduledDeletionDateShape` says where it falls. */
  function ScheduledDeletionDate(completedAt: Instant): Instant {
    SetTimeOfDay(SetDate(DeletionMonth(completedAt), DELETION_DAY), END_OF_DAY_MS)
  }

  /** The date whose month holds the deletion date: three months on, one more past the 15th. */
  function DeletionMonth(completedAt: Instant): Instant {
    var d := SetMonth(completedAt, completedAt.month + 3);
    if d.day > DELETION_DAY then SetMonth(d, d.month + 1) else d
  }

  /** `setScheduledDeletionDate()`: nothing without a completion time. */
  function WithDeletionDate(t: Task): (r: Task)
    ensures t.completedAt.None? ==> r == t
    ensures t.completedAt.Some? ==> r == t.(scheduledDeletionDate := Some(ScheduledDeletionDate(t.completedAt.value)))
  {
    if t.completedAt.None? then t
    else t.(scheduledDeletionDate := Some(ScheduledDeletionDate(t.completedAt.value)))
  }

  /** `threeMonthsAgo` at time `now`: `setMonth(getMonth() - 3)`. */
  function ThreeMonthsAgo(now: Instant): Instant {
    SetMonth(now, now.month - 3)
  }

  /** `isGracePeriodOver()` at time `now`: created before three months ago. A task not yet
      saved has no creation time and is never over. */
  predicate GracePeriodOver(t: Task, now: Instant) {
    t.createdAt.Some? && Before(t.createdAt.value, ThreeMonthsAgo(now))
  }

  // ---------------------------------------------------------------------------------------
  // The instance methods, as functions of the task
  // ---------------------------------------------------------------------------------------

  /** `new Task({...})`: the given fields, the title and description trimmed by the schema,
      and the defaults for the rest. */
  function NewTask(id: nat, title: string, description: string, assignedTo: nat, assignedBy: nat,
                   dueDate: Instant, status: Option<TaskStatus>): (t: Task)
    ensures t.id == id && t.title == Trim(title) && t.description == Trim(description)
    ensures t.status == (if status.Some? then status.value else Pending)
    ensures t.statusHistory == [] && t.comments == [] && t.progress == 0 && t.retentionPeriod == GracePeriod
    ensures t.completedAt.None? && t.scheduledDeletionDate.None? && t.createdAt.None? && t.rejectionReason.None?
  {
    Task(id, Trim(title), Trim(description), assignedTo, assignedBy,
         if status.Some? then status.value else Pending, dueDate, None, [], GracePeriod, None, [], None, 0, None)
  }

  /** `markAsCompleted(user, userType, note)` at time `now`. */
  function MarkedCompleted(t: Task, user: nat, userType: UserType, note: string, now: Instant): (r: Task)
    ensures r.status == TaskCompleted && r.progress == 100 && r.completedAt == Some(now)
    ensures r.retentionPeriod == CompletedStorage && r.scheduledDeletionDate == Some(ScheduledDeletionDate(now))
    ensures r.statusHistory == t.statusHistory + [HistoryEntry(TaskCompleted, now, user, userType, note)]
    ensures r.(status := t.status, progress := t.progress, completedAt := t.completedAt,
               retentionPeriod := t.retentionPeriod, scheduledDeletionDate := t.scheduledDeletionDate,
               statusHistory := t.statusHistory) == t
  {
    var c := WithDeletionDate(t.(status := TaskCompleted, progress := 100, completedAt := Some(now),
                                 retentionPeriod := CompletedStorage));
    c.(statusHistory := c.statusHistory + [HistoryEntry(TaskCompleted, now, user, userType, note)])
  }

  /** The note `updateStatus` records: the given one, or "Status changed from X to Y" when
      it is empty. */
  function StatusNote(from: TaskStatus, to: TaskStatus, note: string): string {
    if note != "" then note else "Status changed from " + StatusName(from) + " to " + StatusName(to)
  }

  /** `updateStatus(newStatus, user, userType, note)` at time `now`. Completing also runs
      `markAsCompleted` with the same note, even an empty one. */
  function StatusUpdated(t: Task, newStatus: TaskStatus, user: nat, userType: UserType, note: string, now: Instant): Task {
    var u := t.(status := newStatus,
                statusHistory := t.statusHistory + [HistoryEntry(newStatus, now, user, userType, StatusNote(t.status, newStatus, note))]);
    if newStatus == TaskCompleted then MarkedCompleted(u, user, userType, note, now) else u
  }

  /** `Math.max(0, Math.min(100, p))`. */
  function ClampProgress(p: int): int {
    var m := if p < 100 then p else 100;
    if m > 0 then m else 0
  }

  /** "Progress updated from A% to P%", with the raw argument P. */
  function ProgressText(oldProgress: int, p: int): string {
    "Progress updated from " + IntToString(oldProgress) + "% to " + IntToString(p) + "%"
  }

  /** The comment `updateProgress` appends: the caller's text after the progress line, or
      the progress line alone as a system comment. */
  function ProgressComment(oldProgress: int, p: int, comment: Option<string>, user: nat, userType: UserType, now: Instant): TaskComment {
    if Truthy(comment) then TaskComment(user, userType, ProgressText(oldProgress, p) + ": " + comment.value, now, false)
    else TaskComment(user, userType, ProgressText(oldProgress, p), now, true)
  }

  /** Whether `updateProgress(p)` goes on to change the status: a raw 100 completes any task
      not completed; a raw value strictly between 0 and 100 starts a pending one. */
  predicate ProgressAssignsStatus(t: Task, p: int) {
    (p == 100 && t.status != TaskCompleted) || (0 < p < 100 && t.status == Pending)
  }

  /** `updateProgress(p, comment, user, userType)` at time `now`. */
  function ProgressUpdated(t: Task, p: int, comment: Option<string>, user: nat, userType: UserType, now: Instant): Task {
    var u := t.(progress := ClampProgress(p),
                comments := t.comments + [ProgressComment(t.progress, p, comment, user, userType, now)]);
    if p == 100 && u.status != TaskCompleted then MarkedCompleted(u, user, userType, COMPLETED_NOTE, now)
    else if 0 < p < 100 && u.status == Pending then StatusUpdated(u, InProgress, user, userType, PROGRESS_STARTED_NOTE, now)
    else u
  }

  /** `addComment(user, userType, comment)` at time `now`. */
  function Commented(t: Task, user: nat, userType: UserType, comment: string, now: Instant): (r: Task)
    ensures r.comments == t.comments + [TaskComment(user, userType, comment, now, false)]
    ensures r.(comments := t.comments) == t
  {
    t.(comments := t.comments + [TaskComment(user, userType, comment, now, false)])
  }

  /** `rejectTask(reason, rejectedBy, note)` at time `now`. The reason is not checked. */
  function RejectedTask(t: Task, reason: string, rejectedBy: nat, note: string, now: Instant): (r: Task)
    ensures r.status == Rejected && r.rejectionReason == Some(reason) && r.completedAt == Some(now)
    ensures r.retentionPeriod == Permanent
    ensures r.statusHistory == t.statusHistory + [HistoryEntry(Rejected, now, rejectedBy, AdminUser, note)]
    ensures r.comments == t.comments + [TaskComment(rejectedBy, AdminUser, REJECTED_PREFIX + reason, now, false)]
    ensures r.(status := t.status, rejectionReason := t.rejectionReason, completedAt := t.completedAt,
               retentionPeriod := t.retentionPeriod, statusHistory := t.statusHistory, comments := t.comments) == t
  {
    t.(status := Rejected, rejectionReason := Some(reason), completedAt := Some(now), retentionPeriod := Permanent,
       statusHistory := t.statusHistory + [HistoryEntry(Rejected, now, rejectedBy, AdminUser, note)],
       comments := t.comments + [TaskComment(rejectedBy, AdminUser, REJECTED_PREFIX + reason, now, false)])
  }

  // ---------------------------------------------------------------------------------------
  // Modified paths, timestamps and the pre-save hook
  // ---------------------------------------------------------------------------------------

  /** The tracked paths whose values differ between two versions of a task. */
  function Differs(a: Task, b: Task): set<TaskPath> {
    (if a.status != b.status then {TaskStatusPath} else {})
    + (if a.dueDate != b.dueDate then {DueDatePath} else {})
  }

  /** The modified set after assigning `paths`, turning `before` into `after`: a new document
      marks every assignment, an existing one only those that change the value. */
  function Mark(modified: set<TaskPath>, isNew: bool, paths: set<TaskPath>, before: Task, after: Task): set<TaskPath> {
    modified + (if isNew then paths else paths * Differs(before, after))
  }

  /** The timestamps step of `save()`: a new task without a creation time is created now. */
  function Timestamped(t: Task, isNew: bool, now: Instant): (r: Task)
    ensures r.(createdAt := t.createdAt) == t
    ensures isNew ==> r.createdAt.Some?
  {
    if isNew && t.createdAt.None? then t.(createdAt := Some(now)) else t
  }

  /** The history entry of a new task; `changedAt` defaults to now when there is no creation
      time. */
  function CreatedEntry(t: Task, now: Instant): HistoryEntry {
    HistoryEntry(Pending, if t.createdAt.Some? then t.createdAt.value else now, t.assignedBy, AdminUser, CREATED_NOTE)
  }

  /** The history entry of a status change, attributed to the assigned staff member. */
  function StatusChangedEntry(t: Task, now: Instant): HistoryEntry {
    HistoryEntry(t.status, now, t.assignedTo, StaffUser, "Status changed to " + StatusName(t.status))
  }

  /** The part of the hook that runs when `status` was modified. */
  function StatusChangeHandled(t: Task, now: Instant): Task {
    var a := t.(statusHistory := t.statusHistory + [StatusChangedEntry(t, now)]);
    var b :=
      if a.status == TaskCompleted && a.scheduledDeletionDate.None? then
        WithDeletionDate(a.(retentionPeriod := CompletedStorage, completedAt := Some(now)))
      else a;
    if b.status != TaskCompleted && GracePeriodOver(b, now) then b.(retentionPeriod := Permanent) else b
  }

  /** The last part of the hook: a grace period that is over ends in completed storage for a
      completed task and in permanent retention otherwise. */
  function GraceHandled(t: Task, now: Instant): Task {
    if t.retentionPeriod == GracePeriod && GracePeriodOver(t, now) then
      (if t.status == TaskCompleted then WithDeletionDate(t.(retentionPeriod := CompletedStorage))
       else t.(retentionPeriod := Permanent))
    else t
  }

  /** The pre-save hook on task `t` at time `now`. It changes only the retention fields, the
      completion time and the history, and the history only grows. */
  function TaskPreSave(t: Task, isNew: bool, modified: set<TaskPath>, now: Instant): (r: Task)
    ensures r.(retentionPeriod := t.retentionPeriod, completedAt := t.completedAt,
               scheduledDeletionDate := t.scheduledDeletionDate, statusHistory := t.statusHistory) == t
    ensures |t.statusHistory| <= |r.statusHistory| && r.statusHistory[..|t.statusHistory|] == t.statusHistory
  {
    var t1 :=
      if isNew then t.(retentionPeriod := GracePeriod, statusHistory := t.statusHistory + [CreatedEntry(t, now)])
      else t;
    var t2 := if TaskStatusPath in modified then StatusChangeHandled(t1, now) else t1;
    var r := GraceHandled(t2, now);
    assert t2.statusHistory[..|t1.statusHistory|] == t1.statusHistory;
    assert t1.statusHistory[..|t.statusHistory|] == t.statusHistory;
    Prefix3(t.statusHistory, t1.statusHistory, t2.statusHistory);
    r
  }

  lemma Prefix3<T>(a: seq<T>, b: seq<T>, c: seq<T>)
    requires |a| <= |b| <= |c| && b[..|a|] == a && c[..|b|] == b
    ensures c[..|a|] == a
  {
    assert c[..|a|] == c[..|b|][..|a|];
  }

  /** The error the hook passes to `next`: a modified due date that is not in the future. */
  predicate HookRejects(t: Task, modified: set<TaskPath>, now: Instant) {
    DueDatePath in modified && AtOrBefore(t.dueDate, now)
  }

  // ---------------------------------------------------------------------------------------
  // Documents
  // ---------------------------------------------------------------------------------------

  class TaskDoc {
    var data: Task
    var isNew: bool
    var modified: set<TaskPath>

    /** `new Task({...})`: a new document; the due date, and the status when one is given,
        count as modified, a defaulted status does not. */
    constructor (id: nat, title: string, description: string, assignedTo: nat, assignedBy: nat,
                 dueDate: Instant, status: Option<TaskStatus>)
      ensures data == NewTask(id, title, description, assignedTo, assignedBy, dueDate, status) && isNew
      ensures modified == {DueDatePath} + (if status.Some? then {TaskStatusPath} else {})
    {
      data := NewTask(id, title, description, assignedTo, assignedBy, dueDate, status);
      isNew := true;
      modified := {DueDatePath} + (if status.Some? then {TaskStatusPath} else {});
    }

    /** A document as a query returns it: stored, nothing modified. */
    constructor Loaded(t: Task)
      ensures data == t && !isNew && modified == {}
    {
      data := t;
      isNew := false;
      modified := {};
    }

    /** `setScheduledDeletionDate()`, moving a copy of the completion date step by step. */
    method SetScheduledDeletionDate()
      modifies this
      ensures data == WithDeletionDate(old(data)) && isNew == old(isNew) && modified == old(modified)
    {
      if data.completedAt.None? {
        return;
      }
      var deletionDate := data.completedAt.value;
      deletionDate := SetMonth(deletionDate, deletionDate.month + 3);
      if deletionDate.day > DELETION_DAY {
        deletionDate := SetMonth(deletionDate, deletionDate.month + 1);
      }
      deletionDate := SetDate(deletionDate, DELETION_DAY);
      deletionDate := SetTimeOfDay(deletionDate, END_OF_DAY_MS);
      data := data.(scheduledDeletionDate := Some(deletionDate));
    }

    /** `markAsCompleted(user, userType, note)` at time `now`. */
    method MarkAsCompleted(user: nat, userType: UserType, note: string, now: Instant)
      modifies this
      ensures data == MarkedCompleted(old(data), user, userType, note, now) && isNew == old(isNew)
      ensures modified == Mark(old(modified), isNew, {TaskStatusPath}, old(data), data)
    {
      var before := data;
      data := data.(status := TaskCompleted);
      data := data.(progress := 100);
      data := data.(completedAt := Some(now));
      data := data.(retentionPeriod := CompletedStorage);
      SetScheduledDeletionDate();
      data := data.(statusHistory := data.statusHistory + [HistoryEntry(TaskCompleted, now, user, userType, note)]);
      modified := Mark(modified, isNew, {TaskStatusPath}, before, data);
    }

    /** `updateStatus(newStatus, user, userType, note)` at time `now`. */
    method UpdateStatus(newStatus: TaskStatus, user: nat, userType: UserType, note: string, now: Instant)
      modifies this
      ensures data == StatusUpdated(old(data), newStatus, user, userType, note, now) && isNew == old(isNew)
      ensures modified == Mark(old(modified), isNew, {TaskStatusPath}, old(data), data)
    {
      var before := data;
      var oldStatus := data.status;
      data := data.(status := newStatus);
      data := data.(statusHistory := data.statusHistory + [HistoryEntry(newStatus, now, user, userType, StatusNote(oldStatus, newStatus, note))]);
      modified := Mark(modified, isNew, {TaskStatusPath}, before, data);
      if newStatus == TaskCompleted {
        MarkAsCompleted(user, userType, note, now);
      }
    }

    /** `updateProgress(p, comment, user, userType)` at time `now`. */
    method UpdateProgress(p: int, comment: Option<string>, user: nat, userType: UserType, now: Instant)
      modifies this
      ensures data == ProgressUpdated(old(data), p, comment, user, userType, now) && isNew == old(isNew)
      ensures modified == Mark(old(modified), isNew, if ProgressAssignsStatus(old(data), p) then {TaskStatusPath} else {},
        old(data), data)
    {
      var before := data;
      var oldProgress := data.progress;
      data := data.(progress := ClampProgress(p));
      if Truthy(comment) {
        data := data.(comments := data.comments + [TaskComment(user, userType, ProgressText(oldProgress, p) + ": " + comment.value, now, false)]);
      } else {
        data := data.(comments := data.comments + [TaskComment(user, userType, ProgressText(oldProgress, p), now, true)]);
      }
      if p == 100 && data.status != TaskCompleted {
        MarkAsCompleted(user, userType, COMPLETED_NOTE, now);
      } else if 0 < p < 100 && data.status == Pending {
        UpdateStatus(InProgress, user, userType, PROGRESS_STARTED_NOTE, now);
      }
    }

    /** `addComment(user, userType, comment)` at time `now`. */
    method AddComment(user: nat, userType: UserType, comment: string, now: Instant)
      modifies this
      ensures data == Commented(old(data), user, userType, comment, now)
      ensures isNew == old(isNew) && modified == old(modified)
    {
      data := data.(comments := data.comments + [TaskComment(user, userType, comment, now, false)]);
    }

    /** `rejectTask(reason, rejectedBy, note)` at time `now`. */
    method RejectTask(reason: string, rejectedBy: nat, note: string, now: Instant)
      modifies this
      ensures data == RejectedTask(old(data), reason, rejectedBy, note, now) && isNew == old(isNew)
      ensures modified == Mark(old(modified), isNew, {TaskStatusPath}, old(data), data)
    {
      var before := data;
      data := data.(status := Rejected);
      data := data.(rejectionReason := Some(reason));
      data := data.(completedAt := Some(now));
      data := data.(retentionPeriod := Permanent);
      data := data.(statusHistory := data.statusHistory + [HistoryEntry(Rejected, now, rejectedBy, AdminUser, note)]);
      data := data.(comments := data.comments + [TaskComment(rejectedBy, AdminUser, REJECTED_PREFIX + reason, now, false)]);
      modified := Mark(modified, isNew, {TaskStatusPath}, before, data);
    }

    /** The pre-save hook at time `now`, run by `save()` after validation and timestamps;
        `ok` is false when it calls `next` with the due-date error. */
    method PreSaveHook(now: Instant) returns (ok: bool)
      modifies this
      ensures data == TaskPreSave(old(data), old(isNew), old(modified), now)
      ensures isNew == old(isNew) && modified == old(modified)
      ensures ok <==> !HookRejects(data, modified, now)
    {
      if isNew {
        data := data.(retentionPeriod := GracePeriod);
        data := data.(statusHistory := data.statusHistory + [CreatedEntry(data, now)]);
      }
      ghost var t1 := data;
      if TaskStatusPath in modified {
        data := data.(statusHistory := data.statusHistory + [StatusChangedEntry(data, now)]);
        if data.status == TaskCompleted && data.scheduledDeletionDate.None? {
          data := data.(retentionPeriod := CompletedStorage);
          data := data.(completedAt := Some(now));
          SetScheduledDeletionDate();
        }
        if data.status != TaskCompleted && GracePeriodOver(data, now) {
          data := data.(retentionPeriod := Permanent);
        }
        assert data == StatusChangeHandled(t1, now);
      }
      if data.retentionPeriod == GracePeriod && GracePeriodOver(data, now) {
        if data.status == TaskCompleted {
          data := data.(retentionPeriod := CompletedStorage);
          SetScheduledDeletionDate();
        } else {
          data := data.(retentionPeriod := Permanent);
        }
      }
      ok := !(DueDatePath in modified && AtOrBefore(data.dueDate, now));
    }
  }

  // ---------------------------------------------------------------------------------------
  // Lemmas: dates
  // ---------------------------------------------------------------------------------------

  /** The deletion date is the 15th at 23:59:59.999, three to five months after completion:
      three months exactly when the task was completed on or before the 15th, more when a
      later day, or a day that `setMonth` overflows, pushes it on. It always lies after the
      completion. */
  lemma ScheduledDeletionDateShape(c: Instant)
    ensures var r := ScheduledDeletionDate(c);
      var k := MonthIndex(r) - MonthIndex(c);
      r.day == DELETION_DAY && r.ms == END_OF_DAY_MS && 3 <= k <= 5 && (k == 3 <==> c.day <= DELETION_DAY)
      && Before(c, r)
  {
    var e := DeletionMonth(c);
    DeletionMonthOffset(c);
    var r := ScheduledDeletionDate(c);
    assert SetDate(e, DELETION_DAY) == Civil(e.year, e.month, DELETION_DAY, e.ms);
    assert MonthIndex(r) == MonthIndex(e);
    MonthIndexOrder(c, r);
  }

  lemma DeletionMonthOffset(c: Instant)
    ensures var k := MonthIndex(DeletionMonth(c)) - MonthIndex(c);
      3 <= k <= 5 && (k == 3 <==> c.day <= DELETION_DAY)
  {
    var d := SetMonth(c, c.month + 3);
    SetMonthForward(c, 3);
    if d.day > DELETION_DAY {
      SetMonthForward(d, 1);
    }
  }

  /** A task completed on 10 January is deleted after 15 April. */
  lemma ScheduledDeletionDateJanuary10()
    ensures ScheduledDeletionDate(Civil(2024, 0, 10, 0)) == Civil(2024, 3, 15, END_OF_DAY_MS)
  {
    assert SetMonth(Civil(2024, 0, 10, 0), 3) == Civil(2024, 3, 10, 0);
  }

  /** A task completed on 31 May is deleted after 15 October, five months on: 31 August is
      past the 15th, and 31 September overflows into October. */
  lemma ScheduledDeletionDateMay31()
    ensures ScheduledDeletionDate(Civil(2024, 4, 31, 0)) == Civil(2024, 9, 15, END_OF_DAY_MS)
  {
    var d := SetMonth(Civil(2024, 4, 31, 0), 7);
    assert d == Civil(2024, 7, 31, 0);
    assert SetMonth(d, 8) == NormDay(2024, 8, 31, 0);
    NormDayOneStep(2024, 8, 31, 0);
    assert SetMonth(d, 8) == Civil(2024, 9, 1, 0);
  }

  /** A task saved for the first time at `now` is inside its grace period. */
  lemma GracePeriodFresh(t: Task, now: Instant)
    requires t.createdAt.None? || t.createdAt == Some(now)
    ensures !GracePeriodOver(t, now)
  {
    MonthsBackBefore(now, 3);
  }

  /** The grace period can end and then resume a day later: three months before 31 May is
      31 February, which overflows to 3 March, while three months before 1 June is 1 March.
      A task created on 2 March is over on 31 May and not over on 1 June. */
  lemma GracePeriodNotMonotone(t: Task)
    requires t.createdAt == Some(Civil(2023, 2, 2, 0))
    ensures GracePeriodOver(t, Civil(2023, 4, 31, 0))
    ensures !GracePeriodOver(t, Civil(2023, 5, 1, 0))
  {
    ThreeMonthsBeforeMay31();
    ThreeMonthsBeforeJune1();
  }

  lemma ThreeMonthsBeforeMay31()
    ensures ThreeMonthsAgo(Civil(2023, 4, 31, 0)) == Civil(2023, 2, 3, 0)
  {
    assert ThreeMonthsAgo(Civil(2023, 4, 31, 0)) == MakeDate(2023, 1, 31, 0);
    assert MakeDate(2023, 1, 31, 0) == NormDay(2023, 1, 31, 0);
    assert DaysInMonth(2023, 1) == 28;
    NormDayOneStep(2023, 1, 31, 0);
  }

  lemma ThreeMonthsBeforeJune1()
    ensures ThreeMonthsAgo(Civil(2023, 5, 1, 0)) == Civil(2023, 2, 1, 0)
  {
    assert SetMonth(Civil(2023, 5, 1, 0), 2) == MakeDate(2023, 2, 1, 0);
  }

  // ---------------------------------------------------------------------------------------
  // Lemmas: the workflow
  // ---------------------------------------------------------------------------------------

  /** `updateStatus` appends one entry with the given note, or the "from X to Y" note when it
      is empty; completing appends a second entry, from `markAsCompleted`, with the given note
      as it is. */
  lemma UpdateStatusEntries(t: Task, newStatus: TaskStatus, user: nat, userType: UserType, note: string, now: Instant)
    ensures var r := StatusUpdated(t, newStatus, user, userType, note, now);
      var first := HistoryEntry(newStatus, now, user, userType, StatusNote(t.status, newStatus, note));
      r.status == newStatus && r.comments == t.comments
      && (newStatus != TaskCompleted ==> r.statusHistory == t.statusHistory + [first])
      && (newStatus == TaskCompleted ==>
            r.statusHistory == t.statusHistory + [first, HistoryEntry(TaskCompleted, now, user, userType, note)]
            && r.completedAt == Some(now) && r.retentionPeriod == CompletedStorage && r.progress == 100)
      && (note == "" ==> first.note == "Status changed from " + StatusName(t.status) + " to " + StatusName(newStatus))
  {
    var first := HistoryEntry(newStatus, now, user, userType, StatusNote(t.status, newStatus, note));
    if newStatus == TaskCompleted {
      var second := HistoryEntry(TaskCompleted, now, user, userType, note);
      assert t.statusHistory + [first] + [second] == t.statusHistory + [first, second];
    }
  }

  /** Completing an open task through `updateStatus` and then saving it leaves three new
      history entries: the two of the method and the hook's "Status changed to completed".
      The hook keeps the deletion date the method set. */
  lemma UpdateStatusCompletedSaved(t: Task, user: nat, userType: UserType, note: string, now: Instant)
    requires t.status != TaskCompleted
    ensures var r := StatusUpdated(t, TaskCompleted, user, userType, note, now);
      var h := TaskPreSave(r, false, Mark({}, false, {TaskStatusPath}, t, r), now);
      |h.statusHistory| == |t.statusHistory| + 3
      && h.statusHistory[..|t.statusHistory|] == t.statusHistory
      && h.statusHistory[|t.statusHistory| + 2] == HistoryEntry(TaskCompleted, now, t.assignedTo, StaffUser, "Status changed to completed")
      && h.scheduledDeletionDate == Some(ScheduledDeletionDate(now)) && h.retentionPeriod == CompletedStorage
  {
    UpdateStatusEntries(t, TaskCompleted, user, userType, note, now);
    var r := StatusUpdated(t, TaskCompleted, user, userType, note, now);
    assert TaskStatusPath in Differs(t, r);
    var a := r.(statusHistory := r.statusHistory + [StatusChangedEntry(r, now)]);
    assert StatusChangeHandled(r, now) == a;
  }

  /** `updateProgress` stores the clamped value and appends exactly one comment, a system
      comment exactly when no text was given. */
  lemma ProgressComments(t: Task, p: int, comment: Option<string>, user: nat, userType: UserType, now: Instant)
    ensures var r := ProgressUpdated(t, p, comment, user, userType, now);
      r.progress == ClampProgress(p) && 0 <= r.progress <= 100
      && r.comments == t.comments + [ProgressComment(t.progress, p, comment, user, userType, now)]
      && (r.comments[|t.comments|].isSystem <==> !Truthy(comment))
  {
  }

  /** The status coupling reads the raw argument: 100 completes a task in any other status,
      rejected and cancelled ones included; a value strictly between 0 and 100 starts a
      pending task; anything else leaves the status and the history alone. */
  lemma ProgressCoupling(t: Task, p: int, comment: Option<string>, user: nat, userType: UserType, now: Instant)
    ensures var r := ProgressUpdated(t, p, comment, user, userType, now);
      (p == 100 && t.status != TaskCompleted ==>
         r.status == TaskCompleted && r.completedAt == Some(now) && r.retentionPeriod == CompletedStorage
         && r.statusHistory == t.statusHistory + [HistoryEntry(TaskCompleted, now, user, userType, COMPLETED_NOTE)])
      && (0 < p < 100 && t.status == Pending ==>
            r.status == InProgress
            && r.statusHistory == t.statusHistory + [HistoryEntry(InProgress, now, user, userType, PROGRESS_STARTED_NOTE)])
      && (!ProgressAssignsStatus(t, p) ==> r.status == t.status && r.statusHistory == t.statusHistory)
  {
  }

  /** 150 is stored as 100 and does not complete the task. */
  lemma ProgressAboveHundred(t: Task, p: int, comment: Option<string>, user: nat, userType: UserType, now: Instant)
    requires p > 100
    ensures var r := ProgressUpdated(t, p, comment, user, userType, now);
      r.progress == 100 && r.status == t.status && r.completedAt == t.completedAt
  {
  }

  /** A comment is accepted by the next save exactly when it is not empty and its JavaScript
      length, in UTF-16 code units, is at most 500. */
  lemma CommentSaves(t: Task, user: nat, userType: UserType, comment: string, now: Instant)
    requires TaskValid(t, now)
    ensures TaskValid(Commented(t, user, userType, comment, now), now) <==>
      comment != "" && Utf16Length(comment) <= COMMENT_MAX_LENGTH
  {
    var r := Commented(t, user, userType, comment, now);
    assert r.comments[|t.comments|].comment == comment;
    if comment != "" && Utf16Length(comment) <= COMMENT_MAX_LENGTH {
      forall i | 0 <= i < |r.comments|
        ensures CommentFits(r.comments[i])
      {
        if i < |t.comments| {
          assert r.comments[i] == t.comments[i];
        }
      }
    }
  }

  /** The limit counts code units, not characters: 300 copies of U+1F600, two code units
      each, are too long a comment, while 300 copies of 'a' fit. */
  lemma CommentOfAstralCharacters(t: Task, user: nat, userType: UserType, now: Instant)
    requires TaskValid(t, now)
    ensures !TaskValid(Commented(t, user, userType, seq(300, _ => '\U{1F600}'), now), now)
    ensures TaskValid(Commented(t, user, userType, seq(300, _ => 'a'), now), now)
  {
    var emoji: string := seq(300, _ => '\U{1F600}');
    var plain: string := seq(300, _ => 'a');
    Utf16LengthCounts(emoji);
    Utf16LengthCounts(plain);
    CommentSaves(t, user, userType, emoji, now);
    CommentSaves(t, user, userType, plain, now);
  }

  /** `rejectTask` accepts any reason, the empty one included, and the next save accepts the
      rejection exactly when the reason has a JavaScript length of at most 485 and the note at
      most 200: the 500 allowed for the reason are not all available, because the comment
      "Task rejected: <reason>" is limited to 500 as well. */
  lemma RejectionSaves(t: Task, reason: string, rejectedBy: nat, note: string, now: Instant)
    requires TaskValid(t, now)
    ensures TaskValid(RejectedTask(t, reason, rejectedBy, note, now), now) <==>
      Utf16Length(reason) <= COMMENT_MAX_LENGTH - |REJECTED_PREFIX| && Utf16Length(note) <= NOTE_MAX_LENGTH
    ensures COMMENT_MAX_LENGTH - |REJECTED_PREFIX| == 485
    ensures TaskValid(RejectedTask(t, "", rejectedBy, REJECTED_NOTE, now), now)
  {
    RejectionSavesWith(t, reason, rejectedBy, note, now);
    RejectionSavesWith(t, "", rejectedBy, REJECTED_NOTE, now);
    Utf16LengthCounts(REJECTED_NOTE);
    Utf16LengthCounts("");
  }

  lemma RejectionSavesWith(t: Task, reason: string, rejectedBy: nat, note: string, now: Instant)
    requires TaskValid(t, now)
    ensures TaskValid(RejectedTask(t, reason, rejectedBy, note, now), now) <==>
      Utf16Length(reason) <= COMMENT_MAX_LENGTH - |REJECTED_PREFIX| && Utf16Length(note) <= NOTE_MAX_LENGTH
  {
    var r := RejectedTask(t, reason, rejectedBy, note, now);
    var n, k := |t.statusHistory|, |t.comments|;
    assert r.statusHistory[n].note == note;
    assert r.comments[k].comment == REJECTED_PREFIX + reason;
    Utf16LengthConcat(REJECTED_PREFIX, reason);
    Utf16LengthCounts(REJECTED_PREFIX);
    if Utf16Length(reason) <= COMMENT_MAX_LENGTH - |REJECTED_PREFIX| && Utf16Length(note) <= NOTE_MAX_LENGTH {
      forall i | 0 <= i < |r.statusHistory|
        ensures NoteFits(r.statusHistory[i])
      {
        if i < n {
          assert r.statusHistory[i] == t.statusHistory[i];
        }
      }
      forall i | 0 <= i < |r.comments|
        ensures CommentFits(r.comments[i])
      {
        if i < k {
          assert r.comments[i] == t.comments[i];
        }
      }
    }
  }

  // ---------------------------------------------------------------------------------------
  // Lemmas: the pre-save hook
  // ---------------------------------------------------------------------------------------

  /** A task saved for the first time, with a defaulted status, enters its grace period and
      gets the history entry "Task created" by its assigning administrator at the creation
      time. */
  lemma NewTaskHooked(t: Task, modified: set<TaskPath>, now: Instant)
    requires t.createdAt.None? && TaskStatusPath !in modified
    ensures var h := TaskPreSave(Timestamped(t, true, now), true, modified, now);
      h.retentionPeriod == GracePeriod && h.createdAt == Some(now)
      && h.statusHistory == t.statusHistory + [HistoryEntry(Pending, now, t.assignedBy, AdminUser, CREATED_NOTE)]
      && h.scheduledDeletionDate == t.scheduledDeletionDate && h.completedAt == t.completedAt
  {
    var s := Timestamped(t, true, now);
    GracePeriodFresh(s, now);
  }

  /** Saving a task whose status was modified records the change, attributed to the assigned
      staff member; a completed task without a deletion date is completed now, put in
      completed storage and given the deletion date of now. */
  lemma StatusChangeRecorded(t: Task, modified: set<TaskPath>, now: Instant)
    requires TaskStatusPath in modified
    ensures var h := TaskPreSave(t, false, modified, now);
      h.statusHistory == t.statusHistory + [StatusChangedEntry(t, now)]
      && (t.status == TaskCompleted && t.scheduledDeletionDate.None? ==>
            h.retentionPeriod == CompletedStorage && h.completedAt == Some(now)
            && h.scheduledDeletionDate == Some(ScheduledDeletionDate(now)))
  {
  }

  /** Saving a task whose grace period is over ends the grace period: in completed storage
      when it is completed, permanently otherwise. */
  lemma GracePeriodEndsOnSave(t: Task, modified: set<TaskPath>, now: Instant)
    requires t.retentionPeriod == GracePeriod && GracePeriodOver(t, now)
    ensures TaskPreSave(t, false, modified, now).retentionPeriod ==
      if t.status == TaskCompleted then CompletedStorage else Permanent
  {
  }

  /** Validation runs before the hook and already demands a due date in the future, so the
      hook's own due-date check never fires on a task that got that far. */
  lemma HookCheckUnreachable(t: Task, isNew: bool, modified: set<TaskPath>, now: Instant)
    requires TaskValid(t, now)
    ensures !HookRejects(TaskPreSave(Timestamped(t, isNew, now), isNew, modified, now), modified, now)
  {
  }

  /** An overdue task fails validation, so it cannot be saved again, whatever is modified. */
  lemma OverdueCannotSave(t: Task, now: Instant)
    ensures IsOverdue(t, now) ==> !TaskValid(t, now)
    ensures AtOrBefore(t.dueDate, now) <==> !Before(now, t.dueDate)
  {
  }

  // ---------------------------------------------------------------------------------------
  // Lemmas: append-only history and comments
  // ---------------------------------------------------------------------------------------

  /** The operations a task goes through: its instance methods and a save. */
  datatype TaskOp =
    | MarkAsCompletedOp(user: nat, userType: UserType, note: string)
    | UpdateStatusOp(newStatus: TaskStatus, user: nat, userType: UserType, note: string)
    | UpdateProgressOp(progress: int, comment: Option<string>, user: nat, userType: UserType)
    | AddCommentOp(user: nat, userType: UserType, text: string)
    | RejectOp(reason: string, rejectedBy: nat, note: string)
    | SetDeletionDateOp
    | SaveOp(isNew: bool, modified: set<TaskPath>)

  function Apply(t: Task, op: TaskOp, now: Instant): Task {
    match op
    case MarkAsCompletedOp(user, userType, note) => MarkedCompleted(t, user, userType, note, now)
    case UpdateStatusOp(s, user, userType, note) => StatusUpdated(t, s, user, userType, note, now)
    case UpdateProgressOp(p, comment, user, userType) => ProgressUpdated(t, p, comment, user, userType, now)
    case AddCommentOp(user, userType, comment) => Commented(t, user, userType, comment, now)
    case RejectOp(reason, rejectedBy, note) => RejectedTask(t, reason, rejectedBy, note, now)
    case SetDeletionDateOp => WithDeletionDate(t)
    case SaveOp(isNew, modified) => TaskPreSave(Timestamped(t, isNew, now), isNew, modified, now)
  }

  /** The operations in order, each at its own time. */
  function ApplyAll(t: Task, ops: seq<(TaskOp, Instant)>): Task
    decreases |ops|
  {
    if ops == [] then t else ApplyAll(Apply(t, ops[0].0, ops[0].1), ops[1..])
  }

  ghost predicate Extends<T>(a: seq<T>, b: seq<T>) {
    |a| <= |b| && b[..|a|] == a
  }

  lemma ExtendsTrans<T>(a: seq<T>, b: seq<T>, c: seq<T>)
    requires Extends(a, b) && Extends(b, c)
    ensures Extends(a, c)
  {
    Prefix3(a, b, c);
  }

  lemma ExtendsAppend<T>(a: seq<T>, xs: seq<T>)
    ensures Extends(a, a + xs)
  {
    assert (a + xs)[..|a|] == a;
  }

  /** No operation removes or changes a history entry or a comment. */
  lemma ApplyAppendOnly(t: Task, op: TaskOp, now: Instant)
    ensures Extends(t.statusHistory, Apply(t, op, now).statusHistory)
    ensures Extends(t.comments, Apply(t, op, now).comments)
  {
    var r := Apply(t, op, now);
    match op
    case MarkAsCompletedOp(user, userType, note) =>
      ExtendsAppend(t.statusHistory, [HistoryEntry(TaskCompleted, now, user, userType, note)]);
    case UpdateStatusOp(s, user, userType, note) =>
      UpdateStatusEntries(t, s, user, userType, note, now);
      ExtendsAppend(t.statusHistory, r.statusHistory[|t.statusHistory|..]);
      assert t.statusHistory + r.statusHistory[|t.statusHistory|..] == r.statusHistory;
    case UpdateProgressOp(p, comment, user, userType) =>
      ProgressComments(t, p, comment, user, userType, now);
      ProgressCoupling(t, p, comment, user, userType, now);
      ExtendsAppend(t.comments, [ProgressComment(t.progress, p, comment, user, userType, now)]);
      ExtendsAppend(t.statusHistory, r.statusHistory[|t.statusHistory|..]);
    case AddCommentOp(user, userType, comment) =>
      ExtendsAppend(t.comments, [TaskComment(user, userType, comment, now, false)]);
    case RejectOp(reason, rejectedBy, note) =>
      ExtendsAppend(t.statusHistory, [HistoryEntry(Rejected, now, rejectedBy, AdminUser, note)]);
      ExtendsAppend(t.comments, [TaskComment(rejectedBy, AdminUser, REJECTED_PREFIX + reason, now, false)]);
    case SetDeletionDateOp =>
    case SaveOp(isNew, modified) =>
  }

  /** Over any sequence of operations the history and the comments only grow. */
  lemma {:induction false} ApplyAllAppendOnly(t: Task, ops: seq<(TaskOp, Instant)>)
    ensures Extends(t.statusHistory, ApplyAll(t, ops).statusHistory)
    ensures Extends(t.comments, ApplyAll(t, ops).comments)
    decreases |ops|
  {
    if ops != [] {
      var t1 := Apply(t, ops[0].0, ops[0].1);
      ApplyAppendOnly(t, ops[0].0, ops[0].1);
      ApplyAllAppendOnly(t1, ops[1..]);
      ExtendsTrans(t.statusHistory, t1.statusHistory, ApplyAll(t1, ops[1..]).statusHistory);
      ExtendsTrans(t.comments, t1.comments, ApplyAll(t1, ops[1..]).comments);
    }
  }
}
