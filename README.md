# Online attendance: record lifecycle and access control

This project models the server-side core of the online-attendance application in Dafny:

- the staff login and logout flows, with their network allow-list gate;
- the attendance session record: derived fields, its pre-save hook, the ways a session closes, the retention purge and the stale-session sweeps;
- the task record: its workflow status, its retention classification and deletion dates, progress and comments, and the sweeps of the scheduled cleanup jobs;
- the construction of a staff member's allow-list by the two staff-creation routes;
- read receipts of group chat messages;
- the daily attendance summary.

Dates are civil dates, an `Instant` of year, month, day and millisecond of the day, in one fixed time zone. JavaScript's `setMonth` / `setDate` overflow is reproduced by `CivilDate.NormDay`, so 31 January plus one month is 3 March. The clock is never read: every request or job takes the current time `now` as a parameter.

## Layout

Each module follows one source file; the modules below it support them.

- `ip_utils.dfy` (`IpUtils`): `getClientIP`, `validateIP`, `isIPInCIDR`, `ipToInt`.
  - `JsRuntime` (`js_runtime.dfy`) supplies the JavaScript string operations they use (`trim`, `split`, `parseInt`, `toLowerCase`, `String(n)`).
  - `JsBits` (`js_bits.dfy`) supplies the 32-bit integer semantics of `<<`, `&` and `>>> 0`.
- `attendance_record.dfy` (`AttendanceRecord`): the session record of `src/models/logTime.js` as a value, with its virtuals, its methods as functions, and the pre-save hook as a function of `isNew` and the set of modified paths.
- `attendance_store.dfy` (`AttendanceStore`): the attendance collection.
  - A class `SessionDoc`: a document, whose methods change its fields in place.
  - A class `Attendance`: a `seq` of stored records, with `save()`, the purge and the stale-session sweep.
- `attendance_utils.dfy` (`AttendanceUtils`): the inactivity sweep and the statistics window of `src/app/utils/attendanceUtils.js`.
- `staff_model.dfy` (`StaffModel`): the Staff collection.
- The routes: the login route (`login_route.dfy`), the logout route (`logout_route.dfy`), the status route (`status_route.dfy`), and the two staff-creation routes (`admin_staff_route.dfy`, `add_staff_route.dfy`).
- `task_record.dfy` (`TaskRecord`): the task record as a value, plus a `TaskDoc` class whose methods update a document in place.
- `task_store.dfy` (`TaskStore`): the task collection and its two sweeps.
- `task_cleanup.dfy` (`TaskCleanup`): the bodies of the scheduled jobs, `manualCleanup` and `getNextCleanupDate`.
- `chat.dfy` (`Chat`): `markAsRead`.
- Shared support: `civil_date.dfy`, `wrappers.dfy` and `seq_facts.dfy`.

## How the persistence layer is modelled

- A collection is a sequence in storage order.
- `findOne` returns the first match.
- `find` returns all matches, in order.
- `deleteMany` keeps the non-matching records.
- `updateMany` sets a field on the matching records where they stand.
- `save()` runs, in this order:
  1. the schema validators, on every path;
  2. the timestamps (tasks only);
  3. the pre-save hook;
  4. the write: a new document is appended (a stored id is refused as a duplicate key), an existing one replaces the record with its id.
- Object ids are natural numbers handed out by a counter.
- A method of a document that changes fields also records which paths it modified. Those paths are what `isModified` sees.

## Behaviour of the code that the model keeps

Some of what the code does differs from what its comments and names suggest. The model follows the code in each case below, and names the lemma that shows it.

- The task schema validator `dueDate > Date.now()` runs on every save, not only when the due date changes. So:
  - an overdue task can never be saved again (`TaskRecord.OverdueCannotSave`);
  - the hook's own due-date check can never fire (`TaskRecord.HookCheckUnreachable`).
- `rejectTask` accepts an empty reason. The reason goes into a comment "Task rejected: <reason>", which is limited to 500, so a reason longer than 485 makes the next save fail (`TaskRecord.RejectionSaves`). Mongoose's `maxlength` counts UTF-16 code units (`String.length`), so a character outside the Basic Multilingual Plane counts twice (`JsRuntime.Utf16Length`, `TaskRecord.CommentOfAstralCharacters`).
- `updateProgress` tests the raw argument:
  - 100 completes even a rejected or cancelled task;
  - 150 is stored as 100 but completes nothing (`TaskRecord.ProgressCoupling`, `TaskRecord.ProgressAboveHundred`).
- Completing a task through `updateStatus` and saving it leaves three new history entries, not two (`TaskRecord.UpdateStatusCompletedSaved`).
- The grace period of a task is not monotone in time. For a task created on 2 March:
  - on 31 May it is over;
  - on 1 June it is not, because 31 February overflows to 3 March (`TaskRecord.GracePeriodNotMonotone`).
- `updateRetentionPeriods` dates completed tasks one by one. It stops at the first save that fails validation, for example an overdue task. By then both `updateMany` calls have taken effect, and the monthly job logs the error (`TaskStore.OverdueCompletedAbortsSweep`, `TaskStore.AbortedSweepKeepsReclassified`).
- The monthly job's log line interpolates the counts object, so it prints "[object Object]" instead of the number of updated retention periods (`TaskCleanup.CleanupMessageReadsBack`).
- The weekly job run right after the monthly job deletes nothing only when no old completed task without a deletion date is dated into the past by the sweep (`TaskCleanup.WeeklyAfterMonthly`). `TaskCleanup.WeeklyAfterMonthlyDeletesLegacy` shows the other case.
- `getNextCleanupDate` can skip a run:
  - on 31 January it returns 16 March (`TaskCleanup.NextCleanupJanuary31`);
  - on the 16th before 02:00 it returns the next month's run, not the run later that day (`TaskCleanup.NextCleanupSkipsToday`).
- In an allow-list wildcard entry:
  - the dots are not escaped, so they match any character;
  - `*` matches a digit run of any length (`IpUtils.WildcardUnescapedDots`, `IpUtils.WildcardUnboundedDigits`).
- A CIDR prefix above 32 wraps modulo 32 in the shift count, so "/40" acts as "/8" (`IpUtils.CidrLongPrefixWraps`).
- The user-agent rules are checked in order:
  - any agent naming "linux", Android ones included, is classified as Linux;
  - Chromium Edge agents are Edge, as the order of the rules intends (`AttendanceRecord.OsShadowing`, `AttendanceRecord.EdgeAgents`).

## Model

| member | source | states |
|---|---|---|
| IpUtils.FirstTruthy | src/lib/ipUtils.js:21 | With no truthy candidate the result is the fallback |
| IpUtils.FirstTruthyPicksFirst | src/lib/ipUtils.js:21 | `a \|\| b \|\| ... \|\| fallback` yields the first truthy candidate, whatever follows it |
| IpUtils.ForwardedForWins | src/lib/ipUtils.js:15-18 | A non-empty X-Forwarded-For header decides the address: its first comma-separated token, trimmed |
| IpUtils.FallbackOrder | src/lib/ipUtils.js:10-12 | Without X-Forwarded-For, the address is the first truthy one of X-Real-IP, CF-Connecting-IP, X-Client-IP and the connection, socket and request addresses |
| IpUtils.LoopbackDefault | src/lib/ipUtils.js:21 | With no usable header and no connection address, the address is 127.0.0.1 |
| IpUtils.IpToInt | src/lib/ipUtils.js:68-70 | The result of the fold, taken as unsigned, lies below 2^32 |
| IpUtils.IpToIntRoundsLongPieces | src/lib/ipUtils.js:68-70 | A piece beyond 2^53 is read with a double's precision: the digits of 2^53 + 1, whose low 32 bits are 1, give 0 |
| IpUtils.IpToIntDotted | src/lib/ipUtils.js:68-70 | A well-formed quad a.b.c.d reads as a·2^24 + b·2^16 + c·2^8 + d, the last shift's wrap to a negative value undone by `>>> 0` |
| IpUtils.FoldFour | src/lib/ipUtils.js:69 | The left fold `(acc << 8) + octet` over four octets is their base-256 value |
| IpUtils.LastOctetStep | src/lib/ipUtils.js:69 | The last step can wrap to a negative 32-bit value; `>>> 0` recovers the unsigned value |
| IpUtils.MaskShiftOf | src/lib/ipUtils.js:58 | The shift count of the mask is 32 - p for p in 1..32, 0 for "/0", and 64 - p for p in 33..63 |
| IpUtils.MaskClears | src/lib/ipUtils.js:58-61 | `ip & mask` is the address with the low bits the mask shifts out cleared |
| IpUtils.CidrMatchesShift | src/lib/ipUtils.js:48-61 | An address is in a CIDR block exactly when it agrees with the network address above the bits the shift clears |
| IpUtils.PrefixLengthOf | src/lib/ipUtils.js:50-51 | For `network/suffix` the network is the text before '/' and the prefix is `parseInt(suffix, 10)` |
| IpUtils.CidrPrefixSemantics | src/lib/ipUtils.js:48-61 | For a prefix p in 1..32, an address is in network/p exactly when its top p bits equal the network's (RFC 4632, section 3.1) |
| IpUtils.CidrSlashZeroIsExact | src/lib/ipUtils.js:58 | A "/0" entry, or one whose prefix is not a number or too long a digit string to be a finite double, has the all-ones mask and admits only the network address itself |
| IpUtils.CidrLongPrefixWraps | src/lib/ipUtils.js:58 | A prefix from 33 to 63 acts as that prefix less 32 |
| IpUtils.CidrExamples | src/lib/ipUtils.js:48-61 | With the network 10.0.0.0, "/24" admits 10.0.0.5 and not 10.0.1.5 |
| IpUtils.WildMatchNoStar | src/lib/ipUtils.js:38-40 | A pattern without '*' matches exactly the strings of its length that agree with it character by character, where an unescaped '.' matches any character but a line terminator |
| IpUtils.TrailingStar | src/lib/ipUtils.js:38 | A lone '*' matches exactly the non-empty digit runs |
| IpUtils.PrefixStar | src/lib/ipUtils.js:38-40 | A '*'-free prefix followed by '*' matches a string exactly when the string agrees with the prefix and continues with one or more digits, and nothing more |
| IpUtils.WildcardAdmits | src/lib/ipUtils.js:37-40 | 192.168.1.* admits 192.168.1.5 |
| IpUtils.WildcardRejects | src/lib/ipUtils.js:37-40 | 192.168.1.* does not admit 192.168.2.5 |
| IpUtils.WildcardUnboundedDigits | src/lib/ipUtils.js:38 | 192.168.1.* admits 192.168.1.12345: the digit run has no upper bound |
| IpUtils.WildcardUnescapedDots | src/lib/ipUtils.js:38-39 | 192.168.1.* admits 192x168x1x5: the dots are not escaped |
| IpUtils.SomeEntryMatchesIff | src/lib/ipUtils.js:30-45 | `some` over the entries holds exactly when one entry admits the address |
| IpUtils.ValidateIpMeaning | src/lib/ipUtils.js:24-46 | An absent or empty list admits every address; otherwise an address is admitted exactly when some entry admits it |
| IpUtils.ExactEntry | src/lib/ipUtils.js:32-44 | An entry with neither '/' nor '*' admits exactly the identical address |
| JsRuntime.TrimShape | src/app/api/admin/staff/route.js:42 | `trim` leaves a piece of the input, with only whitespace around it and none at its ends |
| JsRuntime.TrimIdempotent | src/app/api/admin/staff/route.js:42 | Trimming twice is trimming once |
| JsRuntime.TrimEmptyIffAllSpace | src/app/api/admin/staff/route.js:40-43 | The trimmed string is empty exactly when the input is all whitespace |
| JsRuntime.SplitJoin | src/app/api/admin/staff/route.js:42 | Joining the pieces of `split` with the separator gives back the string |
| JsRuntime.JoinSplit | src/app/api/admin/staff/route.js:42 | Splitting a join of separator-free pieces gives back the pieces |
| JsRuntime.ToLowerIdempotent | src/models/logTime.js:166 | Lower-casing twice is lower-casing once |
| JsRuntime.ToLowerConcat | src/models/logTime.js:166 | Lower-casing is character by character: it distributes over concatenation |
| JsRuntime.ToLowerKeeps | src/models/logTime.js:166 | A string with no capital that lowers to ASCII is its own lower case |
| JsRuntime.ToLowerSpecialCapitals | src/models/logTime.js:166 | U+0130 lowers to 'i' followed by U+0307, and the Kelvin sign lowers to 'k' |
| JsRuntime.ParseNatToString | src/lib/ipUtils.js:69 | The decimal text of n reads back as n, and `parseInt` of it is n rounded to the nearest double, which is n itself up to 2^53 |
| JsRuntime.ParseDigitsThen | src/lib/ipUtils.js:51 | `parseInt` stops at the first character that is not a digit; its result is the value of the digits rounded to a double |
| JsRuntime.ToDoubleExact | src/lib/ipUtils.js:69 | An integer of magnitude at most 2^53 is a double: rounding keeps it |
| JsRuntime.ToDoubleNearest | src/lib/ipUtils.js:69 | A finite rounded value has the integer's sign, is a multiple of the spacing of the doubles there, lies at most half a spacing away, and is the even multiple at a tie |
| JsRuntime.RoundMagnitudeNearest | src/lib/ipUtils.js:69 | The rounded magnitude is the nearest multiple of the spacing, ties to the even multiple |
| JsRuntime.TwoToThe53PlusOne | src/lib/ipUtils.js:69 | 2^53 + 1 is not a double and rounds to 2^53 |
| JsRuntime.Utf16LengthConcat | src/models/task.js:387 | The JavaScript length of a concatenation is the sum of the lengths |
| JsRuntime.Utf16LengthCounts | src/models/task.js:116-120 | A string from the Basic Multilingual Plane has one code unit per character, a string of characters beyond it two |
| JsRuntime.Utf16LengthSlice | src/models/logTime.js:64-67 | A piece of a string is no longer than the string |
| JsRuntime.Utf16LengthTrim | src/models/logTime.js:64-67 | Trimming never lengthens a string |
| CivilDate.NormDayEpochDay | src/models/logTime.js:128-130 | Normalising day d of a month keeps its day number, d - 1 days after the 1st, which is how `setDate` overflows |
| CivilDate.MakeDateAgreesWithMakeDay | src/models/logTime.js:128-131 | `new Date(y, m, d)` lands on the day that the MakeDay abstract operation of ECMAScript computes |
| CivilDate.ShiftDaysMillis | src/app/utils/attendanceUtils.js:29-30 | Moving a date k days with `setDate(getDate() + k)` moves its time value by k whole days |
| CivilDate.SetMonthOverflowExample | src/models/logTime.js:129 | 31 January plus one month is 3 March in a common year and 2 March in a leap year |
| CivilDate.BeforeMillis | src/models/logTime.js:366 | The order on civil dates is the order of their time values |
| CivilDate.SetMonthForward | src/models/task.js:273-277 | `setMonth(getMonth() + k)` lands k months on with the same day, or, when that day does not exist there, one month later on day 1 to 3 |
| CivilDate.MonthIndexOrder | src/models/task.js:273-280 | A date in a later month is a later date |
| CivilDate.MonthsBackBefore | src/app/utils/attendanceUtils.js:32-38 | Going one to three months back with `setMonth` always lands before `now` |
| AttendanceRecord.DurationMinutes | src/models/logTime.js:151 | The rounded minutes between login and logout |
| AttendanceRecord.DurationNearest | src/models/logTime.js:151 | The duration is the whole number of minutes nearest to the elapsed time, with halves rounded up |
| AttendanceRecord.AutoDeleteDateShape | src/models/logTime.js:127-133 | The deletion date is day 15 at 23:59:59.999 of the month three months after login, or four when the login day does not exist three months on |
| AttendanceRecord.AutoDeleteDateNovember30 | src/models/logTime.js:128-131 | A login on 30 November is purged after 15 March: 30 February overflows into March |
| AttendanceRecord.AutoDeleteDateJanuary10 | src/models/logTime.js:128-131 | A login on 10 January is purged after 15 April |
| AttendanceRecord.AutoDeleteDateAfterLogin | src/models/logTime.js:127-133 | Every deletion date lies after its login |
| AttendanceRecord.PadStart2Value | src/models/logTime.js:137 | `padStart(2, '0')` of a number below 100 has two characters and reads back as the number |
| AttendanceRecord.MonthYearReadBack | src/models/logTime.js:136-138 | The month key is the year, '-', and the two-digit 1-based month, and both read back |
| AttendanceRecord.MonthYearSameMonth | src/models/logTime.js:136-138 | Two logins in the same calendar month share their month key |
| AttendanceRecord.BrowserRules | src/models/logTime.js:169-174 | The browser rules in their order, each with its exact condition |
| AttendanceRecord.EdgeAgents | src/models/logTime.js:169-172 | An agent naming both chrome and edg is Edge unless it names firefox |
| AttendanceRecord.OsShadowing | src/models/logTime.js:177-182 | An agent naming linux is never Android; "mac os" without windows is MacOS; Android exactly when android is named and windows, macintosh, mac os and linux are not |
| AttendanceRecord.DeviceTypeRules | src/models/logTime.js:185-187 | Mobile wins over tablet, and desktop is the rest |
| AttendanceRecord.ExtractedDeviceInfoIgnoresCase | src/models/logTime.js:166 | Classification ignores letter case |
| AttendanceRecord.SafariWithDottedCapitalI | src/models/logTime.js:166-171 | The agent "SAFARİ", with U+0130 as its last letter, is classified as Safari |
| AttendanceRecord.DottedCapitalIAfter | src/models/logTime.js:166-171 | Any text that lowers to "safar", followed by U+0130, lowers to a text naming safari, so the agent is Safari |
| AttendanceRecord.ExtractedDeviceInfo | src/models/logTime.js:163-188 | An absent or empty agent leaves the device information unchanged; any other sets browser, operating system and device type |
| AttendanceRecord.FormattedDuration | src/models/logTime.js:94-104 | The formatted duration is absent exactly for an absent or zero duration |
| AttendanceRecord.FormatHmReadBack | src/models/logTime.js:94-104 | For a non-negative total the text reads back as its hours, or its minutes when under an hour, and ends in 'm' |
| AttendanceRecord.FormatHmShape | src/models/logTime.js:99-103 | For a non-negative total the text is "Hh Mm" with H = total div 60 and M = total mod 60 when H > 0, else "Mm" |
| AttendanceRecord.FormatHmHours | src/models/logTime.js:99-103 | No total is shown with "0h": the hours appear exactly when they are positive |
| AttendanceRecord.IsLongerThanRules | src/models/logTime.js:238-241 | False for an absent or zero duration; a longer bound implies every shorter one; a 30-minute session is longer than 0 hours and not than 1 |
| AttendanceRecord.ShouldBeDeletedStays | src/models/logTime.js:89-91 | A record due for the purge stays due at every later time |
| AttendanceRecord.LoggedOut | src/models/logTime.js:191-203 | `logLogout` sets the logout time, the status and the duration whatever the record held, and replaces the notes only for a non-empty reason |
| AttendanceRecord.ClosedWith | src/models/logTime.js:206-225 | `forceLogout` / `systemLogout` close at now with their status and always replace the notes |
| AttendanceRecord.LoggedOutOverwrites | src/models/logTime.js:191-203 | Closing a closed record again overwrites the first close |
| AttendanceRecord.PreSaveNew | src/models/logTime.js:126-145 | A new record leaves the hook with its deletion date, month key and device information computed from its login and agent |
| AttendanceRecord.PreSaveExisting | src/models/logTime.js:126 | A stored record keeps its deletion date, month key and device information |
| AttendanceRecord.PreSaveLogout | src/models/logTime.js:148-157 | A modified, set logout time makes the hook recompute the duration, and completes the record only if it is still active |
| AttendanceRecord.PreSaveAfterLogout | src/models/logTime.js:148-157 | After a close with a status other than active, the hook leaves the record as the close left it |
| AttendanceRecord.PreSaveKeepsValid | src/models/logTime.js:125-160 | The hook keeps a valid record valid when its modified logout time is not before its login |
| AttendanceRecord.PreSaveChangesOnlyAssigned | src/models/logTime.js:125-160 | The hook assigns only the paths it names |
| AttendanceStore.FindFirst | src/app/api/staff/logout/route.js:35-48 | `findOne`: the position of the first match in storage order, or none when nothing matches |
| AttendanceStore.FindAllMembers | src/models/logTime.js:365-368 | `find` returns exactly the matching records |
| AttendanceStore.DeleteManyMembers | src/models/logTime.js:370-373 | `deleteMany` keeps exactly the records that do not match |
| AttendanceStore.DayBeforeMillis | src/models/logTime.js:410 | The cutoff is 24 hours, in milliseconds, before now |
| AttendanceStore.SessionDoc.constructor | src/app/api/staff/login/route.js:66-89 | A new document; every assigned path counts as modified |
| AttendanceStore.SessionDoc.Loaded | src/app/api/staff/logout/route.js:35-48 | A document as a query returns it: stored, nothing modified |
| AttendanceStore.SessionDoc.LogLogout | src/models/logTime.js:191-203 | The document holds `LoggedOut` of its old record, with the logout time, status and duration marked modified |
| AttendanceStore.SessionDoc.ForceLogout | src/models/logTime.js:206-214 | The document holds the record closed at now as forced-logout, with the reason as notes |
| AttendanceStore.SessionDoc.SystemLogout | src/models/logTime.js:217-225 | The document holds the record closed at now as system-logout, with the reason as notes |
| AttendanceStore.SessionDoc.ExtractDeviceInfo | src/models/logTime.js:163-188 | The document holds the record with the classified device information |
| AttendanceStore.SessionDoc.PreSaveHook | src/models/logTime.js:125-160 | The document holds the hooked record |
| AttendanceStore.Attendance.constructor | src/models/logTime.js:483 | An empty collection |
| AttendanceStore.Attendance.NewId | src/app/api/staff/login/route.js:66 | An id no stored record has |
| AttendanceStore.Attendance.FindOne | src/app/api/staff/logout/route.js:35-48 | A document for the first match, loaded, or null when nothing matches |
| AttendanceStore.Attendance.GetActiveSessions | src/models/logTime.js:260-274 | Exactly the open sessions, of the given member when one is given |
| AttendanceStore.Attendance.Save | src/app/api/staff/logout/route.js:62 | The collection becomes `SaveResult`: validation, hook, then append or replace by id. Once validation passes, the document holds the hooked record; otherwise its data is unchanged |
| AttendanceStore.Attendance.AutoDeleteOldRecords | src/models/logTime.js:361-390 | The due records are deleted, and returned with their count |
| AttendanceStore.Attendance.CloseStale | src/models/logTime.js:418-421 | Closes one stale record with a system logout at now and saves it in place |
| AttendanceStore.Attendance.SweepStep | src/models/logTime.js:418-421 | One step of the sweep extends the closed prefix |
| AttendanceStore.Attendance.CleanupIncompleteSessions | src/models/logTime.js:409-424 | Every stale record is closed in place, the others are unchanged, and the count of stale records is returned |
| AttendanceStore.SaveReplaces | src/app/api/staff/logout/route.js:62 | Saving a loaded, valid document replaces its stored record where it stands |
| AttendanceStore.SaveAppends | src/app/api/staff/login/route.js:66-89 | Saving a new, valid document whose id is not stored appends the hooked record |
| AttendanceStore.MarkDeletedAfterDelete | src/models/logTime.js:376-384 | The `updateMany` after the `deleteMany` has nothing left to mark |
| AttendanceStore.FindAllDeleteManyCount | src/models/logTime.js:365-373 | The found records and the kept records together are all the records |
| AttendanceStore.PurgeIdempotent | src/models/logTime.js:361-390 | A second purge at the same time finds and deletes nothing |
| AttendanceStore.PurgeMeaning | src/models/logTime.js:361-390 | The purge removes exactly the records that `shouldBeDeleted` reports at now |
| AttendanceStore.PreSaveAfterClosing | src/models/logTime.js:148-157 | Saving a closed record again changes nothing |
| AttendanceStore.StaleCloseSaves | src/models/logTime.js:419-420 | A stale session closed by the sweep passes validation |
| AttendanceStore.CloseEachAt | src/models/logTime.js:418-421 | The sweep closes each matching record where it stands and leaves the others as they were |
| AttendanceStore.CloseEachLeavesNoneStale | src/models/logTime.js:409-424 | After the sweep no record is stale at the same time |
| AttendanceStore.CloseEachMeaning | src/models/logTime.js:409-424 | The sweep leaves the records it does not select unchanged. A selected record keeps its id, staff member and login time. A system logout closes it at now with status systemLogout, the trimmed reason as notes and the recomputed duration. A `logLogout` sweep closes it at the given time with the given status |
| AttendanceUtils.AutoLogoutInactiveSessions | src/app/utils/attendanceUtils.js:4-20 | Every stale session is closed at the cutoff in place, the others are unchanged, and the count is returned |
| AttendanceUtils.InactiveStep | src/app/utils/attendanceUtils.js:13-15 | One step of the sweep extends the closed prefix |
| AttendanceUtils.CloseInactive | src/app/utils/attendanceUtils.js:14-15 | Closes one stale record at the cutoff and saves it in place |
| AttendanceUtils.InactiveCloseSaves | src/app/utils/attendanceUtils.js:5-14 | A stale session closed at the cutoff passes validation: its duration is not negative |
| AttendanceUtils.InactiveClose | src/app/utils/attendanceUtils.js:13-14 | A swept session is logged out at the cutoff, not at now, as system-logout, with a non-negative duration |
| AttendanceUtils.InactiveSweepMeaning | src/app/utils/attendanceUtils.js:5-19 | The sweep closes exactly the active, not logged out sessions that began before the cutoff |
| AttendanceUtils.InactiveSweepRerun | src/app/utils/attendanceUtils.js:5-19 | A second sweep at the same time selects nothing |
| AttendanceUtils.StatsWindowStartMeaning | src/app/utils/attendanceUtils.js:27-43 | Every window starts before now; the week window starts exactly 7 days back; an absent or unknown period is the month window |
| AttendanceUtils.StatsWindowMonthExample | src/app/utils/attendanceUtils.js:32-34 | A month back from 31 March overflows February and starts on 3 March |
| StaffModel.WithoutPassword | src/app/api/admin/staff/route.js:55 | The view keeps every field but the password |
| StaffModel.IndexOfId | src/app/api/staff/login/route.js:23 | The first member with the id, or none exactly when no member has it |
| StaffModel.IndexOfEmail | src/models/staff.js:13 | The first member with the e-mail address, or none exactly when no member has it |
| StaffModel.FindById | src/app/api/staff/login/route.js:23 | `findById` finds a member exactly when one has the id |
| StaffModel.StaffDirectory.constructor | src/models/staff.js:44 | An empty directory |
| StaffModel.StaffDirectory.Create | src/models/staff.js:5-29 | A missing required field fails validation and a taken e-mail address the unique index, changing nothing; otherwise the member is appended with a fresh id and the default role |
| LoginRoute.Login | src/app/api/staff/login/route.js:6-122 | The response and the stored records are those of `LoginOutcome` |
| LoginRoute.SupersedeActive | src/app/api/staff/login/route.js:53-63 | Finds the member's open session, closes it with a system logout at now, and saves it |
| LoginRoute.OpenSession | src/app/api/staff/login/route.js:66-89 | Constructs the new record under a fresh id and saves it |
| LoginRoute.OpenedByHook | src/app/api/staff/login/route.js:74-82 | The deletion date and month key the route writes are those the hook computes |
| LoginRoute.NewSessionValid | src/app/api/staff/login/route.js:66-89 | The new record passes validation exactly when the trimmed client address is not empty |
| LoginRoute.LoginRefusals | src/app/api/staff/login/route.js:10-50 | 400 without a staff id, 404 for an unknown member, 403 with the client address for a refused one; none of them changes the store |
| LoginRoute.NoAllowListNoCheck | src/app/api/staff/login/route.js:38 | A member without an allow-list is never refused, whatever the address |
| LoginRoute.SupersededShape | src/app/api/staff/login/route.js:53-63 | Superseding closes exactly the first open session of the member and keeps every other record |
| LoginRoute.LoginAppends | src/app/api/staff/login/route.js:53-89 | After a successful login the records are the superseded ones followed by the new one |
| LoginRoute.LoginSupersedes | src/app/api/staff/login/route.js:53-63 | The member's first open session, if any, is closed as system-logout at now; no other record changes |
| LoginRoute.LoginOpens | src/app/api/staff/login/route.js:66-110 | The appended record has the fresh id, the member, login time now, status active, and the hook's deletion date and month key |
| LoginRoute.LoginFailures | src/app/api/staff/login/route.js:112-122 | A failed save answers 500: either nothing changed or only the supersede took effect |
| LoginRoute.LoginLeavesOneActive | src/app/api/staff/login/route.js:53-89 | With at most one open session before a successful login, the new record is the member's only open session afterwards |
| LoginRoute.OneOpenAfter | src/app/api/staff/login/route.js:53-89 | Closing the first open session and appending an open one leaves the appended one as the only open session |
| LogoutRoute.Logout | src/app/api/staff/logout/route.js:6-96 | The response and the stored records are those of `LogoutOutcome` |
| LogoutRoute.LogoutRefusals | src/app/api/staff/logout/route.js:9-58 | 400 without a staff id, 404 for an unknown member, 404 when no record is selected; none of them changes the store |
| LogoutRoute.LogoutCloses | src/app/api/staff/logout/route.js:61-84 | A successful logout closes exactly the selected record: completed, logged out at now, duration recomputed |
| LogoutRoute.LogoutByIdAnyStatus | src/app/api/staff/logout/route.js:35-40 | With an attendance id the record is selected by id and staff, whatever its status |
| LogoutRoute.LogoutWithoutIdSelectsOpen | src/app/api/staff/logout/route.js:43-47 | Without an attendance id only an open session of the member is selected |
| LogoutRoute.SecondLogoutWithoutId | src/app/api/staff/logout/route.js:43-58 | With at most one open session, a second logout without an id answers 404 |
| LogoutRoute.SecondLogoutById | src/app/api/staff/logout/route.js:35-62 | A second logout by id at a later time overwrites the first close: the result is that of a single logout at the later time |
| StatusRoute.IsLoggedInIff | src/app/api/staff/attendance/status/route.js:22-28 | `isLoggedIn` holds exactly when the member has an open session, and then that session is shown |
| StatusRoute.TodayIsCalendarDay | src/app/api/staff/attendance/status/route.js:31-40 | Today's sessions are exactly the member's sessions that began on the calendar day of now |
| StatusRoute.TodaySessionsCounted | src/app/api/staff/attendance/status/route.js:51-73 | `totalSessions` is the number of sessions listed, and those are exactly today's sessions |
| StatusRoute.TotalDurationAppend | src/app/api/staff/attendance/status/route.js:43-45 | The fold is a sum: it splits over concatenation |
| StatusRoute.TotalDurationSingle | src/app/api/staff/attendance/status/route.js:44 | A session without a duration adds nothing |
| StatusRoute.TotalDurationNonNegative | src/app/api/staff/attendance/status/route.js:43-45 | Non-negative durations give a non-negative total |
| StatusRoute.TodayFormatted | src/app/api/staff/attendance/status/route.js:47-49 | The formatted total is "0m" without sessions, and reads back as the hours, or the minutes under an hour |
| AdminStaffRoute.TrimEach | src/app/api/admin/staff/route.js:42 | Each piece is trimmed where it stands |
| AdminStaffRoute.DropEmpty | src/app/api/admin/staff/route.js:42 | The filter keeps exactly the non-empty pieces |
| AdminStaffRoute.Post | src/app/api/admin/staff/route.js:20-60 | 400 before any lookup without a required field, 400 for a taken e-mail address, otherwise the member is created with the parsed list and returned without its password |
| AdminStaffRoute.ParsedEntriesClean | src/app/api/admin/staff/route.js:40-43 | No stored entry is empty or has whitespace at either end |
| AdminStaffRoute.ParseBlank | src/app/api/admin/staff/route.js:40-41 | An absent or all-whitespace list stores no entry |
| AdminStaffRoute.ParseMembers | src/app/api/admin/staff/route.js:41-43 | The stored entries are exactly the non-empty trimmed pieces between the commas |
| AdminStaffRoute.ParseRoundTrip | src/app/api/admin/staff/route.js:41-43 | Clean, comma-free entries joined with commas read back as themselves, in order and with duplicates |
| AddStaffRoute.BuildAllowList | src/app/api/admin/staff/addstaff/route.js:41-60 | The list is the creator's address, when there is one, followed by the new parsed entries in order |
| AddStaffRoute.Post | src/app/api/admin/staff/addstaff/route.js:22-78 | 400 without a required field or for a taken e-mail address, changing nothing; otherwise the member is created with the built list |
| AddStaffRoute.AppendNewIsFirstOccurrences | src/app/api/admin/staff/addstaff/route.js:55-59 | Appending only the entries not yet listed is taking first occurrences |
| AddStaffRoute.FirstOccurrencesMembers | src/app/api/admin/staff/addstaff/route.js:55-59 | First occurrences keep every element |
| AddStaffRoute.FirstOccurrencesDistinct | src/app/api/admin/staff/addstaff/route.js:55-59 | First occurrences have no duplicates |
| AddStaffRoute.FirstOccurrencesPrefix | src/app/api/admin/staff/addstaff/route.js:55-59 | First occurrences keep the list they start with at their front |
| AddStaffRoute.AllowListMeaning | src/app/api/admin/staff/addstaff/route.js:41-60 | No duplicates, the creator's address first when there is one, and every non-empty trimmed entry listed |
| AddStaffRoute.CreatorListedOnce | src/app/api/admin/staff/addstaff/route.js:55-59 | Naming the creator's address again does not list it twice |
| Chat.MarkedReadCases | src/models/chat.js:60-70 | A new reader is appended at the end; a known reader leaves the receipts as they were; afterwards the reader has read |
| Chat.MarkedReadIdempotent | src/models/chat.js:59-71 | Marking twice is marking once |
| Chat.MarkedReadKeepsReceipts | src/models/chat.js:63-70 | Existing receipts are not modified and at most one is added |
| Chat.OtherModelIsDistinct | src/models/chat.js:61 | The same id under another user model is a different reader |
| Chat.GroupMessage.constructor | src/models/chat.js:4 | A message read by nobody |
| Chat.GroupMessage.MarkAsRead | src/models/chat.js:59-71 | The receipts become `MarkedRead` of the old receipts |
| TaskRecord.WithDeletionDate | src/models/task.js:269-283 | Unchanged without a completion time, otherwise dated from it |
| TaskRecord.NewTask | src/models/task.js:4-170 | The given fields, trimmed title and description, and the defaults: pending, progress 0, grace period, no history or comments |
| TaskRecord.MarkedCompleted | src/models/task.js:324-338 | Completed at now with progress 100, completed storage, the deletion date and one appended history entry |
| TaskRecord.Commented | src/models/task.js:360-367 | One appended comment, not a system one, with the given text |
| TaskRecord.RejectedTask | src/models/task.js:370-389 | Rejected at now with the reason, permanent retention, one history entry and the comment "Task rejected: <reason>" |
| TaskRecord.Timestamped | src/models/task.js:154-156 | A new task always has a creation time afterwards; nothing but the creation time changes |
| TaskRecord.TaskPreSave | src/models/task.js:213-266 | The hook changes only the retention fields, the completion time and the history, and the history only grows |
| TaskRecord.TaskDoc.constructor | src/models/task.js:4-170 | A new document; the due date, and a given status, count as modified |
| TaskRecord.TaskDoc.Loaded | src/models/task.js:441-447 | A document as a query returns it: stored, nothing modified |
| TaskRecord.TaskDoc.SetScheduledDeletionDate | src/models/task.js:269-283 | The document holds `WithDeletionDate` of its task |
| TaskRecord.TaskDoc.MarkAsCompleted | src/models/task.js:324-338 | The document holds `MarkedCompleted` of its task, with the assigned paths marked |
| TaskRecord.TaskDoc.UpdateStatus | src/models/task.js:341-357 | The document holds `StatusUpdated` of its task, with the assigned paths marked |
| TaskRecord.TaskDoc.UpdateProgress | src/models/task.js:293-321 | The document holds `ProgressUpdated` of its task, with the assigned paths marked |
| TaskRecord.TaskDoc.AddComment | src/models/task.js:360-367 | The document holds `Commented` of its task |
| TaskRecord.TaskDoc.RejectTask | src/models/task.js:370-389 | The document holds `RejectedTask` of its task, with the assigned paths marked |
| TaskRecord.TaskDoc.PreSaveHook | src/models/task.js:213-266 | The document holds the hooked task; it fails exactly on a modified due date that is not in the future |
| TaskRecord.ScheduledDeletionDateShape | src/models/task.js:269-283 | The deletion date is the 15th at 23:59:59.999, three months after completion for a day up to the 15th and four or five months after for a later day |
| TaskRecord.DeletionMonthOffset | src/models/task.js:272-278 | The month of the deletion date is 3 to 5 months on, and exactly 3 when the task was completed on or before the 15th |
| TaskRecord.ScheduledDeletionDateJanuary10 | src/models/task.js:269-283 | A task completed on 10 January is deleted after 15 April |
| TaskRecord.ScheduledDeletionDateMay31 | src/models/task.js:269-283 | A task completed on 31 May is deleted after 15 October |
| TaskRecord.GracePeriodFresh | src/models/task.js:286-290 | A task first saved at now is inside its grace period |
| TaskRecord.GracePeriodNotMonotone | src/models/task.js:286-290 | A task created on 2 March is out of its grace period on 31 May and back in it on 1 June |
| TaskRecord.ThreeMonthsBeforeMay31 | src/models/task.js:288 | Three months before 31 May is 3 March |
| TaskRecord.ThreeMonthsBeforeJune1 | src/models/task.js:288 | Three months before 1 June is 1 March |
| TaskRecord.UpdateStatusEntries | src/models/task.js:341-357 | `updateStatus` appends one entry with the note; completing appends a second one from `markAsCompleted` |
| TaskRecord.UpdateStatusCompletedSaved | src/models/task.js:229-250 | Completing through `updateStatus` and saving leaves three new history entries |
| TaskRecord.ProgressComments | src/models/task.js:293-313 | The clamped value is stored and exactly one comment appended, a system one exactly when no text was given |
| TaskRecord.ProgressCoupling | src/models/task.js:316-320 | A raw 100 completes any task not completed, rejected and cancelled ones included; 0 < p < 100 starts a pending task; otherwise the status stays |
| TaskRecord.ProgressAboveHundred | src/models/task.js:296-320 | 150 is stored as 100 and does not complete the task |
| TaskRecord.CommentSaves | src/models/task.js:116-120 | A comment is accepted by the next save exactly when it is not empty and its JavaScript length, in UTF-16 code units, is at most 500 |
| TaskRecord.CommentOfAstralCharacters | src/models/task.js:116-120 | 300 copies of U+1F600, two code units each, are too long a comment; 300 copies of 'a' fit |
| TaskRecord.RejectionSaves | src/models/task.js:370-389 | On a valid task the next save accepts the rejection exactly when the reason's JavaScript length is at most 485 and the note's at most 200; the empty reason is accepted |
| TaskRecord.NewTaskHooked | src/models/task.js:215-226 | A new task with a defaulted status enters its grace period with the entry "Task created" by its assigner at the creation time |
| TaskRecord.StatusChangeRecorded | src/models/task.js:229-250 | A modified status is recorded, attributed to the assignee; a completed task without a deletion date is completed now and dated |
| TaskRecord.GracePeriodEndsOnSave | src/models/task.js:253-260 | A save after the grace period ends it: completed storage for a completed task, permanent otherwise |
| TaskRecord.HookCheckUnreachable | src/models/task.js:262-264 | Validation already demands a future due date, so the hook's due-date check never fires |
| TaskRecord.OverdueCannotSave | src/models/task.js:43-52 | An overdue task fails validation whatever is modified |
| TaskRecord.ApplyAppendOnly | src/models/task.js:293-389 | No operation removes or changes a history entry or a comment |
| TaskRecord.ApplyAllAppendOnly | src/models/task.js:293-389 | Over any sequence of operations the history and the comments only grow |
| TaskStore.FindFirst | src/models/task.js:448-449 | The position of the first match in storage order, or none when nothing matches |
| TaskStore.FindAllMembers | src/models/task.js:441-445 | `find` returns exactly the matching tasks |
| TaskStore.DeleteManyMembers | src/models/task.js:405-408 | `deleteMany` keeps exactly the tasks that do not match |
| TaskStore.FindAllDeleteManyCount | src/models/task.js:405-410 | Every task is either found or kept by the same filter |
| TaskStore.SetRetentionAt | src/models/task.js:419-438 | `updateMany` sets the retention of each matching task where it stands |
| TaskStore.DateEachAt | src/models/task.js:447-450 | The dating loop dates each selected task where it stands |
| TaskStore.FirstUnsaveable | src/models/task.js:447-450 | The first task whose save throws, or none when every save succeeds |
| TaskStore.DatedSaves | src/models/task.js:448-449 | A selected task is dated, validated, and written back in place, or refused by validation |
| TaskStore.Tasks.constructor | src/models/task.js:563 | An empty collection |
| TaskStore.Tasks.NewId | src/models/task.js:4 | An id no stored task has |
| TaskStore.Tasks.Save | src/models/task.js:213-266 | The collection becomes `SaveResult`: validation, timestamps, hook, then insert or replace. Once validation passes, the document holds the timestamped and hooked task; otherwise its data is unchanged. After an error the document keeps its new flag and its modified paths |
| TaskStore.Tasks.AutoDeleteOldTasks | src/models/task.js:402-411 | Deletes the completed storage that is due and returns how many went |
| TaskStore.Tasks.GetTasksByStaff | src/models/task.js:473-496 | Exactly the member's tasks that the listings show |
| TaskStore.Tasks.DateStep | src/models/task.js:447-450 | One step of the dating loop extends the dated prefix |
| TaskStore.Tasks.Reclassify | src/models/task.js:419-438 | The two `updateMany` calls, returning the number of expired grace periods |
| TaskStore.Tasks.DateAll | src/models/task.js:441-450 | Dates the selected tasks in order, stopping at the first save that throws |
| TaskStore.Tasks.UpdateRetentionPeriods | src/models/task.js:414-455 | The result and the stored tasks are those of `RetentionOutcome` |
| TaskStore.AutoDeleteMeaning | src/models/task.js:402-411 | Exactly the completed storage whose `shouldBeDeleted` holds is deleted, and every deleted task was already hidden from the listings |
| TaskStore.AutoDeleteIdempotent | src/models/task.js:402-411 | A second run at the same time deletes nothing |
| TaskStore.HiddenAfterPurge | src/models/task.js:482-488 | After the purge the only hidden tasks are completed storage without a deletion date |
| TaskStore.ReclassifiedAt | src/models/task.js:419-438 | Each expired grace period becomes permanent and each completed task without a date moves to completed storage, where it stands |
| TaskStore.ReclassifiedStored | src/models/task.js:430-445 | Every task the loop selects is in completed storage |
| TaskStore.FirstUnsaveableAt | src/models/task.js:447-450 | The loop stops at the first task whose save throws |
| TaskStore.SelectionUnderRetention | src/models/task.js:419-445 | Setting the retention changes nothing the loop selects by |
| TaskStore.RetentionSweepAt | src/models/task.js:414-455 | A sweep that resolves ends each expired grace period permanently and dates each completed task without a date in completed storage |
| TaskStore.RetentionCountsMeaning | src/models/task.js:452-455 | The counts are the expired grace periods and the completed tasks without a date |
| TaskStore.RetentionIdempotent | src/models/task.js:414-455 | After a sweep that resolves, a second one at the same time changes nothing and counts zero |
| TaskStore.OverdueCompletedAbortsSweep | src/models/task.js:447-450 | An overdue completed task without a date makes the sweep reject, leaving it in completed storage without a date |
| TaskStore.AbortedSweepKeepsReclassified | src/models/task.js:419-450 | Even a rejected sweep has applied both `updateMany` calls to the tasks not reached |
| TaskCleanup.MonthlyJob | src/app/utils/taskCleanup.js:7-19 | The log and the stored tasks are those of `MonthlyOutcome` |
| TaskCleanup.WeeklyJob | src/app/utils/taskCleanup.js:22-31 | The log and the stored tasks are those of `WeeklyOutcome` |
| TaskCleanup.ManualCleanup | src/app/utils/taskCleanup.js:35-40 | The result and the stored tasks are those of `ManualOutcome` |
| TaskCleanup.GetNextCleanupDate | src/app/utils/taskCleanup.js:84-94 | The 16th at 02:00, later than now, in this month, the next or the one after |
| TaskCleanup.NextCleanupShape | src/app/utils/taskCleanup.js:88-92 | Always the 16th at 02:00:00.000 and later than now; before the 16th in this month, otherwise one or two months on |
| TaskCleanup.NextCleanupIsNextRun | src/app/utils/taskCleanup.js:7 | Before the 16th the result is the next run of the monthly schedule |
| TaskCleanup.NextCleanupJanuary31 | src/app/utils/taskCleanup.js:88-91 | On 31 January the result is 16 March |
| TaskCleanup.NextCleanupSkipsFebruary | src/app/utils/taskCleanup.js:88-91 | So on 31 January the run of 16 February is skipped |
| TaskCleanup.NextCleanupSkipsToday | src/app/utils/taskCleanup.js:88-92 | On the 16th before 02:00 the result skips that day's run |
| TaskCleanup.RetentionOutcomeAt | src/models/task.js:414-455 | Each task after the sweep is its reclassified self, dated or not |
| TaskCleanup.RetentionKeepsIds | src/models/task.js:414-455 | The sweep never adds, removes or reorders tasks, nor changes their ids |
| TaskCleanup.MonthlyDeletesFirst | src/app/utils/taskCleanup.js:10-18 | Whether or not the sweep rejects, no task due at now is left, and a success is logged with the deleted count |
| TaskCleanup.CleanupMessageReadsBack | src/app/utils/taskCleanup.js:15 | The line reads back as the deleted count; the sweep's counts never appear in it |
| TaskCleanup.SweepSetsNoDueDate | src/models/task.js:441-450 | The only dates the sweep sets come from completion times |
| TaskCleanup.WeeklyAfterMonthly | src/app/utils/taskCleanup.js:7-31 | The weekly job after the monthly one at the same time deletes nothing, when every undated completed task was completed recently enough |
| TaskCleanup.WeeklyAfterMonthlyDeletesLegacy | src/app/utils/taskCleanup.js:7-31 | Without that proviso an old completed task is dated into the past and the weekly job deletes it |
| TaskCleanup.ManualAgreesWithMonthly | src/app/utils/taskCleanup.js:35-40 | `manualCleanup` leaves the same tasks as the monthly job and succeeds exactly when it logs success |
| TaskCleanup.WeeklyLogsDeletions | src/app/utils/taskCleanup.js:22-31 | The weekly job logs exactly when it deletes something, with the count |

## Left out

- Database mechanics:
  - connections, `populate`, indexes other than the unique e-mail and id indexes, and the chat TTL index;
  - concurrency between requests;
  - the whole-document write: `save()` replaces the record, where Mongoose would send `$set` of the modified paths. Both give the same record when no other writer intervenes.
- Time: time zones, and the ISO time stamps in the log lines. A date is a civil date in one zone.
- I/O:
  - console output is modelled only as the job's log value;
  - HTTP parsing: a body that is not JSON, or an id that is not an object id, gives a 500 in the source and is not modelled;
  - the node-cron triggers are not modelled, only the job bodies with an injected now.
- Password hashing (bcrypt in the Staff pre-save hook) is left out: a password is stored as given.
- Clock reads: every modelled operation takes one `now` for all the times it reads the clock, because those reads are milliseconds apart. The source reads it more than once in several places:
  - the login route, and the status route (src/app/api/staff/attendance/status/route.js:31 and :34);
  - in the task model, the due-date validator (src/models/task.js:48), the default timestamps, the pre-save hook and the methods such as `markAsCompleted` (task.js:327 and :333);
  - the monthly job, whose two statics each call `new Date()` (task.js:403 and :415).
- Sorting and paging are left out: the status route's session order, the newest-first order of `getActiveSessions` (src/models/logTime.js:272), and `getTasksByStaff`'s page, limit and sort. Results are in storage order.
- Task fields the modelled operations never read are not modelled: priority, tags, attachments, estimated and actual hours, `updatedAt`. `addAttachment` is left out for the same reason.
- Reads and aggregations outside the core are not modelled:
  - the task statics `getTasksScheduledForDeletion`, `getOverdueTasks` and `getCleanupStats`, and their wrappers in the cleanup module;
  - the session virtuals `durationHours`, `daysUntilDeletion` and `loginDate`;
  - the session methods and statics `updateLocation`, `getSessionSummary`, `getAttendanceByStaff`, `getMonthlySummary`, `getDailySummary`, `getStaffStats`, `findDuplicateSessions`, `getDeletionSchedule`;
  - the statistics aggregation after the window start in `getStaffAttendanceStats`;
  - the task virtuals `durationDays`, `isInGracePeriod` and `daysUntilDeletion`;
  - the chat static `getUnreadCount`, and the chat message schema's own validators.
- ToLower and ExtractedDeviceInfo: only those lower-case mappings whose result holds an ASCII character are modelled: 'A' to 'Z', U+0130 and U+212A. Every other character is kept, where JavaScript may map it to another non-ASCII character. The keywords the classifier looks for are ASCII, so this does not change which keywords occur. The lowered text itself is not modelled exactly.
- Numbers: progress, durations and hours are whole numbers; a fractional progress value is not modelled.
- Number precision: only `parseInt` rounds to a double. The rest of the arithmetic is exact, and `IntToString` / `NatToString` print every integer in full. JavaScript agrees with this as long as values stay below 2^53, and below 10^21 for `String(n)`. Dates, years, minute counts and record counts stay that small within JavaScript's date range of ±8.64e15 ms. The model does not bound instants to that range, and it does not model a duration longer than 2^53 ms, whose subtraction would itself round.
- IpToInt: digit strings are rounded to the nearest double, as `parseInt` does in engines that round correctly. ECMAScript permits an engine to zero every digit after the 20th significant one, and that approximation is not modelled.
- PrefixLength: the same rounding applies to the prefix length. Only lengths from 0 to 63, NaN and infinities are characterised by lemmas.
- WildMatch, CharMatches and EntryMatches interpret only '.' and the `\d+` that replaces '*'. `new RegExp` gives its own meaning to other characters (`\ ^ $ + ? ( ) [ ] { } |`), and the model reads those literally. So the entry `10.0.(1|2).*` admits 10.0.1.5 in the source but not in the model.
- WildMatchNoStar and PrefixStar: the same limit applies. They describe the source's regular expression only for patterns without that syntax.
- ValidateIpMeaning: the same limit applies. In addition, an ill-formed wildcard entry such as `10.0.0.*)` makes `new RegExp` throw inside `validateIP`, and `ValidateIp` has no such error path.
- Login and LoginOutcome: the same limits follow. Above all, the 500 that the login route's catch gives when an allow-list entry's regular expression throws (src/app/api/staff/login/route.js:112-122) is not modelled.
- `Chat.GroupMessage.MarkAsRead` ends before the `save()` that follows the push.
- Object ids in read receipts are compared as numbers, which agrees with comparing their string forms.
