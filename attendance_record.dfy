/**
 * The attendance session record of src/models/logTime.js as a value: its fields, the values
 * the schema derives from the login time (the retention deadline `autoDeleteDate`, the
 * `monthYear` key, the rounded `sessionDuration`), the user-agent classification, the schema
 * validators, the virtuals, and the pre-save hook as a function of the record, the `isNew`
 * flag and the set of modified paths. The document object that the instance methods mutate
 * and the collection are in AttendanceStore.
 */
module AttendanceRecord {
  import opened Wrappers
  import opened JsRuntime
  import opened CivilDate
  import opened SeqFacts

  /** `status`: a session is open, or closed by the staff member, an administrator or the system. */
  datatype SessionStatus = Active | Completed | ForcedLogout | SystemLogout

  /** `retentionStatus`: 'active', 'scheduled-for-deletion', 'deleted'. */
  datatype RetentionStatus = Retained | ScheduledForDeletion | RetentionDeleted

  datatype Browser = Chrome | Firefox | Safari | Edge | Opera | OtherBrowser
  datatype Os = Windows | MacOs | Linux | Android | Ios | OtherOs
  datatype DeviceType = Mobile | Tablet | Desktop

  /** The nested `deviceInfo` object; each of its paths may be unset. */
  datatype DeviceInfo = DeviceInfo(browser: Option<Browser>, os: Option<Os>, deviceType: Option<DeviceType>)

  const NO_DEVICE_INFO := DeviceInfo(None, None, None)

  /** One attendance record. `staff` and `id` are object ids, modelled as numbers; absent
      optional paths are `None`. The `location` object and the timestamps are not modelled. */
  datatype Session = Session(
    id: nat,
    staff: nat,
    loginTime: Instant,
    logoutTime: Option<Instant>,
    ipAddress: string,
    userAgent: Option<string>,
    sessionDuration: Option<int>,
    status: SessionStatus,
    autoDeleteDate: Option<Instant>,
    monthYear: Option<string>,
    retentionStatus: RetentionStatus,
    deviceInfo: DeviceInfo,
    notes: Option<string>)

  /** The document paths whose modification the model tracks. */
  datatype Path = LogoutTimePath | StatusPath | DurationPath | NotesPath
                | AutoDeleteDatePath | MonthYearPath | DeviceInfoPath

  // ---------------------------------------------------------------------------------------
  // Derived values
  // ---------------------------------------------------------------------------------------

  const NOTES_MAX_LENGTH := 500

  /** `Math.round((logout - login) / (1000 * 60))`: whole minutes, halves rounded up. */
  function DurationMinutes(login: Instant, logout: Instant): (m: int)
    ensures var d := Millis(logout) - Millis(login);
      MS_PER_MINUTE * m - 30_000 <= d < MS_PER_MINUTE * m + 30_000
    ensures !Before(logout, login) ==> m >= 0
  {
    BeforeMillis(logout, login);
    (Millis(logout) - Millis(login) + 30_000) / MS_PER_MINUTE
  }

  /** The deadline after which the retention purge removes a record logged in at `login`:
      three months on with `setMonth`, then day 15, then 23:59:59.999. */
  function AutoDeleteDate(login: Instant): Instant {
    SetTimeOfDay(SetDate(SetMonth(login, login.month + 3), 15), END_OF_DAY_MS)
  }

  /** The `monthYear` key: the year, '-', the 1-based month padded to two digits. */
  function MonthYear(login: Instant): string {
    IntToString(login.year) + "-" + PadStart2(NatToString(login.month + 1))
  }

  // ---------------------------------------------------------------------------------------
  // User-agent classification
  // ---------------------------------------------------------------------------------------

  /** The browser of a lower-cased user agent: the first rule that applies wins. */
  function BrowserOf(ua: string): Browser {
    if Contains(ua, "chrome") && !Contains(ua, "edg") then Chrome
    else if Contains(ua, "firefox") then Firefox
    else if Contains(ua, "safari") && !Contains(ua, "chrome") then Safari
    else if Contains(ua, "edg") then Edge
    else if Contains(ua, "opera") then Opera
    else OtherBrowser
  }

  /** The operating system of a lower-cased user agent: the first rule that applies wins. */
  function OsOf(ua: string): Os {
    if Contains(ua, "windows") then Windows
    else if Contains(ua, "macintosh") || Contains(ua, "mac os") then MacOs
    else if Contains(ua, "linux") then Linux
    else if Contains(ua, "android") then Android
    else if Contains(ua, "ios") || Contains(ua, "iphone") then Ios
    else OtherOs
  }

  /** The device type of a lower-cased user agent. */
  function DeviceTypeOf(ua: string): DeviceType {
    if Contains(ua, "mobile") then Mobile
    else if Contains(ua, "tablet") then Tablet
    else Desktop
  }

  /** The device information `extractDeviceInfo` leaves: unchanged without a user agent,
      otherwise all three paths set from the lower-cased user agent. */
  function ExtractedDeviceInfo(userAgent: Option<string>, current: DeviceInfo): (r: DeviceInfo)
    ensures !Truthy(userAgent) ==> r == current
    ensures Truthy(userAgent) ==> r.browser.Some? && r.os.Some? && r.deviceType.Some?
  {
    if !Truthy(userAgent) then current
    else
      var ua := ToLower(userAgent.value);
      DeviceInfo(Some(BrowserOf(ua)), Some(OsOf(ua)), Some(DeviceTypeOf(ua)))
  }

  // ---------------------------------------------------------------------------------------
  // Validation, virtuals, instance helpers
  // ---------------------------------------------------------------------------------------

  /** The schema validators that can fail on a record: `ipAddress`, `autoDeleteDate` and
      `monthYear` are required (a required string may not be empty), `sessionDuration` has
      `min: 0` and `notes` has `maxlength: 500`; validators other than `required` skip an
      absent value. */
  predicate SessionValid(s: Session) {
    s.ipAddress != ""
    && s.autoDeleteDate.Some?
    && s.monthYear.Some? && s.monthYear.value != ""
    && (s.sessionDuration.Some? ==> s.sessionDuration.value >= 0)
    && (s.notes.Some? ==> Utf16Length(s.notes.value) <= NOTES_MAX_LENGTH)
  }

  /** The virtual `isActive`. */
  predicate IsActive(s: Session) {
    s.status == Active && s.logoutTime.None?
  }

  /** The virtual `shouldBeDeleted` at time `now`: an absent deadline compares false. */
  predicate ShouldBeDeleted(s: Session, now: Instant) {
    s.autoDeleteDate.Some? && AtOrBefore(s.autoDeleteDate.value, now)
    && s.retentionStatus == Retained
  }

  /** "Hh Mm" when the whole hours are positive, otherwise "Mm": hours by `Math.floor(t / 60)`,
      minutes by JavaScript's `t % 60`. */
  function FormatHm(total: int): string {
    var hours := total / 60;
    var minutes := JsRem(total, 60);
    if hours > 0 then IntToString(hours) + "h " + IntToString(minutes) + "m"
    else IntToString(minutes) + "m"
  }

  /** The virtual `formattedDuration`: null for an absent or zero duration. */
  function FormattedDuration(s: Session): (r: Option<string>)
    ensures r.None? <==> s.sessionDuration.None? || s.sessionDuration.value == 0
  {
    if s.sessionDuration.None? || s.sessionDuration.value == 0 then None
    else Some(FormatHm(s.sessionDuration.value))
  }

  /** `isLongerThan(hours)`: false for an absent or zero duration. */
  predicate IsLongerThan(s: Session, hours: int) {
    s.sessionDuration.Some? && s.sessionDuration.value != 0
    && s.sessionDuration.value > hours * 60
  }

  /** The record `logLogout(logoutTime, status, reason)` leaves: the logout time, the status and
      the duration are overwritten whatever the record held; the notes only for a non-empty
      reason (the `trim` setter applies). */
  function LoggedOut(s: Session, logoutTime: Instant, status: SessionStatus, reason: string): (r: Session)
    ensures r.logoutTime == Some(logoutTime) && r.status == status
    ensures r.sessionDuration == Some(DurationMinutes(s.loginTime, logoutTime))
    ensures r.notes == (if reason != "" then Some(Trim(reason)) else s.notes)
    ensures r.(logoutTime := s.logoutTime, status := s.status, sessionDuration := s.sessionDuration,
               notes := s.notes) == s
  {
    s.(logoutTime := Some(logoutTime), status := status,
       sessionDuration := Some(DurationMinutes(s.loginTime, logoutTime)),
       notes := if reason != "" then Some(Trim(reason)) else s.notes)
  }

  /** The record `forceLogout` / `systemLogout` leave: as `LoggedOut`, with the reason always
      stored as the notes. */
  function ClosedWith(s: Session, now: Instant, status: SessionStatus, reason: string): (r: Session)
    ensures r.logoutTime == Some(now) && r.status == status && r.notes == Some(Trim(reason))
    ensures r.sessionDuration == Some(DurationMinutes(s.loginTime, now))
    ensures r.(logoutTime := s.logoutTime, status := s.status, sessionDuration := s.sessionDuration,
               notes := s.notes) == s
  {
    s.(logoutTime := Some(now), status := status,
       sessionDuration := Some(DurationMinutes(s.loginTime, now)), notes := Some(Trim(reason)))
  }

  // ---------------------------------------------------------------------------------------
  // Modified paths and the pre-save hook
  // ---------------------------------------------------------------------------------------

  /** The tracked paths whose values differ between two versions of a record. */
  function Differs(a: Session, b: Session): set<Path> {
    (if a.logoutTime != b.logoutTime then {LogoutTimePath} else {})
    + (if a.status != b.status then {StatusPath} else {})
    + (if a.sessionDuration != b.sessionDuration then {DurationPath} else {})
    + (if a.notes != b.notes then {NotesPath} else {})
    + (if a.autoDeleteDate != b.autoDeleteDate then {AutoDeleteDatePath} else {})
    + (if a.monthYear != b.monthYear then {MonthYearPath} else {})
    + (if a.deviceInfo != b.deviceInfo then {DeviceInfoPath} else {})
  }

  /** The modified set after assigning the paths `paths`, turning `before` into `after`: a
      new document marks every assignment, an existing one only assignments that change the
      value. */
  function Mark(modified: set<Path>, isNew: bool, paths: set<Path>, before: Session, after: Session): set<Path> {
    modified + (if isNew then paths else paths * Differs(before, after))
  }

  /** The pre-save hook on record `s`. A new record gets its deletion date, its month key and
      its device information; a record whose `logoutTime` was modified and is set gets its
      duration recomputed, and an active status becomes completed. */
  function PreSave(s: Session, isNew: bool, modified: set<Path>): Session {
    var s1 :=
      if isNew then
        s.(autoDeleteDate := Some(AutoDeleteDate(s.loginTime)),
           monthYear := Some(MonthYear(s.loginTime)),
           deviceInfo := ExtractedDeviceInfo(s.userAgent, s.deviceInfo))
      else s;
    if LogoutTimePath in modified && s1.logoutTime.Some? then
      s1.(sessionDuration := Some(DurationMinutes(s1.loginTime, s1.logoutTime.value)),
          status := if s1.status == Active then Completed else s1.status)
    else s1
  }

  /** The paths the pre-save hook assigns. */
  function PreSaveAssigns(s: Session, isNew: bool, modified: set<Path>): set<Path> {
    (if isNew then {AutoDeleteDatePath, MonthYearPath} else {})
    + (if isNew && Truthy(s.userAgent) then {DeviceInfoPath} else {})
    + (if LogoutTimePath in modified && s.logoutTime.Some? then
         {DurationPath} + (if s.status == Active then {StatusPath} else {})
       else {})
  }

  // ---------------------------------------------------------------------------------------
  // Lemmas: durations and dates
  // ---------------------------------------------------------------------------------------

  /** The duration is the whole number of minutes nearest to the elapsed time; it is
      non-negative whenever the logout is not before the login. */
  lemma DurationNearest(login: Instant, logout: Instant, m: int)
    requires var d := Millis(logout) - Millis(login);
      MS_PER_MINUTE * m - 30_000 <= d < MS_PER_MINUTE * m + 30_000
    ensures DurationMinutes(login, logout) == m
  {
    var k := DurationMinutes(login, logout);
    assert MS_PER_MINUTE * (k - m) < MS_PER_MINUTE && MS_PER_MINUTE * (m - k) < MS_PER_MINUTE;
  }

  /** The deletion date is the 15th at 23:59:59.999 of the month three months after the
      login, or of the month after that when the login day does not exist three months on
      (`setMonth` overflows into the next month before `setDate(15)`). */
  lemma AutoDeleteDateShape(login: Instant)
    ensures var r := AutoDeleteDate(login);
      var y := login.year + (login.month + 3) / 12;
      var m := (login.month + 3) % 12;
      r.day == 15 && r.ms == END_OF_DAY_MS
      && MonthIndex(r) == MonthIndex(login) + 3 + (if login.day > DaysInMonth(y, m) then 1 else 0)
  {
    var y := login.year + (login.month + 3) / 12;
    var m := (login.month + 3) % 12;
    MonthCarry(login.year, login.month + 3);
    NormDayOneStep(y, m, login.day, login.ms);
    var c := SetMonth(login, login.month + 3);
    assert c == NormDay(y, m, login.day, login.ms);
    if login.day > DaysInMonth(y, m) {
      NextMonthIndex(y, m);
    }
    assert MonthIndex(c) == MonthIndex(login) + 3 + (if login.day > DaysInMonth(y, m) then 1 else 0);
    assert SetDate(c, 15) == Civil(c.year, c.month, 15, c.ms);
  }

  /** A login on 30 November is purged after 15 March: 30 February overflows into March. */
  lemma AutoDeleteDateNovember30()
    ensures AutoDeleteDate(Civil(2023, 10, 30, 0)) == Civil(2024, 2, 15, END_OF_DAY_MS)
  {
    var login := Civil(2023, 10, 30, 0);
    assert 13 / 12 == 1 && 13 % 12 == 1;
    assert DaysInMonth(2024, 1) == 29 by {
      assert IsLeap(2024);
    }
    assert SetMonth(login, 13) == NormDay(2024, 1, 30, 0);
    NormDayOneStep(2024, 1, 30, 0);
    assert SetMonth(login, 13) == Civil(2024, 2, 1, 0);
    assert SetDate(Civil(2024, 2, 1, 0), 15) == Civil(2024, 2, 15, 0);
  }

  /** A login on 10 January is purged after 15 April. */
  lemma AutoDeleteDateJanuary10()
    ensures AutoDeleteDate(Civil(2024, 0, 10, 0)) == Civil(2024, 3, 15, END_OF_DAY_MS)
  {
    var login := Civil(2024, 0, 10, 0);
    assert 3 / 12 == 0 && 3 % 12 == 3;
    assert SetMonth(login, 3) == Civil(2024, 3, 10, 0);
    assert SetDate(Civil(2024, 3, 10, 0), 15) == Civil(2024, 3, 15, 0);
  }

  /** Every deletion date lies after its login. */
  lemma AutoDeleteDateAfterLogin(login: Instant)
    ensures Before(login, AutoDeleteDate(login))
  {
    var r := AutoDeleteDate(login);
    AutoDeleteDateShape(login);
    MonthIndexOrder(login, r);
  }

  // ---------------------------------------------------------------------------------------
  // Lemmas: the month key
  // ---------------------------------------------------------------------------------------

  lemma {:induction false} DigitsValueLeadingZero(s: string)
    requires AllDigits(s)
    ensures AllDigits("0" + s) && DigitsValue("0" + s) == DigitsValue(s)
  {
    if s != [] {
      DigitsValueLeadingZero(s[..|s| - 1]);
      assert ("0" + s)[..|s|] == "0" + s[..|s| - 1];
    }
  }

  /** A two-digit padding of a number below 100 reads back as the number. */
  lemma PadStart2Value(n: nat)
    requires n < 100
    ensures |PadStart2(NatToString(n))| == 2
    ensures AllDigits(PadStart2(NatToString(n)))
    ensures ReadInt10(PadStart2(NatToString(n))) == Int(n)
  {
    var s := NatToString(n);
    NatToStringValue(n);
    if n < 10 {
      DigitsValueLeadingZero(s);
      ParseDigits("0" + s);
    } else {
      assert NatToString(n / 10) == [DigitChar(n / 10)];
      ParseDigits(s);
    }
  }

  /** The month key reads back: `parseInt` of the key is the year, and the two characters
      after the '-' are the 1-based month. */
  lemma MonthYearReadBack(login: Instant)
    requires login.year >= 0
    ensures var s := MonthYear(login); var k := |NatToString(login.year)|;
      |s| == k + 3 && s[k] == '-' && ReadInt10(s) == Int(login.year)
      && ReadInt10(s[k + 1..]) == Int(login.month + 1)
  {
    var s := MonthYear(login);
    var ys := NatToString(login.year);
    var ms := PadStart2(NatToString(login.month + 1));
    assert s == ys + ("-" + ms) by {
      assert ys + "-" + ms == ys + ("-" + ms);
    }
    PadStart2Value(login.month + 1);
    NatToStringValue(login.year);
    ParseDigitsThen(ys, "-" + ms);
    Pieces(ys, "-", ms);
  }

  /** Two logins in the same calendar month share their key. */
  lemma MonthYearSameMonth(a: Instant, b: Instant)
    requires a.year == b.year && a.month == b.month
    ensures MonthYear(a) == MonthYear(b)
  {
  }

  // ---------------------------------------------------------------------------------------
  // Lemmas: classification
  // ---------------------------------------------------------------------------------------

  /** The browser is Chrome exactly when the agent names chrome and not edg; it is Other
      exactly when it names none of the five browsers. */
  lemma BrowserRules(ua: string)
    ensures BrowserOf(ua) == Chrome <==> Contains(ua, "chrome") && !Contains(ua, "edg")
    ensures BrowserOf(ua) == Safari <==>
      Contains(ua, "safari") && !Contains(ua, "chrome") && !Contains(ua, "firefox")
    ensures BrowserOf(ua) == OtherBrowser <==>
      !Contains(ua, "chrome") && !Contains(ua, "firefox") && !Contains(ua, "safari")
      && !Contains(ua, "edg") && !Contains(ua, "opera")
  {
  }

  /** Chromium Edge agents name both chrome and edg, and are Edge unless they name firefox. */
  lemma EdgeAgents(ua: string)
    requires Contains(ua, "chrome") && Contains(ua, "edg") && !Contains(ua, "firefox")
    ensures BrowserOf(ua) == Edge
  {
  }

  /** An agent naming linux is never Android (Android agents name linux), and one naming
      "mac os" (as iPhone agents do: "like Mac OS X") without windows is MacOS, never iOS. */
  lemma OsShadowing(ua: string)
    ensures Contains(ua, "linux") ==> OsOf(ua) != Android
    ensures Contains(ua, "mac os") && !Contains(ua, "windows") ==> OsOf(ua) == MacOs
    ensures OsOf(ua) == Android <==>
      Contains(ua, "android") && !Contains(ua, "windows") && !Contains(ua, "macintosh")
      && !Contains(ua, "mac os") && !Contains(ua, "linux")
  {
  }

  /** The device type: mobile wins over tablet, and desktop is the rest. */
  lemma DeviceTypeRules(ua: string)
    ensures DeviceTypeOf(ua) == Mobile <==> Contains(ua, "mobile")
    ensures DeviceTypeOf(ua) == Tablet <==> !Contains(ua, "mobile") && Contains(ua, "tablet")
    ensures DeviceTypeOf(ua) == Desktop <==> !Contains(ua, "mobile") && !Contains(ua, "tablet")
  {
  }

  /** An agent spelt with U+0130 for its last letter still names safari once lowered: the
      agent "SAFARİ" is Safari. */
  lemma SafariWithDottedCapitalI(current: DeviceInfo)
    ensures ExtractedDeviceInfo(Some("SAFAR\U{0130}"), current).browser == Some(Safari)
  {
    LowerSafar();
    assert "SAFAR\U{0130}" == "SAFAR" + "\U{0130}";
    DottedCapitalIAfter("SAFAR", current);
  }

  /** Whatever spells `safar`, followed by U+0130, is classified as Safari. */
  lemma DottedCapitalIAfter(p: string, current: DeviceInfo)
    requires ToLower(p) == "safar"
    ensures ExtractedDeviceInfo(Some(p + "\U{0130}"), current).browser == Some(Safari)
  {
    ToLowerSpecialCapitals();
    ToLowerConcat(p, "\U{0130}");
    var ua := ToLower(p + "\U{0130}");
    assert ua == "safari\U{0307}";
    assert OccursAt(ua, "safari", 0);
    NotContainsByChar(ua, "chrome", 0);
    NotContainsByChar(ua, "firefox", 6);
    assert BrowserOf(ua) == Safari;
  }

  lemma LowerSafar()
    ensures ToLower("SAFAR") == "safar"
  {
    ToLowerCons('R', []);
    ToLowerCons('A', "R");
    ToLowerCons('F', "AR");
    ToLowerCons('A', "FAR");
    ToLowerCons('S', "AFAR");
  }

  /** Classification ignores letter case. */
  lemma ExtractedDeviceInfoIgnoresCase(ua: string, current: DeviceInfo)
    requires ua != ""
    ensures ExtractedDeviceInfo(Some(ToLower(ua)), current) == ExtractedDeviceInfo(Some(ua), current)
  {
    ToLowerIdempotent(ua);
  }

  // ---------------------------------------------------------------------------------------
  // Lemmas: virtuals
  // ---------------------------------------------------------------------------------------

  /** The "Hh Mm" text reads back: for a non-negative total the hours and minutes in the text
      are `total / 60` and `total % 60`, and the minutes are below 60. */
  lemma FormatHmReadBack(total: nat)
    ensures var s := FormatHm(total); var k := |NatToString(total / 60)|;
      if total >= 60 then
        ReadInt10(s) == Int(total / 60) && s[k..k + 2] == "h "
        && ReadInt10(s[k + 2..]) == Int(total % 60) && s[|s| - 1] == 'm'
      else
        ReadInt10(s) == Int(total) && s[|s| - 1] == 'm'
  {
    FormatHmShape(total);
    if total >= 60 {
      ReadBackHours(NatToString(total / 60), NatToString(total % 60));
      NatToStringValue(total / 60);
      NatToStringValue(total % 60);
    } else {
      NatToStringValue(total);
      ParseDigitsThen(NatToString(total), "m");
    }
  }

  /** Reading back "<hs>h <ms>m" for two digit strings. */
  lemma ReadBackHours(hs: string, ms: string)
    requires |hs| >= 1 && AllDigits(hs) && |ms| >= 1 && AllDigits(ms)
    ensures var s := hs + ("h " + (ms + "m"));
      ReadInt10(s) == Int(DigitsValue(hs)) && s[|hs|..|hs| + 2] == "h "
      && ReadInt10(s[|hs| + 2..]) == Int(DigitsValue(ms)) && s[|s| - 1] == 'm'
  {
    var rest := "h " + (ms + "m");
    assert rest[0] == 'h';
    ParseDigitsThen(hs, rest);
    Pieces(hs, "h ", ms + "m");
    ParseDigitsThen(ms, "m");
  }

  /** The text of `FormatHm` for a non-negative total. */
  lemma FormatHmShape(total: nat)
    ensures total >= 60 ==>
      FormatHm(total) == NatToString(total / 60) + ("h " + (NatToString(total % 60) + "m"))
    ensures total < 60 ==> FormatHm(total) == NatToString(total) + "m"
  {
    if total >= 60 {
      var hs, ms := NatToString(total / 60), NatToString(total % 60);
      assert hs + "h " + ms + "m" == hs + ("h " + (ms + "m"));
    }
  }

  /** No total reads "0h": the hours appear exactly when they are positive. */
  lemma FormatHmHours(total: int)
    ensures total >= 60 ==> exists k :: 0 < k < |FormatHm(total)| && FormatHm(total)[k] == 'h'
    ensures total < 60 ==> 'h' !in FormatHm(total)
  {
    var s := FormatHm(total);
    if total >= 60 {
      var hs := IntToString(total / 60);
      assert s[|hs|] == 'h';
    } else {
      var ms := IntToString(JsRem(total, 60));
      assert s == ms + "m";
      IntToStringNoLetter(JsRem(total, 60), 'h');
    }
  }

  lemma IntToStringNoLetter(n: int, c: char)
    requires !IsDigit(c) && c != '-'
    ensures c !in IntToString(n)
  {
    var s := if n < 0 then NatToString(-n) else NatToString(n);
    assert forall i :: 0 <= i < |s| ==> IsDigit(s[i]);
  }

  /** `isLongerThan` is false for an absent or zero duration, even against a negative bound, and
      a longer bound is harder to exceed. */
  lemma IsLongerThanRules(s: Session, h: int, h': int)
    ensures s.sessionDuration.None? || s.sessionDuration.value == 0 ==> !IsLongerThan(s, h)
    ensures h <= h' && IsLongerThan(s, h') ==> IsLongerThan(s, h)
    ensures s.sessionDuration == Some(30) ==> IsLongerThan(s, 0) && !IsLongerThan(s, 1)
  {
  }

  /** A record is due for the purge from its deadline on, and stays due. */
  lemma ShouldBeDeletedStays(s: Session, now: Instant, later: Instant)
    requires ShouldBeDeleted(s, now) && AtOrBefore(now, later)
    ensures ShouldBeDeleted(s, later)
  {
  }

  // ---------------------------------------------------------------------------------------
  // Lemmas: logout and the pre-save hook
  // ---------------------------------------------------------------------------------------

  /** `logLogout` does not look at the record's status: closing a closed record again replaces
      the earlier close. */
  lemma LoggedOutOverwrites(s: Session, t1: Instant, t2: Instant, st1: SessionStatus, st2: SessionStatus)
    ensures LoggedOut(LoggedOut(s, t1, st1, ""), t2, st2, "") == LoggedOut(s, t2, st2, "")
  {
  }

  /** A new record leaves the hook with its derived values computed from its login time. */
  lemma PreSaveNew(s: Session, modified: set<Path>)
    ensures var r := PreSave(s, true, modified);
      r.autoDeleteDate == Some(AutoDeleteDate(s.loginTime))
      && r.monthYear == Some(MonthYear(s.loginTime))
      && r.deviceInfo == ExtractedDeviceInfo(s.userAgent, s.deviceInfo)
  {
  }

  /** An existing record keeps its deletion date, month key and device information; when its
      logout time is unmodified, the hook leaves it unchanged. */
  lemma PreSaveExisting(s: Session, modified: set<Path>)
    ensures var r := PreSave(s, false, modified);
      r.autoDeleteDate == s.autoDeleteDate && r.monthYear == s.monthYear
      && r.deviceInfo == s.deviceInfo && r.logoutTime == s.logoutTime
    ensures LogoutTimePath !in modified ==> PreSave(s, false, modified) == s
  {
  }

  /** A modified, set logout time makes the hook recompute the duration, and complete the
      record only if it is still active. */
  lemma PreSaveLogout(s: Session, isNew: bool, modified: set<Path>)
    requires LogoutTimePath in modified && s.logoutTime.Some?
    ensures var r := PreSave(s, isNew, modified);
      r.sessionDuration == Some(DurationMinutes(s.loginTime, s.logoutTime.value))
      && r.status == (if s.status == Active then Completed else s.status)
  {
  }

  /** The hook agrees with `logLogout`: after a close with a status other than active, saving
      an existing record adds nothing to what `logLogout` set. */
  lemma PreSaveAfterLogout(s: Session, t: Instant, st: SessionStatus, reason: string, modified: set<Path>)
    requires st != Active
    ensures PreSave(LoggedOut(s, t, st, reason), false, modified) == LoggedOut(s, t, st, reason)
  {
  }

  /** The hook keeps a record valid, and a new record's month key is never empty. */
  lemma PreSaveKeepsValid(s: Session, isNew: bool, modified: set<Path>)
    requires SessionValid(s)
    requires s.logoutTime.Some? && LogoutTimePath in modified ==> !Before(s.logoutTime.value, s.loginTime)
    ensures SessionValid(PreSave(s, isNew, modified))
  {
  }

  /** The hook assigns only the paths `PreSaveAssigns` names. */
  lemma PreSaveChangesOnlyAssigned(s: Session, isNew: bool, modified: set<Path>)
    ensures Differs(s, PreSave(s, isNew, modified)) <= PreSaveAssigns(s, isNew, modified)
  {
  }
}
