/** Setting the system clock: the validity test the date panel applies to
    the six numbers it reads (that of Python's `datetime` constructor), the
    argument strings it formats for the OS commands, and the order in which
    the commands are issued. The commands themselves are not run: an
    operation returns the argument vectors it issues, and the step at which
    an OS call raises is a parameter. */
module DateTimeCmd {
  import opened Wrappers
  import opened PyText

  /** The six numbers the panel reads. */
  datatype DateTime = DateTime(year: int, month: int, day: int, hour: int, minute: int, second: int)

  // ---------------------------------------------------------------------
  // datetime(year, month, day, hour, minute, second)
  // ---------------------------------------------------------------------

  const MinYear: int := 1
  const MaxYear: int := 9999

  /** The proleptic Gregorian rule. */
  predicate IsLeapYear(y: int) {
    y % 4 == 0 && (y % 100 != 0 || y % 400 == 0)
  }

  function DaysInMonth(y: int, m: int): (r: int)
    requires 1 <= m <= 12
    ensures 28 <= r <= 31
    ensures r == 29 <==> m == 2 && IsLeapYear(y)
  {
    if m == 2 then (if IsLeapYear(y) then 29 else 28)
    else if m == 4 || m == 6 || m == 9 || m == 11 then 30
    else 31
  }

  /** The range of a C `int`, into which the constructor converts each
      argument before it checks any range. */
  const CIntMin: int := -0x8000_0000
  const CIntMax: int := 0x7FFF_FFFF

  predicate FitsCInt(n: int) {
    CIntMin <= n <= CIntMax
  }

  /** All six arguments convert to C ints. */
  predicate ArgumentsFit(t: DateTime) {
    FitsCInt(t.year) && FitsCInt(t.month) && FitsCInt(t.day)
    && FitsCInt(t.hour) && FitsCInt(t.minute) && FitsCInt(t.second)
  }

  /** What the constructor raises: `ArgumentOverflow` is the `OverflowError`
      of the conversion to C ints; every other value is the `ValueError` of
      the argument it rejects. */
  datatype DateTimeError =
    | ArgumentOverflow
    | YearOutOfRange
    | MonthOutOfRange
    | DayOutOfRange
    | HourOutOfRange
    | MinuteOutOfRange
    | SecondOutOfRange

  /** The constructor's check: all six arguments are first converted to C
      ints, and any that does not fit raises `OverflowError`; then they are
      examined in order year, month, day, hour, minute, second, and the first
      out of range is reported. */
  function CheckDateTime(t: DateTime): (r: Option<DateTimeError>)
    ensures r.None? <==> IsValidDateTime(t)
    ensures r == Some(ArgumentOverflow) <==> !ArgumentsFit(t)
  {
    if !ArgumentsFit(t) then Some(ArgumentOverflow)
    else if !(MinYear <= t.year <= MaxYear) then Some(YearOutOfRange)
    else if !(1 <= t.month <= 12) then Some(MonthOutOfRange)
    else if !(1 <= t.day <= DaysInMonth(t.year, t.month)) then Some(DayOutOfRange)
    else if !(0 <= t.hour <= 23) then Some(HourOutOfRange)
    else if !(0 <= t.minute <= 59) then Some(MinuteOutOfRange)
    else if !(0 <= t.second <= 59) then Some(SecondOutOfRange)
    else None
  }

  /** A calendar date and a time of day, stated on its own terms. */
  ghost predicate IsValidDateTime(t: DateTime) {
    && MinYear <= t.year <= MaxYear
    && 1 <= t.month <= 12
    && 1 <= t.day <= DaysInMonth(t.year, t.month)
    && 0 <= t.hour < 24 && 0 <= t.minute < 60 && 0 <= t.second < 60
  }

  /** The check passes exactly on valid date-times; an argument outside the
      C int range overflows before any range is checked; otherwise the field
      the check names is out of range and every field before it is in
      range. */
  lemma CheckDateTimeExact(t: DateTime)
    ensures CheckDateTime(t).None? <==> IsValidDateTime(t)
    ensures CheckDateTime(t) == Some(ArgumentOverflow) <==> !ArgumentsFit(t)
    ensures CheckDateTime(t) == Some(YearOutOfRange) <==>
      ArgumentsFit(t) && !(MinYear <= t.year <= MaxYear)
    ensures CheckDateTime(t) == Some(MonthOutOfRange) <==>
      ArgumentsFit(t) && MinYear <= t.year <= MaxYear && !(1 <= t.month <= 12)
    ensures CheckDateTime(t) == Some(DayOutOfRange) <==>
      ArgumentsFit(t) && MinYear <= t.year <= MaxYear && 1 <= t.month <= 12
      && !(1 <= t.day <= DaysInMonth(t.year, t.month))
    ensures CheckDateTime(t) == Some(HourOutOfRange) <==>
      ArgumentsFit(t) && MinYear <= t.year <= MaxYear && 1 <= t.month <= 12
      && 1 <= t.day <= DaysInMonth(t.year, t.month) && !(0 <= t.hour <= 23)
    ensures CheckDateTime(t) == Some(MinuteOutOfRange) <==>
      ArgumentsFit(t) && MinYear <= t.year <= MaxYear && 1 <= t.month <= 12
      && 1 <= t.day <= DaysInMonth(t.year, t.month) && 0 <= t.hour <= 23
      && !(0 <= t.minute <= 59)
    ensures CheckDateTime(t) == Some(SecondOutOfRange) <==>
      ArgumentsFit(t) && MinYear <= t.year <= MaxYear && 1 <= t.month <= 12
      && 1 <= t.day <= DaysInMonth(t.year, t.month) && 0 <= t.hour <= 23
      && 0 <= t.minute <= 59 && !(0 <= t.second <= 59)
    ensures CheckDateTime(t) == Some(SecondOutOfRange) ==>
      IsValidDateTime(t.(second := 0))
  {
  }

  /** The message text of each `ValueError`, as the constructor words it.
      The `OverflowError` is not caught by the panel, so its text is never
      shown. */
  function ErrorText(e: DateTimeError, t: DateTime): string
    requires e != ArgumentOverflow
  {
    match e
    case YearOutOfRange => "year " + IntStr(t.year) + " is out of range"
    case MonthOutOfRange => "month must be in 1..12"
    case DayOutOfRange => "day is out of range for month"
    case HourOutOfRange => "hour must be in 0..23"
    case MinuteOutOfRange => "minute must be in 0..59"
    case SecondOutOfRange => "second must be in 0..59"
  }

  /** 29 February exists exactly in leap years, 30 February never. */
  lemma LeapDay(y: int)
    requires MinYear <= y <= MaxYear
    ensures IsValidDateTime(DateTime(y, 2, 29, 0, 0, 0)) <==> IsLeapYear(y)
    ensures !IsValidDateTime(DateTime(y, 2, 30, 0, 0, 0))
  {
  }

  /** A year has 366 days when it is a leap year, 365 otherwise. */
  lemma YearLength(y: int)
    ensures DaysInMonth(y, 1) + DaysInMonth(y, 2) + DaysInMonth(y, 3) + DaysInMonth(y, 4)
      + DaysInMonth(y, 5) + DaysInMonth(y, 6) + DaysInMonth(y, 7) + DaysInMonth(y, 8)
      + DaysInMonth(y, 9) + DaysInMonth(y, 10) + DaysInMonth(y, 11) + DaysInMonth(y, 12)
      == if IsLeapYear(y) then 366 else 365
  {
  }

  lemma CheckDateTimeExamples()
    ensures CheckDateTime(DateTime(2025, 2, 30, 12, 0, 0)) == Some(DayOutOfRange)
    ensures CheckDateTime(DateTime(2024, 2, 29, 12, 0, 0)) == None
    ensures CheckDateTime(DateTime(1900, 2, 29, 12, 0, 0)) == Some(DayOutOfRange)
    ensures CheckDateTime(DateTime(2026, 1, 15, 9, 30, 0)) == None
    ensures CheckDateTime(DateTime(0, 13, 1, 0, 0, 0)) == Some(YearOutOfRange)
    ensures CheckDateTime(DateTime(2026, 1, 15, 24, 0, 0)) == Some(HourOutOfRange)
    ensures CheckDateTime(DateTime(2147483647, 1, 1, 0, 0, 0)) == Some(YearOutOfRange)
    ensures CheckDateTime(DateTime(2147483648, 1, 1, 0, 0, 0)) == Some(ArgumentOverflow)
    ensures CheckDateTime(DateTime(2025, 2, 30, 2147483648, 0, 0)) == Some(ArgumentOverflow)
    ensures CheckDateTime(DateTime(2025, 2, 30, 0, 0, -2147483649)) == Some(ArgumentOverflow)
  {
  }

  // ---------------------------------------------------------------------
  // set_system_datetime
  // ---------------------------------------------------------------------

  /** `f"{month:02d}-{day:02d}-{year}"`, the argument of `date`: for fields
      that fit the padding, two digits, `-`, two digits, `-`, and the year's
      digits. */
  function DateArgument(t: DateTime): (r: string)
    ensures 0 <= t.month < 100 && 0 <= t.day < 100 && t.year >= 0 ==>
      && |r| >= 7 && r[2] == '-' && r[5] == '-'
      && forall k :: 0 <= k < |r| && k != 2 && k != 5 ==> IsDigit(r[k])
  {
    Format02(t.month) + "-" + Format02(t.day) + "-" + IntStr(t.year)
  }

  /** `f"{hour:02d}:{minute:02d}:{second:02d}"`, the argument of `time`:
      for fields below 100, eight characters `HH:MM:SS`. */
  function TimeArgument(t: DateTime): (r: string)
    ensures 0 <= t.hour < 100 && 0 <= t.minute < 100 && 0 <= t.second < 100 ==>
      && |r| == 8 && r[2] == ':' && r[5] == ':'
      && forall k :: 0 <= k < 8 && k != 2 && k != 5 ==> IsDigit(r[k])
  {
    Format02(t.hour) + ":" + Format02(t.minute) + ":" + Format02(t.second)
  }

  /** The date half of the PowerShell command, year first. */
  function IsoDate(t: DateTime): string {
    IntStr(t.year) + "-" + Format02(t.month) + "-" + Format02(t.day)
  }

  /** The PowerShell command that sets the clock a second time: a quoted
      `Set-Date -Date` argument that ends with the `time` argument. */
  function SetDateCommand(t: DateTime): (r: string)
    ensures |r| > 16 + |TimeArgument(t)|
    ensures r[..16] == "Set-Date -Date '" && r[|r| - 1] == '\''
    ensures r[|r| - 1 - |TimeArgument(t)|..|r| - 1] == TimeArgument(t)
  {
    var time := TimeArgument(t);
    var head := "Set-Date -Date '" + IsoDate(t) + " ";
    var r := head + time + "'";
    assert r[..16] == head[..16];
    assert r[|head|..|head| + |time|] == time;
    r
  }

  /** The argument vectors the operation issues when nothing raises, in
      order: stop the time service, unregister it, `date`, `time`, then
      PowerShell's `Set-Date`. */
  function ClockCommands(t: DateTime): seq<seq<string>> {
    [ ["sc", "stop", "w32time"],
      ["w32tm", "/unregister"],
      ["cmd", "/c", "date", DateArgument(t)],
      ["cmd", "/c", "time", TimeArgument(t)],
      ["powershell", "-Command", SetDateCommand(t)] ]
  }

  const ClockChanged: string := "Date and time changed successfully!"

  /** `set_system_datetime`: issue the five commands one after another.
      `raisesAt` is the index of the call that raises (if any) and `err`
      the text of its exception; the commands before it have been issued,
      none after it, and the message reports the exception. The exit
      status of each command is ignored, as the program ignores it. */
  method SetSystemDateTime(t: DateTime, raisesAt: Option<nat>, err: string)
    returns (success: bool, message: string, issued: seq<seq<string>>)
    ensures var plan := ClockCommands(t);
      && (success <==> raisesAt.None? || raisesAt.value >= |plan|)
      && (success ==> issued == plan && message == ClockChanged)
      && (!success ==> issued == plan[..raisesAt.value] && message == "Error: " + err)
  {
    issued := [];
    if raisesAt == Some(0) {
      return false, "Error: " + err, issued;
    }
    issued := issued + [["sc", "stop", "w32time"]];
    if raisesAt == Some(1) {
      return false, "Error: " + err, issued;
    }
    issued := issued + [["w32tm", "/unregister"]];
    var dateStr := DateArgument(t);
    var timeStr := TimeArgument(t);
    if raisesAt == Some(2) {
      return false, "Error: " + err, issued;
    }
    issued := issued + [["cmd", "/c", "date", dateStr]];
    if raisesAt == Some(3) {
      return false, "Error: " + err, issued;
    }
    issued := issued + [["cmd", "/c", "time", timeStr]];
    var psCommand := SetDateCommand(t);
    if raisesAt == Some(4) {
      return false, "Error: " + err, issued;
    }
    issued := issued + [["powershell", "-Command", psCommand]];
    return true, ClockChanged, issued;
  }

  /** Three pieces joined by a separator none of them contains. */
  lemma SplitThree(a: string, b: string, c: string, sep: char)
    requires sep !in a && sep !in b && sep !in c
    ensures Split(a + [sep] + b + [sep] + c, sep) == [a, b, c]
  {
    var bc := b + [sep] + c;
    SplitNoSeparator(c, sep);
    SplitAfterPiece(b, sep, c);
    assert Split(bc, sep) == [b, c];
    SplitAfterPiece(a, sep, bc);
    assert a + [sep] + b + [sep] + c == a + [sep] + bc;
  }

  lemma DigitsHaveNoSeparator(s: string, sep: char)
    requires forall k :: 0 <= k < |s| ==> IsDigit(s[k])
    requires !IsDigit(sep)
    ensures sep !in s
  {
  }

  /** For a valid date-time, the `date` argument reads back as month, day
      and year: two-digit month and day, and the year in one to four digits,
      without padding. */
  lemma DateArgumentRoundTrip(t: DateTime)
    requires IsValidDateTime(t)
    ensures var parts := Split(DateArgument(t), '-');
      && |parts| == 3
      && |parts[0]| == 2 && |parts[1]| == 2 && 1 <= |parts[2]| <= 4
      && (forall i :: 0 <= i < 3 ==> forall k :: 0 <= k < |parts[i]| ==> IsDigit(parts[i][k]))
      && DecimalValue(parts[0]) == t.month
      && DecimalValue(parts[1]) == t.day
      && DecimalValue(parts[2]) == t.year
  {
    var m, d, y := Format02(t.month), Format02(t.day), IntStr(t.year);
    DigitsHaveNoSeparator(m, '-');
    DigitsHaveNoSeparator(d, '-');
    DigitsHaveNoSeparator(y, '-');
    SplitThree(m, d, y, '-');
    assert DateArgument(t) == m + ['-'] + d + ['-'] + y;
    DecimalRoundTrip(t.year);
    YearDigits(t.year);
  }

  /** A year from 1 to 9999 is written in one to four digits. */
  lemma YearDigits(y: nat)
    requires 1 <= y <= 9999
    ensures 1 <= |Decimal(y)| <= 4
  {
    if y >= 1000 {
      FourDigits(y);
    } else if y >= 100 {
      assert |Decimal(y / 100)| == 1;
      assert |Decimal(y / 10)| == 2;
    } else if y >= 10 {
      assert |Decimal(y / 10)| == 1;
    }
  }

  /** For a valid date-time, the `time` argument is `HH:MM:SS` and reads
      back as hour, minute and second. */
  lemma TimeArgumentRoundTrip(t: DateTime)
    requires IsValidDateTime(t)
    ensures |TimeArgument(t)| == 8
    ensures var parts := Split(TimeArgument(t), ':');
      && |parts| == 3
      && (forall i :: 0 <= i < 3 ==> |parts[i]| == 2 && IsDigit(parts[i][0]) && IsDigit(parts[i][1]))
      && DecimalValue(parts[0]) == t.hour
      && DecimalValue(parts[1]) == t.minute
      && DecimalValue(parts[2]) == t.second
  {
    var h, m, s := Format02(t.hour), Format02(t.minute), Format02(t.second);
    DigitsHaveNoSeparator(h, ':');
    DigitsHaveNoSeparator(m, ':');
    DigitsHaveNoSeparator(s, ':');
    SplitThree(h, m, s, ':');
    assert TimeArgument(t) == h + [':'] + m + [':'] + s;
  }

  /** The PowerShell command sets the same date as `date`: its date half
      holds the same three pieces, year first, and its time half is the
      `time` argument. */
  lemma CommandsAgree(t: DateTime)
    requires IsValidDateTime(t)
    ensures var us := Split(DateArgument(t), '-');
      |us| == 3 && Split(IsoDate(t), '-') == [us[2], us[0], us[1]]
    ensures SetDateCommand(t) == "Set-Date -Date '" + IsoDate(t) + " " + TimeArgument(t) + "'"
  {
    var m, d, y := Format02(t.month), Format02(t.day), IntStr(t.year);
    DigitsHaveNoSeparator(m, '-');
    DigitsHaveNoSeparator(d, '-');
    DigitsHaveNoSeparator(y, '-');
    SplitThree(m, d, y, '-');
    SplitThree(y, m, d, '-');
    assert DateArgument(t) == m + ['-'] + d + ['-'] + y;
    assert IsoDate(t) == y + ['-'] + m + ['-'] + d;
  }

  // ---------------------------------------------------------------------
  // apply_datetime
  // ---------------------------------------------------------------------

  /** What `int()` made of each of the six entry fields: the number, or the
      text of the `ValueError` it raised. */
  datatype Entries = Entries(
    year: Result<int>, month: Result<int>, day: Result<int>,
    hour: Result<int>, minute: Result<int>, second: Result<int>)

  /** The six fields are converted in order year to second; the first that
      fails stops the conversion. */
  function ReadEntries(e: Entries): (r: Result<DateTime>)
    ensures e.year.Err? ==> r == Err(e.year.error)
    ensures e.year.Ok? && e.month.Err? ==> r == Err(e.month.error)
    ensures e.year.Ok? && e.month.Ok? && e.day.Err? ==> r == Err(e.day.error)
    ensures e.year.Ok? && e.month.Ok? && e.day.Ok? && e.hour.Err? ==> r == Err(e.hour.error)
    ensures e.year.Ok? && e.month.Ok? && e.day.Ok? && e.hour.Ok? && e.minute.Err? ==>
      r == Err(e.minute.error)
    ensures e.year.Ok? && e.month.Ok? && e.day.Ok? && e.hour.Ok? && e.minute.Ok? && e.second.Err? ==>
      r == Err(e.second.error)
    ensures r.Err? ==> Err(r.error) in [e.year, e.month, e.day, e.hour, e.minute, e.second]
  {
    if e.year.Err? then Err(e.year.error)
    else if e.month.Err? then Err(e.month.error)
    else if e.day.Err? then Err(e.day.error)
    else if e.hour.Err? then Err(e.hour.error)
    else if e.minute.Err? then Err(e.minute.error)
    else if e.second.Err? then Err(e.second.error)
    else Ok(DateTime(e.year.value, e.month.value, e.day.value, e.hour.value, e.minute.value, e.second.value))
  }

  /** Conversion succeeds exactly when every field converts, and then gives
      the six numbers. */
  lemma ReadEntriesOk(e: Entries)
    ensures ReadEntries(e).Ok? <==>
      e.year.Ok? && e.month.Ok? && e.day.Ok? && e.hour.Ok? && e.minute.Ok? && e.second.Ok?
    ensures ReadEntries(e).Ok? ==>
      var t := ReadEntries(e).value;
      && Ok(t.year) == e.year && Ok(t.month) == e.month && Ok(t.day) == e.day
      && Ok(t.hour) == e.hour && Ok(t.minute) == e.minute && Ok(t.second) == e.second
  {
  }

  const NeedsAdmin: string := "Administrator privileges required!"

  /** `apply_datetime`: refuse without administrator rights; convert the
      fields and check them as a date-time, reporting a `ValueError` as an
      invalid date-time; otherwise set the clock and show what
      `set_system_datetime` reports. `previous` is the status label's text
      before the call. The handler catches only `ValueError`: when an
      argument overflows a C int, the `OverflowError` escapes it
      (`escapes`), the label keeps its text and nothing is issued. Nothing
      is issued unless the fields form a valid date-time. */
  method ApplyDateTime(isAdmin: bool, entries: Entries, raisesAt: Option<nat>, err: string, previous: string)
    returns (status: string, issued: seq<seq<string>>, escapes: bool)
    ensures escapes <==>
      isAdmin && ReadEntries(entries).Ok? && !ArgumentsFit(ReadEntries(entries).value)
    ensures escapes ==> status == previous && issued == []
    ensures !isAdmin ==> status == NeedsAdmin && issued == []
    ensures isAdmin && ReadEntries(entries).Err? ==>
      status == "Invalid date/time: " + ReadEntries(entries).error && issued == []
    ensures isAdmin && ReadEntries(entries).Ok? ==>
      var t := ReadEntries(entries).value;
      ArgumentsFit(t) && CheckDateTime(t).Some? ==>
        status == "Invalid date/time: " + ErrorText(CheckDateTime(t).value, t) && issued == []
    ensures issued != [] ==>
      isAdmin && ReadEntries(entries).Ok? && IsValidDateTime(ReadEntries(entries).value)
      && issued[0] == ["sc", "stop", "w32time"]
    ensures isAdmin && ReadEntries(entries).Ok? && CheckDateTime(ReadEntries(entries).value).None? ==>
      var plan := ClockCommands(ReadEntries(entries).value);
      && (raisesAt.None? || raisesAt.value >= |plan| ==> status == ClockChanged && issued == plan)
      && (raisesAt.Some? && raisesAt.value < |plan| ==>
            status == "Error: " + err && issued == plan[..raisesAt.value])
  {
    if !isAdmin {
      return NeedsAdmin, [], false;
    }
    var read := ReadEntries(entries);
    if read.Err? {
      return "Invalid date/time: " + read.error, [], false;
    }
    var t := read.value;
    var check := CheckDateTime(t);
    if check == Some(ArgumentOverflow) {
      return previous, [], true;
    }
    if check.Some? {
      return "Invalid date/time: " + ErrorText(check.value, t), [], false;
    }
    var success;
    success, status, issued := SetSystemDateTime(t, raisesAt, err);
    escapes := false;
  }
}
