/** The CSV formatter: timesheet rows become records of text fields, with
    times rounded to the nearest minute and each date shown only on the first
    row of that date. */
module Writer {
  import opened Time
  import opened Decimal
  import opened Clockify
  import opened Transform

  /** One CSV record: its fields, before any quoting. */
  type Record = seq<string>

  const Header: Record := ["date", "start", "end", "break", "description"]

  // ---------------------------------------------------------------------------
  // Dates.

  /** chrono's `%d.%m.%y` of the local date: day, month and the year modulo
      100, each as two digits. */
  function DateLabel(t: Timestamp): string {
    var d := CivilFromDays(LocalDay(t));
    ZeroPad2(d.day) + "." + ZeroPad2(d.month) + "." + ZeroPad2(d.year % 100)
  }

  /** The day, month and two-digit year a date label spells. */
  function ReadDateLabel(text: string): (int, int, int)
    requires |text| == 8 && IsDigits(text[..2]) && IsDigits(text[3..5]) && IsDigits(text[6..])
  {
    (DecimalValue(text[..2]), DecimalValue(text[3..5]), DecimalValue(text[6..]))
  }

  /** The label can be read back: it spells the local date's day, month and
      year modulo 100. */
  lemma DateLabelRoundTrip(t: Timestamp)
    ensures var text, d := DateLabel(t), CivilFromDays(LocalDay(t));
      && |text| == 8 && text[2] == '.' && text[5] == '.'
      && IsDigits(text[..2]) && IsDigits(text[3..5]) && IsDigits(text[6..])
      && ReadDateLabel(text) == (d.day, d.month, d.year % 100)
  {
    var d := CivilFromDays(LocalDay(t));
    var a, b, c := ZeroPad2(d.day), ZeroPad2(d.month), ZeroPad2(d.year % 100);
    ZeroPad2Value(d.day);
    ZeroPad2Value(d.month);
    ZeroPad2Value(d.year % 100);
    var text := a + "." + b + "." + c;
    assert text[..2] == a && text[3..5] == b && text[6..] == c;
  }

  /** Two instants get the same label exactly when their local dates agree in
      day, month and year modulo 100: dates a century apart look alike. */
  lemma DateLabelSame(s: Timestamp, t: Timestamp)
    ensures var a, b := CivilFromDays(LocalDay(s)), CivilFromDays(LocalDay(t));
      DateLabel(s) == DateLabel(t) <==>
        a.day == b.day && a.month == b.month && a.year % 100 == b.year % 100
  {
    DateLabelRoundTrip(s);
    DateLabelRoundTrip(t);
  }

  /** Instants on the same local day always share their label. */
  lemma SameDaySameLabel(s: Timestamp, t: Timestamp)
    requires LocalDay(s) == LocalDay(t)
    ensures DateLabel(s) == DateLabel(t)
  {
  }

  // ---------------------------------------------------------------------------
  // Times and breaks.

  /** The clock reading hour:minute:second rounded half up to whole
      minutes: a second of 30 or more adds a minute, and a minute of 60 is
      carried into the hour. The step `format_time_field` and
      `format_break_field` share. */
  function RoundToMinute(hour: nat, minute: nat, second: nat): (nat, nat) {
    var minute := if second >= 30 then minute + 1 else minute;
    if minute >= 60 then (hour + 1, minute - 60) else (hour, minute)
  }

  /** Rounding gives the nearest whole minute, ties going up, as hours and
      minutes below 60. */
  lemma RoundToMinuteNearest(hour: nat, minute: nat, second: nat, total: int)
    requires minute < 60 && second < 60
    requires total == hour * 3600 + minute * 60 + second
    ensures var hm := RoundToMinute(hour, minute, second);
      hm.1 < 60 && hm.0 * 60 + hm.1 == (total + 30) / 60
  {
    assert total + 30 == (hour * 60 + minute) * 60 + (second + 30);
  }

  /** `format_time_field`: the local time of day as `HH:MM`, rounded to the
      minute. */
  function FormatTimeField(t: Timestamp): string {
    var hm := RoundToMinute(Hour(t), Minute(t), Second(t));
    ZeroPad2(hm.0) + ":" + ZeroPad2(hm.1)
  }

  /** The field is two digits of hours and two of minutes around a colon, and
      reads back as the time of day rounded half up to whole minutes. The
      hour is not wrapped, so the last half minute of the day reads `24:00`. */
  lemma FormatTimeFieldRounds(t: Timestamp)
    ensures var field := FormatTimeField(t);
      && |field| == 5 && field[2] == ':' && IsDigits(field[..2]) && IsDigits(field[3..])
      && DecimalValue(field[3..]) < 60
      && DecimalValue(field[..2]) * 60 + DecimalValue(field[3..]) == (SecondOfDay(t) + 30) / 60
  {
    ClockDecomposition(t);
    RoundToMinuteNearest(Hour(t), Minute(t), Second(t), SecondOfDay(t));
    var hm := RoundToMinute(Hour(t), Minute(t), Second(t));
    PaddedText(hm.0, hm.1);
  }

  /** Two digits of hours, a colon and two digits of minutes read back as the
      hours and the minutes. */
  lemma PaddedText(hour: nat, minute: nat)
    requires hour < 100 && minute < 60
    ensures var field := ZeroPad2(hour) + ":" + ZeroPad2(minute);
      && |field| == 5 && field[2] == ':' && IsDigits(field[..2]) && IsDigits(field[3..])
      && DecimalValue(field[3..]) < 60
      && DecimalValue(field[..2]) * 60 + DecimalValue(field[3..]) == hour * 60 + minute
  {
    ZeroPad2Value(hour);
    ZeroPad2Value(minute);
    SplitTwoDigits(ZeroPad2(hour), ZeroPad2(minute));
  }

  /** The two halves of `h:mm` are found again around the colon, which sits
      three characters from the end. */
  lemma SplitAtColon(h: string, m: string)
    requires |m| == 2
    ensures var field := h + ":" + m;
      var c := |field| - 3;
      c == |h| && field[..c] == h && field[c] == ':' && field[c + 1..] == m
  {
    var field := h + ":" + m;
    assert field[..|h|] == h;
    assert field[|h| + 1..] == m;
  }

  lemma SplitTwoDigits(h: string, m: string)
    requires |h| == 2 && |m| == 2
    ensures var field := h + ":" + m;
      |field| == 5 && field[..2] == h && field[2] == ':' && field[3..] == m
  {
    var field := h + ":" + m;
    assert field[..|h|] == h;
    assert field[|h| + 1..] == m;
  }

  /** The rounded time never passes midnight by more than the minute itself:
      the hour is at most 24, and 24 only as `24:00`. */
  lemma FormatTimeFieldHour(t: Timestamp)
    ensures var field := FormatTimeField(t);
      && |field| == 5 && IsDigits(field[..2])
      && DecimalValue(field[..2]) <= 24 && (DecimalValue(field[..2]) == 24 ==> field[3..] == "00")
  {
    FormatTimeFieldRounds(t);
    var field := FormatTimeField(t);
    var m := field[3..];
    if DecimalValue(field[..2]) == 24 {
      assert DecimalValue(m) == 0;
      assert m == [m[0], m[1]];
      assert DecimalValue(m) == DigitValue(m[0]) * 10 + DigitValue(m[1]) by {
        assert m[..1] == [m[0]] && [m[0]][..0] == [];
      }
    }
  }

  /** `format_break_field`: nothing below 30 seconds, otherwise `H:MM`
      rounded to the minute, with the hours unpadded. */
  function FormatBreakField(d: Duration): string {
    if d < 30 then ""
    else
      // The operands are positive here, so Rust's truncating `/` and `%`
      // agree with the Euclidean ones.
      var hm := RoundToMinute(d / 3600, d / 60 % 60, d % 60);
      DecimalString(hm.0) + ":" + ZeroPad2(hm.1)
  }

  /** The field is empty exactly for breaks under 30 seconds, so also for no
      break or a negative one. */
  lemma FormatBreakFieldEmpty(d: Duration)
    ensures FormatBreakField(d) == "" <==> d < 30
  {
  }

  /** From 30 seconds on, the field is the hours, unpadded, a colon and two
      digits of minutes, and reads back as the break rounded half up to
      whole minutes. */
  lemma FormatBreakFieldRounds(d: Duration)
    ensures var field := FormatBreakField(d);
      d >= 30 ==>
        var c := |field| - 3;
        && c >= 1 && field[c] == ':'
        && IsDigits(field[..c]) && IsDigits(field[c + 1..])
        && (field[0] == '0' ==> c == 1)
        && DecimalValue(field[c + 1..]) < 60
        && DecimalValue(field[..c]) * 60 + DecimalValue(field[c + 1..]) == (d + 30) / 60
  {
    if d >= 30 {
      assert d == d / 3600 * 3600 + d / 60 % 60 * 60 + d % 60 by {
        assert d / 3600 == d / 60 / 60;
      }
      RoundToMinuteNearest(d / 3600, d / 60 % 60, d % 60, d);
      var hm := RoundToMinute(d / 3600, d / 60 % 60, d % 60);
      HoursMinutesText(hm.0, hm.1);
    }
  }

  /** Unpadded hours, a colon and two digits of minutes read back as the
      hours and the minutes. */
  lemma HoursMinutesText(hour: nat, minute: nat)
    requires minute < 60
    ensures var field := DecimalString(hour) + ":" + ZeroPad2(minute);
      var c := |field| - 3;
      && c >= 1 && field[c] == ':'
      && IsDigits(field[..c]) && IsDigits(field[c + 1..])
      && (field[0] == '0' ==> c == 1)
      && DecimalValue(field[c + 1..]) < 60
      && DecimalValue(field[..c]) * 60 + DecimalValue(field[c + 1..]) == hour * 60 + minute
  {
    var h, m := DecimalString(hour), ZeroPad2(minute);
    DecimalStringShape(hour);
    DecimalRoundTrip(hour);
    ZeroPad2Value(minute);
    ReadAroundColon(h, m);
  }

  /** Around the colon three characters from the end lie the two digit
      strings that were joined, with their values. */
  lemma ReadAroundColon(h: string, m: string)
    requires IsDigits(h) && IsDigits(m) && |h| >= 1 && |m| == 2
    ensures var field := h + ":" + m;
      var c := |field| - 3;
      && c == |h| && field[c] == ':' && field[0] == h[0]
      && IsDigits(field[..c]) && IsDigits(field[c + 1..])
      && DecimalValue(field[..c]) == DecimalValue(h) && DecimalValue(field[c + 1..]) == DecimalValue(m)
  {
    SplitAtColon(h, m);
  }

  /** Times of day on 2022-10-01, in UTC: below
      half a minute they round down, from half a minute up, carrying into the
      hour. */
  lemma FormatTimeFieldRoundDown()
    ensures FormatTimeField(At(19266, 8, 9, 15)) == "08:09"
    ensures FormatTimeField(At(19266, 11, 59, 29)) == "11:59"
  {
    ClockExample(19266, 8, 9, 15);
    ClockExample(19266, 11, 59, 29);
    PaddedExample(8, 9);
    PaddedExample(11, 59);
  }

  lemma FormatTimeFieldRoundUp()
    ensures FormatTimeField(At(19266, 12, 10, 45)) == "12:11"
    ensures FormatTimeField(At(19266, 9, 5, 30)) == "09:06"
    ensures FormatTimeField(At(19266, 8, 59, 30)) == "09:00"
  {
    ClockExample(19266, 12, 10, 45);
    ClockExample(19266, 9, 5, 30);
    ClockExample(19266, 8, 59, 30);
    PaddedExample(12, 11);
    PaddedExample(9, 6);
    PaddedExample(9, 0);
  }

  lemma ClockExample(day: int, hour: nat, minute: nat, second: nat)
    requires hour < 24 && minute < 60 && second < 60
    ensures var t := At(day, hour, minute, second);
      LocalDay(t) == day && Hour(t) == hour && Minute(t) == minute && Second(t) == second
  {
    var x := hour * 3600 + minute * 60 + second;
    DayAndSecond(day, x);
    ClockOfSecond(x, hour, minute, second);
  }

  lemma DayAndSecond(day: int, x: int)
    requires 0 <= x < 86400
    ensures var t := Timestamp(day * 86400 + x, 0);
      LocalDay(t) == day && SecondOfDay(t) == x
  {
  }

  lemma ClockOfSecond(x: int, hour: nat, minute: nat, second: nat)
    requires hour < 24 && minute < 60 && second < 60
    requires x == hour * 3600 + minute * 60 + second
    ensures x / 3600 == hour && x % 3600 / 60 == minute && x % 60 == second
  {
    assert x % 3600 == minute * 60 + second;
  }

  lemma PaddedExample(hour: nat, minute: nat)
    requires hour < 100 && minute < 100
    ensures ZeroPad2(hour) + ":" + ZeroPad2(minute)
      == [DigitChar(hour / 10), DigitChar(hour % 10), ':', DigitChar(minute / 10), DigitChar(minute % 10)]
  {
    ZeroPad2Digits(hour);
    ZeroPad2Digits(minute);
  }

  /** Breaks below half a minute leave the field empty; longer ones round
      half up to the minute. */
  lemma FormatBreakFieldRoundDown()
    ensures FormatBreakField(0) == "" && FormatBreakField(29) == ""
    ensures FormatBreakField(60) == "0:01" && FormatBreakField(59 * 60) == "0:59"
    ensures FormatBreakField(60 * 60) == "1:00"
  {
    BreakExample(60, 0, 1);
    BreakExample(59 * 60, 0, 59);
    BreakExample(60 * 60, 1, 0);
  }

  lemma FormatBreakFieldRoundUp()
    ensures FormatBreakField(30) == "0:01" && FormatBreakField(60 + 30) == "0:02"
    ensures FormatBreakField(59 * 60 + 30) == "1:00" && FormatBreakField(60 * 60 + 30) == "1:01"
  {
    BreakExample(30, 0, 1);
    BreakExample(60 + 30, 0, 2);
    BreakExample(59 * 60 + 30, 1, 0);
    BreakExample(60 * 60 + 30, 1, 1);
  }

  lemma BreakExample(d: int, hour: nat, minute: nat)
    requires d >= 30 && hour < 10 && minute < 60
    requires (d + 30) / 60 == hour * 60 + minute
    ensures FormatBreakField(d) == [DigitChar(hour), ':', DigitChar(minute / 10), DigitChar(minute % 10)]
  {
    assert d == d / 3600 * 3600 + d / 60 % 60 * 60 + d % 60 by {
      assert d / 3600 == d / 60 / 60;
    }
    RoundToMinuteNearest(d / 3600, d / 60 % 60, d % 60, d);
    assert RoundToMinute(d / 3600, d / 60 % 60, d % 60) == (hour, minute);
    ZeroPad2Digits(minute);
  }

  // ---------------------------------------------------------------------------
  // Records.

  /** The dates as shown: a date equal to the one before it is left blank. */
  function ShownDates(dates: seq<string>): seq<string> {
    seq(|dates|, i requires 0 <= i < |dates| =>
      if i > 0 && dates[i] == dates[i - 1] then "" else dates[i])
  }

  /** How a reader fills in blank dates: each blank repeats the date above it. */
  function FillDown(shown: seq<string>): (dates: seq<string>)
    ensures |dates| == |shown|
  {
    if shown == [] then []
    else
      var above := FillDown(shown[..|shown| - 1]);
      var last := shown[|shown| - 1];
      above + [if last == "" && above != [] then above[|above| - 1] else last]
  }

  /** Blanking repeated dates loses nothing: filling the blanks down gives
      every row its date back. */
  lemma {:induction false} FillDownShownDates(dates: seq<string>)
    requires forall i :: 0 <= i < |dates| ==> dates[i] != ""
    ensures FillDown(ShownDates(dates)) == dates
  {
    if dates != [] {
      var n := |dates|;
      var prefix, shown := dates[..n - 1], ShownDates(dates);
      assert shown[..n - 1] == ShownDates(prefix);
      FillDownShownDates(prefix);
      assert FillDown(shown) == prefix + [dates[n - 1]];
      assert prefix + [dates[n - 1]] == dates;
    }
  }

  /** The date label of each row's start. */
  function StartDates(entries: seq<TimeSheetEntry>): seq<string> {
    seq(|entries|, i requires 0 <= i < |entries| => DateLabel(entries[i].start))
  }

  /** The record of one row, given the date field to show. */
  function Row(e: TimeSheetEntry, date: string): Record {
    [date, FormatTimeField(e.start), FormatTimeField(e.end), FormatBreakField(e.breakTime), e.description]
  }

  /** The records of the rows, given the date field each shows. */
  function Rows(entries: seq<TimeSheetEntry>, shown: seq<string>): (records: seq<Record>)
    requires |shown| == |entries|
    ensures |records| == |entries|
  {
    Zip(Row, entries, shown)
  }

  /** Two sequences of equal length combined element by element through f. */
  function Zip<A, B, C>(f: (A, B) -> C, a: seq<A>, b: seq<B>): (r: seq<C>)
    requires |a| == |b|
    ensures |r| == |a|
  {
    if a == [] then [] else Zip(f, a[..|a| - 1], b[..|b| - 1]) + [f(a[|a| - 1], b[|b| - 1])]
  }

  lemma {:induction false} ZipIndex<A, B, C>(f: (A, B) -> C, a: seq<A>, b: seq<B>, i: nat)
    requires |a| == |b| && i < |a|
    ensures Zip(f, a, b)[i] == f(a[i], b[i])
  {
    var n := |a|;
    if i < n - 1 {
      ZipIndex(f, a[..n - 1], b[..n - 1], i);
    }
  }

  lemma ZipStep<A, B, C>(f: (A, B) -> C, a: seq<A>, b: seq<B>, i: nat)
    requires |a| == |b| && i < |a|
    ensures Zip(f, a[..i + 1], b[..i + 1]) == Zip(f, a[..i], b[..i]) + [f(a[i], b[i])]
  {
    assert a[..i + 1][..i] == a[..i];
    assert b[..i + 1][..i] == b[..i];
  }

  /** The records written for the rows: the header, then one record per row. */
  function Csv(entries: seq<TimeSheetEntry>): seq<Record> {
    [Header] + Rows(entries, ShownDates(StartDates(entries)))
  }

  /** `write_csv`: the header, then one record per row in order, its date
      shown only when it differs from the date of the row before. */
  method WriteCsv(entries: seq<TimeSheetEntry>) returns (records: seq<Record>)
    ensures records == Csv(entries)
  {
    records := [Header];
    var lastDate: Option<string> := None;
    ghost var dates := StartDates(entries);
    ghost var shown := ShownDates(dates);
    TakeNone(entries);
    TakeNone(shown);
    for i := 0 to |entries|
      invariant records == [Header] + Rows(entries[..i], shown[..i])
      invariant lastDate == if i == 0 then None else Some(dates[i - 1])
    {
      var entry := entries[i];
      var date := DateLabel(entry.start);
      assert date == dates[i];
      if lastDate == Some(date) {
        assert i > 0 && dates[i] == dates[i - 1];
        date := "";
      } else {
        assert !(i > 0 && dates[i] == dates[i - 1]);
        lastDate := Some(date);
      }
      assert date == shown[i];
      ZipStep(Row, entries, shown, i);
      ConsSnoc(Header, Rows(entries[..i], shown[..i]), Row(entry, date));
      records := records + [Row(entry, date)];
    }
    TakeAll(entries);
    TakeAll(shown);
  }

  lemma TakeNone<T>(s: seq<T>)
    ensures s[..0] == []
  {
  }

  lemma TakeAll<T>(s: seq<T>)
    ensures s[..|s|] == s
  {
  }

  lemma ConsSnoc<T>(x: T, s: seq<T>, y: T)
    ensures [x] + (s + [y]) == ([x] + s) + [y]
  {
  }

  /** The header comes first, then one record per row. */
  lemma CsvShape(entries: seq<TimeSheetEntry>)
    ensures var records := Csv(entries);
      |records| == |entries| + 1 && records[0] == Header
  {
  }

  /** The record of row i has five fields: the shown date, then start, end
      and break as formatted, and the description verbatim. */
  lemma CsvRecordFields(entries: seq<TimeSheetEntry>, i: nat)
    requires i < |entries|
    ensures var e, r := entries[i], Csv(entries)[i + 1];
      && |r| == 5
      && r[1] == FormatTimeField(e.start) && r[2] == FormatTimeField(e.end)
      && r[3] == FormatBreakField(e.breakTime) && r[4] == e.description
  {
    var shown := ShownDates(StartDates(entries));
    var e := entries[i];
    ConsIndex(Header, Rows(entries, shown), i);
    ZipIndex(Row, entries, shown, i);
    FiveFields(shown[i], FormatTimeField(e.start), FormatTimeField(e.end), FormatBreakField(e.breakTime), e.description);
  }

  lemma ConsIndex<T>(x: T, s: seq<T>, i: nat)
    requires i < |s|
    ensures ([x] + s)[i + 1] == s[i]
  {
  }

  lemma FiveFields<T>(a: T, b: T, c: T, d: T, e: T)
    ensures var r := [a, b, c, d, e];
      |r| == 5 && r[0] == a && r[1] == b && r[2] == c && r[3] == d && r[4] == e
  {
  }

  /** The date field of row i is blank exactly when the row starts on the
      same date label as the row before; otherwise it is that label. */
  lemma CsvRecordDate(entries: seq<TimeSheetEntry>, i: nat)
    requires i < |entries|
    ensures var records := Csv(entries);
      |records| == |entries| + 1 && |records[i + 1]| == 5
    ensures var e, date := entries[i], Csv(entries)[i + 1][0];
      && (date == "" <==> i > 0 && DateLabel(e.start) == DateLabel(entries[i - 1].start))
      && (date != "" ==> date == DateLabel(e.start))
  {
    var shown := ShownDates(StartDates(entries));
    ShownStartDate(entries, i);
    ConsIndex(Header, Rows(entries, shown), i);
    ZipIndex(Row, entries, shown, i);
    FiveFields(shown[i], FormatTimeField(entries[i].start), FormatTimeField(entries[i].end),
      FormatBreakField(entries[i].breakTime), entries[i].description);
  }

  /** The date shown for row i: blank when its label repeats the previous
      row's, its own label otherwise. */
  lemma ShownStartDate(entries: seq<TimeSheetEntry>, i: nat)
    requires i < |entries|
    ensures |ShownDates(StartDates(entries))| == |entries|
    ensures var e, date := entries[i], ShownDates(StartDates(entries))[i];
      && (date == "" <==> i > 0 && DateLabel(e.start) == DateLabel(entries[i - 1].start))
      && (date != "" ==> date == DateLabel(e.start))
  {
    var dates := StartDates(entries);
    var shown := ShownDates(dates);
    StartDatesAll(entries);
    ShownDatesAll(dates);
    DateLabelNonEmpty(entries[i].start);
    assert dates[i] == DateLabel(entries[i].start);
    if i > 0 {
      assert dates[i - 1] == DateLabel(entries[i - 1].start);
    }
    assert shown[i] == if i > 0 && dates[i] == dates[i - 1] then "" else dates[i];
  }

  lemma StartDatesAll(entries: seq<TimeSheetEntry>)
    ensures |StartDates(entries)| == |entries|
    ensures forall i :: 0 <= i < |entries| ==> StartDates(entries)[i] == DateLabel(entries[i].start)
  {
  }

  lemma ShownDatesAll(dates: seq<string>)
    ensures |ShownDates(dates)| == |dates|
    ensures forall i :: 0 <= i < |dates| ==>
      ShownDates(dates)[i] == if i > 0 && dates[i] == dates[i - 1] then "" else dates[i]
  {
  }

  lemma DateLabelNonEmpty(t: Timestamp)
    ensures DateLabel(t) != ""
  {
    DateLabelRoundTrip(t);
  }

  /** The date column of the records after the header. */
  function DateColumn(records: seq<Record>): (dates: seq<string>)
    ensures |dates| == |records|
  {
    seq(|records|, i requires 0 <= i < |records| => if records[i] == [] then "" else records[i][0])
  }

  /** A reader who fills blank dates down from the row above recovers every
      row's start date. */
  lemma CsvDatesRecoverable(entries: seq<TimeSheetEntry>)
    ensures FillDown(DateColumn(Csv(entries)[1..])) == StartDates(entries)
  {
    var dates := StartDates(entries);
    var shown := ShownDates(dates);
    var column := DateColumn(Csv(entries)[1..]);
    forall i | 0 <= i < |entries|
      ensures column[i] == shown[i]
    {
      ZipIndex(Row, entries, shown, i);
    }
    assert column == shown;
    FillDownShownDates(dates);
  }

  // ---------------------------------------------------------------------------
  // Example: three rows over 2022-10-01 and 2022-10-02, in UTC.

  /** The records of three rows: times rounded to the minute, the second
      row's date left blank, a break of 1:00:30 shown as 1:01. */
  lemma CsvExample()
    ensures Csv([TimeSheetEntry("Task 1", At(19266, 8, 0, 29), At(19266, 8, 59, 30), 0),
                 TimeSheetEntry("Task 2", At(19266, 13, 0, 31), At(19266, 14, 59, 30), 3630),
                 TimeSheetEntry("Task 3", At(19267, 8, 0, 0), At(19267, 9, 0, 0), 0)])
      == [Header,
          ["01.10.22", "08:00", "09:00", "", "Task 1"],
          ["", "13:01", "15:00", "1:01", "Task 2"],
          ["02.10.22", "08:00", "09:00", "", "Task 3"]]
  {
    var entries := [TimeSheetEntry("Task 1", At(19266, 8, 0, 29), At(19266, 8, 59, 30), 0),
                    TimeSheetEntry("Task 2", At(19266, 13, 0, 31), At(19266, 14, 59, 30), 3630),
                    TimeSheetEntry("Task 3", At(19267, 8, 0, 0), At(19267, 9, 0, 0), 0)];
    ExampleDates();
    ExampleRows(entries);
    LabelsDiffer();
    CsvOfThree(entries, "01.10.22", "02.10.22",
      ["01.10.22", "08:00", "09:00", "", "Task 1"],
      ["", "13:01", "15:00", "1:01", "Task 2"],
      ["02.10.22", "08:00", "09:00", "", "Task 3"]);
  }

  /** The records of three rows, the first two on one date and the third on
      another. */
  lemma CsvOfThree(entries: seq<TimeSheetEntry>, a: string, b: string, r0: Record, r1: Record, r2: Record)
    requires |entries| == 3 && a != b
    requires DateLabel(entries[0].start) == a && DateLabel(entries[1].start) == a
    requires DateLabel(entries[2].start) == b
    requires Row(entries[0], a) == r0 && Row(entries[1], "") == r1 && Row(entries[2], b) == r2
    ensures Csv(entries) == [Header, r0, r1, r2]
  {
    var records := Csv(entries);
    var dates := StartDates(entries);
    var shown := ShownDates(dates);
    assert shown[0] == a && shown[1] == "" && shown[2] == b;
    CsvShape(entries);
    CsvRecordIs(entries, 0);
    CsvRecordIs(entries, 1);
    CsvRecordIs(entries, 2);
    FourOf(records);
  }

  /** The record of row i is the row with the date it shows. */
  lemma CsvRecordIs(entries: seq<TimeSheetEntry>, i: nat)
    requires i < |entries|
    ensures Csv(entries)[i + 1] == Row(entries[i], ShownDates(StartDates(entries))[i])
  {
    var shown := ShownDates(StartDates(entries));
    ConsIndex(Header, Rows(entries, shown), i);
    ZipIndex(Row, entries, shown, i);
  }

  lemma ExampleRows(entries: seq<TimeSheetEntry>)
    requires entries == [TimeSheetEntry("Task 1", At(19266, 8, 0, 29), At(19266, 8, 59, 30), 0),
                         TimeSheetEntry("Task 2", At(19266, 13, 0, 31), At(19266, 14, 59, 30), 3630),
                         TimeSheetEntry("Task 3", At(19267, 8, 0, 0), At(19267, 9, 0, 0), 0)]
    ensures Row(entries[0], "01.10.22") == ["01.10.22", "08:00", "09:00", "", "Task 1"]
    ensures Row(entries[1], "") == ["", "13:01", "15:00", "1:01", "Task 2"]
    ensures Row(entries[2], "02.10.22") == ["02.10.22", "08:00", "09:00", "", "Task 3"]
  {
    ExampleTimes();
    FormatBreakFieldRoundDown();
    FormatBreakFieldRoundUp();
  }

  lemma ExampleDates()
    ensures DateLabel(At(19266, 8, 0, 29)) == "01.10.22"
    ensures DateLabel(At(19266, 13, 0, 31)) == "01.10.22"
    ensures DateLabel(At(19267, 8, 0, 0)) == "02.10.22"
  {
    CivilFromDaysExample();
    ZeroPad2Examples();
    LabelPieces();
    DateLabelAt(19266, 8, 0, 29, Date(2022, 10, 1), "01", "10", "22", "01.10.22");
    DateLabelAt(19266, 13, 0, 31, Date(2022, 10, 1), "01", "10", "22", "01.10.22");
    DateLabelAt(19267, 8, 0, 0, Date(2022, 10, 2), "02", "10", "22", "02.10.22");
  }

  lemma ZeroPad2Examples()
    ensures ZeroPad2(1) == "01" && ZeroPad2(2) == "02"
    ensures ZeroPad2(10) == "10" && ZeroPad2(22) == "22"
  {
    ZeroPad2Digits(10);
    ZeroPad2Digits(22);
  }

  lemma LabelPieces()
    ensures "01.10.22" == "01" + "." + "10" + "." + "22"
    ensures "02.10.22" == "02" + "." + "10" + "." + "22"
  {
  }

  lemma LabelsDiffer()
    ensures "01.10.22" != "02.10.22"
  {
    assert "01.10.22"[1] != "02.10.22"[1];
  }

  lemma DateLabelAt(day: int, hour: nat, minute: nat, second: nat, d: Date,
                    dd: string, mm: string, yy: string, text: string)
    requires hour < 24 && minute < 60 && second < 60 && CivilFromDays(day) == d
    requires ZeroPad2(d.day) == dd && ZeroPad2(d.month) == mm && ZeroPad2(d.year % 100) == yy
    requires text == dd + "." + mm + "." + yy
    ensures DateLabel(At(day, hour, minute, second)) == text
  {
    ClockExample(day, hour, minute, second);
  }

  lemma ExampleTimes()
    ensures FormatTimeField(At(19266, 8, 0, 29)) == "08:00"
    ensures FormatTimeField(At(19266, 8, 59, 30)) == "09:00"
    ensures FormatTimeField(At(19266, 13, 0, 31)) == "13:01"
    ensures FormatTimeField(At(19266, 14, 59, 30)) == "15:00"
    ensures FormatTimeField(At(19267, 8, 0, 0)) == "08:00"
    ensures FormatTimeField(At(19267, 9, 0, 0)) == "09:00"
  {
    ClockExample(19266, 8, 0, 29);
    ClockExample(19266, 8, 59, 30);
    ClockExample(19266, 13, 0, 31);
    ClockExample(19266, 14, 59, 30);
    ClockExample(19267, 8, 0, 0);
    ClockExample(19267, 9, 0, 0);
    PaddedExample(8, 0);
    PaddedExample(9, 0);
    PaddedExample(13, 1);
    PaddedExample(15, 0);
  }

  lemma FourOf<T>(r: seq<T>)
    requires |r| == 4
    ensures r == [r[0], r[1], r[2], r[3]]
  {
  }
}
