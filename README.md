# clockify-to-time-sheet: the timesheet pipeline in Dafny

This project models the core of clockify-to-time-sheet. The program takes the
time entries a Clockify workspace reports for a month and turns them into a
CSV timesheet. The model covers two stages:

- **The consolidator** (`src/transform.rs`), in module `Transform`.
  - `convert_time_entries` turns the newest-first list of time entries into
    timesheet rows in chronological order. Each row is labelled with its
    task's name, or with the entry's description when it has no task, and
    starts with no break.
  - `merge_time_sheet_entries` walks the rows once. A row with the same
    description as the last emitted row, ending on the same local day, widens
    that row: the gap between them goes into its break and its end moves
    forward. Any other row is emitted as it is.
  - `transform_time_entries` composes the two.
- **The formatter** (`src/writer.rs`), in module `Writer`.
  - `write_csv` produces the header and one record per row.
  - A row's date (`%d.%m.%y`) is shown only when it differs from the date
    last shown.
  - Start and end are rounded half up to the minute (`HH:MM`). The break is
    rounded the same way (`H:MM`), or left empty when it is under half a
    minute.

Supporting modules:
- `Time` models chrono's `DateTime<Local>` as an instant in UTC seconds
  together with its local UTC offset.
  - The local day, the time of day and the civil date are computed from them.
  - The civil date uses the days-to-civil algorithm over 400-year eras, and
    it is proved to invert.
  - Durations are whole seconds.
- `Decimal` models Rust's `{}` and `{:02}` for unsigned integers, and reads
  the text back as a number.
- `Clockify` holds the shape of an already-fetched time entry.

How the proofs are organised:
- The merge loop is an imperative method. It is proved equal to `Coalesce`, a
  declarative reading: split the rows into maximal runs of neighbours that
  share a description and an end day, then collapse each run into one row.
  The merge properties are proved about `Coalesce`.
- `write_csv` is a method with the source's `last_date` variable. It is
  proved equal to `Csv`: the header, then each row with the date it shows.
- The formatting functions are proved to round to the nearest minute and to
  read back as the rounded value.

`format_time_field` carries minute 60 into the hour without wrapping, so a
time of 23:59:30 or later renders as `24:00` (`Writer.FormatTimeFieldHour`).

## Model

| member | source | states |
|---|---|---|
| Transform.ConvertTimeEntries | src/transform.rs:25-39 | the output has one row per entry, in reverse order; row i carries the label, start and end of entry n-1-i and a zero break |
| Transform.ConvertKeepsTotal | src/transform.rs:29-37 | converted rows have no break, and their total work equals the total tracked time of the entries |
| Transform.ConvertExample | src/transform.rs:76-143 | two entries with tasks come out oldest first under their task names; an entry without a task keeps its description |
| Transform.Coalesce | src/transform.rs:50-67 | merging never adds rows, and yields no rows exactly when given none |
| Transform.MergeTimeSheetEntries | src/transform.rs:50-67 | the loop that widens the last emitted row or pushes a new one yields exactly `Coalesce` of its input |
| Transform.MergeFoldIsCoalesce | src/transform.rs:52-65 | folding the loop step over the rows from first to last gives the maximal-run reading |
| Transform.CoalesceMergeStep | src/transform.rs:53-64 | merging one more row widens the last merged row when the two are joinable, and appends the row otherwise |
| Transform.CoalesceRun | src/transform.rs:54-58 | a run of rows with one description ending on one day becomes one row: first start, last end, break = first break plus every gap `next.start - prev.end` |
| Transform.CoalesceSeparated | src/transform.rs:53-61 | in the merged output, consecutive rows differ in description or in the local day of their end |
| Transform.CoalesceUnchanged | src/transform.rs:59-61 | rows come back unchanged if and only if no two neighbours share description and end day |
| Transform.CoalesceIdempotent | src/transform.rs:50-67 | merging merged rows changes nothing |
| Transform.CoalesceCount | src/transform.rs:53-64 | a nonempty list merges into one row more than the number of neighbour pairs that cannot be joined |
| Transform.CoalesceFirst | src/transform.rs:62-63 | the first merged row has the first row's start and description |
| Transform.CoalesceLast | src/transform.rs:57-58 | the last merged row has the last row's description and end |
| Transform.CoalesceKeepsTotal | src/transform.rs:43-58 | for break-free rows, the sum of `end - start - break` is the same after merging |
| Transform.TransformTimeEntries | src/transform.rs:17-19 | the pipeline yields `Coalesce` of the converted entries: at most one row per entry, no two neighbours joinable, total work equal to the time tracked, and chronological rows whenever the entries are listed newest first without overlap |
| Transform.ConvertChronological | src/transform.rs:25-39 | entries listed newest first, none overlapping, become rows in chronological order: each ends no earlier than it starts, and each starts no earlier than the one before ends |
| Transform.CoalesceChronological | src/transform.rs:50-67 | merging chronological rows keeps them chronological: starts ascend, no row ends before it starts, and every break, the sum of the gaps, stays non-negative |
| Transform.TransformChronological | src/transform.rs:17-19 | entries listed newest first without overlap come out of the whole consolidation in chronological order, with no negative break |
| Transform.MergeSameTaskExample | src/transform.rs:146-172 | two same-task rows on one day merge into one with a break of 8370 s |
| Transform.MergeKeepsSeparatedExample | src/transform.rs:175-220 | alternating tasks, and one task on two days, are left unmerged |
| Transform.MergeMultipleBreaksExample | src/transform.rs:223-256 | three same-task rows merge into one with a break of 8370 + 2685 s |
| Time.Elapsed | src/transform.rs:57 | the difference of two instants is zero or positive exactly when the first is the same or earlier |
| Time.LocalDay | src/transform.rs:55 | the local day is the whole number of days that contains the local time |
| Time.SecondOfDay | src/writer.rs:38-40 | the local time is the local day plus a second of the day below 86400 |
| Time.ClockDecomposition | src/writer.rs:38-40 | hour, minute and second recompose the second of the day |
| Time.CivilFromDays | src/writer.rs:16 | every day count maps to a date with month in 1..12 and day in 1..31 |
| Time.CivilRoundTrip | src/writer.rs:16 | converting a day count to a civil date and back gives the same day count |
| Time.CivilFromDaysExample | src/writer.rs:76 | day 19266 since 1970-01-01 is 2022-10-01, and day 19267 is 2022-10-02 |
| Decimal.DecimalStringShape | src/writer.rs:66 | `{}` renders a nonempty digit string with no leading zero except for 0 |
| Decimal.DecimalRoundTrip | src/writer.rs:66 | the `{}` rendering reads back as the number |
| Decimal.ZeroPad2Value | src/writer.rs:47 | `{:02}` renders at least two digits, exactly two below 100, reading back as the number |
| Writer.DateLabelRoundTrip | src/writer.rs:16 | the date label is `DD.MM.YY` and spells the local day, month and year modulo 100 |
| Writer.DateLabelSame | src/writer.rs:16-17 | two instants get the same label exactly when their local dates agree in day, month and year modulo 100 |
| Writer.SameDaySameLabel | src/writer.rs:16 | instants on the same local day share their label |
| Writer.RoundToMinuteNearest | src/writer.rs:40-46 | bumping the minute at 30 s and carrying 60 into the hour gives minutes below 60 and the total minutes `(seconds + 30) / 60` |
| Writer.FormatTimeFieldRounds | src/writer.rs:37-48 | the start/end field is `HH:MM` with minutes below 60, and `HH*60 + MM` is the local second of the day rounded half up to the minute |
| Writer.FormatTimeFieldHour | src/writer.rs:43-47 | the hour shown is at most 24, and it is 24 only as `24:00` |
| Writer.FormatBreakFieldEmpty | src/writer.rs:54-56 | the break field is empty exactly when the break is under 30 s, including zero and negative breaks |
| Writer.FormatBreakFieldRounds | src/writer.rs:57-66 | a break of 30 s or more renders as `H:MM`: hours unpadded, minutes two digits below 60, `H*60 + MM` equal to the seconds rounded half up to the minute |
| Writer.FormatTimeFieldRoundDown | src/writer.rs:75-80 | 08:09:15 shows as 08:09 and 11:59:29 as 11:59 |
| Writer.FormatTimeFieldRoundUp | src/writer.rs:83-90 | 12:10:45 shows as 12:11, 09:05:30 as 09:06, and 08:59:30 as 09:00 |
| Writer.FormatBreakFieldRoundDown | src/writer.rs:93-104 | 0 s and 29 s show nothing; 60 s, 59 min and 60 min show 0:01, 0:59 and 1:00 |
| Writer.FormatBreakFieldRoundUp | src/writer.rs:107-116 | 30 s, 90 s, 59 min 30 s and 60 min 30 s show 0:01, 0:02, 1:00 and 1:01 |
| Writer.FillDownShownDates | src/writer.rs:14-22 | filling each blank with the date above it recovers every date |
| Writer.WriteCsv | src/writer.rs:8-33 | the loop with `last_date` yields exactly `Csv`: the header, then each row with the date it shows |
| Writer.CsvShape | src/writer.rs:13-15 | the header comes first, followed by one record per row |
| Writer.CsvRecordFields | src/writer.rs:23-29 | record i has five fields: date, start and end rounded, the break formatted, and the description verbatim |
| Writer.CsvRecordDate | src/writer.rs:14-22 | record i's date is blank exactly when row i starts on the same label as row i-1, and otherwise is the label; the first row always shows its date |
| Writer.CsvDatesRecoverable | src/writer.rs:14-22 | filling blank dates down the date column recovers every row's start date |
| Writer.CsvExample | src/writer.rs:119-150 | three rows over two days give the records `01.10.22,08:00,09:00,,Task 1`, `,13:01,15:00,1:01,Task 2`, `02.10.22,08:00,09:00,,Task 3` |

## Left out

- src/clockify.rs is not part of this model. It covers the HTTP requests, API-key headers, JSON decoding and task-id resolution. The model takes a sequence of already-resolved entries.
- src/main.rs is not part of this model. It covers reading the configuration file, the async runtime and printing.
- The billable flag and task id of a time entry are not modelled, because the pipeline never reads them.
- The csv crate's quoting, escaping, flushing and `io::Write` errors are not modelled. `WriteCsv` returns the sequence of records, each a sequence of unquoted fields.
- The local time zone database is not modelled. Each timestamp carries the UTC offset in force at that instant, which is what chrono's `DateTime<Local>` holds.
- Timestamps and durations are whole seconds. Sub-second precision is not modelled, and neither are chrono's 64-bit range limits on `Duration`.
- Transform.CoalesceKeepsTotal: the model requires every row to be break-free. Merging adds the gap to the widened row's break but drops the absorbed row's own break, so the total is kept only when the absorbed rows have none. `transform_time_entries` always merges freshly converted rows, which have none, so `TransformTimeEntries` states the total without that precondition.
- Transform.TransformChronological: the order holds only for entries listed newest first without overlap. The source never checks this, so for overlapping entries a gap `entry.start - last.end` can be negative and a merged break can fall below zero; the model computes that break as the source does.
- Writer.DateLabelSame: date labels show the year modulo 100. Dates a century apart therefore look alike, and the date column treats them as equal, exactly as the source does.
- The full transform test at src/transform.rs:259-383 is not restated as a lemma. Its conversion, merge and separation steps are each covered by the smaller examples above.
