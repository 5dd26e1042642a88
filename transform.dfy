/** The consolidator: tracked time entries (newest first) become timesheet
    rows in chronological order, with adjacent entries of the same activity
    on the same day merged into one row whose break absorbs the gaps. */
module Transform {
  import opened Time
  import opened Clockify

  /** One timesheet row: worked from `start` to `end` on `description`,
      minus `breakTime` spent between the intervals merged into it. */
  datatype TimeSheetEntry = TimeSheetEntry(
    description: string,
    start: Timestamp,
    end: Timestamp,
    breakTime: Duration)

  /** The label a time entry is reported under: its task's name if it has a
      task, its free-text description otherwise. */
  function Label(e: TimeEntry): string {
    match e.task
    case Some(task) => task.name
    case None => e.description
  }

  /** The row for one time entry: its label and interval, with no break. */
  function ConvertTimeEntry(e: TimeEntry): TimeSheetEntry {
    TimeSheetEntry(Label(e), e.timeInterval.start, e.timeInterval.end, 0)
  }

  /** The rows for the entries, oldest first: the service lists newest first. */
  function ConvertTimeEntries(timeEntries: seq<TimeEntry>): (rows: seq<TimeSheetEntry>)
    ensures |rows| == |timeEntries|
    ensures forall i :: 0 <= i < |rows| ==>
      var e := timeEntries[|timeEntries| - 1 - i];
      && rows[i].description == Label(e)
      && rows[i].start == e.timeInterval.start
      && rows[i].end == e.timeInterval.end
      && rows[i].breakTime == 0
  {
    if timeEntries == [] then []
    else ConvertTimeEntries(timeEntries[1..]) + [ConvertTimeEntry(timeEntries[0])]
  }

  // ---------------------------------------------------------------------------
  // What merging produces, stated without the loop: the rows split into maximal
  // runs of joinable neighbours, and each run collapses into a single row.

  /** Two consecutive rows belong together when they have the same description
      and end on the same local calendar day. */
  predicate Joinable(a: TimeSheetEntry, b: TimeSheetEntry) {
    a.description == b.description && LocalDay(a.end) == LocalDay(b.end)
  }

  /** Every row joinable with the first; as joinability is an equivalence,
      every two rows are then joinable. */
  predicate IsRun(g: seq<TimeSheetEntry>) {
    forall i :: 0 <= i < |g| ==> Joinable(g[0], g[i])
  }

  /** No two neighbours are joinable: nothing is left to merge. */
  predicate Separated(rows: seq<TimeSheetEntry>) {
    forall i :: 0 < i < |rows| ==> !Joinable(rows[i - 1], rows[i])
  }

  /** The idle time between consecutive rows: the sum of `next.start - prev.end`. */
  function Gaps(g: seq<TimeSheetEntry>): Duration {
    if |g| <= 1 then 0
    else Gaps(g[..|g| - 1]) + Elapsed(g[|g| - 2].end, g[|g| - 1].start)
  }

  /** A run as one row: the first row's description and start, the last row's
      end, and the first row's break plus every gap in between. */
  function Collapse(g: seq<TimeSheetEntry>): TimeSheetEntry
    requires g != []
  {
    TimeSheetEntry(g[0].description, g[0].start, g[|g| - 1].end, g[0].breakTime + Gaps(g))
  }

  /** The length of the run of joinable neighbours at the end of `rows`. */
  function SuffixRun(rows: seq<TimeSheetEntry>): (k: nat)
    requires rows != []
    ensures 1 <= k <= |rows|
  {
    var n := |rows|;
    if n == 1 || !Joinable(rows[n - 2], rows[n - 1]) then 1
    else SuffixRun(rows[..n - 1]) + 1
  }

  /** The run `SuffixRun` measures is a run, and a maximal one: the row before
      it, if any, is not joinable with its first row. */
  lemma SuffixRunMaximal(rows: seq<TimeSheetEntry>)
    requires rows != []
    ensures var k := SuffixRun(rows);
      && IsRun(rows[|rows| - k..])
      && (k < |rows| ==> !Joinable(rows[|rows| - k - 1], rows[|rows| - k]))
  {
    SuffixRunIsRun(rows);
    SuffixRunBoundary(rows);
  }

  lemma {:induction false} SuffixRunIsRun(rows: seq<TimeSheetEntry>)
    requires rows != []
    ensures IsRun(rows[|rows| - SuffixRun(rows)..])
  {
    var n := |rows|;
    if n > 1 && Joinable(rows[n - 2], rows[n - 1]) {
      var prefix := rows[..n - 1];
      var k := SuffixRun(prefix);
      assert SuffixRun(rows) == k + 1;
      var g := prefix[n - 1 - k..];
      assert rows[n - 1 - k..] == g + [rows[n - 1]];
      assert g[|g| - 1] == rows[n - 2];
      SuffixRunIsRun(prefix);
      RunExtend(g, rows[n - 1]);
    }
  }

  lemma {:induction false} SuffixRunBoundary(rows: seq<TimeSheetEntry>)
    requires rows != []
    ensures var k := SuffixRun(rows);
      k < |rows| ==> !Joinable(rows[|rows| - k - 1], rows[|rows| - k])
  {
    var n := |rows|;
    if n > 1 && Joinable(rows[n - 2], rows[n - 1]) {
      var prefix := rows[..n - 1];
      var k := SuffixRun(prefix);
      assert SuffixRun(rows) == k + 1;
      if k < n - 1 {
        assert prefix[n - 2 - k] == rows[n - 2 - k] && prefix[n - 1 - k] == rows[n - 1 - k];
        SuffixRunBoundary(prefix);
      }
    }
  }

  lemma RunExtend(g: seq<TimeSheetEntry>, x: TimeSheetEntry)
    requires g != [] && IsRun(g) && Joinable(g[|g| - 1], x)
    ensures IsRun(g + [x])
  {
    assert Joinable(g[0], g[|g| - 1]);
  }

  /** The rows with every maximal run collapsed. */
  function Coalesce(rows: seq<TimeSheetEntry>): (merged: seq<TimeSheetEntry>)
    ensures |merged| <= |rows|
    ensures merged == [] <==> rows == []
    decreases |rows|
  {
    if rows == [] then []
    else
      var k := SuffixRun(rows);
      Coalesce(rows[..|rows| - k]) + [Collapse(rows[|rows| - k..])]
  }

  /** A row widened to take in the next one: the gap goes into the break. */
  function Absorb(last: TimeSheetEntry, next: TimeSheetEntry): TimeSheetEntry {
    last.(breakTime := last.breakTime + Elapsed(last.end, next.start), end := next.end)
  }

  // ---------------------------------------------------------------------------
  // The merge loop and the pipeline.

  /** One step of the merge loop: the next row widens the last merged row when
      the two are joinable, and is appended on its own otherwise. */
  function MergeStep(merged: seq<TimeSheetEntry>, x: TimeSheetEntry): seq<TimeSheetEntry> {
    if merged != [] && Joinable(merged[|merged| - 1], x)
    then merged[|merged| - 1 := Absorb(merged[|merged| - 1], x)]
    else merged + [x]
  }

  /** The merge loop run over `rows`, from the first row to the last. */
  function MergeFold(rows: seq<TimeSheetEntry>): seq<TimeSheetEntry> {
    if rows == [] then [] else MergeStep(MergeFold(rows[..|rows| - 1]), rows[|rows| - 1])
  }

  lemma MergeFoldStep(entries: seq<TimeSheetEntry>, i: nat)
    requires i < |entries|
    ensures MergeFold(entries[..i + 1]) == MergeStep(MergeFold(entries[..i]), entries[i])
  {
    assert entries[..i + 1][..i] == entries[..i];
  }

  /** Merges subsequent rows with equal description that end on the same day,
      looking back at the last row emitted so far. */
  method MergeTimeSheetEntries(entries: seq<TimeSheetEntry>) returns (result: seq<TimeSheetEntry>)
    ensures result == Coalesce(entries)
  {
    result := [];
    for i := 0 to |entries|
      invariant result == MergeFold(entries[..i])
    {
      var entry := entries[i];
      MergeFoldStep(entries, i);
      ghost var merged := result;
      if |result| > 0 {
        var last := result[|result| - 1];
        if last.description == entry.description && LocalDay(last.end) == LocalDay(entry.end) {
          result := result[|result| - 1 := last.(breakTime := last.breakTime + Elapsed(last.end, entry.start), end := entry.end)];
          assert result == merged[|merged| - 1 := Absorb(merged[|merged| - 1], entry)];
        } else {
          result := result + [entry];
        }
      } else {
        result := result + [entry];
      }
      assert result == MergeStep(merged, entry);
    }
    assert entries[..|entries|] == entries;
    MergeFoldIsCoalesce(entries);
  }

  /** The whole consolidation: convert, then merge. */
  method TransformTimeEntries(timeEntries: seq<TimeEntry>) returns (rows: seq<TimeSheetEntry>)
    ensures rows == Coalesce(ConvertTimeEntries(timeEntries))
    ensures |rows| <= |timeEntries|
    ensures Separated(rows)
    ensures WorkTotal(rows) == TrackedTotal(timeEntries)
    ensures NewestFirst(timeEntries) ==> Chronological(rows)
  {
    var converted := ConvertTimeEntries(timeEntries);
    rows := MergeTimeSheetEntries(converted);
    CoalesceSeparated(converted);
    ConvertKeepsTotal(timeEntries);
    CoalesceKeepsTotal(converted);
    if NewestFirst(timeEntries) {
      TransformChronological(timeEntries);
    }
  }

  // ---------------------------------------------------------------------------
  // Lemmas.

  lemma SuffixRunSnoc(rows: seq<TimeSheetEntry>, x: TimeSheetEntry)
    ensures SuffixRun(rows + [x]) ==
      if rows != [] && Joinable(rows[|rows| - 1], x) then SuffixRun(rows) + 1 else 1
  {
    var s := rows + [x];
    assert s[..|s| - 1] == rows;
    if rows != [] {
      assert s[|s| - 2] == rows[|rows| - 1];
    }
  }

  /** Collapsing a run with one more row widens the collapsed row. */
  lemma CollapseSnoc(g: seq<TimeSheetEntry>, x: TimeSheetEntry)
    requires g != []
    ensures Collapse(g + [x]) == Absorb(Collapse(g), x)
  {
    var s := g + [x];
    assert s[..|s| - 1] == g;
  }

  /** Taking in one more row: it either widens the last merged row or is
      appended on its own. */
  lemma CoalesceSnoc(rows: seq<TimeSheetEntry>, x: TimeSheetEntry)
    ensures var merged := Coalesce(rows);
      Coalesce(rows + [x]) ==
        if rows != [] && Joinable(rows[|rows| - 1], x)
        then merged[..|merged| - 1] + [Absorb(merged[|merged| - 1], x)]
        else merged + [x]
  {
    if rows != [] && Joinable(rows[|rows| - 1], x) {
      CoalesceSnocJoin(rows, x);
    } else {
      CoalesceSnocSplit(rows, x);
    }
  }

  lemma CoalesceSnocJoin(rows: seq<TimeSheetEntry>, x: TimeSheetEntry)
    requires rows != [] && Joinable(rows[|rows| - 1], x)
    ensures var merged := Coalesce(rows);
      Coalesce(rows + [x]) == merged[..|merged| - 1] + [Absorb(merged[|merged| - 1], x)]
  {
    var s := rows + [x];
    SuffixRunSnoc(rows, x);
    var k' := SuffixRun(rows);
    var k := k' + 1;
    var g := rows[|rows| - k'..];
    SliceSnoc(rows, x, |rows| - k');
    assert s[..|s| - k] == rows[..|rows| - k'];
    assert s[|s| - k..] == g + [x];
    var front := Coalesce(rows[..|rows| - k']);
    CoalesceUnfold(s, k);
    CollapseSnoc(g, x);
    assert Coalesce(s) == front + [Absorb(Collapse(g), x)];
    CoalesceUnfold(rows, k');
    assert Coalesce(rows) == front + [Collapse(g)];
    SnocParts(front, Collapse(g));
  }

  lemma CoalesceSnocSplit(rows: seq<TimeSheetEntry>, x: TimeSheetEntry)
    requires rows == [] || !Joinable(rows[|rows| - 1], x)
    ensures Coalesce(rows + [x]) == Coalesce(rows) + [x]
  {
    var s := rows + [x];
    SuffixRunSnoc(rows, x);
    SliceSnoc(rows, x, |rows|);
    CoalesceUnfold(s, 1);
    assert Collapse([x]) == x;
  }

  /** One unfolding of `Coalesce`: the prefix before the last run, then the run collapsed. */
  lemma CoalesceUnfold(rows: seq<TimeSheetEntry>, k: nat)
    requires rows != [] && k == SuffixRun(rows)
    ensures Coalesce(rows) == Coalesce(rows[..|rows| - k]) + [Collapse(rows[|rows| - k..])]
  {
  }

  lemma SnocParts<T>(a: seq<T>, x: T)
    ensures (a + [x])[..|a|] == a && (a + [x])[|a|] == x
  {
  }

  lemma SliceSnoc<T>(a: seq<T>, x: T, j: nat)
    requires j <= |a|
    ensures (a + [x])[..j] == a[..j]
    ensures (a + [x])[j..] == a[j..] + [x]
  {
  }

  /** Taking in one more row is one step of the merge loop: the last merged
      row is joinable with the new row exactly when the last row taken in is. */
  lemma CoalesceMergeStep(rows: seq<TimeSheetEntry>, x: TimeSheetEntry)
    ensures Coalesce(rows + [x]) == MergeStep(Coalesce(rows), x)
  {
    var merged := Coalesce(rows);
    CoalesceSnoc(rows, x);
    if rows != [] {
      CoalesceLast(rows);
      UpdateLast(merged, Absorb(merged[|merged| - 1], x));
    }
  }

  lemma UpdateLast<T>(s: seq<T>, v: T)
    requires s != []
    ensures s[|s| - 1 := v] == s[..|s| - 1] + [v]
  {
  }

  /** The loop computes the runs: folding the merge step over the rows
      collapses exactly their maximal runs. */
  lemma {:induction false} MergeFoldIsCoalesce(rows: seq<TimeSheetEntry>)
    ensures MergeFold(rows) == Coalesce(rows)
  {
    if rows != [] {
      var prefix, x := rows[..|rows| - 1], rows[|rows| - 1];
      assert rows == prefix + [x];
      MergeFoldIsCoalesce(prefix);
      CoalesceMergeStep(prefix, x);
    }
  }

  /** The last merged row carries the description and end of the last row. */
  lemma CoalesceLast(rows: seq<TimeSheetEntry>)
    requires rows != []
    ensures var merged := Coalesce(rows);
      && merged[|merged| - 1].description == rows[|rows| - 1].description
      && merged[|merged| - 1].end == rows[|rows| - 1].end
  {
    var k := SuffixRun(rows);
    var run := rows[|rows| - k..];
    CoalesceUnfold(rows, k);
    SuffixRunMaximal(rows);
    assert Joinable(run[0], run[k - 1]);
  }

  /** The first merged row starts where the first row starts, under its description. */
  lemma {:induction false} CoalesceFirst(rows: seq<TimeSheetEntry>)
    requires rows != []
    ensures var merged := Coalesce(rows);
      merged[0].start == rows[0].start && merged[0].description == rows[0].description
  {
    var k := SuffixRun(rows);
    CoalesceUnfold(rows, k);
    if k < |rows| {
      CoalesceFirst(rows[..|rows| - k]);
    }
  }

  /** Merging leaves no two neighbours that could still be merged: consecutive
      rows differ in description or in the day they end on. */
  lemma {:induction false} CoalesceSeparated(rows: seq<TimeSheetEntry>)
    ensures Separated(Coalesce(rows))
  {
    if rows != [] {
      var k := SuffixRun(rows);
      var prefix := rows[..|rows| - k];
      var run := rows[|rows| - k..];
      CoalesceUnfold(rows, k);
      SuffixRunMaximal(rows);
      CoalesceSeparated(prefix);
      var merged, last := Coalesce(prefix), Collapse(run);
      assert Joinable(run[0], run[k - 1]);
      assert last.description == run[0].description && LocalDay(last.end) == LocalDay(run[0].end);
      if prefix != [] {
        CoalesceLast(prefix);
        assert prefix[|prefix| - 1] == rows[|rows| - k - 1] && run[0] == rows[|rows| - k];
        assert !Joinable(merged[|merged| - 1], last);
      }
      SeparatedSnoc(merged, last);
    }
  }

  lemma SeparatedSnoc(rows: seq<TimeSheetEntry>, x: TimeSheetEntry)
    requires Separated(rows)
    requires rows != [] ==> !Joinable(rows[|rows| - 1], x)
    ensures Separated(rows + [x])
  {
  }

  /** Merging changes nothing exactly when nothing is joinable. */
  lemma {:induction false} CoalesceUnchanged(rows: seq<TimeSheetEntry>)
    ensures Coalesce(rows) == rows <==> Separated(rows)
  {
    if Separated(rows) {
      if rows != [] {
        var prefix, x := rows[..|rows| - 1], rows[|rows| - 1];
        assert rows == prefix + [x];
        assert Separated(prefix) by {
          forall i | 0 < i < |prefix| ensures !Joinable(prefix[i - 1], prefix[i]) {
            assert prefix[i - 1] == rows[i - 1] && prefix[i] == rows[i];
          }
        }
        CoalesceUnchanged(prefix);
        if prefix != [] {
          assert !Joinable(rows[|rows| - 2], rows[|rows| - 1]);
        }
        CoalesceSnocSplit(prefix, x);
      }
    } else {
      CoalesceSeparated(rows);
    }
  }

  /** Merging twice merges nothing more. */
  lemma CoalesceIdempotent(rows: seq<TimeSheetEntry>)
    ensures Coalesce(Coalesce(rows)) == Coalesce(rows)
  {
    CoalesceSeparated(rows);
    CoalesceUnchanged(Coalesce(rows));
  }

  /** A single run merges into one row: the first start, the last end, and the
      first break plus the sum of the gaps. */
  lemma CoalesceRun(rows: seq<TimeSheetEntry>)
    requires rows != [] && IsRun(rows)
    ensures Coalesce(rows) == [Collapse(rows)]
  {
    SuffixRunOfRun(rows);
  }

  lemma {:induction false} SuffixRunOfRun(rows: seq<TimeSheetEntry>)
    requires rows != [] && IsRun(rows)
    ensures SuffixRun(rows) == |rows|
  {
    if |rows| > 1 {
      SuffixRunOfRun(rows[..|rows| - 1]);
    }
  }

  /** The number of places where consecutive rows are not joinable. */
  function Breaks(rows: seq<TimeSheetEntry>): nat {
    if |rows| <= 1 then 0
    else Breaks(rows[..|rows| - 1]) + (if Joinable(rows[|rows| - 2], rows[|rows| - 1]) then 0 else 1)
  }

  /** Merging yields one row per maximal run: one more than the number of
      non-joinable neighbours. */
  lemma {:induction false} CoalesceCount(rows: seq<TimeSheetEntry>)
    requires rows != []
    ensures |Coalesce(rows)| == Breaks(rows) + 1
  {
    var prefix := rows[..|rows| - 1];
    var x := rows[|rows| - 1];
    assert rows == prefix + [x];
    if prefix != [] {
      assert rows[|rows| - 2] == prefix[|prefix| - 1];
      CoalesceCount(prefix);
    }
    if prefix != [] && Joinable(prefix[|prefix| - 1], x) {
      CoalesceSnocJoin(prefix, x);
    } else {
      CoalesceSnocSplit(prefix, x);
    }
  }

  // Totals.

  /** The time worked in a row: its span less its break. */
  function Work(e: TimeSheetEntry): Duration {
    Elapsed(e.start, e.end) - e.breakTime
  }

  function WorkTotal(rows: seq<TimeSheetEntry>): Duration {
    if rows == [] then 0 else WorkTotal(rows[..|rows| - 1]) + Work(rows[|rows| - 1])
  }

  /** The time tracked by the entries, in whatever order they are listed. */
  function TrackedTotal(timeEntries: seq<TimeEntry>): Duration {
    if timeEntries == [] then 0
    else
      var interval := timeEntries[0].timeInterval;
      Elapsed(interval.start, interval.end) + TrackedTotal(timeEntries[1..])
  }

  predicate NoBreaks(rows: seq<TimeSheetEntry>) {
    forall i :: 0 <= i < |rows| ==> rows[i].breakTime == 0
  }

  lemma {:induction false} WorkTotalAppend(a: seq<TimeSheetEntry>, b: seq<TimeSheetEntry>)
    ensures WorkTotal(a + b) == WorkTotal(a) + WorkTotal(b)
  {
    if b == [] {
      assert a + b == a;
    } else {
      assert (a + b)[..|a + b| - 1] == a + b[..|b| - 1];
      assert (a + b)[|a + b| - 1] == b[|b| - 1];
      WorkTotalAppend(a, b[..|b| - 1]);
    }
  }

  /** A collapsed run of break-free rows works as long as the rows together. */
  lemma {:induction false} CollapseKeepsTotal(g: seq<TimeSheetEntry>)
    requires g != [] && NoBreaks(g[1..])
    ensures Work(Collapse(g)) == WorkTotal(g)
  {
    if |g| > 1 {
      var prefix := g[..|g| - 1];
      assert prefix[1..] == g[1..|g| - 1];
      CollapseKeepsTotal(prefix);
      assert g[|g| - 1] == g[1..][|g| - 2];
    } else {
      assert g == [] + [g[0]];
    }
  }

  /** The doc comment's "correct total": merging break-free rows keeps the sum
      of `end - start - break` over the list. */
  lemma {:induction false} CoalesceKeepsTotal(rows: seq<TimeSheetEntry>)
    requires NoBreaks(rows)
    ensures WorkTotal(Coalesce(rows)) == WorkTotal(rows)
  {
    if rows != [] {
      var k := SuffixRun(rows);
      var prefix := rows[..|rows| - k];
      var run := rows[|rows| - k..];
      assert rows == prefix + run;
      assert NoBreaks(prefix);
      CoalesceKeepsTotal(prefix);
      assert run[1..] == rows[|rows| - k + 1..];
      CollapseKeepsTotal(run);
      WorkTotalAppend(Coalesce(prefix), [Collapse(run)]);
      WorkTotalAppend(prefix, run);
      assert WorkTotal([Collapse(run)]) == Work(Collapse(run)) by {
        assert [Collapse(run)][..0] == [];
      }
    }
  }

  /** Converting keeps every entry's tracked time and adds no break. */
  lemma {:induction false} ConvertKeepsTotal(timeEntries: seq<TimeEntry>)
    ensures NoBreaks(ConvertTimeEntries(timeEntries))
    ensures WorkTotal(ConvertTimeEntries(timeEntries)) == TrackedTotal(timeEntries)
  {
    if timeEntries != [] {
      var rest := ConvertTimeEntries(timeEntries[1..]);
      ConvertKeepsTotal(timeEntries[1..]);
      assert (rest + [ConvertTimeEntry(timeEntries[0])])[..|rest|] == rest;
    }
  }

  // ---------------------------------------------------------------------------
  // Order. The tracking service lists entries newest first. When they also do
  // not overlap, the rows come out in order, with no negative break. Nothing in
  // the pipeline checks this, so it is a lemma, not a precondition.

  /** Every row ends no earlier than it starts and has no negative break, and
      each row starts no earlier than the row before it ends. */
  predicate Chronological(rows: seq<TimeSheetEntry>) {
    && (forall i :: 0 <= i < |rows| ==> rows[i].start.utc <= rows[i].end.utc && rows[i].breakTime >= 0)
    && (forall i :: 0 < i < |rows| ==> rows[i - 1].end.utc <= rows[i].start.utc)
  }

  /** Entries as the service lists them: newest first, none ending before it
      starts, and each ending no later than the next newer one starts. */
  predicate NewestFirst(timeEntries: seq<TimeEntry>) {
    && (forall i :: 0 <= i < |timeEntries| ==>
          timeEntries[i].timeInterval.start.utc <= timeEntries[i].timeInterval.end.utc)
    && (forall i :: 0 < i < |timeEntries| ==>
          timeEntries[i].timeInterval.end.utc <= timeEntries[i - 1].timeInterval.start.utc)
  }

  /** Converting entries listed newest first gives rows in chronological order. */
  lemma ConvertChronological(timeEntries: seq<TimeEntry>)
    requires NewestFirst(timeEntries)
    ensures Chronological(ConvertTimeEntries(timeEntries))
  {
    var rows, n := ConvertTimeEntries(timeEntries), |timeEntries|;
    forall i | 0 < i < |rows| ensures rows[i - 1].end.utc <= rows[i].start.utc {
      assert timeEntries[n - i].timeInterval.end.utc <= timeEntries[n - i - 1].timeInterval.start.utc;
    }
  }

  /** One merge step keeps chronological rows chronological when the new row
      starts no earlier than the last row ends. */
  lemma MergeStepChronological(merged: seq<TimeSheetEntry>, x: TimeSheetEntry)
    requires Chronological(merged)
    requires x.start.utc <= x.end.utc && x.breakTime >= 0
    requires merged != [] ==> merged[|merged| - 1].end.utc <= x.start.utc
    ensures Chronological(MergeStep(merged, x))
  {
  }

  /** Merging chronological rows keeps them chronological: starts ascend, no
      row ends before it starts, and no break is negative. */
  lemma {:induction false} CoalesceChronological(rows: seq<TimeSheetEntry>)
    requires Chronological(rows)
    ensures Chronological(Coalesce(rows))
  {
    if rows != [] {
      var prefix, x := rows[..|rows| - 1], rows[|rows| - 1];
      assert rows == prefix + [x];
      ChronologicalSnoc(prefix, x);
      CoalesceChronological(prefix);
      CoalesceMergeStep(prefix, x);
      if prefix != [] {
        CoalesceLast(prefix);
      }
      MergeStepChronological(Coalesce(prefix), x);
    }
  }

  /** A chronological list with its last row taken off is chronological, and
      that row starts no earlier than the one before it ends. */
  lemma ChronologicalSnoc(prefix: seq<TimeSheetEntry>, x: TimeSheetEntry)
    requires Chronological(prefix + [x])
    ensures Chronological(prefix)
    ensures x.start.utc <= x.end.utc && x.breakTime >= 0
    ensures prefix != [] ==> prefix[|prefix| - 1].end.utc <= x.start.utc
  {
    var rows := prefix + [x];
    assert rows[|rows| - 1] == x;
    forall i | 0 <= i < |prefix| ensures prefix[i] == rows[i] {
    }
  }

  /** Entries listed newest first, as the service gives them, come out of the
      whole consolidation in chronological order. */
  lemma TransformChronological(timeEntries: seq<TimeEntry>)
    requires NewestFirst(timeEntries)
    ensures Chronological(Coalesce(ConvertTimeEntries(timeEntries)))
  {
    ConvertChronological(timeEntries);
    CoalesceChronological(ConvertTimeEntries(timeEntries));
  }

  // ---------------------------------------------------------------------------
  // Examples: rows on 2022-10-01 and 2022-10-02 (days 19266 and 19267 since
  // 1970-01-01), in UTC.

  function Entry(description: string, start: Timestamp, end: Timestamp): TimeSheetEntry {
    TimeSheetEntry(description, start, end, 0)
  }

  /** Entries arrive newest first and come out oldest first, under their
      task's name, or under their description when they have no task. */
  lemma ConvertExample()
    ensures ConvertTimeEntries([
        TimeEntry("Entry 2", TimeInterval(At(19266, 14, 45, 0), At(19266, 15, 15, 15)), Some(Task("ghijkl", "Task 2"))),
        TimeEntry("Entry 1", TimeInterval(At(19266, 12, 10, 0), At(19266, 12, 25, 30)), Some(Task("abcdef", "Task 1")))])
      == [Entry("Task 1", At(19266, 12, 10, 0), At(19266, 12, 25, 30)),
          Entry("Task 2", At(19266, 14, 45, 0), At(19266, 15, 15, 15))]
    ensures ConvertTimeEntries([
        TimeEntry("Entry 1", TimeInterval(At(19266, 12, 10, 0), At(19266, 12, 25, 30)), None)])
      == [Entry("Entry 1", At(19266, 12, 10, 0), At(19266, 12, 25, 30))]
  {
  }

  /** Two rows of the same task on one day become one row whose break is the
      gap from 12:25:30 to 14:45:00. */
  lemma MergeSameTaskExample()
    ensures Coalesce([Entry("Task 1", At(19266, 12, 10, 0), At(19266, 12, 25, 30)),
                      Entry("Task 1", At(19266, 14, 45, 0), At(19266, 15, 15, 15))])
      == [TimeSheetEntry("Task 1", At(19266, 12, 10, 0), At(19266, 15, 15, 15), 8370)]
  {
    var rows := [Entry("Task 1", At(19266, 12, 10, 0), At(19266, 12, 25, 30)),
                 Entry("Task 1", At(19266, 14, 45, 0), At(19266, 15, 15, 15))];
    assert Joinable(rows[0], rows[1]);
    CoalesceRun(rows);
    assert Gaps(rows) == 8370 by {
      assert rows[..1] == [rows[0]];
    }
  }

  /** Three rows of the same task: both gaps go into the break. */
  lemma MergeMultipleBreaksExample()
    ensures Coalesce([Entry("Task 1", At(19266, 12, 10, 0), At(19266, 12, 25, 30)),
                      Entry("Task 1", At(19266, 14, 45, 0), At(19266, 15, 15, 15)),
                      Entry("Task 1", At(19266, 16, 0, 0), At(19266, 16, 15, 0))])
      == [TimeSheetEntry("Task 1", At(19266, 12, 10, 0), At(19266, 16, 15, 0), 8370 + 2685)]
  {
    var rows := [Entry("Task 1", At(19266, 12, 10, 0), At(19266, 12, 25, 30)),
                 Entry("Task 1", At(19266, 14, 45, 0), At(19266, 15, 15, 15)),
                 Entry("Task 1", At(19266, 16, 0, 0), At(19266, 16, 15, 0))];
    assert Joinable(rows[0], rows[1]) && Joinable(rows[0], rows[2]);
    CoalesceRun(rows);
    assert Gaps(rows) == 8370 + 2685 by {
      assert rows[..2][..1] == [rows[0]];
      assert Gaps(rows[..2]) == 8370;
    }
  }

  /** Alternating tasks, and the same task on two days, are kept as they are. */
  lemma MergeKeepsSeparatedExample()
    ensures var alternating := [Entry("Task 1", At(19266, 12, 10, 0), At(19266, 12, 25, 30)),
                                Entry("Task 2", At(19266, 13, 0, 0), At(19266, 13, 30, 0)),
                                Entry("Task 1", At(19266, 14, 45, 0), At(19266, 15, 15, 15))];
      Coalesce(alternating) == alternating
    ensures var twoDays := [Entry("Task 1", At(19266, 12, 10, 0), At(19266, 12, 25, 30)),
                            Entry("Task 1", At(19267, 14, 45, 0), At(19267, 15, 15, 15))];
      Coalesce(twoDays) == twoDays
  {
    var alternating := [Entry("Task 1", At(19266, 12, 10, 0), At(19266, 12, 25, 30)),
                        Entry("Task 2", At(19266, 13, 0, 0), At(19266, 13, 30, 0)),
                        Entry("Task 1", At(19266, 14, 45, 0), At(19266, 15, 15, 15))];
    TasksDiffer();
    CoalesceUnchanged(alternating);
    var twoDays := [Entry("Task 1", At(19266, 12, 10, 0), At(19266, 12, 25, 30)),
                    Entry("Task 1", At(19267, 14, 45, 0), At(19267, 15, 15, 15))];
    assert LocalDay(twoDays[0].end) == 19266 && LocalDay(twoDays[1].end) == 19267;
    CoalesceUnchanged(twoDays);
  }

  lemma TasksDiffer()
    ensures "Task 1" != "Task 2"
  {
    assert "Task 1"[5] != "Task 2"[5];
  }
}
