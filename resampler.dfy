/** The in-memory part of `generate_csv`: the decoded entries are grouped by
    channel name, a grid of times is laid from the first to the last
    timestamp, and every grid point gets, for each channel in sorted-name
    order, the value of the nearest sample (ties go to the earlier one).
    Times are integer microseconds and the period a positive number of them. */
module Resampler {
  import opened Results
  import opened Values
  import opened Decoder
  import opened Ordering

  /** One sample of a channel: `(entry.timestamp, entry.value)`. */
  datatype Sample = Sample(time: int, value: Value)

  /** `str(value)` for a list value; Python's rendering is not modelled. */
  type Renderer = seq<Scalar> -> string

  /** A CSV cell: the grid time, the empty string, a scalar, or a rendered list. */
  datatype Cell = Time(t: int) | Blank | Val(x: Scalar) | Text(s: string)

  /** The dictionary `generate_csv` returns. */
  datatype Stats = Stats(totalEntries: nat, uniqueTypes: nat, startTime: int, endTime: int, duration: int, rows: nat)

  /** The header row, the data rows and the statistics. */
  datatype Csv = Csv(header: seq<string>, rows: seq<seq<Cell>>, stats: Stats)

  /** `period_ms = 20.0`, in microseconds. */
  const DEFAULT_PERIOD: nat := 20_000

  const TIME_COLUMN: string := "Timestamp"

  /** The channel names that occur in `entries`. */
  function NameSet(entries: seq<Entry>): set<string> {
    set i | 0 <= i < |entries| :: entries[i].name
  }

  /** `entries_by_name[name]`: the samples of one channel, in stream order. */
  function Series(entries: seq<Entry>, name: string): (r: seq<Sample>)
    ensures |r| <= |entries|
    ensures |entries| > 0 && entries[|entries| - 1].name == name ==>
      |r| > 0 && r[|r| - 1] == Sample(entries[|entries| - 1].timestamp, entries[|entries| - 1].value)
    decreases |entries|
  {
    if |entries| == 0 then []
    else
      var last := entries[|entries| - 1];
      Series(entries[..|entries| - 1], name) + (if last.name == name then [Sample(last.timestamp, last.value)] else [])
  }

  /** Appending an entry adds its name. */
  lemma NameSetSnoc(entries: seq<Entry>, e: Entry)
    ensures NameSet(entries + [e]) == NameSet(entries) + {e.name}
  {
    var es := entries + [e];
    forall n | n in NameSet(es) ensures n in NameSet(entries) + {e.name} {
      var i :| 0 <= i < |es| && es[i].name == n;
      if i < |entries| {
        assert es[i] == entries[i];
      }
    }
    forall n | n in NameSet(entries) ensures n in NameSet(es) {
      var i :| 0 <= i < |entries| && entries[i].name == n;
      assert es[i] == entries[i];
    }
    assert es[|entries|] == e;
  }

  /** Appending an entry extends its own channel and no other. */
  lemma SeriesSnoc(entries: seq<Entry>, e: Entry, name: string)
    ensures Series(entries + [e], name) == Series(entries, name) + (if e.name == name then [Sample(e.timestamp, e.value)] else [])
  {
    assert (entries + [e])[..|entries|] == entries;
  }

  /** A channel has samples exactly when its name occurs, and each of them is
      an entry of that name. */
  lemma {:induction false} SeriesOfName(entries: seq<Entry>, name: string)
    ensures |Series(entries, name)| > 0 <==> name in NameSet(entries)
    ensures forall x :: x in Series(entries, name) ==> Entry(x.time, name, x.value) in entries
    decreases |entries|
  {
    if |entries| > 0 {
      var init := entries[..|entries| - 1];
      var e := entries[|entries| - 1];
      SeriesOfName(init, name);
      assert entries == init + [e];
      NameSetSnoc(init, e);
    }
  }

  /** The grouping loop: a dictionary from each name to its samples, and the
      names in order of first appearance, as the dictionary keeps them. */
  method GroupEntries(entries: seq<Entry>) returns (groups: map<string, seq<Sample>>, order: seq<string>)
    ensures groups.Keys == NameSet(entries)
    ensures forall name :: name in groups ==> groups[name] == Series(entries, name)
    ensures Distinct(order) && forall name :: name in order <==> name in groups
  {
    groups := map[];
    order := [];
    var i := 0;
    while i < |entries|
      invariant i <= |entries|
      invariant groups.Keys == NameSet(entries[..i])
      invariant forall name :: name in groups ==> groups[name] == Series(entries[..i], name)
      invariant Distinct(order) && forall name :: name in order <==> name in groups
    {
      var entry := entries[i];
      assert entries[..i + 1] == entries[..i] + [entry];
      NameSetSnoc(entries[..i], entry);
      SeriesOfName(entries[..i], entry.name);
      forall name ensures Series(entries[..i + 1], name) == Series(entries[..i], name) + (if entry.name == name then [Sample(entry.timestamp, entry.value)] else []) {
        SeriesSnoc(entries[..i], entry, name);
      }
      if entry.name !in groups {
        groups := groups[entry.name := []];
        order := order + [entry.name];
      }
      groups := groups[entry.name := groups[entry.name] + [Sample(entry.timestamp, entry.value)]];
      i := i + 1;
    }
    assert entries[..i] == entries;
  }

  /** `min(entry.timestamp for entry in entries)`. */
  function MinTime(entries: seq<Entry>): (m: int)
    requires |entries| > 0
    ensures exists i :: 0 <= i < |entries| && entries[i].timestamp == m
    ensures forall i :: 0 <= i < |entries| ==> m <= entries[i].timestamp
    decreases |entries|
  {
    if |entries| == 1 then entries[0].timestamp
    else
      var rest := MinTime(entries[1..]);
      assert forall i :: 1 <= i < |entries| ==> entries[i] == entries[1..][i - 1];
      if entries[0].timestamp <= rest then entries[0].timestamp else rest
  }

  /** `max(entry.timestamp for entry in entries)`. */
  function MaxTime(entries: seq<Entry>): (m: int)
    requires |entries| > 0
    ensures exists i :: 0 <= i < |entries| && entries[i].timestamp == m
    ensures forall i :: 0 <= i < |entries| ==> entries[i].timestamp <= m
    decreases |entries|
  {
    if |entries| == 1 then entries[0].timestamp
    else
      var rest := MaxTime(entries[1..]);
      assert forall i :: 1 <= i < |entries| ==> entries[i] == entries[1..][i - 1];
      if entries[0].timestamp >= rest then entries[0].timestamp else rest
  }

  /** The grid from `cur` on: `cur, cur + p, …` while not past `end`. */
  function Grid(cur: int, end: int, p: nat): (r: seq<int>)
    requires p > 0
    ensures forall x :: x in r ==> cur <= x <= end
    decreases if cur > end then 0 else end - cur + 1
  {
    if cur > end then [] else [cur] + Grid(cur + p, end, p)
  }

  /** The first `fuel` passes of the `while current_time <= end_time` loop as
      written, for any period: the points appended, and whether the loop ended. */
  function GridLoop(cur: int, end: int, p: int, fuel: nat): (r: (seq<int>, bool))
    ensures |r.0| <= fuel
    ensures r.1 ==> forall x :: x in r.0 ==> x <= end
    decreases fuel
  {
    if cur > end then ([], true)
    else if fuel == 0 then ([], false)
    else
      var rest := GridLoop(cur + p, end, p, fuel - 1);
      ([cur] + rest.0, rest.1)
  }

  /** With a period that is not positive the loop never ends: every pass
      appends a point, however many passes are allowed. */
  lemma {:induction false} GridLoopNeverEnds(cur: int, end: int, p: int, fuel: nat)
    requires cur <= end && p <= 0
    ensures var r := GridLoop(cur, end, p, fuel);
      !r.1 && |r.0| == fuel && forall x :: x in r.0 ==> x <= cur
    decreases fuel
  {
    if fuel > 0 {
      GridLoopNeverEnds(cur + p, end, p, fuel - 1);
    }
  }

  /** With a positive period and enough passes the loop ends, with the grid. */
  lemma {:induction false} GridLoopEnds(cur: int, end: int, p: nat, fuel: nat)
    requires p > 0 && fuel >= |Grid(cur, end, p)|
    ensures GridLoop(cur, end, p, fuel) == (Grid(cur, end, p), true)
    decreases if cur > end then 0 else end - cur + 1
  {
    if cur <= end {
      GridLoopEnds(cur + p, end, p, fuel - 1);
    }
  }

  /** The `while current_time <= end_time` loop. */
  method BuildGrid(start: int, end: int, p: nat) returns (timestamps: seq<int>)
    requires p > 0
    ensures timestamps == Grid(start, end, p)
  {
    timestamps := [];
    var current := start;
    while current <= end
      invariant timestamps + Grid(current, end, p) == Grid(start, end, p)
      decreases end - current
    {
      assert Grid(current, end, p) == [current] + Grid(current + p, end, p);
      assert timestamps + [current] + Grid(current + p, end, p) == timestamps + ([current] + Grid(current + p, end, p));
      timestamps := timestamps + [current];
      current := current + p;
    }
    assert timestamps + [] == timestamps;
  }

  /** The k-th grid point is `cur + k*p`, and it is not past `end`. */
  lemma {:induction false} GridPoint(cur: int, end: int, p: nat, k: nat)
    requires p > 0 && k < |Grid(cur, end, p)|
    ensures Grid(cur, end, p)[k] == cur + k * p <= end
    decreases k
  {
    if k > 0 {
      GridPoint(cur + p, end, p, k - 1);
      assert (k - 1) * p + p == k * p;
    }
  }

  /** The grid is empty only when `cur` is past `end`, and one more step after
      its last point would be past `end`. */
  lemma {:induction false} GridLength(cur: int, end: int, p: nat)
    requires p > 0
    ensures |Grid(cur, end, p)| > 0 <==> cur <= end
    ensures end < cur + |Grid(cur, end, p)| * p
    decreases if cur > end then 0 else end - cur + 1
  {
    if cur <= end {
      var n := |Grid(cur + p, end, p)|;
      GridLength(cur + p, end, p);
      assert n * p + p == (n + 1) * p;
    }
  }

  /** How many samples from the front the `before` scan takes: it stops at the
      first sample later than `t`. */
  function TakenFromFront(s: seq<Sample>, t: int): (n: nat)
    ensures n <= |s|
    ensures forall k :: 0 <= k < n ==> s[k].time <= t
    ensures n < |s| ==> s[n].time > t
    decreases |s|
  {
    if |s| == 0 || s[0].time > t then 0
    else
      var n := 1 + TakenFromFront(s[1..], t);
      assert forall k :: 1 <= k < n ==> s[k] == s[1..][k - 1];
      n
  }

  /** How many samples from the back the `after` scan takes over
      `reversed(entry_data)`: it stops at the first sample earlier than `t`. */
  function TakenFromBack(s: seq<Sample>, t: int): (n: nat)
    ensures n <= |s|
    ensures forall k :: |s| - n <= k < |s| ==> s[k].time >= t
    ensures n < |s| ==> s[|s| - n - 1].time < t
    decreases |s|
  {
    if |s| == 0 || s[|s| - 1].time < t then 0
    else
      var init := s[..|s| - 1];
      var n := 1 + TakenFromBack(init, t);
      assert forall k :: |s| - n <= k < |s| - 1 ==> s[k] == init[k];
      n
  }

  /** `before`: the last sample the front scan took. */
  function Before(s: seq<Sample>, t: int): (r: Option<Sample>)
    ensures r.None? <==> |s| == 0 || s[0].time > t
    ensures r.Some? ==> r.value in s && r.value.time <= t
  {
    var n := TakenFromFront(s, t);
    if n == 0 then None else Some(s[n - 1])
  }

  /** `after`: the last sample the back scan took, the earliest of its run. */
  function After(s: seq<Sample>, t: int): (r: Option<Sample>)
    ensures r.None? <==> |s| == 0 || s[|s| - 1].time < t
    ensures r.Some? ==> r.value in s && r.value.time >= t
  {
    var n := TakenFromBack(s, t);
    if n == 0 then None else Some(s[|s| - n])
  }

  /** The scan `for t, v in entry_data`, which breaks at the first sample later than `timestamp`. */
  method ScanBefore(entryData: seq<Sample>, timestamp: int) returns (before: Option<Sample>)
    ensures before == Before(entryData, timestamp)
  {
    before := None;
    var i := 0;
    while i < |entryData|
      invariant i <= |entryData|
      invariant forall k :: 0 <= k < i ==> entryData[k].time <= timestamp
      invariant before == if i == 0 then None else Some(entryData[i - 1])
    {
      if entryData[i].time <= timestamp {
        before := Some(entryData[i]);
      } else {
        break;
      }
      i := i + 1;
    }
    assert TakenFromFront(entryData, timestamp) == i;
  }

  /** The scan `for t, v in reversed(entry_data)`, which breaks at the first
      sample earlier than `timestamp`. */
  method ScanAfter(entryData: seq<Sample>, timestamp: int) returns (after: Option<Sample>)
    ensures after == After(entryData, timestamp)
  {
    after := None;
    var i := |entryData|;
    while i > 0
      invariant 0 <= i <= |entryData|
      invariant forall k :: i <= k < |entryData| ==> entryData[k].time >= timestamp
      invariant after == if i == |entryData| then None else Some(entryData[i])
    {
      if entryData[i - 1].time >= timestamp {
        after := Some(entryData[i - 1]);
      } else {
        break;
      }
      i := i - 1;
    }
    assert TakenFromBack(entryData, timestamp) == |entryData| - i;
  }

  /** The selection: nothing when both scans found nothing, the one found when
      only one did, and otherwise `before` unless `after` is strictly closer. */
  function Choose(before: Option<Sample>, after: Option<Sample>, t: int): (r: Option<Sample>)
    ensures r.None? <==> before.None? && after.None?
    ensures r == before || r == after
    // between a sample at or before `t` and one at or after it, the nearer
    // wins, and the earlier on a tie
    ensures before.Some? && after.Some? && before.value.time <= t <= after.value.time ==>
      && Distance(r.value.time, t) <= Distance(before.value.time, t)
      && Distance(r.value.time, t) <= Distance(after.value.time, t)
      && (Distance(before.value.time, t) == Distance(after.value.time, t) ==> r == before)
  {
    if before.None? && after.None? then None
    else if before.None? then after
    else if after.None? then before
    else if t - before.value.time <= after.value.time - t then before
    else after
  }

  /** The sample chosen for a channel at grid time `t`. */
  function Pick(s: seq<Sample>, t: int): Option<Sample> {
    Choose(Before(s, t), After(s, t), t)
  }

  /** The cell written for a choice: `Blank` (written `""`) for none, a
      scalar as itself, a list as `str(value)`. */
  function CellOf(pick: Option<Sample>, render: Renderer): (r: Cell)
    ensures r.Blank? <==> pick.None?
    ensures r.Text? <==> pick.Some? && pick.value.value.List?
    ensures !r.Time?
  {
    match pick
    case None => Blank
    case Some(x) =>
      match x.value
      case Single(v) => Val(v)
      case List(xs) => Text(render(xs))
  }

  /** The cell of one channel at one grid time: both scans, then the choice. */
  method Resample(entryData: seq<Sample>, timestamp: int, render: Renderer) returns (value: Cell)
    ensures value == CellOf(Pick(entryData, timestamp), render)
  {
    var before := ScanBefore(entryData, timestamp);
    var after := ScanAfter(entryData, timestamp);
    value := CellOf(Choose(before, after, timestamp), render);
  }

  /** One data row: the grid time, then one cell per channel of `names`. */
  function RowAt(entries: seq<Entry>, names: seq<string>, t: int, render: Renderer): seq<Cell> {
    [Time(t)] + seq(|names|, j requires 0 <= j < |names| => CellOf(Pick(Series(entries, names[j]), t), render))
  }

  /** The channels in the order of the columns: every name once, sorted. */
  ghost predicate ChannelOrder(names: seq<string>, entries: seq<Entry>) {
    Sorted(names) && forall name :: name in names <==> name in NameSet(entries)
  }

  /** The rows and statistics over non-empty `entries` with the channels in
      the order `names`. */
  function Table(entries: seq<Entry>, names: seq<string>, p: nat, render: Renderer): (r: Csv)
    requires |entries| > 0 && p > 0
    ensures r.header == [TIME_COLUMN] + names
    ensures |r.rows| == r.stats.rows && r.stats.totalEntries == |entries| && r.stats.uniqueTypes == |names|
    ensures forall k :: 0 <= k < |r.rows| ==> |r.rows[k]| == |names| + 1 && r.rows[k][0].Time?
  {
    var start := MinTime(entries);
    var end := MaxTime(entries);
    var grid := Grid(start, end, p);
    Csv([TIME_COLUMN] + names,
        seq(|grid|, k requires 0 <= k < |grid| => RowAt(entries, names, grid[k], render)),
        Stats(|entries|, |names|, start, end, end - start, |grid|))
  }

  /** The inner loop over `sorted_names` for one grid point. */
  method BuildRow(entries: seq<Entry>, groups: map<string, seq<Sample>>, names: seq<string>, timestamp: int,
                  render: Renderer) returns (row: seq<Cell>)
    requires forall name :: name in names ==> name in groups && groups[name] == Series(entries, name)
    ensures row == RowAt(entries, names, timestamp, render)
  {
    var cells: seq<Cell> := [];
    var j := 0;
    while j < |names|
      invariant j <= |names| && |cells| == j
      invariant forall m :: 0 <= m < j ==> cells[m] == CellOf(Pick(Series(entries, names[m]), timestamp), render)
    {
      var value := Resample(groups[names[j]], timestamp, render);
      cells := cells + [value];
      j := j + 1;
    }
    assert cells == seq(|names|, m requires 0 <= m < |names| => CellOf(Pick(Series(entries, names[m]), timestamp), render));
    row := [Time(timestamp)] + cells;
  }

  /** The outer loop over `timestamps`: one row per grid point. */
  method BuildRows(entries: seq<Entry>, groups: map<string, seq<Sample>>, names: seq<string>,
                   timestamps: seq<int>, render: Renderer) returns (rows: seq<seq<Cell>>)
    requires forall name :: name in names ==> name in groups && groups[name] == Series(entries, name)
    ensures |rows| == |timestamps|
    ensures forall k :: 0 <= k < |rows| ==> rows[k] == RowAt(entries, names, timestamps[k], render)
  {
    rows := [];
    var k := 0;
    while k < |timestamps|
      invariant k <= |timestamps| && |rows| == k
      invariant forall m :: 0 <= m < k ==> rows[m] == RowAt(entries, names, timestamps[m], render)
    {
      var row := BuildRow(entries, groups, names, timestamps[k], render);
      rows := rows + [row];
      k := k + 1;
    }
  }

  /** The sorted keys of the grouping are the channel order, and each names a group. */
  lemma SortedChannels(entries: seq<Entry>, groups: map<string, seq<Sample>>, order: seq<string>, names: seq<string>)
    requires groups.Keys == NameSet(entries)
    requires forall name :: name in groups ==> groups[name] == Series(entries, name)
    requires forall name :: name in order <==> name in groups
    requires Sorted(names) && multiset(names) == multiset(order)
    ensures ChannelOrder(names, entries)
    ensures forall name :: name in names ==> name in groups && groups[name] == Series(entries, name)
  {
    forall name ensures name in names <==> name in order {
      assert name in names <==> name in multiset(names);
      assert name in order <==> name in multiset(order);
    }
  }

  /** Rows built over the grid, with the statistics, are the table. */
  lemma TableOf(entries: seq<Entry>, names: seq<string>, p: nat, render: Renderer, timestamps: seq<int>,
                rows: seq<seq<Cell>>, stats: Stats)
    requires |entries| > 0 && p > 0
    requires timestamps == Grid(MinTime(entries), MaxTime(entries), p)
    requires |rows| == |timestamps|
    requires forall k :: 0 <= k < |rows| ==> rows[k] == RowAt(entries, names, timestamps[k], render)
    requires stats == Stats(|entries|, |names|, MinTime(entries), MaxTime(entries), MaxTime(entries) - MinTime(entries), |rows|)
    ensures Csv([TIME_COLUMN] + names, rows, stats) == Table(entries, names, p, render)
  {
  }

  /** `generate_csv` up to the point where it writes the file: nothing for no
      entries, otherwise the header, the rows and the statistics, with the
      channels sorted by name. */
  method GenerateCsv(entries: seq<Entry>, render: Renderer, p: nat := DEFAULT_PERIOD) returns (r: Option<Csv>)
    requires p > 0
    ensures r.None? <==> |entries| == 0
    ensures r.Some? ==>
      && |r.value.header| > 0 && ChannelOrder(r.value.header[1..], entries)
      && r.value == Table(entries, r.value.header[1..], p, render)
  {
    var groups, order := GroupEntries(entries);
    if |entries| == 0 {
      return None;
    }
    var startTime := MinTime(entries);
    var endTime := MaxTime(entries);
    var timestamps := BuildGrid(startTime, endTime, p);
    var sortedNames := SortNames(order);
    SortedChannels(entries, groups, order, sortedNames);
    var csvData := BuildRows(entries, groups, sortedNames, timestamps, render);
    var stats := Stats(|entries|, |sortedNames|, startTime, endTime, endTime - startTime, |csvData|);
    TableOf(entries, sortedNames, p, render, timestamps, csvData, stats);
    r := Some(Csv([TIME_COLUMN] + sortedNames, csvData, stats));
    assert r.value.header[1..] == sortedNames;
  }

  /** Two column orders for the same entries are the same: the header is fixed. */
  lemma ChannelOrderUnique(entries: seq<Entry>, a: seq<string>, b: seq<string>)
    requires ChannelOrder(a, entries) && ChannelOrder(b, entries)
    ensures a == b
  {
    SortedUnique(a, b);
  }

  /** Row k is the grid time `start + k*p`, not past the last timestamp, with
      one cell per channel after it. */
  lemma TableRow(entries: seq<Entry>, names: seq<string>, p: nat, render: Renderer, k: nat)
    requires |entries| > 0 && p > 0
    requires k < |Table(entries, names, p, render).rows|
    ensures var row := Table(entries, names, p, render).rows[k];
      && |row| == 1 + |names|
      && row[0] == Time(MinTime(entries) + k * p)
      && MinTime(entries) + k * p <= MaxTime(entries)
  {
    GridPoint(MinTime(entries), MaxTime(entries), p, k);
  }

  /** There is at least one row, the row count is the one reported, and the
      grid reaches the last timestamp: one more period would pass it. */
  lemma TableCoverage(entries: seq<Entry>, names: seq<string>, p: nat, render: Renderer)
    requires |entries| > 0 && p > 0
    ensures var c := Table(entries, names, p, render);
      && |c.rows| == c.stats.rows >= 1
      && MaxTime(entries) < MinTime(entries) + |c.rows| * p
  {
    GridLength(MinTime(entries), MaxTime(entries), p);
  }

  /** The statistics: every entry counted, one type per distinct name, and the
      first and last timestamps of the log with the span between them. */
  lemma TableStats(entries: seq<Entry>, names: seq<string>, p: nat, render: Renderer)
    requires |entries| > 0 && p > 0 && ChannelOrder(names, entries)
    ensures var st := Table(entries, names, p, render).stats;
      && st.totalEntries == |entries|
      && st.uniqueTypes == |NameSet(entries)|
      && (forall i :: 0 <= i < |entries| ==> st.startTime <= entries[i].timestamp <= st.endTime)
      && (exists i :: 0 <= i < |entries| && entries[i].timestamp == st.startTime)
      && (exists i :: 0 <= i < |entries| && entries[i].timestamp == st.endTime)
      && st.duration == st.endTime - st.startTime >= 0
  {
    SortedCount(names);
    assert (set x | x in names) == NameSet(entries);
  }

  /** Samples in non-decreasing time order, as a log normally holds them. */
  predicate TimeOrdered(s: seq<Sample>) {
    forall i, j :: 0 <= i < j < |s| ==> s[i].time <= s[j].time
  }

  /** On ordered samples `before` is the latest sample at or before `t`. */
  lemma BeforeLatest(s: seq<Sample>, t: int)
    requires TimeOrdered(s)
    ensures Before(s, t).Some? <==> exists k :: 0 <= k < |s| && s[k].time <= t
    ensures Before(s, t).Some? ==>
      && Before(s, t).value in s && Before(s, t).value.time <= t
      && forall k :: 0 <= k < |s| && s[k].time <= t ==> s[k].time <= Before(s, t).value.time
  {
    var n := TakenFromFront(s, t);
    forall k | n <= k < |s| ensures s[k].time > t {
      assert s[n].time <= s[k].time;
    }
  }

  /** On ordered samples `after` is the earliest sample at or after `t`. */
  lemma AfterEarliest(s: seq<Sample>, t: int)
    requires TimeOrdered(s)
    ensures After(s, t).Some? <==> exists k :: 0 <= k < |s| && s[k].time >= t
    ensures After(s, t).Some? ==>
      && After(s, t).value in s && After(s, t).value.time >= t
      && forall k :: 0 <= k < |s| && s[k].time >= t ==> After(s, t).value.time <= s[k].time
  {
    var n := TakenFromBack(s, t);
    forall k | 0 <= k < |s| - n ensures s[k].time < t {
      assert s[k].time <= s[|s| - n - 1].time;
    }
  }

  /** How far a sample time lies from the grid time. */
  function Distance(time: int, t: int): nat {
    if time <= t then t - time else time - t
  }

  /** On ordered, non-empty samples the chosen sample is a nearest one, and on
      a tie between an earlier and a later sample the earlier one wins. */
  lemma PickNearest(s: seq<Sample>, t: int)
    requires TimeOrdered(s) && |s| > 0
    ensures Pick(s, t).Some? && Pick(s, t).value in s
    ensures forall k :: 0 <= k < |s| ==> Distance(Pick(s, t).value.time, t) <= Distance(s[k].time, t)
    ensures forall k :: 0 <= k < |s| && s[k].time <= t && t - s[k].time == Distance(Pick(s, t).value.time, t) ==>
      Pick(s, t).value.time <= t
  {
    BeforeLatest(s, t);
    AfterEarliest(s, t);
    if s[0].time <= t {
      assert Before(s, t).Some?;
    } else {
      assert After(s, t).Some?;
    }
  }

  /** The scans rely on that order: out of order, a channel with samples can
      yield an empty cell, since each scan stops at its first miss. */
  lemma PickNeedsOrder(v: Value)
    ensures var s := [Sample(5, v), Sample(1, v)];
      !TimeOrdered(s) && Pick(s, 3).None?
  {
    var s := [Sample(5, v), Sample(1, v)];
    assert s[0].time > 3 && s[|s| - 1].time < 3;
    assert TakenFromFront(s, 3) == 0 && TakenFromBack(s, 3) == 0;
  }
}
