/**
 * The per-minute occupancy series of the Bluetooth scanner (app.py).
 *
 * Timestamps are whole seconds since the epoch in UTC. `counts.csv` is a
 * `Series` of (minute, count) rows; `ble_log.csv` is the sequence of its
 * `Timestamp` cells, `None` where the cell is empty (pandas reads it as NaT).
 * A cell that is not a date at all leaves the column unparsed, so the
 * following `.dt` access raises: that log is `Unreadable`.
 */
module BleCounts {
  import opened Wrappers

  /** 48 hours, the retention window. */
  const Retention: int := 48 * 3600

  datatype Row = Row(time: int, count: int)

  type Series = seq<Row>

  /** pandas' `dt.floor('T')`. */
  function FloorMinute(t: int): (m: int)
    ensures m % 60 == 0 && m <= t < m + 60
  {
    t - t % 60
  }

  predicate Increasing(s: Series) {
    forall i, j :: 0 <= i < j < |s| ==> s[i].time < s[j].time
  }

  predicate Aligned(s: Series) {
    forall i :: 0 <= i < |s| ==> s[i].time % 60 == 0
  }

  /** What `counts.csv` holds after a run of this code: one row per minute, minutes ascending. */
  predicate WellFormed(s: Series) {
    Increasing(s) && Aligned(s)
  }

  /** Every row of `s` is later than `t`. */
  predicate Above(s: Series, t: int) {
    forall i :: 0 <= i < |s| ==> s[i].time > t
  }

  /** The sum of the counts `s` holds for minute `t`. */
  function Total(s: Series, t: int): int
    decreases |s|
  {
    if s == [] then 0 else (if s[0].time == t then s[0].count else 0) + Total(s[1..], t)
  }

  /** The minutes `s` has a row for. */
  function Times(s: Series): set<int>
    decreases |s|
  {
    if s == [] then {} else {s[0].time} + Times(s[1..])
  }

  lemma {:induction false} TotalConcat(a: Series, b: Series, t: int)
    ensures Total(a + b, t) == Total(a, t) + Total(b, t)
    ensures Times(a + b) == Times(a) + Times(b)
    decreases |a|
  {
    if a != [] {
      assert (a + b)[0] == a[0];
      assert (a + b)[1..] == a[1..] + b;
      TotalConcat(a[1..], b, t);
    } else {
      assert a + b == b;
    }
  }

  /** Adds one row to a grouped series: its count joins the row for its minute, or it becomes a new row in order. */
  function Insert(acc: Series, row: Row): (r: Series)
    requires Increasing(acc)
    ensures Increasing(r)
    ensures forall b :: Above(acc, b) && row.time > b ==> Above(r, b)
    decreases |acc|
  {
    if acc == [] then [row]
    else if row.time < acc[0].time then [row] + acc
    else if row.time == acc[0].time then [Row(row.time, acc[0].count + row.count)] + acc[1..]
    else
      var rest := Insert(acc[1..], row);
      assert Above(acc[1..], acc[0].time);
      [acc[0]] + rest
  }

  /** The row's count joins its minute's total; no other total changes, and the row's minute is added to the minutes. */
  lemma {:induction false} InsertTotal(acc: Series, row: Row, t: int)
    requires Increasing(acc)
    ensures Total(Insert(acc, row), t) == Total(acc, t) + (if t == row.time then row.count else 0)
    ensures Times(Insert(acc, row)) == Times(acc) + {row.time}
    decreases |acc|
  {
    if acc != [] && row.time > acc[0].time {
      InsertTotal(acc[1..], row, t);
      var r := Insert(acc, row);
      assert r[1..] == Insert(acc[1..], row);
    } else if acc != [] && row.time == acc[0].time {
      var r := Insert(acc, row);
      assert r[1..] == acc[1..];
    } else if acc != [] {
      var r := Insert(acc, row);
      assert r[1..] == acc;
    }
  }

  /** Inserting a minute-aligned row into a minute-aligned series keeps it aligned. */
  lemma {:induction false} InsertAligned(acc: Series, row: Row)
    requires Increasing(acc) && Aligned(acc) && row.time % 60 == 0
    ensures Aligned(Insert(acc, row))
    decreases |acc|
  {
    if acc != [] && row.time > acc[0].time {
      InsertAligned(acc[1..], row);
    }
  }

  /**
   * pandas' `groupby('Timestamp')['Count'].sum()`: one row per distinct
   * minute, ascending, holding the sum of that minute's counts.
   */
  function GroupSum(s: Series): (r: Series)
    ensures Increasing(r)
    decreases |s|
  {
    if s == [] then [] else Insert(GroupSum(s[1..]), s[0])
  }

  /** Group-and-sum keeps every minute's total and the set of minutes. */
  lemma {:induction false} GroupSumTotal(s: Series, t: int)
    ensures Total(GroupSum(s), t) == Total(s, t)
    ensures Times(GroupSum(s)) == Times(s)
    decreases |s|
  {
    if s != [] {
      GroupSumTotal(s[1..], t);
      InsertTotal(GroupSum(s[1..]), s[0], t);
    }
  }

  /** Group-and-sum of a minute-aligned series is minute-aligned. */
  lemma {:induction false} GroupSumAligned(s: Series)
    ensures Aligned(s) ==> Aligned(GroupSum(s))
    decreases |s|
  {
    if s != [] && Aligned(s) {
      assert s[0].time % 60 == 0;
      GroupSumAligned(s[1..]);
      InsertAligned(GroupSum(s[1..]), s[0]);
    }
  }

  /** A series that is already grouped and on minute boundaries is its own regrouping. */
  lemma {:induction false} GroupSumIdentity(s: Series)
    requires Increasing(s)
    ensures GroupSum(s) == s
    decreases |s|
  {
    if s != [] {
      GroupSumIdentity(s[1..]);
      assert s == [s[0]] + s[1..];
    }
  }

  /** `df['Timestamp'].dt.floor('T')` on every row. */
  function Refloor(s: Series): (r: Series)
    ensures |r| == |s| && Aligned(r)
    ensures forall i :: 0 <= i < |s| ==> r[i] == Row(FloorMinute(s[i].time), s[i].count)
  {
    seq(|s|, i requires 0 <= i < |s| => Row(FloorMinute(s[i].time), s[i].count))
  }

  /** Re-flooring and regrouping a well-formed series changes nothing (app.py:116-119). */
  lemma RegroupIdentity(s: Series)
    requires WellFormed(s)
    ensures GroupSum(Refloor(s)) == s
  {
    assert Refloor(s) == s;
    GroupSumIdentity(s);
  }

  /** `counts_df['Timestamp'].max()`, or nothing for an empty frame. */
  function HighWaterMark(s: Series): (m: Option<int>)
    ensures m.None? <==> s == []
    ensures m.Some? ==> m.value in Times(s)
    ensures m.Some? ==> forall t :: t in Times(s) ==> t <= m.value
    decreases |s|
  {
    if s == [] then None
    else
      var rest := HighWaterMark(s[1..]);
      if rest.Some? && rest.value > s[0].time then rest else Some(s[0].time)
  }

  /** Whether a raw row passes the high-water-mark filter. Without a mark every row, even an unparsed one, is read. */
  predicate Passes(x: Option<int>, mark: Option<int>) {
    mark.None? || (x.Some? && x.value > mark.value)
  }

  /** The raw rows the program reads: all of them on the first run, otherwise those strictly later than the mark. */
  function NewRows(raw: seq<Option<int>>, mark: Option<int>): (r: seq<Option<int>>)
    ensures mark.None? ==> r == raw
    ensures forall k :: 0 <= k < |r| ==> Passes(r[k], mark)
    ensures |r| <= |raw|
    decreases |raw|
  {
    if raw == [] then []
    else (if Passes(raw[0], mark) then [raw[0]] else []) + NewRows(raw[1..], mark)
  }

  /** `dropna(subset=['Timestamp'])`. */
  function Present(rows: seq<Option<int>>): (r: seq<int>)
    ensures |r| <= |rows|
    decreases |rows|
  {
    if rows == [] then []
    else (if rows[0].Some? then [rows[0].value] else []) + Present(rows[1..])
  }

  /** One row of count 1 per raw timestamp, floored to its minute. */
  function Ones(times: seq<int>): (r: Series)
    ensures |r| == |times| && Aligned(r)
    ensures forall i :: 0 <= i < |r| ==> r[i] == Row(FloorMinute(times[i]), 1)
    decreases |times|
  {
    if times == [] then [] else [Row(FloorMinute(times[0]), 1)] + Ones(times[1..])
  }

  /** `groupby('Timestamp').size()` after flooring: rows per minute. */
  function MinuteCounts(times: seq<int>): (r: Series)
    ensures WellFormed(r)
  {
    GroupSumAligned(Ones(times));
    GroupSum(Ones(times))
  }

  /** `concat` then `groupby(...).sum()`. */
  function Merge(stored: Series, incoming: Series): (r: Series)
    ensures Increasing(r)
  {
    GroupSum(stored + incoming)
  }

  /** Rows with `time >= cutoff`, in their original order. */
  function Prune(s: Series, cutoff: int): (r: Series)
    ensures forall i :: 0 <= i < |r| ==> r[i].time >= cutoff
    decreases |s|
  {
    if s == [] then []
    else if s[0].time >= cutoff then [s[0]] + Prune(s[1..], cutoff)
    else Prune(s[1..], cutoff)
  }

  /** Exactly the minutes at or after the cutoff are kept, each with its total. */
  lemma {:induction false} PruneTotal(s: Series, cutoff: int, t: int)
    ensures Total(Prune(s, cutoff), t) == if t >= cutoff then Total(s, t) else 0
    ensures Times(Prune(s, cutoff)) == set u | u in Times(s) && u >= cutoff
    decreases |s|
  {
    if s != [] {
      PruneTotal(s[1..], cutoff, t);
      if s[0].time >= cutoff {
        assert ([s[0]] + Prune(s[1..], cutoff))[1..] == Prune(s[1..], cutoff);
      }
    }
  }

  /** Pruning keeps every bound below all the rows. */
  lemma {:induction false} PruneAbove(s: Series, cutoff: int, b: int)
    requires Above(s, b)
    ensures Above(Prune(s, cutoff), b)
    decreases |s|
  {
    if s != [] {
      assert Above(s[1..], b);
      PruneAbove(s[1..], cutoff, b);
    }
  }

  /** Pruning keeps the minutes unique and ascending, and aligned when they were. */
  lemma {:induction false} PruneWellFormed(s: Series, cutoff: int)
    ensures Increasing(s) ==> Increasing(Prune(s, cutoff))
    ensures Aligned(s) ==> Aligned(Prune(s, cutoff))
    decreases |s|
  {
    if s != [] {
      PruneWellFormed(s[1..], cutoff);
      if Increasing(s) {
        assert Above(s[1..], s[0].time);
        PruneAbove(s[1..], cutoff, s[0].time);
      }
    }
  }

  /** A series with nothing before the cutoff is kept whole. */
  lemma {:induction false} PruneNothingOld(s: Series, cutoff: int)
    requires forall i :: 0 <= i < |s| ==> s[i].time >= cutoff
    ensures Prune(s, cutoff) == s
    decreases |s|
  {
    if s != [] {
      PruneNothingOld(s[1..], cutoff);
      assert s == [s[0]] + s[1..];
    }
  }

  /** The stored series: empty when `counts.csv` is absent. */
  function Stored(counts: Source<Series>): Option<Series> {
    match counts
    case Missing => Some([])
    case Unreadable => None
    case Loaded(s) => Some(s)
  }

  /**
   * `update_counts_csv`: merge the raw rows newer than the stored series
   * into it and drop the minutes older than 48 hours. `None` stands for the
   * exception path: a file that cannot be read or parsed, or a failed write
   * of `counts.csv` (`writable` false).
   */
  function UpdateCounts(counts: Source<Series>, log: Source<seq<Option<int>>>, writable: bool, now: int): (r: Option<Series>)
    ensures r.None? <==> counts.Unreadable? || log.Unreadable? || !writable
    ensures r.Some? ==> forall i :: 0 <= i < |r.value| ==> r.value[i].time >= now - Retention
    ensures r.Some? && counts.Missing? ==> WellFormed(r.value)
    ensures r.Some? && counts.Loaded? && WellFormed(counts.content) ==> WellFormed(r.value)
  {
    match Stored(counts)
    case None => None
    case Some(stored) =>
      if log.Unreadable? || !writable then None
      else
        var incoming := if log.Loaded? then NewRows(log.content, HighWaterMark(stored)) else [];
        if incoming != [] then
          var all := stored + MinuteCounts(Present(incoming));
          assert Aligned(stored) ==> Aligned(all);
          GroupSumAligned(all);
          PruneWellFormed(GroupSum(all), now - Retention);
          Some(Prune(Merge(stored, MinuteCounts(Present(incoming))), now - Retention))
        else
          PruneWellFormed(stored, now - Retention);
          Some(Prune(stored, now - Retention))
  }

  /** The number of raw rows that are read past `mark` and fall in minute `m`. */
  function FreshInMinute(raw: seq<Option<int>>, mark: Option<int>, m: int): nat
    decreases |raw|
  {
    if raw == [] then 0
    else
      (if Passes(raw[0], mark) && raw[0].Some? && FloorMinute(raw[0].value) == m then 1 else 0)
      + FreshInMinute(raw[1..], mark, m)
  }

  lemma {:induction false} OnesTotal(times: seq<int>, m: int)
    ensures Total(Ones(times), m) == FreshInMinute(seq(|times|, i requires 0 <= i < |times| => Some(times[i])), None, m)
    decreases |times|
  {
    if times != [] {
      OnesTotal(times[1..], m);
      var raw := seq(|times|, i requires 0 <= i < |times| => Some(times[i]));
      assert raw[1..] == seq(|times[1..]|, i requires 0 <= i < |times[1..]| => Some(times[1..][i]));
    }
  }

  lemma {:induction false} FreshCount(raw: seq<Option<int>>, mark: Option<int>, m: int)
    ensures Total(Ones(Present(NewRows(raw, mark))), m) == FreshInMinute(raw, mark, m)
    decreases |raw|
  {
    if raw != [] {
      FreshCount(raw[1..], mark, m);
      var rows := NewRows(raw[1..], mark);
      if Passes(raw[0], mark) {
        assert NewRows(raw, mark) == [raw[0]] + rows;
        assert ([raw[0]] + rows)[1..] == rows;
        if raw[0].Some? {
          assert Present([raw[0]] + rows) == [raw[0].value] + Present(rows);
          assert ([raw[0].value] + Present(rows))[1..] == Present(rows);
        } else {
          assert Present([raw[0]] + rows) == Present(rows);
        }
      } else {
        assert NewRows(raw, mark) == rows;
      }
    }
  }

  /**
   * Additive merge (app.py:71-83): after an update that reads new rows,
   * minute `m` holds its stored count plus the number of new raw rows in it,
   * duplicates included, and every minute appears once.
   */
  lemma MergeAdds(stored: Series, raw: seq<Option<int>>, m: int)
    ensures var merged := Merge(stored, MinuteCounts(Present(NewRows(raw, HighWaterMark(stored)))));
      Increasing(merged) &&
      Total(merged, m) == Total(stored, m) + FreshInMinute(raw, HighWaterMark(stored), m)
  {
    var incoming := MinuteCounts(Present(NewRows(raw, HighWaterMark(stored))));
    assert Merge(stored, incoming) == GroupSum(stored + incoming);
    GroupSumTotal(stored + incoming, m);
    TotalConcat(stored, incoming, m);
    GroupSumTotal(Ones(Present(NewRows(raw, HighWaterMark(stored)))), m);
    FreshCount(raw, HighWaterMark(stored), m);
  }

  /** [(10:00, 3)] merged with {10:00: 2, 10:01: 1} gives [(10:00, 5), (10:01, 1)]. */
  lemma MergeExample()
    ensures Merge([Row(36000, 3)], [Row(36000, 2), Row(36060, 1)]) == [Row(36000, 5), Row(36060, 1)]
  {
    var s := [Row(36000, 3), Row(36000, 2), Row(36060, 1)];
    assert [Row(36000, 3)] + [Row(36000, 2), Row(36060, 1)] == s;
    assert s[1..][1..] == [Row(36060, 1)];
    assert GroupSum([Row(36060, 1)]) == [Row(36060, 1)];
    assert GroupSum(s[1..]) == [Row(36000, 2), Row(36060, 1)];
  }

  lemma OneRowCounts(t: int)
    ensures Present([Some(t)]) == [t]
    ensures MinuteCounts([t]) == [Row(FloorMinute(t), 1)]
  {
    assert Ones([t]) == [Row(FloorMinute(t), 1)];
    assert GroupSum([Row(FloorMinute(t), 1)]) == [Row(FloorMinute(t), 1)];
  }

  lemma DoubledRow(m: int)
    ensures Merge([Row(m, 1)], [Row(m, 1)]) == [Row(m, 2)]
  {
    assert [Row(m, 1)] + [Row(m, 1)] == [Row(m, 1), Row(m, 1)];
    assert [Row(m, 1), Row(m, 1)][1..] == [Row(m, 1)];
    assert GroupSum([Row(m, 1)]) == [Row(m, 1)];
    assert Insert([Row(m, 1)], Row(m, 1)) == [Row(m, 2)];
  }

  /** On the first run (no `counts.csv`) a single raw row becomes a bucket of count 1. */
  lemma FirstRunCountsRow(t: int, now: int)
    requires FloorMinute(t) >= now - Retention
    ensures UpdateCounts(Missing, Loaded([Some(t)]), true, now) == Some([Row(FloorMinute(t), 1)])
  {
    var m := FloorMinute(t);
    OneRowCounts(t);
    PruneNothingOld([Row(m, 1)], now - Retention);
    assert [] + [Row(m, 1)] == [Row(m, 1)];
    assert GroupSum([Row(m, 1)]) == [Row(m, 1)];
  }

  /**
   * The high-water mark is a floored minute, so a raw row later within that
   * minute passes the strict filter again and is counted a second time
   * (app.py:47,59,74-83).
   */
  lemma RecountWithinLastMinute(t: int, now: int)
    requires FloorMinute(t) >= now - Retention
    requires t % 60 != 0
    ensures UpdateCounts(Loaded([Row(FloorMinute(t), 1)]), Loaded([Some(t)]), true, now) == Some([Row(FloorMinute(t), 2)])
  {
    var m := FloorMinute(t);
    OneRowCounts(t);
    assert HighWaterMark([Row(m, 1)]) == Some(m);
    assert NewRows([Some(t)], Some(m)) == [Some(t)];
    DoubledRow(m);
    PruneNothingOld([Row(m, 2)], now - Retention);
  }

  /** A raw row exactly on the stored minute is not read again. */
  lemma NoRecountOnTheMinute(t: int, now: int)
    requires FloorMinute(t) >= now - Retention
    requires t % 60 == 0
    ensures UpdateCounts(Loaded([Row(FloorMinute(t), 1)]), Loaded([Some(t)]), true, now) == Some([Row(FloorMinute(t), 1)])
  {
    var m := FloorMinute(t);
    assert HighWaterMark([Row(m, 1)]) == Some(m);
    assert NewRows([Some(t)], Some(m)) == [];
    PruneNothingOld([Row(m, 1)], now - Retention);
  }

  /**
   * Running the update twice over the same log, with nothing newer than the
   * stored series, gives the same series both times.
   */
  lemma IdleRunIdempotent(stored: Series, raw: seq<Option<int>>, now: int)
    requires stored != []
    requires forall k :: 0 <= k < |raw| ==> !Passes(raw[k], HighWaterMark(stored))
    ensures var once := UpdateCounts(Loaded(stored), Loaded(raw), true, now);
      once.Some? && once.value == Prune(stored, now - Retention) &&
      UpdateCounts(Loaded(once.value), Loaded(raw), true, now) == once
  {
    var once := Prune(stored, now - Retention);
    NoNewRows(raw, HighWaterMark(stored));
    if once == [] {
      EmptyRerun(stored, raw, now);
    } else {
      var m1 := HighWaterMark(stored);
      var m2 := HighWaterMark(once);
      PruneTotal(stored, now - Retention, 0);
      assert once[0].time in Times(once);
      assert m1.value in Times(once);
      assert m2 == m1;
      NoNewRows(raw, m2);
      PruneNothingOld(once, now - Retention);
    }
  }

  /**
   * When the 48-hour cut leaves nothing, the rerun starts without a mark and
   * reads every raw row again; all of them lie at or before the old mark,
   * which is older than the cut, so the rerun is empty as well.
   */
  lemma EmptyRerun(stored: Series, raw: seq<Option<int>>, now: int)
    requires stored != [] && Prune(stored, now - Retention) == []
    requires forall k :: 0 <= k < |raw| ==> !Passes(raw[k], HighWaterMark(stored))
    ensures UpdateCounts(Loaded([]), Loaded(raw), true, now) == Some([])
  {
    var mark := HighWaterMark(stored);
    PrunedAway(stored, now - Retention);
    assert mark.value in Times(stored);
    assert forall k :: 0 <= k < |raw| && raw[k].Some? ==> raw[k].value <= mark.value;
    OldLogRerun(raw, now);
  }

  /** Starting from an empty series, a log whose every row is older than the cut gives an empty series. */
  lemma OldLogRerun(raw: seq<Option<int>>, now: int)
    requires forall k :: 0 <= k < |raw| && raw[k].Some? ==> raw[k].value < now - Retention
    ensures UpdateCounts(Loaded([]), Loaded(raw), true, now) == Some([])
  {
    var c := now - Retention;
    assert NewRows(raw, HighWaterMark([])) == raw;
    if raw != [] {
      var times := Present(raw);
      PresentBelow(raw, c);
      OnesBelow(times, c);
      var ones := Ones(times);
      GroupSumTotal(ones, 0);
      GroupSumTotal(GroupSum(ones), 0);
      assert Merge([], MinuteCounts(times)) == GroupSum(GroupSum(ones)) by {
        assert [] + GroupSum(ones) == GroupSum(ones);
      }
      PruneEmpty(GroupSum(GroupSum(ones)), c);
    }
  }

  /** A series the cut empties has every minute before the cutoff. */
  lemma {:induction false} PrunedAway(s: Series, cutoff: int)
    ensures Prune(s, cutoff) == [] ==> forall u :: u in Times(s) ==> u < cutoff
    decreases |s|
  {
    if s != [] {
      PrunedAway(s[1..], cutoff);
    }
  }

  /** A series all of whose minutes are cut keeps no row. */
  lemma PruneEmpty(s: Series, cutoff: int)
    requires forall u :: u in Times(s) ==> u < cutoff
    ensures Prune(s, cutoff) == []
  {
    PruneTotal(s, cutoff, 0);
  }

  lemma {:induction false} PresentBelow(raw: seq<Option<int>>, b: int)
    requires forall k :: 0 <= k < |raw| && raw[k].Some? ==> raw[k].value < b
    ensures forall k :: 0 <= k < |Present(raw)| ==> Present(raw)[k] < b
    decreases |raw|
  {
    if raw != [] {
      PresentBelow(raw[1..], b);
    }
  }

  lemma {:induction false} OnesBelow(times: seq<int>, b: int)
    requires forall k :: 0 <= k < |times| ==> times[k] < b
    ensures forall u :: u in Times(Ones(times)) ==> u < b
    decreases |times|
  {
    if times != [] {
      OnesBelow(times[1..], b);
    }
  }

  /**
   * End to end (app.py:30-106): when both files can be read and the save
   * succeeds, each minute inside the 48-hour window holds its stored count
   * plus the raw rows read past the mark that fall in it; every older
   * minute holds nothing.
   */
  lemma UpdateCountsTotals(counts: Source<Series>, log: Source<seq<Option<int>>>, now: int, m: int)
    requires !counts.Unreadable? && !log.Unreadable?
    ensures var stored := if counts.Loaded? then counts.content else [];
      var raw := if log.Loaded? then log.content else [];
      var r := UpdateCounts(counts, log, true, now);
      r.Some? &&
      Total(r.value, m) == if m >= now - Retention then Total(stored, m) + FreshInMinute(raw, HighWaterMark(stored), m) else 0
  {
    var stored := if counts.Loaded? then counts.content else [];
    var raw := if log.Loaded? then log.content else [];
    var mark := HighWaterMark(stored);
    var c := now - Retention;
    var incoming := if log.Loaded? then NewRows(log.content, mark) else [];
    assert incoming == NewRows(raw, mark);
    if incoming != [] {
      MergeAdds(stored, raw, m);
      PruneTotal(Merge(stored, MinuteCounts(Present(incoming))), c, m);
    } else {
      FreshCount(raw, mark, m);
      assert Ones(Present(incoming)) == [];
      PruneTotal(stored, c, m);
    }
  }

  lemma {:induction false} NoNewRows(raw: seq<Option<int>>, mark: Option<int>)
    requires forall k :: 0 <= k < |raw| ==> !Passes(raw[k], mark)
    ensures NewRows(raw, mark) == []
    decreases |raw|
  {
    if raw != [] {
      NoNewRows(raw[1..], mark);
    }
  }

  /** What `/last_update` answers. */
  datatype UpdateStamp = NoUpdatesYet | UpdatedAt(time: int)

  /**
   * The published snapshot. `scanCounts` is the smoothed series (`None`
   * before the first publish), `lastUpdate` the time of the last publish.
   */
  class DataCache {
    var scanCounts: Option<Series>
    var lastUpdate: Option<int>

    constructor()
      ensures scanCounts == None && lastUpdate == None
    {
      scanCounts := None;
      lastUpdate := None;
    }

    /** `/last_update`: the time of the last publish, or 'No updates yet'. */
    function LastUpdate(): (r: UpdateStamp)
      reads this
      ensures r == NoUpdatesYet <==> lastUpdate.None?
      ensures lastUpdate.Some? ==> r == UpdatedAt(lastUpdate.value)
    {
      if lastUpdate.Some? then UpdatedAt(lastUpdate.value) else NoUpdatesYet
    }

    /** `/chart`: 503 ("Data not yet loaded") when nothing, or an empty series, is published; 200 otherwise. */
    function ChartStatus(): (code: int)
      reads this
      ensures code == 503 <==> scanCounts.None? || scanCounts.value == []
      ensures code == 200 <==> scanCounts.Some? && scanCounts.value != []
    {
      if scanCounts.None? || scanCounts.value == [] then 503 else 200
    }

    method Publish(series: Series, at: int)
      modifies this
      ensures scanCounts == Some(series) && lastUpdate == Some(at)
    {
      scanCounts := Some(series);
      lastUpdate := Some(at);
    }

    /**
     * One cycle of `update_data`. `smooth` is the floating-point smoothing
     * stage (rolling mean, exponential average, halving), `None` when it
     * raises. `countsNow`, `cutoffNow` and `stampNow` are the three reads of
     * the clock in the cycle.
     */
    method UpdateCycle(counts: Source<Series>, log: Source<seq<Option<int>>>, writable: bool,
                       countsNow: int, cutoffNow: int, stampNow: int, smooth: Series -> Option<Series>)
      modifies this
      ensures var r := UpdateCounts(counts, log, writable, countsNow);
        if r.None? || r.value == [] then
          scanCounts == Some([]) && lastUpdate == Some(stampNow)
        else
          var smoothed := smooth(Prepared(r.value, cutoffNow));
          if smoothed.Some? then scanCounts == smoothed && lastUpdate == Some(stampNow)
          else scanCounts == old(scanCounts) && lastUpdate == old(lastUpdate)
    {
      var r := UpdateCounts(counts, log, writable, countsNow);
      if r.Some? && r.value != [] {
        var smoothed := smooth(Prepared(r.value, cutoffNow));
        if smoothed.Some? {
          Publish(smoothed.value, stampNow);
        }
      } else {
        Publish([], stampNow);
      }
    }
  }

  /** The re-floor, regroup and 48-hour cut that `update_data` applies before smoothing. */
  function Prepared(s: Series, now: int): (r: Series)
    ensures WellFormed(r)
    ensures forall i :: 0 <= i < |r| ==> r[i].time >= now - Retention
  {
    GroupSumAligned(Refloor(s));
    PruneWellFormed(GroupSum(Refloor(s)), now - Retention);
    Prune(GroupSum(Refloor(s)), now - Retention)
  }

  /** For a well-formed series the preparation is only the 48-hour cut. */
  lemma PreparedIsPrune(s: Series, now: int)
    requires WellFormed(s)
    ensures Prepared(s, now) == Prune(s, now - Retention)
  {
    RegroupIdentity(s);
  }

  /**
   * A cycle whose update fails still publishes an empty series and a new
   * stamp, so the chart answers 503 and `/last_update` a time.
   */
  method FailedCycleExample(now: int) returns (code: int, stamp: UpdateStamp)
    ensures code == 503 && stamp == UpdatedAt(now)
  {
    var cache := new DataCache();
    cache.UpdateCycle(Unreadable, Missing, true, now, now, now, s => Some(s));
    code := cache.ChartStatus();
    stamp := cache.LastUpdate();
  }
}
