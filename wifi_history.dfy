/**
 * The WiFi occupancy dashboard (wifi_app.py): reading the daily scan logs,
 * the "currently present" snapshot, the zero-filled hourly history, and the
 * registry of claimed devices.
 *
 * Timestamps are whole seconds in the scanner's local time. The log
 * directory is a map from file name to the rows of that file, `None` for a
 * file that cannot be read.
 */
module WifiHistory {
  import opened Wrappers
  import opened Text
  import opened Ordering

  /** 48 hours, the history window. */
  const Retention: int := 48 * 3600

  /** 10 minutes, the window for "currently present". */
  const PresenceWindow: int := 10 * 60

  /** One logged sighting; also the shape of a current-device record. */
  datatype LogRow = LogRow(time: int, mac: string, ip: string)

  datatype HourCount = HourCount(hour: int, count: nat)

  type LogDir = map<string, Option<seq<LogRow>>>

  /** pandas' `dt.floor('h')`. */
  function FloorHour(t: int): (h: int)
    ensures h % 3600 == 0 && h <= t < h + 3600
  {
    t - t % 3600
  }

  /** The names the glob `wifi_log_*.csv` matches. */
  predicate IsLogName(name: string) {
    |name| >= 13 && StartsWith(name, "wifi_log_") && EndsWith(name, ".csv")
  }

  /** The log names of the directory, in name order. */
  function LogNames(dir: LogDir): (r: seq<string>)
    ensures StrictlySorted(r)
    ensures forall n :: n in r <==> n in dir && IsLogName(n)
  {
    SortedSeq(set n | n in dir && IsLogName(n))
  }

  /** `sorted(glob(...))[-3:]`: the last three log names in name order. */
  function RecentLogs(dir: LogDir): (r: seq<string>)
    ensures |r| <= 3
  {
    var names := LogNames(dir);
    if |names| >= 3 then names[|names| - 3..] else names
  }

  /** The recent logs are sorted log names of the directory, and there are none only when the directory has no log. */
  lemma RecentLogsAreLogs(dir: LogDir)
    ensures StrictlySorted(RecentLogs(dir))
    ensures forall k :: 0 <= k < |RecentLogs(dir)| ==> RecentLogs(dir)[k] in dir && IsLogName(RecentLogs(dir)[k])
    ensures RecentLogs(dir) == [] <==> forall n :: n in dir ==> !IsLogName(n)
  {
    var names := LogNames(dir);
    var r := RecentLogs(dir);
    var off := |names| - |r|;
    forall k | 0 <= k < |r| ensures r[k] in names {
      assert r[k] == names[off + k];
    }
    if r == [] {
      assert names == [];
    }
  }

  /** A log that is left out sorts below each of the three recent ones. */
  lemma RecentLogsAreLatest(dir: LogDir, n: string)
    requires n in dir && IsLogName(n) && n !in RecentLogs(dir)
    ensures |RecentLogs(dir)| == 3
    ensures forall k :: 0 <= k < 3 ==> Below(n, RecentLogs(dir)[k])
  {
    var names := LogNames(dir);
    var r := RecentLogs(dir);
    assert n in names;
    var i :| 0 <= i < |names| && names[i] == n;
    assert |names| >= 3;
    var off := |names| - 3;
    forall j | off <= j < |names| ensures names[j] in r {
      assert r[j - off] == names[j];
    }
    assert i < off;
    forall k | 0 <= k < 3 ensures Below(n, r[k]) {
      assert r[k] == names[off + k];
    }
  }

  /** The rows of the readable files among `names`, in order; `None` when none is readable. */
  function ReadableRows(dir: LogDir, names: seq<string>): (r: Option<seq<LogRow>>)
    ensures r.None? <==> forall k :: 0 <= k < |names| ==> names[k] !in dir || dir[names[k]].None?
    decreases |names|
  {
    if names == [] then None
    else
      var front := ReadableRows(dir, names[..|names| - 1]);
      var last := names[|names| - 1];
      if last in dir && dir[last].Some? then Some(front.GetOr([]) + dir[last].value)
      else front
  }

  /** The rows at or after `since`, in their original order. */
  function Since(rows: seq<LogRow>, since: int): (r: seq<LogRow>)
    ensures forall k :: 0 <= k < |r| ==> r[k].time >= since && r[k] in rows
    ensures forall k :: 0 <= k < |rows| && rows[k].time >= since ==> rows[k] in r
    decreases |rows|
  {
    if rows == [] then []
    else (if rows[0].time >= since then [rows[0]] else []) + Since(rows[1..], since)
  }

  /** The MACs of `rows`, empty cells included. */
  function Macs(rows: seq<LogRow>): set<string> {
    set k | 0 <= k < |rows| :: rows[k].mac
  }

  /**
   * The keys `groupby('MAC Address')` forms. An empty cell is read as NaN,
   * and `groupby` drops NaN keys.
   */
  function KeyedMacs(rows: seq<LogRow>): set<string> {
    set k | 0 <= k < |rows| && rows[k].mac != "" :: rows[k].mac
  }

  /** The last row for `mac`, in file order: its time is what `agg('last')` gives the Timestamp column. */
  function LastFor(rows: seq<LogRow>, mac: string): (r: Option<LogRow>)
    ensures r.Some? <==> mac in Macs(rows)
    ensures r.Some? ==>
      r.value.mac == mac &&
      exists i :: 0 <= i < |rows| && rows[i] == r.value && forall j :: i < j < |rows| ==> rows[j].mac != mac
    decreases |rows|
  {
    if rows == [] then None
    else if rows[|rows| - 1].mac == mac then Some(rows[|rows| - 1])
    else
      var r := LastFor(rows[..|rows| - 1], mac);
      assert Macs(rows) == Macs(rows[..|rows| - 1]) + {rows[|rows| - 1].mac} by {
        assert forall k :: 0 <= k < |rows| - 1 ==> rows[..|rows| - 1][k] == rows[k];
      }
      r
  }

  /**
   * `agg('last')` on the IP column: the last IP of `mac` that is not an
   * empty cell, since 'last' skips NaN; "" (NaN) when every IP of `mac` is
   * empty.
   */
  function LastIp(rows: seq<LogRow>, mac: string): (ip: string)
    ensures ip != "" ==>
      exists i :: 0 <= i < |rows| && rows[i].mac == mac && rows[i].ip == ip &&
        forall j :: i < j < |rows| && rows[j].mac == mac ==> rows[j].ip == ""
    ensures ip == "" ==> forall i :: 0 <= i < |rows| && rows[i].mac == mac ==> rows[i].ip == ""
    decreases |rows|
  {
    if rows == [] then ""
    else
      var n := |rows| - 1;
      if rows[n].mac == mac && rows[n].ip != "" then rows[n].ip
      else
        var front := rows[..n];
        var ip := LastIp(front, mac);
        assert forall k :: 0 <= k < n ==> front[k] == rows[k];
        assert rows[n].mac == mac ==> rows[n].ip == "";
        if ip == "" then ip
        else
          var i :| 0 <= i < n && front[i].mac == mac && front[i].ip == ip &&
            forall j :: i < j < n && front[j].mac == mac ==> front[j].ip == "";
          assert rows[i].mac == mac && rows[i].ip == ip;
          ip
  }

  /** The MAC column of `rows`. */
  function MacColumn(rows: seq<LogRow>): (r: seq<string>)
    ensures |r| == |rows| && forall i :: 0 <= i < |rows| ==> r[i] == rows[i].mac
  {
    seq(|rows|, i requires 0 <= i < |rows| => rows[i].mac)
  }

  /** A MAC is a key among the rows at or after `since` exactly when it is not empty and some row with that MAC is. */
  lemma SinceMacs(rows: seq<LogRow>, since: int, mac: string)
    ensures mac in KeyedMacs(Since(rows, since)) <==>
      mac != "" && exists k :: 0 <= k < |rows| && rows[k].mac == mac && rows[k].time >= since
  {
    if mac in KeyedMacs(Since(rows, since)) {
      KeyOfSince(rows, since, mac);
    }
    if mac != "" && exists k :: 0 <= k < |rows| && rows[k].mac == mac && rows[k].time >= since {
      var k :| 0 <= k < |rows| && rows[k].mac == mac && rows[k].time >= since;
      SinceKeepsKey(rows, since, k);
    }
  }

  lemma KeyOfSince(rows: seq<LogRow>, since: int, mac: string)
    requires mac in KeyedMacs(Since(rows, since))
    ensures mac != "" && exists k :: 0 <= k < |rows| && rows[k].mac == mac && rows[k].time >= since
  {
    var recent := Since(rows, since);
    var j :| 0 <= j < |recent| && recent[j].mac != "" && recent[j].mac == mac;
    assert recent[j].time >= since && recent[j] in rows;
    var i :| 0 <= i < |rows| && rows[i] == recent[j];
    assert rows[i].mac == mac && rows[i].time >= since;
  }

  lemma SinceKeepsKey(rows: seq<LogRow>, since: int, k: int)
    requires 0 <= k < |rows| && rows[k].mac != "" && rows[k].time >= since
    ensures rows[k].mac in KeyedMacs(Since(rows, since))
  {
    var recent := Since(rows, since);
    assert rows[k] in recent;
    var j :| 0 <= j < |recent| && recent[j] == rows[k];
    assert recent[j].mac != "";
  }

  /** The record of each of `macs`, in the order of `macs`: the time of its last row and its last non-empty IP. */
  function LastRows(rows: seq<LogRow>, macs: seq<string>): (r: seq<LogRow>)
    requires forall i :: 0 <= i < |macs| ==> macs[i] in Macs(rows)
    ensures MacColumn(r) == macs
    ensures forall i :: 0 <= i < |r| ==>
      r[i].ip == LastIp(rows, macs[i]) &&
      LastFor(rows, macs[i]).Some? && r[i].time == LastFor(rows, macs[i]).value.time
  {
    seq(|macs|, i requires 0 <= i < |macs| => LogRow(LastFor(rows, macs[i]).value.time, macs[i], LastIp(rows, macs[i])))
  }

  lemma MacsOfColumn(r: seq<LogRow>, s: set<string>)
    requires forall x :: x in MacColumn(r) <==> x in s
    ensures Macs(r) == s
  {
    var col := MacColumn(r);
    forall mac | mac in Macs(r) ensures mac in s {
      var i :| 0 <= i < |r| && r[i].mac == mac;
      assert col[i] in col;
    }
    forall mac | mac in s ensures mac in Macs(r) {
      var i :| 0 <= i < |col| && col[i] == mac;
      assert r[i].mac == mac;
    }
  }

  /**
   * The "currently present" snapshot: one record per non-empty MAC seen in
   * the last ten minutes, MACs ascending, each with the time of the MAC's
   * last such row and its last non-empty IP.
   */
  function CurrentDevices(rows: seq<LogRow>, now: int): (r: seq<LogRow>)
    ensures StrictlySorted(MacColumn(r))
    ensures Macs(r) == KeyedMacs(Since(rows, now - PresenceWindow))
    ensures forall i :: 0 <= i < |r| ==>
      var recent := Since(rows, now - PresenceWindow);
      r[i].mac != "" && r[i].ip == LastIp(recent, r[i].mac) &&
      LastFor(recent, r[i].mac).Some? && r[i].time == LastFor(recent, r[i].mac).value.time
  {
    var recent := Since(rows, now - PresenceWindow);
    var keys := KeyedMacs(recent);
    var macs := SortedSeq(keys);
    forall i | 0 <= i < |macs| ensures macs[i] in Macs(recent) && macs[i] != "" {
      assert macs[i] in keys;
    }
    var r := LastRows(recent, macs);
    MacsOfColumn(r, keys);
    r
  }

  /** The distinct non-empty MACs among `rows` whose time falls in hour `h`. */
  function HourMacs(rows: seq<LogRow>, h: int): set<string> {
    set k | 0 <= k < |rows| && FloorHour(rows[k].time) == h && rows[k].mac != "" :: rows[k].mac
  }

  /**
   * `groupby('Hour')['MAC Address'].nunique()`: the hours that have rows,
   * with their distinct-MAC counts; `nunique` does not count empty (NaN)
   * cells, so an hour whose MAC cells are all empty counts 0.
   */
  function HourlyCounts(rows: seq<LogRow>): (r: map<int, nat>)
    ensures forall h :: h in r <==> exists k :: 0 <= k < |rows| && FloorHour(rows[k].time) == h
    ensures forall h :: h in r ==> r[h] == |HourMacs(rows, h)|
    ensures forall h :: h in r ==>
      (r[h] > 0 <==> exists k :: 0 <= k < |rows| && FloorHour(rows[k].time) == h && rows[k].mac != "")
  {
    var hours := set k | 0 <= k < |rows| :: FloorHour(rows[k].time);
    forall h | h in hours
      ensures |HourMacs(rows, h)| > 0 <==> exists k :: 0 <= k < |rows| && FloorHour(rows[k].time) == h && rows[k].mac != ""
    {
      if exists k :: 0 <= k < |rows| && FloorHour(rows[k].time) == h && rows[k].mac != "" {
        var k :| 0 <= k < |rows| && FloorHour(rows[k].time) == h && rows[k].mac != "";
        assert rows[k].mac in HourMacs(rows, h);
      }
      if |HourMacs(rows, h)| > 0 {
        var m :| m in HourMacs(rows, h);
      }
    }
    map h | h in hours :: |HourMacs(rows, h)|
  }

  /** When one MAC is seen in the last ten minutes, the snapshot is that MAC's record alone. */
  lemma OneCurrentDevice(rows: seq<LogRow>, now: int, mac: string)
    requires KeyedMacs(Since(rows, now - PresenceWindow)) == {mac}
    ensures var recent := Since(rows, now - PresenceWindow);
      CurrentDevices(rows, now) == [LogRow(LastFor(recent, mac).value.time, mac, LastIp(recent, mac))]
  {
    var r := CurrentDevices(rows, now);
    SingleMacColumn(r, mac);
  }

  /** Records sorted by MAC that hold a single MAC are one record. */
  lemma SingleMacColumn(r: seq<LogRow>, mac: string)
    requires StrictlySorted(MacColumn(r)) && Macs(r) == {mac}
    ensures MacColumn(r) == [mac]
  {
    forall x ensures x in MacColumn(r) <==> x in [mac] {
      if x in MacColumn(r) {
        var i :| 0 <= i < |r| && MacColumn(r)[i] == x;
        assert r[i].mac in Macs(r);
      }
      if x == mac {
        assert mac in Macs(r);
        var i :| 0 <= i < |r| && r[i].mac == x;
        assert MacColumn(r)[i] == x;
      }
    }
    SortedUnique(MacColumn(r), [mac]);
  }

  /** Rows with an empty MAC cell (second) and an empty IP cell (third). */
  const GappedRows := [LogRow(0, "aa", "10.0.0.5"), LogRow(1, "", "10.0.0.6"), LogRow(2, "aa", "")]

  /** The row without a MAC is no device, and the later row without an IP keeps the earlier IP. */
  lemma GappedCurrentDevices()
    ensures CurrentDevices(GappedRows, 2) == [LogRow(2, "aa", "10.0.0.5")]
  {
    GappedWindow();
    GappedKeys();
    GappedLast();
    OneCurrentDevice(GappedRows, 2, "aa");
  }

  lemma GappedWindow()
    ensures Since(GappedRows, 2 - PresenceWindow) == GappedRows
  {
    var rows := GappedRows;
    assert rows[1..][1..][1..] == [];
  }

  lemma GappedKeys()
    ensures KeyedMacs(GappedRows) == {"aa"}
  {
    var rows := GappedRows;
    assert rows[0].mac in KeyedMacs(rows);
  }

  lemma GappedLast()
    ensures LastFor(GappedRows, "aa") == Some(LogRow(2, "aa", "")) && LastIp(GappedRows, "aa") == "10.0.0.5"
  {
    var rows := GappedRows;
    assert rows[..2][..1] == [rows[0]];
    assert rows[..2][..1][..0] == [];
  }

  /** The row without a MAC is not counted in its hour. */
  lemma GappedHourlyCount()
    ensures 0 in HourlyCounts(GappedRows) && HourlyCounts(GappedRows)[0] == 1
  {
    var rows := GappedRows;
    assert FloorHour(rows[0].time) == 0;
    assert HourMacs(rows, 0) == {"aa"} by {
      assert rows[0].mac in HourMacs(rows, 0);
    }
  }

  /** `pd.date_range(first, last, freq='h')`. */
  function HourRange(first: int, last: int): (r: seq<int>)
    ensures forall k :: 0 <= k < |r| ==> r[k] == first + 3600 * k
    ensures first <= last && (last - first) % 3600 == 0 ==> |r| == (last - first) / 3600 + 1
    ensures first > last ==> r == []
    decreases last - first
  {
    if first > last then [] else [first] + HourRange(first + 3600, last)
  }

  /** The left join of the counts onto `hours`, 0 where an hour has no count. */
  function FillHours(counts: map<int, nat>, hours: seq<int>): (r: seq<HourCount>)
    ensures |r| == |hours|
    ensures forall k :: 0 <= k < |r| ==> r[k].hour == hours[k]
    ensures forall k :: 0 <= k < |r| ==> r[k].count == (if hours[k] in counts then counts[hours[k]] else 0)
  {
    seq(|hours|, k requires 0 <= k < |hours| => HourCount(hours[k], if hours[k] in counts then counts[hours[k]] else 0))
  }

  /** The hourly history: every hour from floor(now - 48h) to floor(now). */
  function History(retained: seq<LogRow>, now: int): seq<HourCount> {
    FillHours(HourlyCounts(retained), HourRange(FloorHour(now - Retention), FloorHour(now)))
  }

  /**
   * The history is gap-free: 49 consecutive hours ending with the current
   * one, each holding the number of distinct MACs seen in it, 0 for an hour
   * without rows (wifi_app.py:274-284).
   */
  lemma HistoryShape(retained: seq<LogRow>, now: int)
    ensures var r := History(retained, now);
      |r| == 49 &&
      r[0].hour == FloorHour(now - Retention) && r[48].hour == FloorHour(now) &&
      (forall k :: 0 <= k < 48 ==> r[k + 1].hour == r[k].hour + 3600) &&
      (forall k :: 0 <= k < 49 ==> r[k].count == |HourMacs(retained, r[k].hour)|)
  {
    assert FloorHour(now - Retention) == FloorHour(now) - Retention;
    var r := History(retained, now);
    var counts := HourlyCounts(retained);
    forall k | 0 <= k < 49 ensures r[k].count == |HourMacs(retained, r[k].hour)| {
      if r[k].hour !in counts {
        assert HourMacs(retained, r[k].hour) == {};
      }
    }
  }

  /** The rows `read_wifi_logs` aggregates, or `None` when it returns two empty lists. */
  function LogRows(dir: Option<LogDir>): Option<seq<LogRow>> {
    if dir.None? then None else ReadableRows(dir.value, RecentLogs(dir.value))
  }

  /**
   * `read_wifi_logs`: the current devices and the hourly history of the
   * three most recent log files, or two empty lists when the directory is
   * missing, has no log file, or none of them can be read.
   */
  method ReadWifiLogs(dir: Option<LogDir>, now: int) returns (current: seq<LogRow>, history: seq<HourCount>)
    ensures LogRows(dir).None? ==> current == [] && history == []
    ensures LogRows(dir).Some? ==>
      current == CurrentDevices(Since(LogRows(dir).value, now - Retention), now) &&
      history == History(Since(LogRows(dir).value, now - Retention), now)
  {
    if dir.None? {
      return [], [];
    }
    var logs := RecentLogs(dir.value);
    if logs == [] {
      return [], [];
    }
    var read := ReadLogs(dir.value, logs);
    if read.None? {
      return [], [];
    }
    var retained := Since(read.value, now - Retention);
    current := CurrentDevices(retained, now);
    history := History(retained, now);
  }

  /**
   * The loop of `read_wifi_logs` over the chosen files: a file that cannot
   * be read is skipped, and the rows of the others are concatenated.
   */
  method ReadLogs(dir: LogDir, logs: seq<string>) returns (rows: Option<seq<LogRow>>)
    ensures rows == ReadableRows(dir, logs)
  {
    var combined: seq<LogRow> := [];
    var anyRead := false;
    var i := 0;
    while i < |logs|
      invariant 0 <= i <= |logs|
      invariant anyRead <==> ReadableRows(dir, logs[..i]).Some?
      invariant anyRead ==> combined == ReadableRows(dir, logs[..i]).value
      invariant !anyRead ==> combined == []
    {
      ReadableRowsNext(dir, logs, i);
      if logs[i] in dir && dir[logs[i]].Some? {
        combined := combined + dir[logs[i]].value;
        anyRead := true;
      }
      i := i + 1;
    }
    assert logs[..|logs|] == logs;
    rows := if anyRead then Some(combined) else None;
  }

  /** Reading one more file appends its rows when it is readable. */
  lemma ReadableRowsNext(dir: LogDir, names: seq<string>, i: nat)
    requires i < |names|
    ensures ReadableRows(dir, names[..i + 1]) ==
      if names[i] in dir && dir[names[i]].Some? then Some(ReadableRows(dir, names[..i]).GetOr([]) + dir[names[i]].value)
      else ReadableRows(dir, names[..i])
  {
    assert names[..i + 1][..i] == names[..i];
  }

  /** Retained rows are exactly those of the last 48 hours (wifi_app.py:259-262). */
  lemma RetainedWindow(rows: seq<LogRow>, now: int, row: LogRow)
    requires row in rows
    ensures row in Since(rows, now - Retention) <==> row.time >= now - Retention
  {
    var k :| 0 <= k < |rows| && rows[k] == row;
  }

  /** A device's entry in `devices.json`; a field is `None` when the key is absent. */
  datatype DeviceRecord = DeviceRecord(deviceName: Option<string>, owner: Option<string>, claimedAt: Option<string>)

  type Registry = map<string, DeviceRecord>

  datatype EnrichedDevice = EnrichedDevice(device: LogRow, deviceName: string, owner: string, claimed: bool)

  /** The JSON body of `/api/data`. */
  datatype Dashboard = Dashboard(currentCount: nat, currentDevices: seq<EnrichedDevice>, peopleOnline: seq<string>, history: seq<HourCount>)

  /** The owners that count as online: non-empty owners of claimed current devices. */
  function OnlineOwners(current: seq<LogRow>, registry: Registry): set<string> {
    set i | 0 <= i < |current| && current[i].mac in registry && registry[current[i].mac].owner.Some? &&
            registry[current[i].mac].owner.value != "" :: registry[current[i].mac].owner.value
  }

  /** `e` is `device` with its registry entry merged in: name and owner from the entry, empty when the device is unclaimed. */
  predicate EnrichedFrom(e: EnrichedDevice, device: LogRow, registry: Registry) {
    e.device == device &&
    (e.claimed <==> device.mac in registry) &&
    (e.claimed ==> e.deviceName == registry[device.mac].deviceName.GetOr("") &&
                   e.owner == registry[device.mac].owner.GetOr("")) &&
    (!e.claimed ==> e.deviceName == "" && e.owner == "")
  }

  /**
   * `/api/data`: each current device with its registry entry merged in, the
   * count of current devices, the owners online (sorted, once each) and the
   * history as it stands.
   */
  method ApiData(current: seq<LogRow>, history: seq<HourCount>, registry: Registry) returns (r: Dashboard)
    ensures r.currentCount == |current| && r.history == history
    ensures |r.currentDevices| == |current|
    ensures forall i :: 0 <= i < |current| ==> EnrichedFrom(r.currentDevices[i], current[i], registry)
    ensures StrictlySorted(r.peopleOnline)
    ensures forall p :: p in r.peopleOnline <==> p in OnlineOwners(current, registry)
  {
    var enriched: seq<EnrichedDevice> := [];
    var people: set<string> := {};
    var i := 0;
    while i < |current|
      invariant 0 <= i <= |current|
      invariant |enriched| == i
      invariant forall j :: 0 <= j < i ==> EnrichedFrom(enriched[j], current[j], registry)
      invariant people == OnlineOwners(current[..i], registry)
    {
      var device := current[i];
      var e;
      if device.mac in registry {
        var entry := registry[device.mac];
        e := EnrichedDevice(device, entry.deviceName.GetOr(""), entry.owner.GetOr(""), true);
        if entry.owner.Some? && entry.owner.value != "" {
          people := people + {entry.owner.value};
        }
      } else {
        e := EnrichedDevice(device, "", "", false);
      }
      assert EnrichedFrom(e, device, registry);
      OnlineOwnersStep(current, registry, i);
      EnrichedNext(enriched, e, current, registry, i);
      enriched := enriched + [e];
      i := i + 1;
    }
    assert current[..|current|] == current;
    var online := SortedSeq(people);
    assert forall p :: p in online <==> p in people;
    r := Dashboard(|current|, enriched, online, history);
  }

  lemma EnrichedNext(enriched: seq<EnrichedDevice>, e: EnrichedDevice, current: seq<LogRow>, registry: Registry, i: nat)
    requires |enriched| == i < |current|
    requires forall j :: 0 <= j < i ==> EnrichedFrom(enriched[j], current[j], registry)
    requires EnrichedFrom(e, current[i], registry)
    ensures forall j :: 0 <= j < i + 1 ==> EnrichedFrom((enriched + [e])[j], current[j], registry)
  {
    forall j | 0 <= j < i + 1
      ensures EnrichedFrom((enriched + [e])[j], current[j], registry)
    {
      if j < i {
        assert (enriched + [e])[j] == enriched[j];
      }
    }
  }

  lemma OnlineOwnersStep(current: seq<LogRow>, registry: Registry, i: int)
    requires 0 <= i < |current|
    ensures OnlineOwners(current[..i + 1], registry) ==
      OnlineOwners(current[..i], registry) +
      (if current[i].mac in registry && registry[current[i].mac].owner.Some? && registry[current[i].mac].owner.value != ""
       then {registry[current[i].mac].owner.value} else {})
  {
    var a, b := current[..i + 1], current[..i];
    assert forall j :: 0 <= j < i ==> a[j] == b[j];
    assert a[i] == current[i];
  }

  /** The state of `devices.json`. */
  datatype RegistryFile = Absent | Corrupt | Saved(devices: Registry)

  /** `load_devices`: the stored registry, or an empty one when the file is absent or cannot be read. */
  function LoadDevices(file: RegistryFile): (r: Registry)
    ensures file.Saved? ==> r == file.devices
    ensures !file.Saved? ==> r == map[]
  {
    if file.Saved? then file.devices else map[]
  }

  /** The JSON body of a claim request; a field is `None` when the key is absent. */
  datatype ClaimBody = ClaimBody(mac: Option<string>, deviceName: Option<string>, owner: Option<string>)

  /** What a claim request does: its HTTP status and, on success, the registry to save. */
  datatype ClaimOutcome = ClaimOutcome(status: int, update: Option<Registry>)

  /**
   * `claim_device`: 500 when the body is not a JSON object, 400 when `mac`
   * is missing or empty, otherwise the loaded registry with `mac`'s entry
   * replaced.
   */
  function Claim(file: RegistryFile, body: Option<ClaimBody>, now: string): (r: ClaimOutcome)
    ensures r.status == 500 <==> body.None?
    ensures r.status == 400 <==> body.Some? && (body.value.mac.None? || body.value.mac.value == "")
    ensures r.status == 200 <==> r.update.Some?
    ensures r.update.Some? ==>
      var mac := body.value.mac.value;
      mac in r.update.value &&
      r.update.value[mac] == DeviceRecord(Some(body.value.deviceName.GetOr("")), Some(body.value.owner.GetOr("")), Some(now)) &&
      (forall k :: k != mac ==>
        (k in r.update.value <==> k in LoadDevices(file)) && (k in r.update.value ==> r.update.value[k] == LoadDevices(file)[k]))
  {
    match body
    case None => ClaimOutcome(500, None)
    case Some(b) =>
      if b.mac.None? || b.mac.value == "" then ClaimOutcome(400, None)
      else
        var entry := DeviceRecord(Some(b.deviceName.GetOr("")), Some(b.owner.GetOr("")), Some(now));
        ClaimOutcome(200, Some(LoadDevices(file)[b.mac.value := entry]))
  }

  /**
   * `unclaim_device`: 500 when the body is not a JSON object, 400 when `mac`
   * is missing or empty; otherwise 200, with the registry to save only when
   * `mac` had an entry.
   */
  function Unclaim(file: RegistryFile, body: Option<Option<string>>): (r: ClaimOutcome)
    ensures r.status == 500 <==> body.None?
    ensures r.status == 400 <==> body.Some? && (body.value.None? || body.value.value == "")
    ensures r.update.Some? <==> r.status == 200 && body.value.value in LoadDevices(file)
    ensures r.update.Some? ==> r.update.value == LoadDevices(file) - {body.value.value}
  {
    match body
    case None => ClaimOutcome(500, None)
    case Some(mac) =>
      if mac.None? || mac.value == "" then ClaimOutcome(400, None)
      else if mac.value in LoadDevices(file) then ClaimOutcome(200, Some(LoadDevices(file) - {mac.value}))
      else ClaimOutcome(200, None)
  }

  /** Unclaiming a MAC just claimed gives back the registry without that MAC. */
  lemma UnclaimUndoesClaim(file: RegistryFile, body: ClaimBody, now: string)
    requires body.mac.Some? && body.mac.value != ""
    ensures var claimed := Claim(file, Some(body), now).update.value;
      Unclaim(Saved(claimed), Some(body.mac)).update == Some(LoadDevices(file) - {body.mac.value})
  {
    var claimed := Claim(file, Some(body), now).update.value;
    assert claimed - {body.mac.value} == LoadDevices(file) - {body.mac.value};
  }

  /** A second unclaim of the same MAC saves nothing. */
  lemma UnclaimTwice(file: RegistryFile, mac: string)
    requires mac != ""
    ensures var first := Unclaim(file, Some(Some(mac)));
      first.status == 200 &&
      Unclaim(if first.update.Some? then Saved(first.update.value) else file, Some(Some(mac))) == ClaimOutcome(200, None)
  {
  }

  /**
   * The registry as the server holds it on disk. A failed save is logged
   * and ignored by the source, so the request still succeeds.
   */
  class DeviceRegistry {
    var file: RegistryFile

    constructor(initial: RegistryFile)
      ensures file == initial
    {
      file := initial;
    }

    method ClaimDevice(body: Option<ClaimBody>, now: string, saveOk: bool) returns (status: int)
      modifies this
      ensures status == Claim(old(file), body, now).status
      ensures var u := Claim(old(file), body, now).update;
        if u.Some? && saveOk then file == Saved(u.value) else file == old(file)
    {
      var outcome := Claim(file, body, now);
      status := outcome.status;
      if outcome.update.Some? && saveOk {
        file := Saved(outcome.update.value);
      }
    }

    method UnclaimDevice(body: Option<Option<string>>, saveOk: bool) returns (status: int)
      modifies this
      ensures status == Unclaim(old(file), body).status
      ensures var u := Unclaim(old(file), body).update;
        if u.Some? && saveOk then file == Saved(u.value) else file == old(file)
    {
      var outcome := Unclaim(file, body);
      status := outcome.status;
      if outcome.update.Some? && saveOk {
        file := Saved(outcome.update.value);
      }
    }
  }

  /**
   * A claim against a corrupt `devices.json` starts from an empty registry,
   * so the saved file keeps only the new claim.
   */
  lemma ClaimOverCorruptFile(body: ClaimBody, now: string)
    requires body.mac.Some? && body.mac.value != ""
    ensures Claim(Corrupt, Some(body), now).update ==
      Some(map[body.mac.value := DeviceRecord(Some(body.deviceName.GetOr("")), Some(body.owner.GetOr("")), Some(now))])
  {
  }
}
