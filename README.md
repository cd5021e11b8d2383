# Telescreen: occupancy sensing and display pages

Telescreen runs on a small office computer (`nwspkpi1`). It does two things:

- **Occupancy sensing.** A Bluetooth scanner logs every advertising device it hears. A Flask app turns that log into a per-minute count series (`counts.csv`), keeps 48 hours of it and publishes a smoothed copy for a chart. A WiFi scanner logs the devices on the local network, parsing the output of `arp-scan`, `nmap -sn` or `arp`. A second Flask app reads those logs and serves:
  - the devices present in the last ten minutes;
  - a zero-filled hourly history of distinct devices;
  - a registry in which people claim their devices.
- **Display pages.** A rotation of HTML pages is served by a PHP router and edited through a small Go server. Two scripts refresh two of the pages: one from the latest "data insight" of Our World in Data, one from recent pair-work records summarised by a language model.

The Dafny project models the deterministic core of all of this:

- Timestamps are integer seconds.
- Files and directories are maps and sequences.
- The clock, the file system's answers, command output and remote services are parameters.
- Modules `Wrappers`, `Text`, `Numerals` and `Ordering` give the Python, PHP and Go library calls the code relies on their semantics: `split`, `strip`, `int()`, `format(n, '04x')`, sorted string order and so on.

Where the code and its description differ, the model follows the code:

- **A failed update still publishes.** When `update_counts_csv` fails, `update_data` still publishes an empty series and refreshes `last_update`; it does not skip publishing (`BleCounts.DataCache.UpdateCycle`, `BleCounts.FailedCycleExample`).
- **Only empty timestamps are dropped.** An empty `Timestamp` cell becomes NaT and is dropped. A cell that is not a date leaves the column unparsed; the next `.dt` access raises, and the whole update fails (`BleCounts.UpdateCounts` with an `Unreadable` log).
- **A mistyped config is partly kept.** When decoding `pages-config.json` meets a value of the wrong type, Go keeps the entries it could decode and reports an error. `handleDelete` ignores that error and saves those entries back (`PageEditor.LoadConfig`, `PageEditor.DeleteKeepsOtherStatuses`).
- **Rows in the latest stored minute are counted again.** The high-water mark is a floored minute, so a raw row later in that same minute is counted a second time on the next run (`BleCounts.RecountWithinLastMinute`).
- **"Unknown date" is kept as it is.** A record without a date shows "Unknown date", because `format_date` returns text that does not parse unchanged (`PairworkSummary.UnknownDateKept`).
- **Router quirks.** These are written out as lemmas:
  - the router sends `../` segments through unchanged (`PageRouter.ParentStepsKept`);
  - a leading slash can reappear after sanitising (`PageRouter.SlashSurvivesSanitising`);
  - an upper-case `.PHP` file is served as static `text/html` and not executed (`PageRouter.UpperCasePhpServedAsHtml`).
- **The first bullet keeps its dash.** Splitting a summary on `"\n-"` leaves the leading dash on the first bullet (`PairworkSummary.FirstDashKept`).
- **Empty cells are missing values.** An empty `MAC Address` or `IP Address` cell of a WiFi log stands for pandas' NaN. `groupby` drops rows whose MAC is missing, `agg('last')` takes the last IP that is present, and `nunique` does not count a missing MAC (`WifiHistory.KeyedMacs`, `WifiHistory.LastIp`, `WifiHistory.GappedCurrentDevices`).

## Model

| member | source | states |
|---|---|---|
| BleCounts.FloorMinute | devices/nwspkpi1/app.py:74 | the floored time is a whole minute, at or before `t` and less than a minute before it |
| BleCounts.HighWaterMark | devices/nwspkpi1/app.py:46-49 | no mark for an empty series; otherwise the mark is a stored minute and no stored minute is later |
| BleCounts.NewRows | devices/nwspkpi1/app.py:52-65 | with no mark every raw row is read, empty cells included; otherwise every row read is strictly later than the mark |
| BleCounts.Present | devices/nwspkpi1/app.py:71 | dropping rows without a timestamp never adds rows |
| BleCounts.Ones | devices/nwspkpi1/app.py:74 | one row per timestamp, in order, holding its floored minute and count 1 |
| BleCounts.MinuteCounts | devices/nwspkpi1/app.py:74-77 | the per-minute counts form a well-formed series: minutes aligned, ascending, once each |
| BleCounts.Insert | devices/nwspkpi1/app.py:80-83 | adding one row keeps minutes unique and ascending, and keeps any bound below every minute that is also below the new row |
| BleCounts.InsertTotal | devices/nwspkpi1/app.py:80-83 | the row's count joins its minute's total, no other total changes, and the row's minute joins the set of minutes |
| BleCounts.InsertAligned | devices/nwspkpi1/app.py:80-83 | adding a minute-aligned row to a minute-aligned series keeps it minute-aligned |
| BleCounts.GroupSum | devices/nwspkpi1/app.py:83 | group-and-sum gives unique ascending minutes |
| BleCounts.GroupSumTotal | devices/nwspkpi1/app.py:83 | group-and-sum keeps every minute's total and the set of minutes |
| BleCounts.GroupSumAligned | devices/nwspkpi1/app.py:74-83 | group-and-sum of minute-aligned rows is minute-aligned |
| BleCounts.GroupSumIdentity | devices/nwspkpi1/app.py:83 | a series that already has unique ascending minutes is its own group-and-sum |
| BleCounts.TotalConcat | devices/nwspkpi1/app.py:80 | concatenating two series adds their per-minute totals and unites their minutes |
| BleCounts.Merge | devices/nwspkpi1/app.py:80-83 | concat then group-and-sum gives unique ascending minutes |
| BleCounts.MergeAdds | devices/nwspkpi1/app.py:71-83 | after merging, a minute holds its stored count plus every fresh raw row in it, duplicates included |
| BleCounts.OnesTotal | devices/nwspkpi1/app.py:74-77 | a minute's count of the ones-series is the number of timestamps in that minute |
| BleCounts.FreshCount | devices/nwspkpi1/app.py:52-77 | the new count for a minute is the number of raw rows that pass the mark and fall in it |
| BleCounts.MergeExample | devices/nwspkpi1/app.py:80-83 | [(10:00,3)] merged with {10:00: 2, 10:01: 1} is [(10:00,5), (10:01,1)] |
| BleCounts.DoubledRow | devices/nwspkpi1/app.py:80-83 | the same minute merged from both sides adds up: 1 + 1 gives 2 |
| BleCounts.OneRowCounts | devices/nwspkpi1/app.py:71-77 | one raw row becomes one bucket of count 1 at its minute |
| BleCounts.Prune | devices/nwspkpi1/app.py:86-88 | every kept row is at or after the cutoff |
| BleCounts.PruneTotal | devices/nwspkpi1/app.py:86-88 | exactly the minutes at or after the cutoff are kept, the cutoff minute included, each with its total; older minutes total zero |
| BleCounts.PruneWellFormed | devices/nwspkpi1/app.py:86-88 | pruning keeps the minutes unique and ascending, and minute-aligned when they were |
| BleCounts.PruneNothingOld | devices/nwspkpi1/app.py:86-88 | a series with no minute before the cutoff is kept whole |
| BleCounts.UpdateCounts | devices/nwspkpi1/app.py:30-106 | fails exactly when a file cannot be read or written; on success every bucket is within 48 hours, and the series is well-formed when the stored one was (or was absent) |
| BleCounts.FirstRunCountsRow | devices/nwspkpi1/app.py:37-43 | with no `counts.csv` the stored series starts empty, and a single raw row becomes one bucket of count 1 |
| BleCounts.RecountWithinLastMinute | devices/nwspkpi1/app.py:47-83 | a raw row later in the stored latest minute is counted again: the bucket goes from 1 to 2 |
| BleCounts.NoRecountOnTheMinute | devices/nwspkpi1/app.py:47-59 | a raw row exactly on the mark does not pass the strict filter, so the bucket stays at 1 |
| BleCounts.NoNewRows | devices/nwspkpi1/app.py:95-100 | when no raw row passes the mark, nothing is read |
| BleCounts.UpdateCountsTotals | devices/nwspkpi1/app.py:30-106 | when both files can be read and the save succeeds, each minute inside the 48-hour window holds its stored count plus the raw rows read past the mark that fall in it, and every older minute holds nothing |
| BleCounts.EmptyRerun | devices/nwspkpi1/app.py:46-100 | when the 48-hour cut empties the series, the next run reads the whole log again without a mark, and with nothing newer than the old mark the result is empty again |
| BleCounts.IdleRunIdempotent | devices/nwspkpi1/app.py:95-100 | with nothing new the update is the 48-hour cut of the stored series, and running it again gives the same series |
| BleCounts.Refloor | devices/nwspkpi1/app.py:116 | each row's time is floored to its minute, counts unchanged |
| BleCounts.RegroupIdentity | devices/nwspkpi1/app.py:116-119 | re-flooring and regrouping a well-formed series leaves it unchanged |
| BleCounts.Prepared | devices/nwspkpi1/app.py:114-131 | the series handed to smoothing is well-formed and has nothing older than 48 hours |
| BleCounts.PreparedIsPrune | devices/nwspkpi1/app.py:114-131 | for a well-formed series the preparation is only the 48-hour cut |
| BleCounts.DataCache.constructor | devices/nwspkpi1/app.py:253-261 | the cache starts with nothing published and no update time |
| BleCounts.DataCache.LastUpdate | devices/nwspkpi1/app.py:253-255 | 'No updates yet' exactly when nothing was published, otherwise the time of the last publish |
| BleCounts.DataCache.ChartStatus | devices/nwspkpi1/app.py:260-261 | 503 exactly when nothing or an empty series is published, 200 otherwise |
| BleCounts.DataCache.Publish | devices/nwspkpi1/app.py:148-159 | publishing stores the series and the time together |
| BleCounts.DataCache.UpdateCycle | devices/nwspkpi1/app.py:108-167 | a failed or empty update publishes an empty series with a new time; otherwise the smoothed, prepared series is published, or nothing changes when smoothing raises |
| BleCounts.FailedCycleExample | devices/nwspkpi1/app.py:104-160 | after a failed update the chart answers 503 while `/last_update` shows a time |
| WifiHistory.FloorHour | devices/nwspkpi1/wifi_app/wifi_app.py:274 | the floored time is a whole hour, at or before `t` and less than an hour before it |
| WifiHistory.RecentLogs | devices/nwspkpi1/wifi_app/wifi_app.py:236-240 | at most three log names |
| WifiHistory.RecentLogsAreLogs | devices/nwspkpi1/wifi_app/wifi_app.py:236-240 | the recent logs are sorted, each a `wifi_log_*.csv` in the directory, and there are none exactly when the directory holds no log |
| WifiHistory.RecentLogsAreLatest | devices/nwspkpi1/wifi_app/wifi_app.py:236-240 | a log that is left out means three were taken, and it sorts below each of them |
| WifiHistory.ReadableRows | devices/nwspkpi1/wifi_app/wifi_app.py:243-254 | no rows exactly when none of the chosen files can be read |
| WifiHistory.ReadLogs | devices/nwspkpi1/wifi_app/wifi_app.py:243-254 | the loop over the chosen files gives `ReadableRows` of them: unreadable files skipped, the rest concatenated in order, None when none is readable |
| WifiHistory.Since | devices/nwspkpi1/wifi_app/wifi_app.py:262-266 | keeps exactly the rows at or after the bound |
| WifiHistory.RetainedWindow | devices/nwspkpi1/wifi_app/wifi_app.py:259-262 | a row is retained exactly when it is at most 48 hours old |
| WifiHistory.LastFor | devices/nwspkpi1/wifi_app/wifi_app.py:267-269 | a MAC has a last row exactly when it occurs; that row carries the MAC and no later row does, so its time is the one `agg('last')` gives the Timestamp column |
| WifiHistory.LastIp | devices/nwspkpi1/wifi_app/wifi_app.py:268 | the IP is the MAC's last non-empty IP cell, and "" exactly when all its IP cells are empty, as `agg('last')` skips missing values |
| WifiHistory.SinceMacs | devices/nwspkpi1/wifi_app/wifi_app.py:266-267 | a MAC is a group key of the windowed rows exactly when it is non-empty and one of its rows is in the window |
| WifiHistory.LastRows | devices/nwspkpi1/wifi_app/wifi_app.py:267-271 | one record per given MAC, in that order, each with the time of the MAC's last row and its last non-empty IP |
| WifiHistory.MacsOfColumn | devices/nwspkpi1/wifi_app/wifi_app.py:267 | the MACs of a record list are the MACs in its column |
| WifiHistory.CurrentDevices | devices/nwspkpi1/wifi_app/wifi_app.py:264-271 | one record per non-empty MAC seen in the last ten minutes, sorted by MAC, each with that MAC's last time and last non-empty IP |
| WifiHistory.OneCurrentDevice | devices/nwspkpi1/wifi_app/wifi_app.py:264-271 | when the window holds a single MAC key, the current devices are that one record |
| WifiHistory.GappedCurrentDevices | devices/nwspkpi1/wifi_app/wifi_app.py:264-271 | rows (0, aa, 10.0.0.5), (1, empty, 10.0.0.6), (2, aa, empty) give the one device aa at time 2 with IP 10.0.0.5 |
| WifiHistory.HourlyCounts | devices/nwspkpi1/wifi_app/wifi_app.py:274-276 | exactly the hours that have rows, each with its number of distinct non-empty MACs; positive exactly when the hour has a row with a MAC |
| WifiHistory.GappedHourlyCount | devices/nwspkpi1/wifi_app/wifi_app.py:274-276 | the same three rows count one device in their hour |
| WifiHistory.HourRange | devices/nwspkpi1/wifi_app/wifi_app.py:279 | consecutive hours from the first to the last inclusive, nothing when the range is empty |
| WifiHistory.FillHours | devices/nwspkpi1/wifi_app/wifi_app.py:280-282 | one entry per hour of the range, in order, with its count or 0 |
| WifiHistory.HistoryShape | devices/nwspkpi1/wifi_app/wifi_app.py:274-284 | 49 consecutive hours from floor(now-48h) to floor(now), each with its count of distinct non-empty MACs, 0 for an hour without one |
| WifiHistory.ReadWifiLogs | devices/nwspkpi1/wifi_app/wifi_app.py:228-286 | two empty lists when the directory is missing, has no log or nothing readable; otherwise the current devices and the history of the rows of the last 48 hours |
| WifiHistory.ApiData | devices/nwspkpi1/wifi_app/wifi_app.py:334-378 | one enriched record per current device, in order, claimed exactly when its MAC is registered, with the registry's name and owner or ''; the count of current devices; the non-empty owners of claimed current devices, sorted, once each; the history unchanged |
| WifiHistory.OnlineOwnersStep | devices/nwspkpi1/wifi_app/wifi_app.py:356-357 | one more device adds its owner exactly when it is claimed with a non-empty owner |
| WifiHistory.LoadDevices | devices/nwspkpi1/wifi_app/wifi_app.py:43-52 | the saved registry, or an empty one when the file is absent or corrupt |
| WifiHistory.Claim | devices/nwspkpi1/wifi_app/wifi_app.py:381-410 | 500 for a body that is not an object, 400 for a missing or empty MAC; otherwise 200, saving the registry with that MAC's entry set and every other entry unchanged |
| WifiHistory.Unclaim | devices/nwspkpi1/wifi_app/wifi_app.py:413-435 | 500 for a bad body, 400 for a missing or empty MAC; otherwise 200, saving the registry without that MAC only when it was registered |
| WifiHistory.UnclaimUndoesClaim | devices/nwspkpi1/wifi_app/wifi_app.py:397-428 | unclaiming a MAC just claimed saves the earlier registry without that MAC |
| WifiHistory.UnclaimTwice | devices/nwspkpi1/wifi_app/wifi_app.py:427-431 | a repeated unclaim answers 200 and saves nothing |
| WifiHistory.ClaimOverCorruptFile | devices/nwspkpi1/wifi_app/wifi_app.py:394-397 | a claim over a corrupt registry file keeps only the new entry |
| WifiHistory.DeviceRegistry.constructor | devices/nwspkpi1/wifi_app/wifi_app.py:43-52 | the registry starts as the given file |
| WifiHistory.DeviceRegistry.ClaimDevice | devices/nwspkpi1/wifi_app/wifi_app.py:381-410 | answers the claim's status; the file changes to the new registry only when the claim succeeded and the save worked |
| WifiHistory.DeviceRegistry.UnclaimDevice | devices/nwspkpi1/wifi_app/wifi_app.py:413-435 | answers the unclaim's status; the file changes only when an entry was removed and the save worked |
| ScannerParsers.SplitAtOccurrence | devices/nwspkpi1/wifi_app/wifi_scanner.py:116 | splitting on a separator that occurs gives at least two pieces |
| ScannerParsers.ArpScanLine | devices/nwspkpi1/wifi_app/wifi_scanner.py:113-122 | a device exactly for lines with a tab, not starting "Interface:", with at least three tab fields |
| ScannerParsers.ArpScanDevices | devices/nwspkpi1/wifi_app/wifi_scanner.py:113-122 | at most one device per line |
| ScannerParsers.ScanNetwork | devices/nwspkpi1/wifi_app/wifi_scanner.py:100-134 | the devices of the `arp-scan` lines, in line order |
| ScannerParsers.ArpScanRoundTrip | devices/nwspkpi1/wifi_app/wifi_scanner.py:116-121 | a line `ip<TAB>mac<TAB>vendor` reads back as that device |
| ScannerParsers.NmapLine | devices/nwspkpi1/wifi_app/wifi_scanner.py:145-158 | an emitted device carries the pending IP and clears it; without a pending IP a line that is not a report line changes nothing |
| ScannerParsers.NmapRun | devices/nwspkpi1/wifi_app/wifi_scanner.py:145-158 | at most one device per line |
| ScannerParsers.ScanNetworkNmap | devices/nwspkpi1/wifi_app/wifi_scanner.py:137-170 | the devices of the two-state parse, or none when a line raises |
| ScannerParsers.NmapRunStaysFailed | devices/nwspkpi1/wifi_app/wifi_scanner.py:166-170 | once a line raises, the whole scan yields nothing |
| ScannerParsers.ReportWords | devices/nwspkpi1/wifi_app/wifi_scanner.py:147 | a report line's words are the label and the host |
| ScannerParsers.NmapReportLine | devices/nwspkpi1/wifi_app/wifi_scanner.py:146-148 | a report line `Nmap scan report for <ip>` makes the IP the pending IP |
| ScannerParsers.NmapNamedReportLine | devices/nwspkpi1/wifi_app/wifi_scanner.py:146-148 | a report line `Nmap scan report for <name> (<ip>)` makes the IP, without its parentheses, the pending IP |
| ScannerParsers.MacTokens | devices/nwspkpi1/wifi_app/wifi_scanner.py:150-151 | the tokens after the MAC label are the MAC and the parenthesised vendor |
| ScannerParsers.TaggedVendor | devices/nwspkpi1/wifi_app/wifi_scanner.py:153-155 | the vendor loses its parentheses |
| ScannerParsers.NmapMacLine | devices/nwspkpi1/wifi_app/wifi_scanner.py:149-158 | a MAC line with a one-word vendor in parentheses and a pending IP emits that IP with the MAC and vendor and clears the pending IP |
| ScannerParsers.NmapMacLineWords | devices/nwspkpi1/wifi_app/wifi_scanner.py:149-158 | a MAC line whose vendor in parentheses has any number of words emits the pending IP with the MAC and the vendor's words joined by single spaces |
| ScannerParsers.NmapBareMacLine | devices/nwspkpi1/wifi_app/wifi_scanner.py:149-158 | a MAC line with nothing after the MAC emits the pending IP with vendor "Unknown" |
| ScannerParsers.NmapRunPair | devices/nwspkpi1/wifi_app/wifi_scanner.py:145-158 | a line that sets the pending IP followed by one that emits gives exactly that device |
| ScannerParsers.NmapReportThenMac | devices/nwspkpi1/wifi_app/wifi_scanner.py:145-158 | a report line followed by its MAC line gives exactly one device |
| ScannerParsers.DarwinArpLine | devices/nwspkpi1/wifi_app/wifi_scanner.py:190-212 | an emitted device passes the IP and MAC filters, is not "(incomplete)" and not multicast 1:0:5e; a line without " at " and "(" is skipped; an emitted device has the second token, stripped of parentheses, as its IP and the token after the first "at" as its MAC |
| ScannerParsers.DarwinArpRoundTrip | devices/nwspkpi1/wifi_app/wifi_scanner.py:190-212 | an `arp -a` line `host (ip) at mac ...` whose IP and MAC pass the filters reads back as that IP and MAC with vendor "Unknown" |
| ScannerParsers.LinuxArpLine | devices/nwspkpi1/wifi_app/wifi_scanner.py:213-232 | never raises; an emitted device passes the IP and MAC filters, is not all zeros, and has fields 0 and 2 of the line |
| ScannerParsers.ArpTableRun | devices/nwspkpi1/wifi_app/wifi_scanner.py:173-239 | the Linux branch never fails; every device passes the filters and has vendor "Unknown" |
| ScannerParsers.ScanArpTable | devices/nwspkpi1/wifi_app/wifi_scanner.py:173-239 | the devices of the ARP lines in line order, or none when a line raises; each passes the filters |
| ScannerParsers.ArpTableStaysFailed | devices/nwspkpi1/wifi_app/wifi_scanner.py:234-239 | once a line raises, the whole scan yields nothing |
| ScannerParsers.LinuxArpRoundTrip | devices/nwspkpi1/wifi_app/wifi_scanner.py:215-232 | an `arp -n` line with an unskipped IP and an ordinary MAC reads back as its IP and MAC with vendor "Unknown" |
| ScannerParsers.NetworkOfDottedQuad | devices/nwspkpi1/wifi_app/wifi_scanner.py:88 | a dotted quad keeps three octets and gets host part 0 and the mask |
| ScannerParsers.FirstInetLine | devices/nwspkpi1/wifi_app/wifi_scanner.py:42-45 | the chosen line is an `inet` line other than loopback; none only when there is no such line |
| ScannerParsers.FindInetLine | devices/nwspkpi1/wifi_app/wifi_scanner.py:74-76 | the loop finds the first such line |
| ScannerParsers.NetworkRange | devices/nwspkpi1/wifi_app/wifi_scanner.py:20-97 | an unknown system gets "192.168.1.0/24" |
| ScannerParsers.GetNetworkRange | devices/nwspkpi1/wifi_app/wifi_scanner.py:20-97 | the method computes the network range of the specification function |
| ScannerParsers.DarwinDefaultMask | devices/nwspkpi1/wifi_app/wifi_scanner.py:81-83 | the mask 0xffffff00 stands for /24 |
| ScannerParsers.DecimalTwentyFour | devices/nwspkpi1/wifi_app/wifi_scanner.py:88 | 24 is written "24" |
| ScannerParsers.DarwinRangeSlash24 | devices/nwspkpi1/wifi_app/wifi_scanner.py:76-88 | a macOS `inet a.b.c.d netmask 0xffffff00` line gives a.b.c.0/24 |
| ScannerParsers.LinuxRangeOfCidr | devices/nwspkpi1/wifi_app/wifi_scanner.py:45-52 | a Linux `inet a.b.c.d/len` line gives a.b.c.0/len |
| ScannerParsers.OuiOfMac | devices/nwspkpi1/wifi_app/wifi_scanner.py:314 | the OUI is the first three colon groups, upper-cased |
| ScannerParsers.VendorDisplay | devices/nwspkpi1/wifi_app/wifi_scanner.py:332-336 | at most 30 characters; a short vendor is unchanged; a long one is its first 28 characters and ".." |
| Numerals.ParseHexPlain | devices/nwspkpi1/wifi_app/wifi_scanner.py:82 | `int(t, 16)` reads "0x" and plain hex digits as their value |
| Numerals.PopCountHex | devices/nwspkpi1/wifi_app/wifi_scanner.py:83 | the one bits of a hex numeral are the sum of its digits' one bits |
| Numerals.NetmaskPrefixLength | devices/nwspkpi1/wifi_app/wifi_scanner.py:82-83 | 0xffffff00 parses and has 24 one bits |
| Numerals.ParseInt | devices/nwspkpi1/pull_daily_data_insight.py:62 | a plain digit string parses to its value; blank text does not parse; a negative result comes from a leading '-' |
| Numerals.ParseIntNatToString | devices/nwspkpi1/pull_daily_data_insight.py:62 | `int(str(n)) == n` |
| Numerals.Hex4 | devices/nwspkpi1/ble_scanner.py:51 | four hex digits whose value is the number |
| BleManufacturer.FromHex | devices/nwspkpi1/ble_scanner.py:48 | a decoded byte string takes at least two characters per byte |
| BleManufacturer.ToHex | devices/nwspkpi1/ble_scanner.py:85 | two hex digits per byte |
| BleManufacturer.FromHexToHex | devices/nwspkpi1/ble_scanner.py:48 | decoding the hex form of bytes gives the bytes back |
| BleManufacturer.FromHexOddDigits | devices/nwspkpi1/ble_scanner.py:48-54 | an odd number of hex digits does not decode |
| BleManufacturer.LittleEndian | devices/nwspkpi1/ble_scanner.py:50 | two bytes read little-endian fit in 16 bits, one byte in 8 |
| BleManufacturer.CompanyKey | devices/nwspkpi1/ble_scanner.py:49-51 | the key is four hex digits |
| BleManufacturer.CompanyFromFirstTwoBytes | devices/nwspkpi1/ble_scanner.py:49-51 | the key is the first two bytes little-endian, later bytes ignored |
| BleManufacturer.LowerHex4 | devices/nwspkpi1/ble_scanner.py:51-52 | lower-casing the formatted key changes nothing |
| BleManufacturer.UnnamedIsUnknown | devices/nwspkpi1/ble_scanner.py:44-52 | data that decodes but whose identifier key is missing from the table is "Unknown" |
| BleManufacturer.GetManufacturerName | devices/nwspkpi1/ble_scanner.py:44-55 | "Unknown" for fewer than four characters or undecodable hex; any other answer is a table entry |
| BleManufacturer.NamedByTable | devices/nwspkpi1/ble_scanner.py:46-52 | decodable data whose key is in the table is named by the table |
| BleManufacturer.NormalizeKey | devices/nwspkpi1/ble_scanner.py:24-29 | a normalised key has at least four characters |
| BleManufacturer.LowerHexDigit | devices/nwspkpi1/ble_scanner.py:28 | a lower-cased hex digit is the digit `format` writes for its value |
| BleManufacturer.Hex4Canonical | devices/nwspkpi1/ble_scanner.py:27-28 | four hex digits of any case, lower-cased, are the formatted key of their value |
| BleManufacturer.NormalizePrefixedIdentifier | devices/nwspkpi1/ble_scanner.py:24-29 | "0x" and four hex digits normalise to the key lookup builds for that value |
| BleManufacturer.ToMap | devices/nwspkpi1/ble_scanner.py:30-35 | the keys are those of the pairs; a pair no later pair overrides gives its key's value |
| BleManufacturer.KeyedRows | devices/nwspkpi1/ble_scanner.py:24-35 | one normalised pair per row, in order |
| BleManufacturer.LoadManufacturerData | devices/nwspkpi1/ble_scanner.py:19-42 | empty on any failure; otherwise keyed by the normalised identifiers |
| BleManufacturer.TableEntry | devices/nwspkpi1/ble_scanner.py:24-35 | a row no later row overrides is in the table under its normalised key |
| BleManufacturer.ManufacturerRoundTrip | devices/nwspkpi1/ble_scanner.py:24-52 | data starting with the identifier's two bytes, little-endian, is named by that row |
| BleManufacturer.AppleExample | devices/nwspkpi1/ble_scanner.py:24-51 | "0x004C" normalises to "004c", which is also the key of the bytes 4c 00 |
| BleManufacturer.StrongMembers | devices/nwspkpi1/ble_scanner.py:81 | exactly the devices at or above the threshold are kept, and never more than were scanned |
| BleManufacturer.StrongConcat | devices/nwspkpi1/ble_scanner.py:80-81 | filtering keeps scan order: it distributes over concatenation |
| BleManufacturer.DetectedRows | devices/nwspkpi1/ble_scanner.py:77-103 | one row per strong device, in scan order, all with the scan's timestamp and an RSSI at or above the threshold |
| BleManufacturer.DetectedSnoc | devices/nwspkpi1/ble_scanner.py:80-103 | one more device adds its row exactly when it is strong enough |
| BleManufacturer.SerializeScanData | devices/nwspkpi1/ble_scanner.py:89-91 | the advertised fields by description, a later one overwriting an earlier |
| BleManufacturer.ScanBleDevices | devices/nwspkpi1/ble_scanner.py:74-106 | the loop produces the detected rows |
| PageEditor.LoadConfig | devices/nwspkpi1/display_rotation/editor/main.go:91-109 | a missing file is an empty config without error; nil pages become an empty map; an error is reported exactly for unreadable, non-JSON or mistyped files; non-JSON text gives an empty map, mistyped JSON the entries that decoded; only a read error leaves pages nil |
| PageEditor.PageList | devices/nwspkpi1/display_rotation/editor/main.go:144-150 | exactly the globbed names other than "rotator.html" |
| PageEditor.PageListSorted | devices/nwspkpi1/display_rotation/editor/main.go:138-150 | filtering keeps the glob's sorted order |
| PageEditor.HtmlFiles | devices/nwspkpi1/display_rotation/editor/main.go:138 | the names ending ".html", strictly sorted |
| PageEditor.EditorServer.constructor | devices/nwspkpi1/display_rotation/editor/main.go:25-49 | the server starts with the given pages, rubbish directory and config |
| PageEditor.EditorServer.HandleConfig | devices/nwspkpi1/display_rotation/editor/main.go:51-65 | 405 for a method other than GET; 500 when loading reports an error; otherwise 200 with the pages |
| PageEditor.EditorServer.HandleToggleStatus | devices/nwspkpi1/display_rotation/editor/main.go:67-89 | 405, 400 for a bad body, 500 for a failed write; otherwise the submitted config is saved as it is |
| PageEditor.EditorServer.HandleFiles | devices/nwspkpi1/display_rotation/editor/main.go:128-154 | 405 for a method other than GET; otherwise the listed pages in glob order, JSON null when there are none |
| PageEditor.EditorServer.HandleSave | devices/nwspkpi1/display_rotation/editor/main.go:156-188 | 200 exactly for a POST of a parsed form with a plain ".html" name other than the rotator and a successful write, and then only that page changes; 400 for a form that does not parse or a bad name, 403 for the rotator, 500 for a failed write |
| PageEditor.EditorServer.HandleDelete | devices/nwspkpi1/display_rotation/editor/main.go:200-237 | 200 exactly when the page exists and the move works: the page moves to `<name>_<timestamp>` and leaves the config's map if the save works; otherwise nothing changes |
| PageEditor.WithoutPage | devices/nwspkpi1/display_rotation/editor/main.go:233 | removes only that name; a nil map stays nil |
| PageEditor.ListedAfterSave | devices/nwspkpi1/display_rotation/editor/main.go:156-188 | a page saved under a valid name other than the rotator is listed |
| PageEditor.UnlistedAfterDelete | devices/nwspkpi1/display_rotation/editor/main.go:200-237 | a deleted page is no longer listed and every other page keeps its place in the list |
| PageEditor.ListedPagesAreEditable | devices/nwspkpi1/display_rotation/editor/main.go:138-150 | the list is sorted and holds only ".html" pages that exist, never the rotator |
| PageEditor.DeleteKeepsOtherStatuses | devices/nwspkpi1/display_rotation/editor/main.go:229-234 | after a delete, from a stored or a mistyped config, the config shows every other decoded page with its old status and not the deleted one |
| DataInsight.FirstDesktop | devices/nwspkpi1/pull_daily_data_insight.py:40-50 | the first source whose `srcset` mentions "desktop"; none only when no source does |
| DataInsight.FindDesktopSource | devices/nwspkpi1/pull_daily_data_insight.py:40-47 | the loop with `break` finds that first desktop source |
| DataInsight.FirstDesktopAt | devices/nwspkpi1/pull_daily_data_insight.py:42-47 | a source with no desktop source before it is the first |
| DataInsight.WidestIsFirstMaximum | devices/nwspkpi1/pull_daily_data_insight.py:57-65 | fails exactly when a candidate width is not an integer; otherwise no candidate is wider than the result; a chosen URL has positive width and is the first candidate of that width |
| DataInsight.ChooseImage | devices/nwspkpi1/pull_daily_data_insight.py:55-68 | succeeds exactly when the widest-first scan succeeds with a non-empty URL, and then gives that URL; a failed scan passes its message on; no URL or an empty one is "Could not find valid image URL" |
| DataInsight.ChooseImageWidest | devices/nwspkpi1/pull_daily_data_insight.py:55-68 | the chosen URL belongs to the first of the widest candidates, with a positive width no candidate exceeds; an unreadable width gives `int()`'s error; no positive width gives "Could not find valid image URL" |
| DataInsight.WidestErrMessage | devices/nwspkpi1/pull_daily_data_insight.py:62 | the scan can only fail with `int()`'s message |
| DataInsight.HighestResUrl | devices/nwspkpi1/pull_daily_data_insight.py:53-68 | the loop over the candidates makes the same choice as the fold over the `srcset` |
| DataInsight.WidestNext | devices/nwspkpi1/pull_daily_data_insight.py:59-65 | one loop iteration considers the next candidate |
| DataInsight.WidestStaysFailed | devices/nwspkpi1/pull_daily_data_insight.py:62 | once `int` raises, the choice fails for the whole `srcset` |
| DataInsight.WidestExample | devices/nwspkpi1/pull_daily_data_insight.py:57-65 | widths 400 and 800 choose the 800 one |
| DataInsight.Absolute | devices/nwspkpi1/pull_daily_data_insight.py:71-72 | a URL starting with '/' is prefixed with the site root; others are unchanged |
| DataInsight.NoMatchUnchanged | devices/nwspkpi1/pull_daily_data_insight.py:82-96 | text with no match of the pattern is unchanged |
| DataInsight.MatchReplaced | devices/nwspkpi1/pull_daily_data_insight.py:82-96 | a single match surrounded by other text is replaced |
| DataInsight.BothMatchesReplaced | devices/nwspkpi1/pull_daily_data_insight.py:82-96 | every match is replaced, not only the first |
| DataInsight.SkipToMatch | devices/nwspkpi1/pull_daily_data_insight.py:82-96 | text before the first match is kept as it is |
| DataInsight.UpdateInsight | devices/nwspkpi1/pull_daily_data_insight.py:19-96 | each missing piece of the insight gives its own error, in the order checked, and a success implies every piece was found |
| DataInsight.UpdateInsightOutcome | devices/nwspkpi1/pull_daily_data_insight.py:55-96 | with a desktop source, an error choosing the image is passed on unchanged, and otherwise the page gets today's date, the stripped title and the absolute image URL substituted |
| PairworkSummary.ParseDate | devices/nwspkpi1/pull_recent_pairwork.py:177 | a parsed date is a valid calendar date with a four-digit year |
| PairworkSummary.NoTimePart | devices/nwspkpi1/pull_recent_pairwork.py:177 | text without 'T' is its own date part |
| PairworkSummary.FormatDateIgnoresTime | devices/nwspkpi1/pull_recent_pairwork.py:177 | what follows the first 'T' does not matter |
| PairworkSummary.NotADateKept | devices/nwspkpi1/pull_recent_pairwork.py:179-180 | text that does not parse is returned unchanged |
| PairworkSummary.UnknownDateKept | devices/nwspkpi1/pull_recent_pairwork.py:211 | a missing date shows as "Unknown date" |
| PairworkSummary.ParseFields | devices/nwspkpi1/pull_recent_pairwork.py:177 | a year, a month and a day field parse to their values |
| PairworkSummary.RenderParse | devices/nwspkpi1/pull_recent_pairwork.py:177-178 | a valid date with a four-digit year renders and parses back to itself |
| PairworkSummary.UnpaddedFieldsPadded | devices/nwspkpi1/pull_recent_pairwork.py:177-178 | one-digit month and day form a valid date and are re-emitted zero-padded |
| PairworkSummary.ImpossibleDayKept | devices/nwspkpi1/pull_recent_pairwork.py:177-180 | "2023-02-30" is returned unchanged |
| PairworkSummary.FormatDateIdempotent | devices/nwspkpi1/pull_recent_pairwork.py:174-180 | formatting twice is formatting once |
| PairworkSummary.KeptPieces | devices/nwspkpi1/pull_recent_pairwork.py:220 | every kept bullet is non-empty and stripped |
| PairworkSummary.BulletsRoundTrip | devices/nwspkpi1/pull_recent_pairwork.py:220 | single-line, stripped, non-empty points joined by "\n-" split back into the same points |
| PairworkSummary.FirstDashKept | devices/nwspkpi1/pull_recent_pairwork.py:220 | "- a\n- b" splits into "- a" and "b": the first dash stays |
| PairworkSummary.SummaryText | devices/nwspkpi1/pull_recent_pairwork.py:182-200 | the summary text, "No summary available" for an empty reply, or the original notes when the summariser fails |
| PairworkSummary.EntryFromParts | devices/nwspkpi1/pull_recent_pairwork.py:211-223 | a record's paragraph is its heading and its bullet spans inside `<p><strong>` |
| PairworkSummary.ParagraphsAppend | devices/nwspkpi1/pull_recent_pairwork.py:208-223 | the paragraphs of two record lists are the two concatenated, in order |
| PairworkSummary.OneRecord | devices/nwspkpi1/pull_recent_pairwork.py:223 | one record gives exactly its paragraph |
| PairworkSummary.GenerateSummary | devices/nwspkpi1/pull_recent_pairwork.py:203-225 | "No recent records found." for no records; otherwise the paragraphs of all records, in order |
| PageRouter.Basename | devices/nwspkpi1/display_rotation/config/router.php:18 | the last path component holds no '/' |
| PageRouter.Extension | devices/nwspkpi1/display_rotation/config/router.php:18 | the extension holds no '.' and no '/' |
| PageRouter.MimeType | devices/nwspkpi1/display_rotation/config/router.php:17-34 | the table's type for the lower-cased extension, or "text/plain" |
| PageRouter.SanitizeUrl | devices/nwspkpi1/display_rotation/config/router.php:49 | only URL-safe characters remain, never more than there were, and a URL-safe path is unchanged |
| PageRouter.CleanSlashPrefixed | devices/nwspkpi1/display_rotation/config/router.php:48 | a path of URL characters that does not start with '/' is its own cleaned path once one leading '/' is put before it |
| PageRouter.CleanIgnoresLeadingSlashes | devices/nwspkpi1/display_rotation/config/router.php:48 | any number of leading slashes before any path leave the cleaned path unchanged |
| PageRouter.SlashSurvivesSanitising | devices/nwspkpi1/display_rotation/config/router.php:48-49 | "/ /x" cleans to "/x": a slash can lead after sanitising |
| PageRouter.HtmlEscape | devices/nwspkpi1/display_rotation/config/router.php:85 | the escaped text holds none of `< > " '` |
| PageRouter.EscapeRoundTrip | devices/nwspkpi1/display_rotation/config/router.php:85 | unescaping the escaped path gives it back |
| PageRouter.Route | devices/nwspkpi1/display_rotation/config/router.php:47-85 | an existing file is executed exactly when its extension is lowercase "php", otherwise served with its MIME type; a missing file gives a 404 naming the escaped path; existence is `file_exists`, true for directories too |
| PageRouter.ConfigOnlyForListPages | devices/nwspkpi1/display_rotation/config/router.php:52-61 | a path maps into the config directory exactly when it is "list-pages.php" |
| PageRouter.ExtensionOfName | devices/nwspkpi1/display_rotation/config/router.php:18 | `dir/stem.ext` has extension `ext` |
| PageRouter.UpperCasePhpServedAsHtml | devices/nwspkpi1/display_rotation/config/router.php:68-78 | an existing "x.PHP" is served statically as text/html and not executed |
| PageRouter.ParentStepsKept | devices/nwspkpi1/display_rotation/config/router.php:48-61 | "/../config/x" maps under the pages directory with its `..` segment intact |

## Left out

- **Smoothing** (app.py:133-143) is a parameter of `UpdateCycle`. The rolling mean, exponential average and halving are floating-point pandas window operations, so the model does not state their values.
- **Chart and pages.** Chart rendering, peak finding, the inline HTML pages and `update_html_file` are presentation code.
- **Concurrency.** The threads, locks, endless loops and sleeps of both Flask apps are not modelled. The cache is a sequential object with publish and read.
- **Commands and platform.** Running `arp-scan`, `nmap`, `arp`, `ip`, `ifconfig` and `netstat` is out of the model; their standard output is a string parameter. Platform detection is a parameter.
- **Files.** CSV and JSON reading and writing, `glob`, `mkdir`, `os.Rename`, `readfile` and `require` are out of the model. Their outcomes are parameters (`Source`, `RegistryFile`, `ConfigFile`, success flags) or maps from names to contents.
- **Time.** Timezone localisation and `pd.to_datetime` are not modelled. Timestamps are integer seconds, and "now" is a parameter. The `'%B %d, %Y'` date text is a parameter of `UpdateInsight`.
- **Remote services.** The bluepy radio, the Airtable and Anthropic clients, `requests` and BeautifulSoup are not modelled. The parsed insight page is the `Insight` datatype, and the summariser is a function parameter.
- **PHP built-ins.** `parse_url` is not modelled: the router starts from the parsed path.
- **Other display files.** `editor.go`, `template.go` and `list-pages.php` hold HTML constants and a glob wrapper, and are not part of this model.
- **Unicode and case.** Only ASCII case mapping and ASCII digits are modelled. Python's `lower()`, `int()` and `strptime` also accept other Unicode letters and digits.
- **Replacement text.** `UpdateInsight`: the replacement text of `re.sub` is inserted literally. Python would also process backslash escapes in it, which a title or URL with a backslash would trigger.
- **Failed writes.** `HandleToggleStatus`, `HandleSave`: a failed write leaves the old file in the model. Go's `os.WriteFile` truncates the file before writing, so a write that fails part-way can leave it empty or partial.
- **Error text of `int()`.** `ChooseImage`: an unreadable width gives the fixed text of Python's `ValueError` without its `: '<text>'` suffix.
- **Delete with a '/'.** `HandleDelete`: a file name holding '/' would, in the source, move a file from another directory. The model treats the pages directory as flat.
- **Summary page.** `GenerateSummary`: the record store is a sequence parameter. The HTML page around the summary and `fetch_recent_records` are not modelled.
- **Network range.** `NetworkRange`: its own contract states only the fallback. The Linux and macOS answers are stated by `LinuxRangeOfCidr` and `DarwinRangeSlash24`, whose lines must have the layout `ip addr` and `ifconfig` print.
- **Raw `json` detail.** `ScanBleDevices`: the metadata column is a structured value, not its `json.dumps` text.
