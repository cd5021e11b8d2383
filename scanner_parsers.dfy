/**
 * The line parsers of the WiFi scanner (wifi_scanner.py, and the copy of
 * the ARP-table parser and of `get_network_range` in wifi_app.py). Each
 * parser reads the standard output of a command, given as a string.
 */
module ScannerParsers {
  import opened Wrappers
  import opened Text
  import Numerals

  datatype Device = Device(ip: string, mac: string, vendor: string)

  /** What one output line does to a parse: nothing, one more device, or an exception that ends the scan with no devices. */
  datatype LineOutcome = Skip | Emit(device: Device) | Raise

  /** Splitting on a separator that occurs gives at least two pieces. */
  lemma SplitAtOccurrence(s: string, sep: string)
    requires sep != [] && Contains(s, sep)
    ensures |Split(s, sep)| >= 2
  {
    var r := Split(s, sep);
    SplitPiecesFree(s, sep);
    assert !Contains(r[0], sep);
  }

  // ---------------------------------------------------------------- arp-scan

  /**
   * One line of `arp-scan` output: a device when the line holds a tab, is
   * not the "Interface:" header and has at least three tab-separated fields;
   * the fields are stripped.
   */
  function ArpScanLine(line: string): (r: Option<Device>)
    ensures r.Some? <==> Contains(line, "\t") && !StartsWith(line, "Interface:") && |Split(line, "\t")| >= 3
  {
    if Contains(line, "\t") && !StartsWith(line, "Interface:") then
      var parts := Split(line, "\t");
      if |parts| >= 3 then Some(Device(Strip(parts[0]), Strip(parts[1]), Strip(parts[2]))) else None
    else None
  }

  /** The devices of the first lines, in line order. */
  function ArpScanDevices(lines: seq<string>): (r: seq<Device>)
    ensures |r| <= |lines|
    decreases |lines|
  {
    if lines == [] then []
    else
      var front := ArpScanDevices(lines[..|lines| - 1]);
      match ArpScanLine(lines[|lines| - 1])
      case Some(d) => front + [d]
      case None => front
  }

  /** `scan_network`: the devices listed by `arp-scan`. */
  method ScanNetwork(stdout: string) returns (devices: seq<Device>)
    ensures devices == ArpScanDevices(Lines(stdout))
  {
    var lines := Lines(stdout);
    devices := [];
    var i := 0;
    while i < |lines|
      invariant 0 <= i <= |lines|
      invariant devices == ArpScanDevices(lines[..i])
    {
      var found := ArpScanLine(lines[i]);
      ArpScanNext(lines, i, found);
      if found.Some? {
        devices := devices + [found.value];
      }
      i := i + 1;
    }
    assert lines[..|lines|] == lines;
  }

  /** One more line adds the device it holds, if any. */
  lemma ArpScanNext(lines: seq<string>, i: nat, found: Option<Device>)
    requires i < |lines| && found == ArpScanLine(lines[i])
    ensures ArpScanDevices(lines[..i + 1]) == ArpScanDevices(lines[..i]) + (if found.Some? then [found.value] else [])
  {
    assert lines[..i + 1][..i] == lines[..i];
  }

  /** A line laid out as arp-scan prints it, `ip<TAB>mac<TAB>vendor`, reads back as that device. */
  lemma ArpScanRoundTrip(d: Device)
    requires '\t' !in d.ip && '\t' !in d.mac && '\t' !in d.vendor
    requires Strip(d.ip) == d.ip && Strip(d.mac) == d.mac && Strip(d.vendor) == d.vendor
    requires !StartsWith(d.ip + "\t" + d.mac + "\t" + d.vendor, "Interface:")
    ensures ArpScanLine(d.ip + "\t" + d.mac + "\t" + d.vendor) == Some(d)
  {
    var parts := [d.ip, d.mac, d.vendor];
    var line := d.ip + "\t" + d.mac + "\t" + d.vendor;
    JoinThree(d.ip, d.mac, d.vendor, "\t");
    SplitJoin(parts, "\t");
    assert OccursAt(line, "\t", |d.ip|) by {
      assert line[|d.ip|..|d.ip| + 1] == "\t";
    }
    assert Contains(line, "\t");
  }

  // -------------------------------------------------------------------- nmap

  /** The parser's state: the pending IP ("" for none; the source tests it for truth) and the devices so far. */
  datatype NmapState = NmapState(pending: string, devices: seq<Device>)

  /** The vendor from the tokens after the MAC: joined, with parentheses stripped; "Unknown" when there are none. */
  function NmapVendor(parts: seq<string>): string
    requires parts != []
  {
    if |parts| > 1 then StripChars(Join(parts[1..], " "), {'(', ')'}) else "Unknown"
  }

  /**
   * One line of `nmap -sn` output. A "Nmap scan report for" line makes its
   * last token, stripped of parentheses, the pending IP. A "MAC Address:"
   * line with a pending IP emits a device for it and clears it; without a
   * pending IP it does nothing. A MAC line with nothing after the label
   * raises.
   */
  function NmapLine(pending: string, line: string): (r: Option<(string, Option<Device>)>)
    ensures r.Some? && r.value.1.Some? ==>
      pending != "" && r.value.0 == "" && r.value.1.value.ip == pending && Contains(line, "MAC Address:")
    ensures pending == "" && !Contains(line, "Nmap scan report for") ==> r == Some(("", None))
  {
    if Contains(line, "Nmap scan report for") then
      var tokens := Words(line);
      if tokens == [] then None
      else Some((StripChars(tokens[|tokens| - 1], {'(', ')'}), None))
    else if Contains(line, "MAC Address:") && pending != "" then
      SplitAtOccurrence(line, "MAC Address:");
      var parts := Words(Strip(Split(line, "MAC Address:")[1]));
      if parts == [] then None
      else Some(("", Some(Device(pending, parts[0], NmapVendor(parts)))))
    else Some((pending, None))
  }

  /** The parser after the first lines; `None` once a line has raised. */
  function NmapRun(lines: seq<string>): (r: Option<NmapState>)
    ensures r.Some? ==> |r.value.devices| <= |lines|
    decreases |lines|
  {
    if lines == [] then Some(NmapState("", []))
    else
      match NmapRun(lines[..|lines| - 1])
      case None => None
      case Some(st) => NmapStep(st, lines[|lines| - 1])
  }

  /** The parser state after one more line. */
  function NmapStep(st: NmapState, line: string): Option<NmapState> {
    var r := NmapLine(st.pending, line);
    if r.None? then None
    else Some(NmapState(r.value.0, if r.value.1.Some? then st.devices + [r.value.1.value] else st.devices))
  }

  /** `scan_network_nmap`: the devices `nmap` reports with a MAC, or none when parsing raises. */
  method ScanNetworkNmap(stdout: string) returns (devices: seq<Device>)
    ensures NmapRun(Lines(stdout)).Some? ==> devices == NmapRun(Lines(stdout)).value.devices
    ensures NmapRun(Lines(stdout)).None? ==> devices == []
  {
    var lines := Lines(stdout);
    devices := [];
    var pending := "";
    var i := 0;
    while i < |lines|
      invariant 0 <= i <= |lines|
      invariant NmapRun(lines[..i]) == Some(NmapState(pending, devices))
    {
      NmapRunNext(lines, i, NmapState(pending, devices));
      var step := NmapLine(pending, lines[i]);
      if step.None? {
        NmapRunStaysFailed(lines, i + 1);
        return [];
      }
      var (next, found) := step.value;
      if found.Some? {
        devices := devices + [found.value];
      }
      pending := next;
      i := i + 1;
    }
    assert lines[..|lines|] == lines;
  }

  /** One more line is one more parser step. */
  lemma NmapRunNext(lines: seq<string>, i: nat, st: NmapState)
    requires i < |lines| && NmapRun(lines[..i]) == Some(st)
    ensures NmapRun(lines[..i + 1]) == NmapStep(st, lines[i])
  {
    assert lines[..i + 1][..i] == lines[..i];
  }

  lemma {:induction false} NmapRunStaysFailed(lines: seq<string>, n: nat)
    requires n <= |lines| && NmapRun(lines[..n]).None?
    ensures NmapRun(lines).None?
    decreases |lines| - n
  {
    if n < |lines| {
      assert lines[..n + 1][..n] == lines[..n];
      NmapRunStaysFailed(lines, n + 1);
    } else {
      assert lines[..n] == lines;
    }
  }

  /** The words of a report line: the label's four words and the host. */
  lemma ReportWords(ip: string)
    requires ip != [] && forall c :: c in ip ==> !IsSpace(c)
    ensures Words("Nmap scan report for " + ip) == ["Nmap", "scan", "report", "for", ip]
  {
    ReportShape(ip);
    LabelWordsHaveNoSpace();
    FiveWords("Nmap", "scan", "report", "for", ip);
  }

  /** Five words joined by single spaces split back into the five. */
  lemma FiveWords(a: string, b: string, c: string, d: string, e: string)
    requires IsWord(a) && IsWord(b) && IsWord(c) && IsWord(d) && IsWord(e)
    ensures Words(a + " " + (b + " " + (c + " " + (d + " " + e)))) == [a, b, c, d, e]
  {
    FourWords(b, c, d, e);
    WordsCons(a, b + " " + (c + " " + (d + " " + e)));
    assert [a] + [b, c, d, e] == [a, b, c, d, e];
  }

  /** Four words joined by single spaces split back into the four. */
  lemma FourWords(a: string, b: string, c: string, d: string)
    requires IsWord(a) && IsWord(b) && IsWord(c) && IsWord(d)
    ensures Words(a + " " + (b + " " + (c + " " + d))) == [a, b, c, d]
  {
    ThreeWords(b, c, d);
    WordsCons(a, b + " " + (c + " " + d));
    assert [a] + [b, c, d] == [a, b, c, d];
  }

  /** Three words joined by single spaces split back into the three. */
  lemma ThreeWords(a: string, b: string, c: string)
    requires IsWord(a) && IsWord(b) && IsWord(c)
    ensures Words(a + " " + (b + " " + c)) == [a, b, c]
  {
    TwoWords(b, c);
    WordsCons(a, b + " " + c);
    assert [a] + [b, c] == [a, b, c];
  }

  lemma ReportShape(ip: string)
    ensures "Nmap scan report for " + ip == "Nmap" + " " + ("scan" + " " + ("report" + " " + ("for" + " " + ip)))
  {
  }

  lemma LabelWordsHaveNoSpace()
    ensures IsWord("Nmap") && IsWord("scan") && IsWord("report") && IsWord("for")
  {
  }

  /** A report line `Nmap scan report for <ip>` makes `ip` the pending IP. */
  lemma NmapReportLine(pending: string, ip: string)
    requires ip != [] && forall c :: c in ip ==> !IsSpace(c) && c != '(' && c != ')'
    ensures NmapLine(pending, "Nmap scan report for " + ip) == Some((ip, None))
  {
    var line := "Nmap scan report for " + ip;
    assert OccursAt(line, "Nmap scan report for", 0) by {
      assert line[..20] == "Nmap scan report for";
    }
    ReportWords(ip);
    assert ip[0] in ip && ip[|ip| - 1] in ip;
    TrimmedAlready(ip, MemberOf({'(', ')'}));
  }

  /** What follows the MAC label: the MAC and the vendor in parentheses. */
  lemma MacTokens(mac: string, vendor: string)
    requires mac != [] && vendor != []
    requires forall c :: c in mac ==> !IsSpace(c)
    requires forall c :: c in vendor ==> !IsSpace(c)
    ensures Words(Strip(" " + mac + " (" + vendor + ")")) == [mac, "(" + vendor + ")"]
  {
    var tagged := "(" + vendor + ")";
    var core := mac + " " + tagged;
    MacLineShape(mac, tagged, vendor);
    assert mac[0] in mac;
    StripPadded(core);
    TaggedHasNoSpace(vendor);
    TwoWords(mac, tagged);
  }

  /** One space in front of text that starts and ends with a non-space character is stripped. */
  lemma StripPadded(core: string)
    requires core != [] && !IsSpace(core[0]) && !IsSpace(core[|core| - 1])
    ensures Strip(" " + core + "") == core
  {
    TrimAround(" ", core, "", IsSpace);
  }

  /** Two words joined by a space split back into the two. */
  lemma TwoWords(a: string, b: string)
    requires IsWord(a) && IsWord(b)
    ensures Words(a + " " + b) == [a, b]
  {
    WordsCons(a, b);
    WordsJoin([b]);
    assert [a] + [b] == [a, b];
  }

  lemma MacLineShape(mac: string, tagged: string, vendor: string)
    requires tagged == "(" + vendor + ")"
    ensures " " + mac + " (" + vendor + ")" == " " + (mac + " " + tagged) + ""
  {
    assert " (" == " " + "(";
  }

  lemma TaggedHasNoSpace(vendor: string)
    requires forall c :: c in vendor ==> !IsSpace(c)
    ensures IsWord("(" + vendor + ")")
  {
  }

  /** The vendor in parentheses loses them. */
  lemma TaggedVendor(mac: string, vendor: string)
    requires vendor != []
    requires forall c :: c in vendor ==> c != '(' && c != ')'
    ensures NmapVendor([mac, "(" + vendor + ")"]) == vendor
  {
    assert [mac, "(" + vendor + ")"][1..] == ["(" + vendor + ")"];
    assert vendor[0] in vendor && vendor[|vendor| - 1] in vendor;
    TrimAround("(", vendor, ")", MemberOf({'(', ')'}));
  }

  /** A line `MAC Address: <mac> (<vendor>)` emits the pending IP with that MAC and vendor, and clears it. */
  lemma NmapMacLine(ip: string, mac: string, vendor: string)
    requires ip != "" && mac != [] && vendor != []
    requires forall c :: c in mac ==> !IsSpace(c)
    requires forall c :: c in vendor ==> !IsSpace(c) && c != '(' && c != ')'
    requires !Contains(" " + mac + " (" + vendor + ")", "MAC Address:")
    requires !Contains("MAC Address: " + mac + " (" + vendor + ")", "Nmap scan report for")
    ensures NmapLine(ip, "MAC Address: " + mac + " (" + vendor + ")") == Some(("", Some(Device(ip, mac, vendor))))
  {
    MacTokens(mac, vendor);
    TaggedVendor(mac, vendor);
    NmapMacLineOf(ip, mac, vendor, [mac, "(" + vendor + ")"]);
  }

  /** The words of a report line: the label's four words, then the words of the host part. */
  lemma ReportWordsOf(host: string)
    ensures Words("Nmap scan report for " + host) == ["Nmap", "scan", "report", "for"] + Words(host)
  {
    var tail := "report" + " " + ("for" + " " + host);
    var words := Words(host);
    ReportShape(host);
    LabelWordsHaveNoSpace();
    ReportForWords(host);
    WordsCons("scan", tail);
    WordsCons("Nmap", "scan" + " " + tail);
    assert ["Nmap"] + (["scan"] + (["report", "for"] + words)) == ["Nmap", "scan", "report", "for"] + words;
  }

  lemma ReportForWords(host: string)
    ensures Words("report" + " " + ("for" + " " + host)) == ["report", "for"] + Words(host)
  {
    LabelWordsHaveNoSpace();
    WordsCons("for", host);
    WordsCons("report", "for" + " " + host);
  }

  /** A report line `Nmap scan report for <name> (<ip>)` makes `ip`, without its parentheses, the pending IP. */
  lemma NmapNamedReportLine(pending: string, name: string, ip: string)
    requires IsWord(name)
    requires ip != [] && forall c :: c in ip ==> !IsSpace(c) && c != '(' && c != ')'
    ensures NmapLine(pending, "Nmap scan report for " + name + " (" + ip + ")") == Some((ip, None))
  {
    var tagged := "(" + ip + ")";
    var host := name + " " + tagged;
    assert NmapLine(pending, "Nmap scan report for " + host) == Some((ip, None)) by {
      TaggedHasNoSpace(ip);
      TwoWords(name, tagged);
      NmapReportLineAfter(pending, host, [name, tagged]);
      Unparenthesised(ip);
    }
    NamedReportShape(name, ip);
  }

  lemma NamedReportShape(name: string, ip: string)
    ensures "Nmap scan report for " + name + " (" + ip + ")" == "Nmap scan report for " + (name + " " + ("(" + ip + ")"))
  {
    assert " (" == " " + "(";
  }

  /** A report line makes the last word of its host part, stripped of parentheses, the pending IP. */
  lemma NmapReportLineAfter(pending: string, host: string, tokens: seq<string>)
    requires Words(host) == tokens && tokens != []
    ensures NmapLine(pending, "Nmap scan report for " + host) ==
      Some((StripChars(tokens[|tokens| - 1], {'(', ')'}), None))
  {
    var line := "Nmap scan report for " + host;
    assert OccursAt(line, "Nmap scan report for", 0) by {
      assert line[..20] == "Nmap scan report for";
    }
    ReportWordsOf(host);
    var all := ["Nmap", "scan", "report", "for"] + tokens;
    assert all[|all| - 1] == tokens[|tokens| - 1];
  }

  /** A line `MAC Address: <mac>` with nothing after the MAC emits the pending IP with vendor "Unknown". */
  lemma NmapBareMacLine(ip: string, mac: string)
    requires ip != "" && IsWord(mac)
    requires !Contains(" " + mac, "MAC Address:")
    requires !Contains("MAC Address: " + mac, "Nmap scan report for")
    ensures NmapLine(ip, "MAC Address: " + mac) == Some(("", Some(Device(ip, mac, "Unknown"))))
  {
    assert "MAC Address: " + mac == "MAC Address:" + (" " + mac);
    BareMacWords(mac);
    NmapMacLineAfter(ip, " " + mac, [mac]);
  }

  /** The text after the label of a bare MAC line splits into that MAC alone. */
  lemma BareMacWords(mac: string)
    requires IsWord(mac)
    ensures Words(Strip(" " + mac)) == [mac]
  {
    StripBare(mac);
    SingleWord(mac);
  }

  lemma StripBare(mac: string)
    requires IsWord(mac)
    ensures Strip(" " + mac) == mac
  {
    assert mac[0] in mac && mac[|mac| - 1] in mac;
    StripPadded(mac);
    assert " " + mac + "" == " " + mac;
  }

  lemma SingleWord(w: string)
    requires IsWord(w)
    ensures Words(w) == [w]
  {
    WordsJoin([w]);
  }

  /**
   * A "MAC Address:" line after a report line emits the pending IP with the
   * first token after the label and the vendor those tokens give.
   */
  lemma NmapMacLineAfter(ip: string, rest: string, parts: seq<string>)
    requires ip != "" && !Contains(rest, "MAC Address:")
    requires !Contains("MAC Address:" + rest, "Nmap scan report for")
    requires Words(Strip(rest)) == parts && parts != []
    ensures NmapLine(ip, "MAC Address:" + rest) == Some(("", Some(Device(ip, parts[0], NmapVendor(parts)))))
  {
    SplitAfterLeading("MAC Address:", rest);
  }

  /**
   * A line `MAC Address: <mac> (<w1> ... <wn>)` emits the pending IP with
   * that MAC and the vendor's words joined by single spaces.
   */
  lemma NmapMacLineWords(ip: string, mac: string, words: seq<string>)
    requires ip != "" && IsWord(mac) && words != []
    requires forall k :: 0 <= k < |words| ==> IsWord(words[k])
    requires forall c :: c in Join(words, " ") ==> c != '(' && c != ')'
    requires !Contains(" " + mac + " (" + Join(words, " ") + ")", "MAC Address:")
    requires !Contains("MAC Address: " + mac + " (" + Join(words, " ") + ")", "Nmap scan report for")
    ensures NmapLine(ip, "MAC Address: " + mac + " (" + Join(words, " ") + ")") ==
      Some(("", Some(Device(ip, mac, Join(words, " ")))))
  {
    var tokens := TaggedTokens(words);
    JoinStartsWithFirst(words);
    NmapMacLineTokens(ip, mac, Join(words, " "), tokens);
  }

  /** The MAC line of a vendor whose parenthesised form splits into `tokens`. */
  lemma NmapMacLineTokens(ip: string, mac: string, vendor: string, tokens: seq<string>)
    requires ip != "" && IsWord(mac) && forall k :: 0 <= k < |tokens| ==> IsWord(tokens[k])
    requires Join(tokens, " ") == "(" + vendor + ")"
    requires vendor != [] && forall c :: c in vendor ==> c != '(' && c != ')'
    requires !Contains(" " + mac + " (" + vendor + ")", "MAC Address:")
    requires !Contains("MAC Address: " + mac + " (" + vendor + ")", "Nmap scan report for")
    ensures NmapLine(ip, "MAC Address: " + mac + " (" + vendor + ")") == Some(("", Some(Device(ip, mac, vendor))))
  {
    MacWords(mac, vendor, tokens);
    TokensVendor(mac, vendor, tokens);
    NmapMacLineOf(ip, mac, vendor, [mac] + tokens);
  }

  /** The vendor read back from the MAC followed by the tokens of the parenthesised vendor. */
  lemma TokensVendor(mac: string, vendor: string, tokens: seq<string>)
    requires Join(tokens, " ") == "(" + vendor + ")"
    requires vendor != [] && forall c :: c in vendor ==> c != '(' && c != ')'
    ensures |[mac] + tokens| > 1 && NmapVendor([mac] + tokens) == vendor
  {
    var parts := [mac] + tokens;
    assert tokens != [];
    assert parts[1..] == tokens;
    Unparenthesised(vendor);
  }

  /** A MAC line whose text after the label splits into `parts`, the MAC first, emits the pending IP with that MAC and vendor. */
  lemma NmapMacLineOf(ip: string, mac: string, vendor: string, parts: seq<string>)
    requires ip != ""
    requires !Contains(" " + mac + " (" + vendor + ")", "MAC Address:")
    requires !Contains("MAC Address: " + mac + " (" + vendor + ")", "Nmap scan report for")
    requires Words(Strip(" " + mac + " (" + vendor + ")")) == parts
    requires |parts| > 1 && parts[0] == mac && NmapVendor(parts) == vendor
    ensures NmapLine(ip, "MAC Address: " + mac + " (" + vendor + ")") == Some(("", Some(Device(ip, mac, vendor))))
  {
    MacLabelShape(mac, vendor);
    NmapMacLineAfter(ip, " " + mac + " (" + vendor + ")", parts);
  }

  lemma MacLabelShape(mac: string, vendor: string)
    ensures "MAC Address: " + mac + " (" + vendor + ")" == "MAC Address:" + (" " + mac + " (" + vendor + ")")
  {
  }

  /** The tokens after the MAC label: the MAC, then the tokens of the parenthesised vendor. */
  lemma MacWords(mac: string, vendor: string, tokens: seq<string>)
    requires IsWord(mac) && forall k :: 0 <= k < |tokens| ==> IsWord(tokens[k])
    requires Join(tokens, " ") == "(" + vendor + ")"
    ensures Words(Strip(" " + mac + " (" + vendor + ")")) == [mac] + tokens
  {
    var tagged := "(" + vendor + ")";
    StripMacLine(mac, tagged, vendor);
    MacThenTokens(mac, tagged, tokens);
  }

  lemma StripMacLine(mac: string, tagged: string, vendor: string)
    requires IsWord(mac) && tagged == "(" + vendor + ")"
    ensures Strip(" " + mac + " (" + vendor + ")") == mac + " " + tagged
  {
    MacLineShape(mac, tagged, vendor);
    assert mac[0] in mac;
    StripPadded(mac + " " + tagged);
  }

  lemma MacThenTokens(mac: string, tagged: string, tokens: seq<string>)
    requires IsWord(mac) && forall k :: 0 <= k < |tokens| ==> IsWord(tokens[k])
    requires Join(tokens, " ") == tagged
    ensures Words(mac + " " + tagged) == [mac] + tokens
  {
    WordsJoin(tokens);
    WordsCons(mac, tagged);
  }

  lemma JoinStartsWithFirst(words: seq<string>)
    requires words != [] && words[0] != []
    ensures Join(words, " ") != []
  {
    if |words| > 1 {
      JoinCons(words[0], words[1..], " ");
      assert words == [words[0]] + words[1..];
    }
  }

  /** `strip("()")` of a parenthesised text without parentheses of its own gives the text. */
  lemma Unparenthesised(vendor: string)
    requires vendor != [] && forall c :: c in vendor ==> c != '(' && c != ')'
    ensures StripChars("(" + vendor + ")", {'(', ')'}) == vendor
  {
    assert vendor[0] in vendor && vendor[|vendor| - 1] in vendor;
    TrimAround("(", vendor, ")", MemberOf({'(', ')'}));
  }

  /**
   * The words of a parenthesised vendor: its own words, with "(" glued to
   * the first and ")" to the last.
   */
  lemma TaggedTokens(words: seq<string>) returns (tokens: seq<string>)
    requires words != [] && forall k :: 0 <= k < |words| ==> IsWord(words[k])
    ensures Join(tokens, " ") == "(" + Join(words, " ") + ")"
    ensures forall k :: 0 <= k < |tokens| ==> IsWord(tokens[k])
  {
    var front := ["(" + words[0]] + words[1..];
    JoinPrependFirst("(", words, " ");
    assert IsWord(words[0]);
    assert IsWord("(" + words[0]);
    assert forall k :: 0 <= k < |front| ==> IsWord(front[k]) by {
      forall k | 0 <= k < |front| ensures IsWord(front[k]) {
        if k > 0 { assert front[k] == words[k]; }
      }
    }
    JoinAppendLast(front, ")", " ");
    var n := |front|;
    tokens := front[..n - 1] + [front[n - 1] + ")"];
    assert IsWord(front[n - 1]);
    assert IsWord(front[n - 1] + ")");
    forall k | 0 <= k < |tokens| ensures IsWord(tokens[k]) {
      if k < n - 1 { assert tokens[k] == front[k]; }
    }
  }

  lemma NmapRunPair(first: string, second: string, ip: string, d: Device)
    requires NmapLine("", first) == Some((ip, None))
    requires NmapLine(ip, second) == Some(("", Some(d)))
    ensures NmapRun([first, second]) == Some(NmapState("", [d]))
  {
    var one := [first];
    var two := [first, second];
    assert one[..0] == [] && two[..1] == one;
    var r := NmapLine(ip, second);
    assert r.value.1 == Some(d);
    assert NmapStep(NmapState(ip, []), second) == Some(NmapState("", [d])) by {
      assert [] + [d] == [d];
    }
    assert NmapRun(one) == Some(NmapState(ip, []));
  }

  /** A report line followed by its MAC line gives exactly one device. */
  lemma NmapReportThenMac(ip: string, mac: string, vendor: string)
    requires ip != [] && forall c :: c in ip ==> !IsSpace(c) && c != '(' && c != ')'
    requires mac != [] && vendor != []
    requires forall c :: c in mac ==> !IsSpace(c)
    requires forall c :: c in vendor ==> !IsSpace(c) && c != '(' && c != ')'
    requires !Contains(" " + mac + " (" + vendor + ")", "MAC Address:")
    requires !Contains("MAC Address: " + mac + " (" + vendor + ")", "Nmap scan report for")
    ensures NmapRun(["Nmap scan report for " + ip, "MAC Address: " + mac + " (" + vendor + ")"]) ==
      Some(NmapState("", [Device(ip, mac, vendor)]))
  {
    var lines := ["Nmap scan report for " + ip, "MAC Address: " + mac + " (" + vendor + ")"];
    NmapReportLine("", ip);
    NmapMacLine(ip, mac, vendor);
    NmapRunPair(lines[0], lines[1], ip, Device(ip, mac, vendor));
    assert lines == [lines[0], lines[1]];
  }

  // --------------------------------------------------------------- ARP table

  /** The IPs the ARP-table parser skips: multicast ranges and network or broadcast addresses. */
  predicate SkippedIp(ip: string) {
    StartsWith(ip, "224.") || StartsWith(ip, "239.") || EndsWith(ip, ".0") || EndsWith(ip, ".255")
  }

  /** What every device the ARP-table parser emits satisfies. */
  predicate Acceptable(d: Device) {
    !SkippedIp(d.ip) && d.vendor == "Unknown" && Contains(d.mac, ":") && Lower(d.mac) != "ff:ff:ff:ff:ff:ff"
  }

  /**
   * One line of `arp -a` (macOS): `host (ip) at mac on iface`. The line
   * must hold " at " and "("; the IP is the second token without
   * parentheses, the MAC the token after "at".
   */
  function DarwinArpLine(line: string): (r: LineOutcome)
    ensures r.Emit? ==> Acceptable(r.device) && r.device.mac != "(incomplete)" && !StartsWith(Lower(r.device.mac), "1:0:5e")
    ensures !(Contains(line, " at ") && Contains(line, "(")) ==> r == Skip
    ensures r.Emit? ==>
      var parts := Words(line);
      var at := IndexOf(parts, "at");
      |parts| >= 2 && at.Some? && at.value + 1 < |parts| &&
      r.device.ip == StripChars(parts[1], {'(', ')'}) && r.device.mac == parts[at.value + 1]
  {
    if !(Contains(line, " at ") && Contains(line, "(")) then Skip
    else
      var parts := Words(line);
      if |parts| < 2 then Raise
      else
        var ip := StripChars(parts[1], {'(', ')'});
        match IndexOf(parts, "at")
        case None => Raise
        case Some(k) =>
          if k + 1 < |parts| && parts[k + 1] != "" && parts[k + 1] != "(incomplete)" && Contains(parts[k + 1], ":") then
            var mac := parts[k + 1];
            if Lower(mac) == "ff:ff:ff:ff:ff:ff" || StartsWith(Lower(mac), "1:0:5e") then Skip
            else if SkippedIp(ip) then Skip
            else Emit(Device(ip, mac, "Unknown"))
          else Skip
  }

  /**
   * One line of `arp -n` (Linux): `ip hwtype mac flags mask iface`. A device
   * needs three tokens with ':' in the third, and a MAC other than all zeros
   * or broadcast.
   */
  function LinuxArpLine(line: string): (r: LineOutcome)
    ensures r != Raise
    ensures r.Emit? ==> Acceptable(r.device) && r.device.mac != "00:00:00:00:00:00"
    ensures r.Emit? ==> |Words(line)| >= 3 && r.device.ip == Words(line)[0] && r.device.mac == Words(line)[2]
  {
    var parts := Words(line);
    if |parts| >= 3 && Contains(parts[2], ":") then
      if parts[2] == "00:00:00:00:00:00" || Lower(parts[2]) == "ff:ff:ff:ff:ff:ff" then Skip
      else if SkippedIp(parts[0]) then Skip
      else Emit(Device(parts[0], parts[2], "Unknown"))
    else Skip
  }

  function ArpLine(line: string, darwin: bool): LineOutcome {
    if darwin then DarwinArpLine(line) else LinuxArpLine(line)
  }

  /** The devices of the first lines, in line order; `None` once a line has raised. */
  function ArpTableRun(lines: seq<string>, darwin: bool): (r: Option<seq<Device>>)
    ensures !darwin ==> r.Some?
    ensures r.Some? ==> forall k :: 0 <= k < |r.value| ==> Acceptable(r.value[k])
    decreases |lines|
  {
    if lines == [] then Some([])
    else
      match ArpTableRun(lines[..|lines| - 1], darwin)
      case None => None
      case Some(front) =>
        match ArpLine(lines[|lines| - 1], darwin)
        case Raise => None
        case Skip => Some(front)
        case Emit(d) => Some(front + [d])
  }

  /** `scan_network_arp_table`: the devices of the ARP table, or none when parsing raises. */
  method ScanArpTable(stdout: string, darwin: bool) returns (devices: seq<Device>)
    ensures ArpTableRun(Lines(stdout), darwin).Some? ==> devices == ArpTableRun(Lines(stdout), darwin).value
    ensures ArpTableRun(Lines(stdout), darwin).None? ==> devices == []
    ensures forall k :: 0 <= k < |devices| ==> Acceptable(devices[k])
  {
    var lines := Lines(stdout);
    devices := [];
    var i := 0;
    while i < |lines|
      invariant 0 <= i <= |lines|
      invariant ArpTableRun(lines[..i], darwin) == Some(devices)
    {
      ArpTableNext(lines, darwin, i, devices);
      var outcome := ArpLine(lines[i], darwin);
      if outcome.Raise? {
        ArpTableStaysFailed(lines, darwin, i + 1);
        return [];
      }
      if outcome.Emit? {
        devices := devices + [outcome.device];
      }
      i := i + 1;
    }
    assert lines[..|lines|] == lines;
  }

  /** One more line raises, is skipped, or adds its device. */
  lemma ArpTableNext(lines: seq<string>, darwin: bool, i: nat, front: seq<Device>)
    requires i < |lines| && ArpTableRun(lines[..i], darwin) == Some(front)
    ensures ArpTableRun(lines[..i + 1], darwin) ==
      match ArpLine(lines[i], darwin)
      case Raise => None
      case Skip => Some(front)
      case Emit(d) => Some(front + [d])
  {
    assert lines[..i + 1][..i] == lines[..i];
  }

  lemma {:induction false} ArpTableStaysFailed(lines: seq<string>, darwin: bool, n: nat)
    requires n <= |lines| && ArpTableRun(lines[..n], darwin).None?
    ensures ArpTableRun(lines, darwin).None?
    decreases |lines| - n
  {
    if n < |lines| {
      assert lines[..n + 1][..n] == lines[..n];
      ArpTableStaysFailed(lines, darwin, n + 1);
    } else {
      assert lines[..n] == lines;
    }
  }

  /** A Linux ARP entry laid out as `arp -n` prints it reads back as its IP and MAC. */
  lemma LinuxArpRoundTrip(ip: string, hwtype: string, mac: string, rest: seq<string>)
    requires forall w :: w in [ip, hwtype, mac] + rest ==> w != [] && forall c :: c in w ==> !IsSpace(c)
    requires Contains(mac, ":") && mac != "00:00:00:00:00:00" && Lower(mac) != "ff:ff:ff:ff:ff:ff"
    requires !SkippedIp(ip)
    ensures LinuxArpLine(Join([ip, hwtype, mac] + rest, " ")) == Emit(Device(ip, mac, "Unknown"))
  {
    var ws := [ip, hwtype, mac] + rest;
    assert forall k :: 0 <= k < |ws| ==> ws[k] in ws;
    WordsJoin(ws);
  }

  /**
   * A formatted `arp -a` line `host (ip) at mac ...` parses back to its
   * device when the MAC and IP pass the filters.
   */
  lemma DarwinArpRoundTrip(host: string, ip: string, mac: string, rest: seq<string>)
    requires forall w :: w in [host, "(" + ip + ")", mac] + rest ==> IsWord(w)
    requires host != "at" && ip != [] && forall c :: c in ip ==> c != '(' && c != ')'
    requires Contains(mac, ":") && mac != "(incomplete)"
    requires Lower(mac) != "ff:ff:ff:ff:ff:ff" && !StartsWith(Lower(mac), "1:0:5e")
    requires !SkippedIp(ip)
    ensures DarwinArpLine(Join([host, "(" + ip + ")", "at", mac] + rest, " ")) == Emit(Device(ip, mac, "Unknown"))
  {
    var tagged := "(" + ip + ")";
    var ws := [host, tagged, "at", mac] + rest;
    DarwinLineMarks(host, ip, mac, rest);
    DarwinTokens(host, tagged, mac, rest);
    Unparenthesised(ip);
    DarwinArpLineOf(Join(ws, " "), ws, ip, mac);
  }

  /** A formatted `arp -a` line holds the " at " and "(" its parser looks for. */
  lemma DarwinLineMarks(host: string, ip: string, mac: string, rest: seq<string>)
    ensures var line := Join([host, "(" + ip + ")", "at", mac] + rest, " ");
      Contains(line, " at ") && Contains(line, "(")
  {
    var tagged := "(" + ip + ")";
    var tail := Join([mac] + rest, " ");
    JoinFour(host, tagged, mac, rest);
    assert host + " " + (tagged + " " + ("at" + " " + tail)) == host + " " + tagged + " at " + tail;
    assert host + " " + ("(" + ip + ")") + " at " + tail == host + " " + "(" + (ip + ")" + " at " + tail);
    ContainsMiddle(host + " " + tagged, " at ", tail);
    ContainsMiddle(host + " ", "(", ip + ")" + " at " + tail);
  }

  /** The tokens of a formatted `arp -a` line, with "at" found third. */
  lemma DarwinTokens(host: string, tagged: string, mac: string, rest: seq<string>)
    requires forall w :: w in [host, tagged, mac] + rest ==> IsWord(w)
    requires host != "at" && tagged != [] && tagged[0] == '('
    ensures var ws := [host, tagged, "at", mac] + rest;
      Words(Join(ws, " ")) == ws && IndexOf(ws, "at") == Some(2)
  {
    var ws := [host, tagged, "at", mac] + rest;
    assert forall k :: 0 <= k < |ws| && k != 2 ==> ws[k] in [host, tagged, mac] + rest;
    WordsJoin(ws);
    assert ws[2] == "at" && ws[..2] == [host, tagged];
  }

  /** An `arp -a` line whose tokens put "at" third and the MAC fourth emits the device when it passes the filters. */
  lemma DarwinArpLineOf(line: string, parts: seq<string>, ip: string, mac: string)
    requires Contains(line, " at ") && Contains(line, "(")
    requires Words(line) == parts && |parts| >= 4 && IndexOf(parts, "at") == Some(2)
    requires parts[3] == mac && StripChars(parts[1], {'(', ')'}) == ip
    requires Contains(mac, ":") && mac != "(incomplete)"
    requires Lower(mac) != "ff:ff:ff:ff:ff:ff" && !StartsWith(Lower(mac), "1:0:5e")
    requires !SkippedIp(ip)
    ensures DarwinArpLine(line) == Emit(Device(ip, mac, "Unknown"))
  {
    assert mac != "" by { assert mac[0] == mac[0]; }
  }

  lemma JoinFour(host: string, tagged: string, mac: string, rest: seq<string>)
    ensures Join([host, tagged, "at", mac] + rest, " ") ==
      host + " " + (tagged + " " + ("at" + " " + Join([mac] + rest, " ")))
  {
    var ws := [host, tagged, "at", mac] + rest;
    assert ws == [host] + ([tagged] + (["at"] + ([mac] + rest)));
    JoinCons("at", [mac] + rest, " ");
    JoinCons(tagged, ["at"] + ([mac] + rest), " ");
    JoinCons(host, [tagged] + (["at"] + ([mac] + rest)), " ");
  }

  // ---------------------------------------------------------- network range

  /** The answer when detection fails. */
  const FallbackRange := "192.168.1.0/24"

  /** `".".join(ip.split(".")[:-1]) + ".0/" + suffix`. */
  function NetworkString(ip: string, suffix: string): string {
    var octets := Split(ip, ".");
    Join(octets[..|octets| - 1], ".") + ".0/" + suffix
  }

  /** A dotted quad keeps its first three octets and gets host part 0. */
  lemma NetworkOfDottedQuad(a: string, b: string, c: string, d: string, suffix: string)
    requires '.' !in a && '.' !in b && '.' !in c && '.' !in d
    ensures NetworkString(a + "." + b + "." + c + "." + d, suffix) == a + "." + b + "." + c + ".0/" + suffix
  {
    var parts := [a, b, c, d];
    assert Join(parts, ".") == a + "." + b + "." + c + "." + d by {
      JoinThree(b, c, d, ".");
      JoinCons(a, [b, c, d], ".");
      assert [a] + [b, c, d] == parts;
    }
    SplitJoin(parts, ".");
    assert parts[..3] == [a, b, c];
    JoinThree(a, b, c, ".");
  }

  /** The first line with "inet " that is not the loopback address. */
  predicate IsInetLine(line: string) {
    Contains(line, "inet ") && !Contains(line, "127.0.0.1")
  }

  function FirstInetLine(lines: seq<string>): (r: Option<string>)
    ensures r.Some? ==> r.value in lines && IsInetLine(r.value)
    ensures r.None? ==> forall k :: 0 <= k < |lines| ==> !IsInetLine(lines[k])
    decreases |lines|
  {
    if lines == [] then None
    else if IsInetLine(lines[0]) then Some(lines[0])
    else FirstInetLine(lines[1..])
  }

  /** Linux: `inet 192.168.1.5/24 ...` gives the network with the same prefix length. */
  function LinuxRangeFrom(line: string): string {
    var parts := Words(Strip(line));
    if |parts| < 2 then FallbackRange
    else
      var ipParts := Split(parts[1], "/");
      if |ipParts| < 2 then FallbackRange
      else NetworkString(ipParts[0], ipParts[1])
  }

  /**
   * macOS: `inet 192.168.1.5 netmask 0xffffff00 ...`. A hexadecimal mask
   * gives its number of one bits as prefix length; any other mask gives 24;
   * without a mask `0xffffff00` is assumed.
   */
  function DarwinRangeFrom(line: string): string {
    var parts := Words(Strip(line));
    if |parts| < 2 then FallbackRange
    else
      var mask := if |parts| > 3 then parts[3] else "0xffffff00";
      match PrefixLength(mask)
      case None => FallbackRange
      case Some(len) => NetworkString(parts[1], len)
  }

  /** The prefix length a macOS netmask stands for: the one bits of a hexadecimal mask, 24 for any other; `None` where `int(mask, 16)` raises. */
  function PrefixLength(mask: string): Option<string> {
    if StartsWith(mask, "0x") then
      match Numerals.ParseHexPrefixed(mask)
      case None => None
      case Some(bits) => Some(Numerals.NatToString(Numerals.PopCount(bits)))
    else Some("24")
  }

  /** The interface of the first `default` route in `netstat -rn`, or `en0`. */
  function DefaultInterface(lines: seq<string>): string
    decreases |lines|
  {
    if lines == [] then "en0"
    else if StartsWith(lines[0], "default") then
      var parts := Words(lines[0]);
      if |parts| > 0 then parts[|parts| - 1] else "en0"
    else DefaultInterface(lines[1..])
  }

  datatype System = Linux | Darwin | OtherSystem

  /**
   * `get_network_range`. `routeOut` is the output of `ip route show
   * default`, `addrShow(i)` that of `ip addr show i`, `netstatOut` that of
   * `netstat -rn` and `ifconfig(i)` that of `ifconfig i`.
   */
  function NetworkRange(system: System, routeOut: string, addrShow: string -> string,
                        netstatOut: string, ifconfig: string -> string): (r: string)
    ensures system == OtherSystem ==> r == FallbackRange
  {
    match system
    case Linux =>
      var pieces := Split(Lines(Strip(routeOut))[0], "dev ");
      if |pieces| < 2 || Words(pieces[1]) == [] then FallbackRange
      else
        var found := FirstInetLine(Lines(addrShow(Words(pieces[1])[0])));
        if found.Some? then LinuxRangeFrom(found.value) else FallbackRange
    case Darwin =>
      var found := FirstInetLine(Lines(ifconfig(DefaultInterface(Lines(netstatOut)))));
      if found.Some? then DarwinRangeFrom(found.value) else FallbackRange
    case OtherSystem => FallbackRange
  }

  /** The macOS default mask `0xffffff00` gives a /24 network. */
  lemma DarwinDefaultMask()
    ensures PrefixLength("0xffffff00") == Some("24")
  {
    assert StartsWith("0xffffff00", "0x");
    Numerals.NetmaskPrefixLength();
    DecimalTwentyFour();
  }

  lemma DecimalTwentyFour()
    ensures Numerals.NatToString(24) == "24"
  {
    assert Numerals.NatToString(2) == "2";
  }

  /** The default mask and any mask not written in hexadecimal stand for /24. */
  lemma SlashTwentyFourMask(mask: string)
    requires mask == "0xffffff00" || !StartsWith(mask, "0x")
    ensures PrefixLength(mask) == Some("24")
  {
    if mask == "0xffffff00" {
      DarwinDefaultMask();
    }
  }

  /**
   * macOS: an address line whose mask is `0xffffff00`, is missing, or is not
   * hexadecimal gives the /24 network of its address.
   */
  lemma DarwinRangeSlash24(line: string, a: string, b: string, c: string, d: string)
    requires '.' !in a && '.' !in b && '.' !in c && '.' !in d
    requires var parts := Words(Strip(line));
      |parts| >= 2 && parts[1] == a + "." + b + "." + c + "." + d &&
      (|parts| <= 3 || parts[3] == "0xffffff00" || !StartsWith(parts[3], "0x"))
    ensures DarwinRangeFrom(line) == a + "." + b + "." + c + ".0/24"
  {
    var parts := Words(Strip(line));
    var mask := if |parts| > 3 then parts[3] else "0xffffff00";
    SlashTwentyFourMask(mask);
    NetworkOfDottedQuad(a, b, c, d, "24");
  }

  /** Linux: an address line `inet a.b.c.d/len` gives `a.b.c.0/len`. */
  lemma LinuxRangeOfCidr(line: string, a: string, b: string, c: string, d: string, len: string)
    requires forall x :: x in [a, b, c, d, len] ==> '.' !in x && '/' !in x
    requires var parts := Words(Strip(line));
      |parts| >= 2 && parts[1] == a + "." + b + "." + c + "." + d + "/" + len
    ensures LinuxRangeFrom(line) == a + "." + b + "." + c + ".0/" + len
  {
    var ip := a + "." + b + "." + c + "." + d;
    assert a in [a, b, c, d, len] && b in [a, b, c, d, len] && c in [a, b, c, d, len];
    assert d in [a, b, c, d, len] && len in [a, b, c, d, len];
    assert '/' !in ip;
    assert Join([ip, len], "/") == ip + "/" + len by {
      JoinCons(ip, [len], "/");
    }
    SplitJoin([ip, len], "/");
    NetworkOfDottedQuad(a, b, c, d, len);
  }

  /**
   * `get_network_range`, as the source runs it: the line searches are
   * loops that stop at the first match.
   */
  method GetNetworkRange(system: System, routeOut: string, addrShow: string -> string,
                         netstatOut: string, ifconfig: string -> string) returns (range: string)
    ensures range == NetworkRange(system, routeOut, addrShow, netstatOut, ifconfig)
  {
    match system {
      case Linux =>
        var pieces := Split(Lines(Strip(routeOut))[0], "dev ");
        if |pieces| < 2 || Words(pieces[1]) == [] {
          return FallbackRange;
        }
        var found := FindInetLine(Lines(addrShow(Words(pieces[1])[0])));
        range := if found.Some? then LinuxRangeFrom(found.value) else FallbackRange;
      case Darwin =>
        var netstat := Lines(netstatOut);
        var iface := "en0";
        var i := 0;
        while i < |netstat|
          invariant 0 <= i <= |netstat|
          invariant DefaultInterface(netstat) == DefaultInterface(netstat[i..])
        {
          if StartsWith(netstat[i], "default") {
            var parts := Words(netstat[i]);
            iface := if |parts| > 0 then parts[|parts| - 1] else "en0";
            break;
          }
          assert netstat[i..][1..] == netstat[i + 1..];
          i := i + 1;
        }
        assert i == |netstat| ==> netstat[i..] == [];
        var found := FindInetLine(Lines(ifconfig(iface)));
        range := if found.Some? then DarwinRangeFrom(found.value) else FallbackRange;
      case OtherSystem =>
        range := FallbackRange;
    }
  }

  /** The loop over the address lines: the first non-loopback `inet ` line. */
  method FindInetLine(lines: seq<string>) returns (found: Option<string>)
    ensures found == FirstInetLine(lines)
  {
    var i := 0;
    while i < |lines|
      invariant 0 <= i <= |lines|
      invariant FirstInetLine(lines) == FirstInetLine(lines[i..])
    {
      if IsInetLine(lines[i]) {
        return Some(lines[i]);
      }
      assert lines[i..][1..] == lines[i + 1..];
      i := i + 1;
    }
    return None;
  }

  // ------------------------------------------------------ report formatting

  /** The first three colon groups of a MAC, upper-cased: its manufacturer prefix. */
  function Oui(mac: string): string {
    var groups := Split(mac, ":");
    Upper(Join(groups[..if |groups| < 3 then |groups| else 3], ":"))
  }

  lemma OuiOfMac(a: string, b: string, c: string, rest: seq<string>)
    requires ':' !in a && ':' !in b && ':' !in c
    requires forall k :: 0 <= k < |rest| ==> ':' !in rest[k]
    ensures Oui(Join([a, b, c] + rest, ":")) == Upper(a + ":" + b + ":" + c)
  {
    var parts := [a, b, c] + rest;
    assert forall k :: 0 <= k < |parts| ==> ':' !in parts[k] by {
      forall k | 0 <= k < |parts| ensures ':' !in parts[k] {
        if k >= 3 { assert parts[k] == rest[k - 3]; }
      }
    }
    SplitJoin(parts, ":");
    assert parts[..3] == [a, b, c];
    JoinThree(a, b, c, ":");
  }

  /** The vendor column of the summary table: at most 30 characters, long names cut to 28 and marked "..". */
  function VendorDisplay(vendor: string): (r: string)
    ensures |r| <= 30
    ensures |vendor| <= 30 ==> r == vendor
    ensures |vendor| > 30 ==> |r| == 30 && StartsWith(vendor, r[..28]) && r[28..] == ".."
  {
    if |vendor| > 30 then vendor[..28] + ".." else vendor
  }
}
