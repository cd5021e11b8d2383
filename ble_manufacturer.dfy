/**
 * The Bluetooth side of the sensor (ble_scanner.py): naming a device's
 * manufacturer from the company identifier at the head of its
 * manufacturer-specific advertising data, the identifier table that lookup
 * uses, and the rows one scan contributes to the sighting log.
 */
module BleManufacturer {
  import opened Wrappers
  import opened Text
  import opened Numerals

  type Byte = b: int | 0 <= b < 256

  /** The whitespace `bytes.fromhex` skips: ASCII space, tab, line feed, vertical tab, form feed, carriage return. */
  predicate IsAsciiSpace(c: char) { c == ' ' || '\t' <= c <= '\r' }

  /**
   * Python's `bytes.fromhex(s)`: pairs of hexadecimal digits, with ASCII
   * whitespace allowed before any pair; anything else raises `ValueError`
   * (None), as does a pair cut short.
   */
  function FromHex(s: string): (r: Option<seq<Byte>>)
    ensures r.Some? ==> 2 * |r.value| <= |s|
    decreases |s|
  {
    if s == [] then Some([])
    else if IsAsciiSpace(s[0]) then FromHex(s[1..])
    else if |s| >= 2 && IsHexDigit(s[0]) && IsHexDigit(s[1]) then
      match FromHex(s[2..])
      case None => None
      case Some(rest) => Some([16 * HexDigitValue(s[0]) + HexDigitValue(s[1])] + rest)
    else None
  }

  /** `bytes.hex()`: two lower-case digits per byte. */
  function ToHex(bytes: seq<Byte>): (r: string)
    ensures |r| == 2 * |bytes| && AllHexDigits(r)
  {
    if bytes == [] then []
    else [DigitChar(bytes[0] / 16), DigitChar(bytes[0] % 16)] + ToHex(bytes[1..])
  }

  /** Decoding what `ToHex` writes gives the bytes back. */
  lemma {:induction false} FromHexToHex(bytes: seq<Byte>)
    ensures FromHex(ToHex(bytes)) == Some(bytes)
  {
    if bytes != [] {
      var s := ToHex(bytes);
      var b := bytes[0];
      assert s[0] == DigitChar(b / 16) && s[1] == DigitChar(b % 16);
      assert !IsAsciiSpace(s[0]);
      assert s[2..] == ToHex(bytes[1..]);
      FromHexToHex(bytes[1..]);
      assert 16 * (b / 16) + b % 16 == b;
      assert bytes == [b] + bytes[1..];
    }
  }

  /** An odd number of hexadecimal digits does not decode. */
  lemma {:induction false} FromHexOddDigits(s: string)
    requires AllHexDigits(s) && |s| % 2 == 1
    ensures FromHex(s).None?
    decreases |s|
  {
    if |s| >= 2 {
      assert !IsAsciiSpace(s[0]);
      FromHexOddDigits(s[2..]);
    } else {
      assert !IsAsciiSpace(s[0]);
    }
  }

  /** `int.from_bytes(bytes, byteorder='little')`. */
  function LittleEndian(bytes: seq<Byte>): (n: nat)
    ensures |bytes| <= 2 ==> n < 0x1_0000
    ensures |bytes| <= 1 ==> n < 0x100
    decreases |bytes|
  {
    if bytes == [] then 0 else bytes[0] + 256 * LittleEndian(bytes[1..])
  }

  /** The company identifier of decoded advertising data: its first two bytes, little-endian, as four hex digits. */
  function CompanyKey(bytes: seq<Byte>): (key: string)
    ensures |key| == 4 && AllHexDigits(key)
  {
    Hex4(LittleEndian(bytes[..if |bytes| < 2 then |bytes| else 2]))
  }

  /**
   * `get_manufacturer_name`: "Unknown" for data shorter than four
   * characters, for data that does not decode, and for an identifier
   * missing from the table.
   */
  function GetManufacturerName(rawHex: string, table: map<string, string>): (name: string)
    ensures |rawHex| < 4 ==> name == "Unknown"
    ensures FromHex(rawHex).None? ==> name == "Unknown"
    ensures name != "Unknown" ==> exists key :: key in table && table[key] == name
  {
    if rawHex != [] && |rawHex| >= 4 then
      match FromHex(rawHex)
      case None => "Unknown"
      case Some(bytes) =>
        var key := Lower(CompanyKey(bytes));
        if key in table then table[key] else "Unknown"
    else "Unknown"
  }

  /** Hex4 writes lower-case digits, so `lower()` leaves its result alone. */
  lemma LowerHex4(n: nat)
    requires n < 0x1_0000
    ensures Lower(Hex4(n)) == Hex4(n)
  {
    var h := Hex4(n);
    assert forall k :: 0 <= k < 4 ==> !('A' <= h[k] <= 'Z') by {
      var q1 := n / 16;
      var q2 := q1 / 16;
      assert h == [DigitChar(q2 / 16), DigitChar(q2 % 16), DigitChar(q1 % 16), DigitChar(n % 16)];
    }
  }

  /** Only the first two bytes name the company: later bytes are ignored. */
  lemma CompanyFromFirstTwoBytes(b0: Byte, b1: Byte, rest: seq<Byte>, id: nat)
    requires id == b0 + 256 * b1
    ensures id < 0x1_0000 && CompanyKey([b0, b1] + rest) == Hex4(id)
  {
    var bytes := [b0, b1] + rest;
    assert bytes[..2] == [b0, b1];
    assert [b0, b1][1..] == [b1] && [b1][1..] == [];
    assert LittleEndian([b1]) == b1;
    assert LittleEndian([b0, b1]) == b0 + 256 * b1;
  }

  // ------------------------------------------------------------ the table

  /** The key form of the identifier table: every "0x" removed, zero-padded to four characters, lower-cased. */
  function NormalizeKey(identifier: string): (key: string)
    ensures |key| >= 4
  {
    Lower(ZFill(ReplaceAll(identifier, "0x", ""), 4))
  }

  /** `dict(zip(keys, values))`: a later pair overwrites an earlier one with the same key. */
  function ToMap(pairs: seq<(string, string)>): (m: map<string, string>)
    ensures m.Keys == set k | 0 <= k < |pairs| :: pairs[k].0
    ensures forall k :: 0 <= k < |pairs| && (forall j :: k < j < |pairs| ==> pairs[j].0 != pairs[k].0) ==>
      m[pairs[k].0] == pairs[k].1
    decreases |pairs|
  {
    if pairs == [] then map[]
    else
      var front := pairs[..|pairs| - 1];
      var last := pairs[|pairs| - 1];
      var m := ToMap(front);
      assert forall k :: 0 <= k < |front| ==> front[k] == pairs[k];
      m[last.0 := last.1]
  }

  /** One row of the identifier file: the "Company Identifier" and "Company Name" columns. */
  datatype CompanyRow = CompanyRow(identifier: string, name: string)

  function KeyedRows(rows: seq<CompanyRow>): (pairs: seq<(string, string)>)
    ensures |pairs| == |rows|
    ensures forall k :: 0 <= k < |rows| ==> pairs[k] == (NormalizeKey(rows[k].identifier), rows[k].name)
  {
    seq(|rows|, k requires 0 <= k < |rows| => (NormalizeKey(rows[k].identifier), rows[k].name))
  }

  /**
   * `load_manufacturer_data`: the table keyed by normalised identifier, or
   * empty when the file is missing or cannot be read as the expected CSV.
   */
  function LoadManufacturerData(file: Source<seq<CompanyRow>>): (table: map<string, string>)
    ensures !file.Loaded? ==> table == map[]
    ensures file.Loaded? ==> table.Keys == set k | 0 <= k < |file.content| :: NormalizeKey(file.content[k].identifier)
  {
    match file
    case Loaded(rows) =>
      var pairs := KeyedRows(rows);
      var table := ToMap(pairs);
      assert (set k | 0 <= k < |pairs| :: pairs[k].0) == (set k | 0 <= k < |rows| :: NormalizeKey(rows[k].identifier));
      table
    case _ => map[]
  }

  /** Lower-casing a hexadecimal digit gives the digit `DigitChar` writes for its value. */
  lemma LowerHexDigit(c: char)
    requires IsHexDigit(c)
    ensures LowerChar(c) == DigitChar(HexDigitValue(c))
  {
  }

  /** Four hexadecimal digits of any case, lower-cased, are `Hex4` of their value. */
  lemma Hex4Canonical(h: string)
    requires |h| == 4 && AllHexDigits(h)
    ensures NumeralValue(h, 16) < 0x1_0000
    ensures Lower(h) == Hex4(NumeralValue(h, 16))
  {
    var d0, d1, d2, d3 := HexDigitValue(h[0]), HexDigitValue(h[1]), HexDigitValue(h[2]), HexDigitValue(h[3]);
    FourDigitValue(h);
    Hex4OfDigits(d0, d1, d2, d3);
    LowerHexDigit(h[0]);
    LowerHexDigit(h[1]);
    LowerHexDigit(h[2]);
    LowerHexDigit(h[3]);
    assert Lower(h) == [DigitChar(d0), DigitChar(d1), DigitChar(d2), DigitChar(d3)];
  }

  /** `Hex4` writes back the four digits a value was made of. */
  lemma Hex4OfDigits(d0: nat, d1: nat, d2: nat, d3: nat)
    requires d0 < 16 && d1 < 16 && d2 < 16 && d3 < 16
    ensures 16 * (16 * (16 * d0 + d1) + d2) + d3 < 0x1_0000
    ensures Hex4(16 * (16 * (16 * d0 + d1) + d2) + d3) == [DigitChar(d0), DigitChar(d1), DigitChar(d2), DigitChar(d3)]
  {
    var q2 := 16 * d0 + d1;
    var q1 := 16 * q2 + d2;
    var n := 16 * q1 + d3;
    DivideOutDigit(q1, d3);
    DivideOutDigit(q2, d2);
    DivideOutDigit(d0, d1);
    assert n / 16 == q1 && n % 16 == d3;
    assert q1 / 16 == q2 && q1 % 16 == d2;
    assert q2 / 16 == d0 && q2 % 16 == d1;
  }

  /** The value of four hexadecimal digits, most significant first. */
  lemma FourDigitValue(h: string)
    requires |h| == 4 && AllHexDigits(h)
    ensures NumeralValue(h, 16) ==
      16 * (16 * (16 * HexDigitValue(h[0]) + HexDigitValue(h[1])) + HexDigitValue(h[2])) + HexDigitValue(h[3])
  {
    assert h[..3][..2][..1][..0] == [];
    assert h[..3][..2][..1] == h[..1] && h[..3][..2] == h[..2] && h[..4] == h;
    assert h[..2][..1] == h[..1] && h[..4][..3] == h[..3];
    assert NumeralValue(h[..1], 16) == HexDigitValue(h[0]);
    assert NumeralValue(h[..2], 16) == 16 * HexDigitValue(h[0]) + HexDigitValue(h[1]);
  }

  /** Dividing `16 * q + d` by 16 gives back `q` and `d`. */
  lemma DivideOutDigit(q: nat, d: nat)
    requires d < 16
    ensures (16 * q + d) / 16 == q && (16 * q + d) % 16 == d
  {
  }

  /** An identifier written `0x` and four hexadecimal digits normalises to the key `get_manufacturer_name` builds for that value. */
  lemma NormalizePrefixedIdentifier(h: string)
    requires |h| == 4 && AllHexDigits(h)
    ensures NumeralValue(h, 16) < 0x1_0000 && NormalizeKey("0x" + h) == Hex4(NumeralValue(h, 16))
  {
    assert !Contains(h, "0x") by {
      forall j ensures !OccursAt(h, "0x", j) {
        if 0 <= j && j + 2 <= |h| {
          assert h[j..j + 2][1] == h[j + 1] && IsHexDigit(h[j + 1]);
        }
      }
    }
    SplitAfterLeading("0x", h);
    assert Join(["", h], "") == h;
    Hex4Canonical(h);
  }

  /** The table holds, for a row no later row overrides, that row's name under the row's key. */
  lemma TableEntry(rows: seq<CompanyRow>, i: nat)
    requires i < |rows|
    requires forall j :: i < j < |rows| ==> NormalizeKey(rows[j].identifier) != NormalizeKey(rows[i].identifier)
    ensures NormalizeKey(rows[i].identifier) in LoadManufacturerData(Loaded(rows))
    ensures LoadManufacturerData(Loaded(rows))[NormalizeKey(rows[i].identifier)] == rows[i].name
  {
    var pairs := KeyedRows(rows);
    assert pairs[i] == (NormalizeKey(rows[i].identifier), rows[i].name);
    assert forall j :: i < j < |pairs| ==> pairs[j].0 != pairs[i].0;
    assert LoadManufacturerData(Loaded(rows)) == ToMap(pairs);
  }

  /** Data that decodes, whose identifier key is in the table, is named by the table. */
  lemma NamedByTable(bytes: seq<Byte>, table: map<string, string>)
    requires |bytes| >= 2 && CompanyKey(bytes) in table
    ensures GetManufacturerName(ToHex(bytes), table) == table[CompanyKey(bytes)]
  {
    FromHexToHex(bytes);
    var key := CompanyKey(bytes);
    assert Lower(key) == key by {
      var n := LittleEndian(bytes[..2]);
      LowerHex4(n);
    }
  }

  /** Data that decodes, whose identifier key is missing from the table, is "Unknown". */
  lemma UnnamedIsUnknown(bytes: seq<Byte>, table: map<string, string>)
    requires |bytes| >= 2 && CompanyKey(bytes) !in table
    ensures GetManufacturerName(ToHex(bytes), table) == "Unknown"
  {
    FromHexToHex(bytes);
    var key := CompanyKey(bytes);
    assert Lower(key) == key by {
      var n := LittleEndian(bytes[..2]);
      LowerHex4(n);
    }
  }

  /**
   * The round trip between the table and the advertising data: a row whose
   * identifier is `0x` and four hexadecimal digits, and that no later row
   * overrides, names every device whose data starts with that identifier
   * in little-endian byte order.
   */
  lemma ManufacturerRoundTrip(rows: seq<CompanyRow>, i: nat, h: string, b0: Byte, b1: Byte, rest: seq<Byte>)
    requires i < |rows| && rows[i].identifier == "0x" + h
    requires |h| == 4 && AllHexDigits(h) && NumeralValue(h, 16) == b0 + 256 * b1
    requires forall j :: i < j < |rows| ==> NormalizeKey(rows[j].identifier) != NormalizeKey(rows[i].identifier)
    ensures GetManufacturerName(ToHex([b0, b1] + rest), LoadManufacturerData(Loaded(rows))) == rows[i].name
  {
    var table := LoadManufacturerData(Loaded(rows));
    var bytes: seq<Byte> := [b0, b1] + rest;
    var key := NormalizeKey(rows[i].identifier);
    var id := NumeralValue(h, 16);
    NormalizePrefixedIdentifier(h);
    assert key == Hex4(id);
    CompanyFromFirstTwoBytes(b0, b1, rest, id);
    assert CompanyKey(bytes) == Hex4(id);
    TableEntry(rows, i);
    assert key in table && table[key] == rows[i].name;
    NamedByTable(bytes, table);
  }

  /** The identifier `0x004C` normalises to "004c", the key of the advertising data `4c 00`. */
  lemma AppleExample()
    ensures NormalizeKey("0x004C") == "004c"
    ensures CompanyKey([0x4c, 0x00]) == "004c"
  {
    var h := "004C";
    assert AllHexDigits(h);
    assert "0x004C" == "0x" + h;
    NormalizePrefixedIdentifier(h);
    AppleDigits();
    CompanyFromFirstTwoBytes(76, 0, [], 76);
    assert [76, 0] + [] == [0x4c, 0x00];
    AppleKey();
  }

  lemma AppleDigits()
    ensures NumeralValue("004C", 16) == 76
  {
    assert "0"[..0] == [];
    assert NumeralValue("0", 16) == 0;
    assert "00"[..1] == "0";
    assert NumeralValue("00", 16) == 0;
    assert "004"[..2] == "00";
    assert NumeralValue("004", 16) == 4;
    assert "004C"[..3] == "004";
  }

  lemma AppleKey()
    ensures Hex4(76) == "004c"
  {
    assert 76 / 16 == 4 && 76 % 16 == 12;
    assert DigitChar(0) == '0' && DigitChar(4) == '4' && DigitChar(12) == 'c';
  }

  // --------------------------------------------------------- one scan

  /** A device heard in one scan: its address, signal strength, address type, manufacturer data (as text, if any) and advertised fields. */
  datatype Sighting = Sighting(addr: string, rssi: int, addrType: string, manufacturerData: Option<string>,
                               scanData: seq<(string, string)>)

  /** The "Additional Metadata" column before JSON encoding. */
  datatype Metadata = Metadata(addrType: string, scanData: map<string, string>, rawData: string)

  /** One row of the sighting log: Timestamp, MAC Address, RSSI, Manufacturer, Raw Data, Additional Metadata. */
  datatype LogRow = LogRow(timestamp: string, mac: string, rssi: int, manufacturer: string, rawData: string,
                           metadata: Metadata)

  /** The row a kept device contributes; missing manufacturer data counts as "". */
  function RowFor(dev: Sighting, timestamp: string, table: map<string, string>): LogRow {
    var raw := dev.manufacturerData.GetOr("");
    LogRow(timestamp, dev.addr, dev.rssi, GetManufacturerName(raw, table), raw,
           Metadata(dev.addrType, ToMap(dev.scanData), raw))
  }

  /** The devices at or above the threshold, in scan order. */
  function Strong(devices: seq<Sighting>, threshold: int): seq<Sighting>
    decreases |devices|
  {
    if devices == [] then []
    else
      var front := Strong(devices[..|devices| - 1], threshold);
      var last := devices[|devices| - 1];
      if last.rssi >= threshold then front + [last] else front
  }

  /** Exactly the devices at or above the threshold are kept, and never more than there were. */
  lemma {:induction false} StrongMembers(devices: seq<Sighting>, threshold: int)
    ensures |Strong(devices, threshold)| <= |devices|
    ensures forall d :: d in Strong(devices, threshold) <==> d in devices && d.rssi >= threshold
    decreases |devices|
  {
    if devices != [] {
      var last := devices[|devices| - 1];
      StrongMembers(devices[..|devices| - 1], threshold);
      assert devices == devices[..|devices| - 1] + [last];
    }
  }

  /** Keeping strong devices commutes with joining two scans' worth of devices. */
  lemma {:induction false} StrongConcat(a: seq<Sighting>, b: seq<Sighting>, threshold: int)
    ensures Strong(a + b, threshold) == Strong(a, threshold) + Strong(b, threshold)
    decreases |b|
  {
    if b == [] {
      assert a + b == a;
    } else {
      var b' := b[..|b| - 1];
      assert (a + b)[..|a + b| - 1] == a + b';
      assert (a + b)[|a + b| - 1] == b[|b| - 1];
      StrongConcat(a, b', threshold);
    }
  }

  /** The rows of a scan: one per strong device, in scan order, all with the scan's timestamp. */
  function Detected(devices: seq<Sighting>, threshold: int, timestamp: string, table: map<string, string>): seq<LogRow> {
    RowsOf(Strong(devices, threshold), timestamp, table)
  }

  /** One row per strong device, in order, each with the scan's timestamp and an RSSI at or above the threshold. */
  lemma DetectedRows(devices: seq<Sighting>, threshold: int, timestamp: string, table: map<string, string>)
    ensures var rows := Detected(devices, threshold, timestamp, table);
      |rows| == |Strong(devices, threshold)| &&
      (forall k :: 0 <= k < |rows| ==> rows[k] == RowFor(Strong(devices, threshold)[k], timestamp, table)) &&
      (forall k :: 0 <= k < |rows| ==> rows[k].timestamp == timestamp && rows[k].rssi >= threshold)
  {
    var kept := Strong(devices, threshold);
    StrongMembers(devices, threshold);
    assert forall k :: 0 <= k < |kept| ==> kept[k] in kept;
  }

  /** The rows of the kept devices, in order. */
  function RowsOf(kept: seq<Sighting>, timestamp: string, table: map<string, string>): (rows: seq<LogRow>)
    ensures |rows| == |kept|
    ensures forall k :: 0 <= k < |rows| ==> rows[k] == RowFor(kept[k], timestamp, table)
  {
    seq(|kept|, k requires 0 <= k < |kept| => RowFor(kept[k], timestamp, table))
  }

  lemma RowsOfConcat(a: seq<Sighting>, b: seq<Sighting>, timestamp: string, table: map<string, string>)
    ensures RowsOf(a + b, timestamp, table) == RowsOf(a, timestamp, table) + RowsOf(b, timestamp, table)
  {
    var left, right := RowsOf(a + b, timestamp, table), RowsOf(a, timestamp, table) + RowsOf(b, timestamp, table);
    forall k | 0 <= k < |left| ensures left[k] == right[k] {
      if k < |a| {
        assert (a + b)[k] == a[k];
      } else {
        assert (a + b)[k] == b[k - |a|];
      }
    }
  }

  /** One more device adds its row exactly when it is strong enough. */
  lemma DetectedSnoc(devices: seq<Sighting>, dev: Sighting, threshold: int, timestamp: string, table: map<string, string>)
    ensures Detected(devices + [dev], threshold, timestamp, table) ==
      Detected(devices, threshold, timestamp, table) + (if dev.rssi >= threshold then [RowFor(dev, timestamp, table)] else [])
  {
    StrongConcat(devices, [dev], threshold);
    assert [dev][..0] == [];
    var extra := Strong([dev], threshold);
    assert extra == if dev.rssi >= threshold then [dev] else [];
    RowsOfConcat(Strong(devices, threshold), extra, timestamp, table);
    assert RowsOf(extra, timestamp, table) == if dev.rssi >= threshold then [RowFor(dev, timestamp, table)] else [];
  }

  /** `scan_data_serialized`: the advertised fields by description, a later one overwriting an earlier. */
  method SerializeScanData(scanData: seq<(string, string)>) returns (m: map<string, string>)
    ensures m == ToMap(scanData)
  {
    m := map[];
    var i := 0;
    while i < |scanData|
      invariant 0 <= i <= |scanData|
      invariant m == ToMap(scanData[..i])
    {
      ToMapNext(scanData, i);
      m := m[scanData[i].0 := scanData[i].1];
      i := i + 1;
    }
    assert scanData[..|scanData|] == scanData;
  }

  /** One more pair overwrites its key. */
  lemma ToMapNext(pairs: seq<(string, string)>, i: nat)
    requires i < |pairs|
    ensures ToMap(pairs[..i + 1]) == ToMap(pairs[..i])[pairs[i].0 := pairs[i].1]
  {
    assert pairs[..i + 1][..i] == pairs[..i];
  }

  /** `scan_ble_devices` on the devices one scan returned. */
  method ScanBleDevices(devices: seq<Sighting>, threshold: int, timestamp: string, table: map<string, string>)
    returns (rows: seq<LogRow>)
    ensures rows == Detected(devices, threshold, timestamp, table)
  {
    rows := [];
    var i := 0;
    while i < |devices|
      invariant 0 <= i <= |devices|
      invariant rows == Detected(devices[..i], threshold, timestamp, table)
    {
      var dev := devices[i];
      assert devices[..i + 1] == devices[..i] + [dev];
      DetectedSnoc(devices[..i], dev, threshold, timestamp, table);
      if dev.rssi >= threshold {
        var raw := dev.manufacturerData.GetOr("");
        var manufacturer := GetManufacturerName(raw, table);
        var serialized := SerializeScanData(dev.scanData);
        rows := rows + [LogRow(timestamp, dev.addr, dev.rssi, manufacturer, raw, Metadata(dev.addrType, serialized, raw))];
      }
      i := i + 1;
    }
    assert devices[..|devices|] == devices;
  }
}
