/**
 * The recent pair-work page (pull_recent_pairwork.py): each record's date
 * is normalised, its notes are summarised, and the summary's bullet points
 * become `<span>` elements inside one paragraph per record. The record
 * store and the summarising service are parameters.
 */
module PairworkSummary {
  import opened Wrappers
  import opened Text
  import opened Numerals

  // ------------------------------------------------------------- dates

  datatype Date = Date(year: nat, month: nat, day: nat)

  predicate IsLeap(year: nat) {
    year % 4 == 0 && (year % 100 != 0 || year % 400 == 0)
  }

  function DaysIn(year: nat, month: nat): (n: nat)
    requires 1 <= month <= 12
    ensures 28 <= n <= 31
  {
    if month == 2 then (if IsLeap(year) then 29 else 28)
    else if month == 4 || month == 6 || month == 9 || month == 11 then 30
    else 31
  }

  /** A calendar date `datetime` accepts. */
  predicate ValidDate(d: Date) {
    1 <= d.year && 1 <= d.month <= 12 && 1 <= d.day <= DaysIn(d.year, d.month)
  }

  /** The `%m` field: "1" to "9", "01" to "09", or "10" to "12". */
  function MonthField(s: string): (m: Option<nat>)
    ensures m.Some? ==> 1 <= m.value <= 12
  {
    if |s| == 1 && '1' <= s[0] <= '9' then Some(DigitValue(s[0]))
    else if |s| == 2 && s[0] == '0' && '1' <= s[1] <= '9' then Some(DigitValue(s[1]))
    else if |s| == 2 && s[0] == '1' && '0' <= s[1] <= '2' then Some(10 + DigitValue(s[1]))
    else None
  }

  /** The `%d` field: "1" to "9", "01" to "09" or " 1" to " 9", or "10" to "31". */
  function DayField(s: string): (d: Option<nat>)
    ensures d.Some? ==> 1 <= d.value <= 31
  {
    if |s| == 1 && '1' <= s[0] <= '9' then Some(DigitValue(s[0]))
    else if |s| == 2 && (s[0] == '0' || s[0] == ' ') && '1' <= s[1] <= '9' then Some(DigitValue(s[1]))
    else if |s| == 2 && '1' <= s[0] <= '2' && IsDigit(s[1]) then Some(10 * DigitValue(s[0]) + DigitValue(s[1]))
    else if |s| == 2 && s[0] == '3' && '0' <= s[1] <= '1' then Some(30 + DigitValue(s[1]))
    else None
  }

  /**
   * `datetime.strptime(s, '%Y-%m-%d')`: four year digits, '-', a month
   * field, '-', a day field and nothing after it, forming a real date.
   */
  function ParseDate(s: string): (r: Option<Date>)
    ensures r.Some? ==> ValidDate(r.value) && r.value.year < 10000
  {
    if |s| < 5 || !AllDigits(s[..4]) || s[4] != '-' then None
    else
      var rest := s[5..];
      var dash := Find(rest, "-");
      if dash.None? then None
      else
        var year := NumeralValue(s[..4], 10);
        var month := MonthField(rest[..dash.value]);
        var day := DayField(rest[dash.value + 1..]);
        assert year < 10000 by { DigitsBound(s[..4]); }
        if month.Some? && day.Some? && 1 <= year && day.value <= DaysIn(year, month.value) then
          Some(Date(year, month.value, day.value))
        else None
  }

  lemma {:induction false} DigitsBound(s: string)
    requires AllDigits(s)
    ensures NumeralValue(s, 10) < Power10(|s|)
    decreases |s|
  {
    if s != [] {
      DigitsBound(s[..|s| - 1]);
    }
  }

  function Power10(n: nat): (p: nat)
    ensures p >= 1
  {
    if n == 0 then 1 else 10 * Power10(n - 1)
  }

  /** Two digits with a leading zero, as `%m` and `%d` print. */
  function TwoDigits(n: nat): (r: string)
    requires n < 100
    ensures |r| == 2 && AllDigits(r)
  {
    [DigitChar(n / 10), DigitChar(n % 10)]
  }

  /**
   * `strftime('%Y-%m-%d')`, with the year printed without padding as
   * glibc's `strftime` does. A Python that pads `%Y` to four digits itself
   * prints "0999" for the year 999, where this gives "999"; the two agree
   * on every year from 1000 on.
   */
  function Render(d: Date): (r: string)
    requires ValidDate(d)
  {
    NatToString(d.year) + "-" + TwoDigits(d.month) + "-" + TwoDigits(d.day)
  }

  /** The text before the first 'T'. */
  function DatePart(s: string): string {
    Split(s, "T")[0]
  }

  /** `format_date`: the date part re-printed, or the whole input when it does not parse. */
  function FormatDate(s: string): string {
    var parsed := ParseDate(DatePart(s));
    if parsed.Some? then Render(parsed.value) else s
  }

  /** Text without a 'T' is its own date part. */
  lemma NoTimePart(s: string)
    requires 'T' !in s
    ensures DatePart(s) == s
  {
    forall j | 0 <= j < |s| ensures !OccursAt(s, "T", j) {
      assert s[j] in s;
      if j + 1 <= |s| { assert s[j..j + 1][0] == s[j]; }
    }
  }

  /** A time after the 'T' does not change the result. */
  lemma FormatDateIgnoresTime(date: string, time: string)
    requires 'T' !in date
    requires ParseDate(date).Some?
    ensures FormatDate(date + "T" + time) == Render(ParseDate(date).value)
  {
    SplitCons(date, time, "T");
  }

  /** Text that is not a date comes back unchanged: "Unknown date" stays "Unknown date". */
  lemma NotADateKept(s: string)
    requires 'T' !in s && (|s| < 5 || !AllDigits(s[..4]))
    ensures FormatDate(s) == s
  {
    NoTimePart(s);
  }

  lemma UnknownDateKept()
    ensures FormatDate("Unknown date") == "Unknown date"
  {
    assert !IsDigit("Unknown date"[0]);
    NotADateKept("Unknown date");
  }

  /** How `ParseDate` reads text made of its fields. */
  lemma {:induction false} ParseFields(y: string, m: string, d: string)
    requires |y| == 4 && AllDigits(y) && '-' !in m
    ensures var month := MonthField(m);
      var day := DayField(d);
      var year := NumeralValue(y, 10);
      ParseDate(y + "-" + m + "-" + d) ==
        if month.Some? && day.Some? && 1 <= year && day.value <= DaysIn(year, month.value) then
          Some(Date(year, month.value, day.value))
        else None
  {
    var s := y + "-" + m + "-" + d;
    assert s[..4] == y && s[4] == '-';
    var rest := s[5..];
    assert rest == m + "-" + d;
    assert OccursAt(rest, "-", |m|) by { assert rest[|m|..|m| + 1] == "-"; }
    forall j | 0 <= j < |m| ensures !OccursAt(rest, "-", j) {
      assert rest[j] == m[j] && m[j] in m;
      assert rest[j..j + 1][0] == rest[j];
    }
    assert Find(rest, "-") == Some(|m|);
    assert rest[..|m|] == m && rest[|m| + 1..] == d;
  }

  lemma TwoDigitFields(n: nat)
    requires 1 <= n <= 31
    ensures DayField(TwoDigits(n)) == Some(n)
    ensures n <= 12 ==> MonthField(TwoDigits(n)) == Some(n)
  {
  }

  lemma {:induction false} FourDigitYear(y: nat)
    requires 1000 <= y < 10000
    ensures |NatToString(y)| == 4
  {
    var a := y / 10;
    var b := a / 10;
    var c := b / 10;
    assert 100 <= a < 1000 && 10 <= b < 100 && 1 <= c < 10;
    OneMoreDigit(y);
    OneMoreDigit(a);
    OneMoreDigit(b);
  }

  /** A number of ten or more takes one digit more than its tenth. */
  lemma OneMoreDigit(n: nat)
    requires n >= 10
    ensures |NatToString(n)| == |NatToString(n / 10)| + 1
  {
  }

  lemma {:induction false} ShortYear(y: nat)
    requires y < 1000
    ensures |NatToString(y)| <= 3
  {
    if y >= 10 {
      OneMoreDigit(y);
      if y >= 100 {
        OneMoreDigit(y / 10);
      }
    }
  }

  /** A date with a four-digit year reads back from its rendering. */
  lemma RenderParse(d: Date)
    requires ValidDate(d) && 1000 <= d.year < 10000
    ensures ParseDate(Render(d)) == Some(d)
  {
    FourDigitYear(d.year);
    TwoDigitFields(d.month);
    TwoDigitFields(d.day);
    ParseFields(NatToString(d.year), TwoDigits(d.month), TwoDigits(d.day));
  }

  /** Unpadded month and day are accepted and come out padded: "2024-3-5" gives "2024-03-05". */
  lemma UnpaddedFieldsPadded(y: string, month: nat, day: nat)
    requires |y| == 4 && AllDigits(y) && 1 <= NumeralValue(y, 10)
    requires 1 <= month <= 9 && 1 <= day <= 9
    ensures var d := Date(NumeralValue(y, 10), month, day);
      ValidDate(d) && FormatDate(y + "-" + [DigitChar(month)] + "-" + [DigitChar(day)]) == Render(d)
  {
    var s := y + "-" + [DigitChar(month)] + "-" + [DigitChar(day)];
    ParseFields(y, [DigitChar(month)], [DigitChar(day)]);
    var tail := "-" + [DigitChar(month)] + "-" + [DigitChar(day)];
    assert s == y + tail;
    assert 'T' !in tail by { assert tail == ['-', DigitChar(month), '-', DigitChar(day)]; }
    assert 'T' !in y by {
      forall k | 0 <= k < |y| ensures y[k] != 'T' { assert IsDigit(y[k]); }
    }
    NoTimePart(s);
  }

  /** A day the month does not have leaves the input unchanged: "2023-02-30" stays as it is. */
  lemma ImpossibleDayKept()
    ensures FormatDate("2023-02-30") == "2023-02-30"
  {
    assert "2023-02-30" == "2023" + "-" + "02" + "-" + "30";
    assert 'T' !in "2023-02-30";
    Year2023();
    assert MonthField("02") == Some(2) && DayField("30") == Some(30) && DaysIn(2023, 2) == 28;
    DayOutOfMonthKept("2023", "02", "30");
  }

  /** A day past the end of its month does not parse, so the text is kept. */
  lemma DayOutOfMonthKept(y: string, m: string, d: string)
    requires |y| == 4 && AllDigits(y) && '-' !in m && 'T' !in y + "-" + m + "-" + d
    requires MonthField(m).Some? && DayField(d).Some?
    requires DayField(d).value > DaysIn(NumeralValue(y, 10), MonthField(m).value)
    ensures FormatDate(y + "-" + m + "-" + d) == y + "-" + m + "-" + d
  {
    ParseFields(y, m, d);
    NoTimePart(y + "-" + m + "-" + d);
  }

  lemma Year2023()
    ensures NumeralValue("2023", 10) == 2023
  {
    assert "2023"[..3] == "202" && "202"[..2] == "20" && "20"[..1] == "2" && "2"[..0] == "";
  }

  /**
   * Normalising twice is normalising once: a rendered date with a
   * four-digit year reads back to itself, and one with a shorter year does
   * not parse and is kept.
   */
  lemma FormatDateIdempotent(s: string)
    ensures FormatDate(FormatDate(s)) == FormatDate(s)
  {
    var parsed := ParseDate(DatePart(s));
    if parsed.Some? {
      var d := parsed.value;
      var r := Render(d);
      var y := NatToString(d.year);
      forall k | 0 <= k < |r| ensures r[k] != 'T' {
        if k < |y| { assert r[k] == y[k]; }
      }
      NoTimePart(r);
      if d.year >= 1000 {
        RenderParse(d);
      } else {
        ShortYear(d.year);
        assert r[|y|] == '-';
        assert !AllDigits(r[..4]) by { assert r[..4][|y|] == '-'; }
      }
    }
  }

  // ----------------------------------------------------------- bullets

  /** The stripped pieces that are not empty. */
  function KeptPieces(pieces: seq<string>): (r: seq<string>)
    ensures |r| <= |pieces|
    ensures forall k :: 0 <= k < |r| ==> r[k] != [] && Strip(r[k]) == r[k]
    decreases |pieces|
  {
    if pieces == [] then []
    else
      var p := Strip(pieces[0]);
      StripStripped(pieces[0]);
      (if p != [] then [p] else []) + KeptPieces(pieces[1..])
  }

  lemma StripStripped(s: string)
    ensures Strip(s) != [] ==> !IsSpace(Strip(s)[0]) && !IsSpace(Strip(s)[|Strip(s)| - 1])
    ensures Strip(Strip(s)) == Strip(s)
  {
    var t := TrimStart(s, IsSpace);
    var r := TrimEnd(t, IsSpace);
    if r != [] {
      assert r[0] == t[0];
      TrimmedAlready(r, IsSpace);
    }
  }

  /** The bullet points of a summary: its pieces between "\n-", stripped, without the empty ones. */
  function Bullets(text: string): (r: seq<string>)
    ensures forall k :: 0 <= k < |r| ==> r[k] != [] && Strip(r[k]) == r[k]
  {
    KeptPieces(Split(text, "\n-"))
  }

  function Span(point: string): string {
    "<span>" + point + "</span>"
  }

  /** Each bullet as a `<span>`, one per line. */
  function FormatBullets(points: seq<string>): (r: string)
    ensures points == [] ==> r == []
    ensures |points| == 1 ==> r == Span(points[0])
    decreases |points|
  {
    if points == [] then []
    else if |points| == 1 then Span(points[0])
    else Span(points[0]) + "\n" + FormatBullets(points[1..])
  }

  /** Single-line points with no surrounding whitespace, listed with "\n-" between them, come back as they were. */
  lemma BulletsRoundTrip(points: seq<string>)
    requires points != []
    requires forall k :: 0 <= k < |points| ==> points[k] != [] && '\n' !in points[k]
    requires forall k :: 0 <= k < |points| ==> !IsSpace(points[k][0]) && !IsSpace(points[k][|points[k]| - 1])
    ensures Bullets(Join(points, "\n-")) == points
  {
    SplitJoin(points, "\n-");
    KeptStripped(points);
  }

  lemma {:induction false} KeptStripped(points: seq<string>)
    requires forall k :: 0 <= k < |points| ==> points[k] != []
    requires forall k :: 0 <= k < |points| ==> !IsSpace(points[k][0]) && !IsSpace(points[k][|points[k]| - 1])
    ensures KeptPieces(points) == points
    decreases |points|
  {
    if points != [] {
      TrimmedAlready(points[0], IsSpace);
      KeptStripped(points[1..]);
      assert points == [points[0]] + points[1..];
    }
  }

  /**
   * A summary written as a dash list keeps the first item's dash: for
   * "- a\n- b" the bullets are "- a" and "b".
   */
  lemma FirstDashKept()
    ensures Bullets("- a\n- b") == ["- a", "b"]
  {
    DashListPieces();
    DashListKept();
  }

  lemma StripExamples()
    ensures Strip("- a") == "- a" && Strip(" b") == "b"
  {
    TrimmedAlready("- a", IsSpace);
    assert TrimStart(" b", IsSpace) == "b";
  }

  lemma DashListKept()
    ensures KeptPieces(["- a", " b"]) == ["- a", "b"]
  {
    StripExamples();
    assert KeptPieces(["- a", " b"]) == ["- a"] + KeptPieces([" b"]);
    assert KeptPieces([" b"]) == ["b"] + KeptPieces([]) by { assert [" b"][1..] == []; }
  }

  lemma DashListPieces()
    ensures Split("- a\n- b", "\n-") == ["- a", " b"]
  {
    assert "- a\n- b" == "- a" + "\n-" + " b";
    SplitCons("- a", " b", "\n-");
    SplitJoin([" b"], "\n-");
    assert Join([" b"], "\n-") == " b";
  }

  // ----------------------------------------------------------- summary

  /** A record's fields; a field the record lacks is `None`. */
  datatype Record = Record(dateTime: Option<string>, person1: Option<string>, person2: Option<string>, notes: Option<string>)

  /** What the summarising service gives back: a failure, a reply without content, or a text. */
  datatype Reply = Failed | NoContent | Text(text: string)

  /** `get_summary_from_llm`: the reply's text, a fixed message for an empty reply, or the notes themselves on failure. */
  function SummaryText(notes: string, reply: Reply): (r: string)
    ensures reply.Failed? ==> r == notes
    ensures reply.NoContent? ==> r == "No summary available"
    ensures reply.Text? ==> r == reply.text
  {
    match reply
    case Failed => notes
    case NoContent => "No summary available"
    case Text(t) => t
  }

  function Heading(record: Record): string {
    FormatDate(record.dateTime.GetOr("Unknown date")) + " " + record.person1.GetOr("") + " & " + record.person2.GetOr("")
  }

  /** One record's paragraph: the heading, then the bullets of its summary. */
  function Entry(record: Record, summarise: string -> Reply): string {
    var notes := record.notes.GetOr("");
    "<p><strong>" + Heading(record) + "</strong>" + FormatBullets(Bullets(SummaryText(notes, summarise(notes)))) + "</p>"
  }

  /** The texts `render` gives the records, one after the other in input order. */
  function ConcatMap(records: seq<Record>, render: Record -> string): string
    decreases |records|
  {
    if records == [] then []
    else ConcatMap(records[..|records| - 1], render) + render(records[|records| - 1])
  }

  lemma {:induction false} ConcatMapAppend(a: seq<Record>, b: seq<Record>, render: Record -> string)
    ensures ConcatMap(a + b, render) == ConcatMap(a, render) + ConcatMap(b, render)
    decreases |b|
  {
    if b == [] {
      assert a + b == a;
    } else {
      var front := b[..|b| - 1];
      ConcatMapAppend(a, front, render);
      assert (a + b)[..|a + b| - 1] == a + front;
      assert (a + b)[|a + b| - 1] == b[|b| - 1];
    }
  }

  lemma ConcatMapNext(records: seq<Record>, i: nat, render: Record -> string)
    requires i < |records|
    ensures ConcatMap(records[..i + 1], render) == ConcatMap(records[..i], render) + render(records[i])
  {
    assert records[..i + 1][..i] == records[..i];
  }

  /** The paragraphs of all records, in input order. */
  function Paragraphs(records: seq<Record>, summarise: string -> Reply): string {
    ConcatMap(records, record => Entry(record, summarise))
  }

  /** The page for two batches of records is the first batch's paragraphs followed by the second's. */
  lemma ParagraphsAppend(a: seq<Record>, b: seq<Record>, summarise: string -> Reply)
    ensures Paragraphs(a + b, summarise) == Paragraphs(a, summarise) + Paragraphs(b, summarise)
  {
    ConcatMapAppend(a, b, record => Entry(record, summarise));
  }

  /** One record gives exactly its own paragraph. */
  lemma OneRecord(record: Record, summarise: string -> Reply)
    ensures Paragraphs([record], summarise) == Entry(record, summarise)
  {
    ConcatMapSingle(record, r => Entry(r, summarise));
  }

  lemma ConcatMapSingle(record: Record, render: Record -> string)
    ensures ConcatMap([record], render) == render(record)
  {
    assert [record][..0] == [];
  }

  /** The paragraph assembled from a record's parts is `Entry`'s. */
  lemma EntryFromParts(record: Record, summarise: string -> Reply, date: string, formatted: string)
    requires date == FormatDate(record.dateTime.GetOr("Unknown date"))
    requires var notes := record.notes.GetOr("");
      formatted == FormatBullets(Bullets(SummaryText(notes, summarise(notes))))
    ensures Entry(record, summarise) ==
      "<p><strong>" + date + " " + record.person1.GetOr("") + " & " + record.person2.GetOr("") + "</strong>" + formatted + "</p>"
  {
    assert Heading(record) == date + " " + record.person1.GetOr("") + " & " + record.person2.GetOr("");
    ParagraphShape(date, record.person1.GetOr(""), record.person2.GetOr(""), formatted);
  }

  /** The heading's pieces regrouped inside the paragraph. */
  lemma ParagraphShape(date: string, person1: string, person2: string, formatted: string)
    ensures "<p><strong>" + (date + " " + person1 + " & " + person2) + "</strong>" + formatted + "</p>" ==
      "<p><strong>" + date + " " + person1 + " & " + person2 + "</strong>" + formatted + "</p>"
  {
  }

  /** `generate_summary`: a fixed message for no records, otherwise each record's paragraph in order. */
  method GenerateSummary(records: seq<Record>, summarise: string -> Reply) returns (summary: string)
    ensures records == [] ==> summary == "No recent records found."
    ensures records != [] ==> summary == Paragraphs(records, summarise)
  {
    if records == [] {
      return "No recent records found.";
    }
    summary := "";
    for i := 0 to |records|
      invariant summary == ConcatMap(records[..i], record => Entry(record, summarise))
    {
      ConcatMapNext(records, i, record => Entry(record, summarise));
      var record := records[i];
      var date := FormatDate(record.dateTime.GetOr("Unknown date"));
      var person1 := record.person1.GetOr("");
      var person2 := record.person2.GetOr("");
      var notes := record.notes.GetOr("");
      var text := SummaryText(notes, summarise(notes));
      var points := Bullets(text);
      var formatted := FormatBullets(points);
      var paragraph := "<p><strong>" + date + " " + person1 + " & " + person2 + "</strong>" + formatted + "</p>";
      EntryFromParts(record, summarise, date, formatted);
      summary := summary + paragraph;
    }
    assert records[..|records|] == records;
  }
}
