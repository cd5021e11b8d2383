/**
 * The daily data-insight page (pull_daily_data_insight.py): from the
 * latest insight's parsed markup it picks the widest desktop image, then
 * rewrites the date, the headline and the image source of the local page.
 * Fetching and parsing the remote page, the clock and the file are
 * parameters.
 */
module DataInsight {
  import opened Wrappers
  import opened Text
  import Numerals

  /** A `<source>` element: its `srcset` attribute, if it has one. */
  datatype SourceTag = SourceTag(srcset: Option<string>)

  /** The image block of the insight: missing, without a `<picture>`, or the picture's sources. */
  datatype ImageBlock = NoFigure | NoPicture | Picture(sources: seq<SourceTag>)

  /** The most recent insight: missing, or its headline (if found) and image block. */
  datatype Insight = NoInsight | Insight(title: Option<string>, image: ImageBlock)

  const SiteRoot := "https://ourworldindata.org"

  predicate IsDesktop(tag: SourceTag) {
    tag.srcset.Some? && Contains(tag.srcset.value, "desktop")
  }

  /** The first source whose `srcset` mentions "desktop". */
  function FirstDesktop(sources: seq<SourceTag>): (r: Option<nat>)
    ensures r.Some? ==> r.value < |sources| && IsDesktop(sources[r.value])
    ensures r.Some? ==> forall k :: 0 <= k < r.value ==> !IsDesktop(sources[k])
    ensures r.None? ==> forall k :: 0 <= k < |sources| ==> !IsDesktop(sources[k])
    decreases |sources|
  {
    if sources == [] then None
    else if IsDesktop(sources[0]) then Some(0)
    else
      match FirstDesktop(sources[1..])
      case None => None
      case Some(k) => Some(k + 1)
  }

  /** The loop that looks for the desktop source and stops at the first. */
  method FindDesktopSource(sources: seq<SourceTag>) returns (found: Option<SourceTag>)
    ensures found.Some? <==> FirstDesktop(sources).Some?
    ensures found.Some? ==> found.value == sources[FirstDesktop(sources).value]
  {
    found := None;
    var i := 0;
    while i < |sources|
      invariant 0 <= i <= |sources|
      invariant forall k :: 0 <= k < i ==> !IsDesktop(sources[k])
    {
      if sources[i].srcset.Some? && Contains(sources[i].srcset.value, "desktop") {
        found := Some(sources[i]);
        FirstDesktopAt(sources, i);
        return;
      }
      i := i + 1;
    }
  }

  lemma FirstDesktopAt(sources: seq<SourceTag>, i: nat)
    requires i < |sources| && IsDesktop(sources[i])
    requires forall k :: 0 <= k < i ==> !IsDesktop(sources[k])
    ensures FirstDesktop(sources) == Some(i)
  {
    var r := FirstDesktop(sources);
    assert r.Some?;
    assert !(r.value < i) && !(i < r.value);
  }

  /**
   * What one `srcset` entry offers: not an image with a width, a width `int`
   * cannot read, or a URL with its width. The error for an unreadable width
   * keeps the fixed part of Python's `ValueError` message; the `: '<text>'`
   * suffix naming the offending text is not carried.
   */
  datatype Candidate = NotCandidate | BadWidth | Candidate(url: string, width: int)

  /** An entry `url 800w`: at least two space-separated parts, the second ending in 'w'. */
  function Candidacy(entry: string): (c: Candidate)
    ensures c.Candidate? ==> |Split(entry, " ")| >= 2 && c.url == Split(entry, " ")[0]
  {
    var parts := Split(entry, " ");
    if |parts| >= 2 && EndsWith(parts[1], "w") then
      match Numerals.ParseInt(parts[1][..|parts[1]| - 1])
      case None => BadWidth
      case Some(width) => Candidate(parts[0], width)
    else NotCandidate
  }

  /** The `srcset` entries with surrounding whitespace removed. */
  function Entries(srcset: string): (r: seq<string>)
    ensures |r| == |Split(srcset, ",")|
  {
    var pieces := Split(srcset, ",");
    seq(|pieces|, k requires 0 <= k < |pieces| => Strip(pieces[k]))
  }

  function Candidates(srcset: string): (r: seq<Candidate>)
    ensures |r| == |Entries(srcset)|
    ensures forall k :: 0 <= k < |r| ==> r[k] == Candidacy(Entries(srcset)[k])
  {
    var entries := Entries(srcset);
    seq(|entries|, k requires 0 <= k < |entries| => Candidacy(entries[k]))
  }

  /**
   * The widest candidate, scanning in order from width 0: a candidate
   * replaces the current choice only when strictly wider, so the earliest
   * of equally wide ones stays, and a width of 0 or less is never chosen.
   * An unreadable width raises.
   */
  function Widest(cands: seq<Candidate>): (r: Result<(int, Option<string>)>)
    decreases |cands|
  {
    if cands == [] then Ok((0, None))
    else Consider(Widest(cands[..|cands| - 1]), cands[|cands| - 1])
  }

  /** One step of the scan: an unreadable width raises; a strictly wider candidate takes over. */
  function Consider(sofar: Result<(int, Option<string>)>, c: Candidate): Result<(int, Option<string>)> {
    if sofar.Err? then sofar
    else if c.BadWidth? then Err("invalid literal for int() with base 10")
    else if c.Candidate? && c.width > sofar.value.0 then Ok((c.width, Some(c.url)))
    else sofar
  }

  /**
   * The scan fails exactly when some width is unreadable. Otherwise the
   * chosen width is at least every candidate's width; when a URL is chosen
   * its width is positive and it is the first candidate that wide; when
   * none is, no candidate has a positive width.
   */
  lemma {:induction false} WidestIsFirstMaximum(cands: seq<Candidate>)
    ensures var r := Widest(cands);
      (r.Ok? <==> forall k :: 0 <= k < |cands| ==> !cands[k].BadWidth?) &&
      (r.Ok? ==> r.value.0 >= 0) &&
      (r.Ok? ==> forall k :: 0 <= k < |cands| && cands[k].Candidate? ==> cands[k].width <= r.value.0) &&
      (r.Ok? && r.value.1.None? ==> r.value.0 == 0) &&
      (r.Ok? && r.value.1.Some? ==>
        r.value.0 > 0 && exists k :: 0 <= k < |cands| && IsFirstWidest(cands, k, r.value.1.value, r.value.0))
    decreases |cands|
  {
    if cands != [] {
      var front := cands[..|cands| - 1];
      var last := cands[|cands| - 1];
      WidestIsFirstMaximum(front);
      var sofar := Widest(front);
      assert forall k :: 0 <= k < |front| ==> front[k] == cands[k];
      if sofar.Ok? && last.Candidate? && last.width > sofar.value.0 {
        assert IsFirstWidest(cands, |cands| - 1, last.url, last.width);
      } else if sofar.Ok? && !last.BadWidth? && sofar.value.1.Some? {
        var k :| 0 <= k < |front| && IsFirstWidest(front, k, sofar.value.1.value, sofar.value.0);
        assert IsFirstWidest(cands, k, sofar.value.1.value, sofar.value.0);
      }
    }
  }

  /** Candidate `k` has this URL and width, and every earlier candidate is narrower. */
  predicate IsFirstWidest(cands: seq<Candidate>, k: nat, url: string, width: int) {
    k < |cands| && cands[k] == Candidate(url, width) &&
    forall j :: 0 <= j < k && cands[j].Candidate? ==> cands[j].width < width
  }

  /** The image URL `update_insight` settles on, before the site root is added. */
  function ChooseImage(srcset: string): (r: Result<string>)
    ensures var w := Widest(Candidates(srcset));
      r.Ok? <==> w.Ok? && w.value.1.Some? && w.value.1.value != []
    ensures var w := Widest(Candidates(srcset));
      r.Ok? ==> r.value == w.value.1.value
    ensures var w := Widest(Candidates(srcset));
      w.Err? ==> r == Err(w.message)
    ensures var w := Widest(Candidates(srcset));
      w.Ok? && (w.value.1.None? || w.value.1.value == []) ==> r == Err("Could not find valid image URL")
  {
    var widest := Widest(Candidates(srcset));
    if widest.Err? then Err(widest.message)
    else
      var url := widest.value.1;
      if url.None? || url.value == [] then Err("Could not find valid image URL") else Ok(url.value)
  }

  /** An unreadable width is the only way the scan fails, and it fails with `int()`'s message. */
  lemma {:induction false} WidestErrMessage(cands: seq<Candidate>)
    ensures Widest(cands).Err? ==> Widest(cands).message == "invalid literal for int() with base 10"
    decreases |cands|
  {
    if cands != [] {
      WidestErrMessage(cands[..|cands| - 1]);
    }
  }

  /**
   * The chosen image is the first of the widest candidates, with a positive
   * width no candidate exceeds; an unreadable width makes the choice fail
   * with `int()`'s message; when no width is positive there is no valid
   * image URL.
   */
  lemma ChooseImageWidest(srcset: string)
    ensures var cands := Candidates(srcset);
      var r := ChooseImage(srcset);
      r.Ok? ==>
        (forall k :: 0 <= k < |cands| ==> !cands[k].BadWidth?) &&
        Widest(cands).value.0 > 0 &&
        (exists k :: 0 <= k < |cands| && IsFirstWidest(cands, k, r.value, Widest(cands).value.0)) &&
        (forall j :: 0 <= j < |cands| && cands[j].Candidate? ==> cands[j].width <= Widest(cands).value.0)
    ensures var cands := Candidates(srcset);
      (exists k :: 0 <= k < |cands| && cands[k].BadWidth?) ==>
        ChooseImage(srcset) == Err("invalid literal for int() with base 10")
    ensures var cands := Candidates(srcset);
      (forall k :: 0 <= k < |cands| ==> !cands[k].BadWidth? && (cands[k].Candidate? ==> cands[k].width <= 0)) ==>
        ChooseImage(srcset) == Err("Could not find valid image URL")
  {
    var cands := Candidates(srcset);
    WidestIsFirstMaximum(cands);
    WidestErrMessage(cands);
  }

  /** The loop over the `srcset` entries that keeps the widest image. */
  method HighestResUrl(srcset: string) returns (r: Result<string>)
    ensures r == ChooseImage(srcset)
  {
    var entries := Entries(srcset);
    var cands := Candidates(srcset);
    var highestWidth := 0;
    var highestUrl: Option<string> := None;
    var i := 0;
    while i < |entries|
      invariant 0 <= i <= |entries|
      invariant Widest(cands[..i]) == Ok((highestWidth, highestUrl))
    {
      WidestNext(cands, i);
      assert cands[i] == Candidacy(entries[i]);
      var parts := Split(entries[i], " ");
      if |parts| >= 2 && EndsWith(parts[1], "w") {
        var width := Numerals.ParseInt(parts[1][..|parts[1]| - 1]);
        if width.None? {
          WidestStaysFailed(cands, i + 1);
          return Err("invalid literal for int() with base 10");
        }
        if width.value > highestWidth {
          highestWidth := width.value;
          highestUrl := Some(parts[0]);
        }
      }
      i := i + 1;
    }
    assert cands[..|entries|] == cands;
    assert Widest(Candidates(srcset)) == Ok((highestWidth, highestUrl));
    if highestUrl.None? || highestUrl.value == [] {
      return Err("Could not find valid image URL");
    }
    return Ok(highestUrl.value);
  }

  lemma WidestNext(cands: seq<Candidate>, i: nat)
    requires i < |cands|
    ensures Widest(cands[..i + 1]) == Consider(Widest(cands[..i]), cands[i])
  {
    assert cands[..i + 1][..i] == cands[..i];
  }

  lemma {:induction false} WidestStaysFailed(cands: seq<Candidate>, n: nat)
    requires n <= |cands| && Widest(cands[..n]).Err?
    ensures Widest(cands) == Widest(cands[..n])
    decreases |cands| - n
  {
    if n < |cands| {
      assert cands[..n + 1][..n] == cands[..n];
      WidestStaysFailed(cands, n + 1);
    } else {
      assert cands[..n] == cands;
    }
  }

  /** A root-relative URL gets the site root in front; any other URL is kept. */
  function Absolute(url: string): (r: string)
    ensures StartsWith(url, "/") ==> r == SiteRoot + url && EndsWith(r, url)
    ensures !StartsWith(url, "/") ==> r == url
  {
    if StartsWith(url, "/") then SiteRoot + url else url
  }

  // ------------------------------------------------------ substitutions

  /** The end of the run of characters other than `stop` that starts at `i`. */
  function RunEnd(s: string, i: nat, stop: char): (j: nat)
    requires i <= |s|
    ensures i <= j <= |s| && (j < |s| ==> s[j] == stop)
    ensures forall k :: i <= k < j ==> s[k] != stop
    decreases |s| - i
  {
    if i == |s| || s[i] == stop then i else RunEnd(s, i + 1, stop)
  }

  /**
   * Where a match of `open [^stop]* close` that starts at `i` ends, if one
   * does. Every character the run skips differs from `stop` and `close`
   * starts with `stop`, so the run is always the longest one.
   */
  function MatchEnd(s: string, i: nat, open: string, stop: char, close: string): (r: Option<nat>)
    requires i <= |s|
    ensures r.Some? ==> i + |open| <= r.value <= |s|
  {
    if StartsWith(s[i..], open) then
      var j := RunEnd(s, i + |open|, stop);
      if StartsWith(s[j..], close) then Some(j + |close|) else None
    else None
  }

  /**
   * `re.sub(pattern, repl, s)` for a pattern `open [^stop]* close` with a
   * non-empty `open`: every match, left to right and not overlapping, is
   * replaced by `repl`.
   */
  function SubstituteFrom(s: string, i: nat, open: string, stop: char, close: string, repl: string): string
    requires i <= |s| && open != []
    decreases |s| - i
  {
    if i == |s| then []
    else
      match MatchEnd(s, i, open, stop, close)
      case Some(j) => repl + SubstituteFrom(s, j, open, stop, close, repl)
      case None => [s[i]] + SubstituteFrom(s, i + 1, open, stop, close, repl)
  }

  function Substitute(s: string, open: string, stop: char, close: string, repl: string): string
    requires open != []
  {
    SubstituteFrom(s, 0, open, stop, close, repl)
  }

  /** Where no match starts, one character is copied and the scan moves on. */
  lemma CopyStep(s: string, i: nat, open: string, stop: char, close: string, repl: string)
    requires i < |s| && open != [] && MatchEnd(s, i, open, stop, close).None?
    ensures SubstituteFrom(s, i, open, stop, close, repl) == [s[i]] + SubstituteFrom(s, i + 1, open, stop, close, repl)
  {
  }

  /** Text in which no match starts is left as it is. */
  lemma {:induction false} NoMatchUnchanged(s: string, i: nat, open: string, stop: char, close: string, repl: string)
    requires i <= |s| && open != []
    requires forall k :: i <= k <= |s| ==> MatchEnd(s, k, open, stop, close).None?
    ensures SubstituteFrom(s, i, open, stop, close, repl) == s[i..]
    decreases |s| - i
  {
    if i < |s| {
      NoMatchUnchanged(s, i + 1, open, stop, close, repl);
      CopyStep(s, i, open, stop, close, repl);
      assert s[i..] == [s[i]] + s[i + 1..];
    }
  }

  /** A match is replaced, and the scan goes on right after it. */
  lemma MatchReplaced(s: string, i: nat, open: string, stop: char, close: string, repl: string)
    requires i < |s| && open != [] && MatchEnd(s, i, open, stop, close).Some?
    ensures SubstituteFrom(s, i, open, stop, close, repl) ==
      repl + SubstituteFrom(s, MatchEnd(s, i, open, stop, close).value, open, stop, close, repl)
  {
  }

  /** Every match is replaced, not only the first: two matches give two replacements. */
  lemma BothMatchesReplaced(s: string, i1: nat, i2: nat, open: string, stop: char, close: string, repl: string)
    requires open != [] && i1 < |s|
    requires MatchEnd(s, i1, open, stop, close).Some?
    requires var j1 := MatchEnd(s, i1, open, stop, close).value;
      j1 <= i2 < |s| && MatchEnd(s, i2, open, stop, close).Some?
    requires forall k :: 0 <= k < i1 ==> MatchEnd(s, k, open, stop, close).None?
    requires forall k :: MatchEnd(s, i1, open, stop, close).value <= k < i2 ==> MatchEnd(s, k, open, stop, close).None?
    ensures var j1 := MatchEnd(s, i1, open, stop, close).value;
      var j2 := MatchEnd(s, i2, open, stop, close).value;
      Substitute(s, open, stop, close, repl) ==
        s[..i1] + repl + s[j1..i2] + repl + SubstituteFrom(s, j2, open, stop, close, repl)
  {
    var j1 := MatchEnd(s, i1, open, stop, close).value;
    var j2 := MatchEnd(s, i2, open, stop, close).value;
    var rest := SubstituteFrom(s, j2, open, stop, close, repl);
    SkipToMatch(s, j1, i2, open, stop, close, repl);
    MatchReplaced(s, i2, open, stop, close, repl);
    var middle := s[j1..i2] + (repl + rest);
    assert SubstituteFrom(s, j1, open, stop, close, repl) == middle;
    MatchReplaced(s, i1, open, stop, close, repl);
    SkipToMatch(s, 0, i1, open, stop, close, repl);
    assert s[0..i1] == s[..i1];
    Concat4(s[..i1], repl, s[j1..i2], rest);
  }

  /** Regrouping the pieces of a text with two replacements. */
  lemma Concat4(a: string, r: string, b: string, c: string)
    ensures a + (r + (b + (r + c))) == a + r + b + r + c
  {
  }

  /** Up to the next match the text is copied unchanged. */
  lemma {:induction false} SkipToMatch(s: string, i: nat, m: nat, open: string, stop: char, close: string, repl: string)
    requires open != [] && i <= m <= |s|
    requires forall k :: i <= k < m ==> MatchEnd(s, k, open, stop, close).None?
    ensures SubstituteFrom(s, i, open, stop, close, repl) == s[i..m] + SubstituteFrom(s, m, open, stop, close, repl)
    decreases m - i
  {
    if i < m {
      SkipToMatch(s, i + 1, m, open, stop, close, repl);
      CopyStep(s, i, open, stop, close, repl);
      ConsSlice(s, i, m, SubstituteFrom(s, m, open, stop, close, repl));
    }
  }

  /** Putting a character back in front of the slice that follows it. */
  lemma ConsSlice(s: string, i: nat, m: nat, rest: string)
    requires i < m <= |s|
    ensures [s[i]] + (s[i + 1..m] + rest) == s[i..m] + rest
  {
    assert s[i..m] == [s[i]] + s[i + 1..m];
  }

  /** The page's date line, headline and image source, each replaced wherever it occurs. */
  function RewritePage(page: string, date: string, title: string, imageUrl: string): string {
    var withDate := Substitute(page, "<div class=\"date\">", '<', "</div>", "<div class=\"date\">" + date + "</div>");
    var withTitle := Substitute(withDate, "<h1>", '<', "</h1>", "<h1>" + title + "</h1>");
    Substitute(withTitle, "<img src=\"", '"', "\"", "<img src=\"" + imageUrl + "\"")
  }

  /**
   * `update_insight`: the new page, or the message of the exception it
   * raises. `date` is today's date as "Month DD, YYYY".
   */
  function UpdateInsight(insight: Insight, date: string, page: string): (r: Result<string>)
    ensures insight.NoInsight? ==> r == Err("Could not find most recent insight")
    ensures insight.Insight? && insight.title.None? ==> r == Err("Could not find title")
    ensures insight.Insight? && insight.title.Some? && insight.image.NoFigure? ==>
      r == Err("Could not find article image block")
    ensures insight.Insight? && insight.title.Some? && insight.image.NoPicture? ==>
      r == Err("Could not find picture element in article block")
    ensures insight.Insight? && insight.title.Some? && insight.image.Picture? && FirstDesktop(insight.image.sources).None? ==>
      r == Err("Could not find desktop source in article block")
    ensures r.Ok? ==>
      insight.Insight? && insight.title.Some? && insight.image.Picture? && FirstDesktop(insight.image.sources).Some?
  {
    match insight
    case NoInsight => Err("Could not find most recent insight")
    case Insight(title, image) =>
      if title.None? then Err("Could not find title")
      else if image.NoFigure? then Err("Could not find article image block")
      else if image.NoPicture? then Err("Could not find picture element in article block")
      else
        match FirstDesktop(image.sources)
        case None => Err("Could not find desktop source in article block")
        case Some(k) =>
          match ChooseImage(image.sources[k].srcset.value)
          case Err(e) => Err(e)
          case Ok(url) => Ok(RewritePage(page, date, Strip(title.value), Absolute(url)))
  }

  /**
   * Once the first desktop source is found, the update fails exactly as
   * choosing its image does, and otherwise writes the stripped title, the
   * date and the absolute URL of the chosen image into the page.
   */
  lemma UpdateInsightOutcome(insight: Insight, date: string, page: string)
    ensures insight.Insight? && insight.title.Some? && insight.image.Picture? && FirstDesktop(insight.image.sources).Some? ==>
      var c := ChooseImage(insight.image.sources[FirstDesktop(insight.image.sources).value].srcset.value);
      UpdateInsight(insight, date, page) ==
        if c.Err? then Err(c.message) else Ok(RewritePage(page, date, Strip(insight.title.value), Absolute(c.value)))
  {
  }

  /** A `srcset` with widths 400 and 800 picks the 800-wide image. */
  lemma WidestExample()
    ensures Widest([Candidate("/a.png", 400), Candidate("/b.png", 800), NotCandidate]) == Ok((800, Some("/b.png")))
  {
    var cands := [Candidate("/a.png", 400), Candidate("/b.png", 800), NotCandidate];
    assert cands[..2][..1][..0] == [];
    assert Widest(cands[..2][..1]) == Ok((400, Some("/a.png")));
    assert Widest(cands[..2]) == Ok((800, Some("/b.png")));
  }
}
