/**
 * The string operations the system relies on, with the semantics of the
 * Python library calls it makes (`in`, `split`, `join`, `strip`,
 * `startswith`, `endswith`, `replace`, `zfill`, `lower`, `upper`).
 */
module Text {
  import opened Wrappers

  /** The characters Python's `str.isspace()` accepts; `split()` and `strip()` without arguments use them. */
  predicate IsSpace(c: char) {
    || c == ' '
    || ('\t' <= c <= '\r')
    || ('\U{1c}' <= c <= '\U{1f}')
    || c == '\U{85}' || c == '\U{a0}' || c == '\U{1680}'
    || ('\U{2000}' <= c <= '\U{200a}')
    || c == '\U{2028}' || c == '\U{2029}' || c == '\U{202f}' || c == '\U{205f}' || c == '\U{3000}'
  }

  predicate StartsWith(s: string, prefix: string) {
    |prefix| <= |s| && s[..|prefix|] == prefix
  }

  predicate EndsWith(s: string, suffix: string) {
    |suffix| <= |s| && s[|s| - |suffix|..] == suffix
  }

  /** `sub` occurs in `s` starting at index `i`. */
  predicate OccursAt(s: string, sub: string, i: int) {
    0 <= i && i + |sub| <= |s| && s[i..i + |sub|] == sub
  }

  function FindFrom(s: string, sub: string, from: nat): (r: Option<nat>)
    ensures r.Some? ==> from <= r.value && OccursAt(s, sub, r.value)
    ensures r.Some? ==> forall j :: from <= j < r.value ==> !OccursAt(s, sub, j)
    ensures r.None? ==> forall j :: from <= j ==> !OccursAt(s, sub, j)
    decreases |s| - from
  {
    if from + |sub| > |s| then None
    else if s[from..from + |sub|] == sub then Some(from)
    else FindFrom(s, sub, from + 1)
  }

  /** Index of the first occurrence of `sub` in `s` (Python `str.find`, with None for -1). */
  function Find(s: string, sub: string): (r: Option<nat>)
    ensures r.Some? ==> OccursAt(s, sub, r.value) && forall j :: 0 <= j < r.value ==> !OccursAt(s, sub, j)
    ensures r.None? ==> forall j :: !OccursAt(s, sub, j)
  {
    FindFrom(s, sub, 0)
  }

  /** Python's `sub in s`. */
  predicate Contains(s: string, sub: string) {
    Find(s, sub).Some?
  }

  /** Text put between two others occurs in the result. */
  lemma ContainsMiddle(a: string, sub: string, b: string)
    ensures Contains(a + sub + b, sub)
  {
    var s := a + sub + b;
    assert s[|a|..|a| + |sub|] == sub;
    assert OccursAt(s, sub, |a|);
  }

  /** Python's `sep.join(parts)`. */
  function Join(parts: seq<string>, sep: string): string {
    if parts == [] then []
    else if |parts| == 1 then parts[0]
    else parts[0] + sep + Join(parts[1..], sep)
  }

  lemma JoinCons(x: string, parts: seq<string>, sep: string)
    requires parts != []
    ensures Join([x] + parts, sep) == x + sep + Join(parts, sep)
  {
    assert ([x] + parts)[1..] == parts;
  }

  /** Text put in front of a join lands on its first piece. */
  lemma JoinPrependFirst(x: string, parts: seq<string>, sep: string)
    requires parts != []
    ensures x + Join(parts, sep) == Join([x + parts[0]] + parts[1..], sep)
  {
    if |parts| > 1 {
      JoinCons(x + parts[0], parts[1..], sep);
    }
  }

  /** Text put after a join lands on its last piece. */
  lemma {:induction false} JoinAppendLast(parts: seq<string>, y: string, sep: string)
    requires parts != []
    ensures Join(parts, sep) + y == Join(parts[..|parts| - 1] + [parts[|parts| - 1] + y], sep)
    decreases |parts|
  {
    var n := |parts|;
    if n > 1 {
      JoinAppendLast(parts[1..], y, sep);
      var tail := parts[1..][..n - 2] + [parts[n - 1] + y];
      assert parts[..n - 1] + [parts[n - 1] + y] == [parts[0]] + tail;
      JoinCons(parts[0], tail, sep);
    }
  }

  /** Three pieces joined: `a + sep + b + sep + c`. */
  lemma JoinThree(a: string, b: string, c: string, sep: string)
    ensures Join([a, b, c], sep) == a + sep + b + sep + c
  {
    JoinCons(b, [c], sep);
    JoinCons(a, [b, c], sep);
    assert [a] + [b, c] == [a, b, c] && [b] + [c] == [b, c];
  }

  lemma OccursInPrefix(s: string, sub: string, i: nat, j: int)
    requires i <= |s| && OccursAt(s[..i], sub, j)
    ensures OccursAt(s, sub, j) && j + |sub| <= i
  {
    assert s[..i][j..j + |sub|] == s[j..j + |sub|];
  }

  /**
   * Python's `s.split(sep)` for a non-empty separator: the pieces between
   * the occurrences of `sep`, found left to right.  Joining them back with
   * `sep` gives `s`, and no piece contains `sep`.
   */
  function Split(s: string, sep: string): (r: seq<string>)
    requires sep != []
    ensures |r| >= 1
    decreases |s|
  {
    match Find(s, sep)
    case None => [s]
    case Some(i) => [s[..i]] + Split(s[i + |sep|..], sep)
  }

  /** Joining the pieces back with `sep` gives `s`. */
  lemma {:induction false} SplitJoinsBack(s: string, sep: string)
    requires sep != []
    ensures Join(Split(s, sep), sep) == s
    decreases |s|
  {
    if Find(s, sep).Some? {
      var i := Find(s, sep).value;
      var rest := s[i + |sep|..];
      SplitJoinsBack(rest, sep);
      assert Split(s, sep) == [s[..i]] + Split(rest, sep);
      JoinCons(s[..i], Split(rest, sep), sep);
      assert s[i..i + |sep|] == sep;
      Reassemble(s, i, i + |sep|);
    }
  }

  /** A text is its prefix, a middle slice and its suffix. */
  lemma Reassemble(s: string, i: nat, j: nat)
    requires i <= j <= |s|
    ensures s == s[..i] + s[i..j] + s[j..]
  {
  }

  /** No piece contains `sep`. */
  lemma {:induction false} SplitPiecesFree(s: string, sep: string)
    requires sep != []
    ensures forall k :: 0 <= k < |Split(s, sep)| ==> !Contains(Split(s, sep)[k], sep)
    decreases |s|
  {
    if Find(s, sep).Some? {
      var i := Find(s, sep).value;
      var rest := s[i + |sep|..];
      SplitPiecesFree(rest, sep);
      if Contains(s[..i], sep) {
        var j := Find(s[..i], sep).value;
        OccursInPrefix(s, sep, i, j);
        assert false;
      }
      var r := Split(s, sep);
      assert r == [s[..i]] + Split(rest, sep);
      forall k | 0 <= k < |r| ensures !Contains(r[k], sep) {
        if k > 0 { assert r[k] == Split(rest, sep)[k - 1]; }
      }
    }
  }

  /** Both properties of a split. */
  lemma SplitPieces(s: string, sep: string)
    requires sep != []
    ensures Join(Split(s, sep), sep) == s
    ensures forall k :: 0 <= k < |Split(s, sep)| ==> !Contains(Split(s, sep)[k], sep)
  {
    SplitJoinsBack(s, sep);
    SplitPiecesFree(s, sep);
  }

  /** A separator that starts the text and does not occur again splits it into the empty piece and the rest. */
  lemma SplitAfterLeading(sep: string, rest: string)
    requires sep != [] && !Contains(rest, sep)
    ensures Contains(sep + rest, sep)
    ensures Split(sep + rest, sep) == ["", rest]
  {
    var line := sep + rest;
    assert OccursAt(line, sep, 0) by { assert line[..|sep|] == sep; }
    assert Find(line, sep) == Some(0);
    assert line[|sep|..] == rest && line[..0] == "";
  }

  /** Python's `s.split("\n")`. */
  function Lines(s: string): (r: seq<string>)
    ensures |r| >= 1
  {
    Split(s, "\n")
  }

  /** Splitting `x + sep + y` where `x` does not contain the separator's first character peels off `x`. */
  lemma {:induction false} SplitCons(x: string, y: string, sep: string)
    requires sep != [] && sep[0] !in x
    ensures Split(x + sep + y, sep) == [x] + Split(y, sep)
  {
    var s := x + sep + y;
    assert OccursAt(s, sep, |x|) by { assert s[|x|..|x| + |sep|] == sep; }
    forall j | 0 <= j < |x| ensures !OccursAt(s, sep, j) {
      assert s[j] == x[j];
      if j + |sep| <= |s| { assert s[j..j + |sep|][0] == s[j]; }
    }
    assert Find(s, sep) == Some(|x|);
    assert s[..|x|] == x && s[|x| + |sep|..] == y;
  }

  /** Joining pieces that do not contain the separator's first character and splitting again gives the pieces back. */
  lemma {:induction false} SplitJoin(parts: seq<string>, sep: string)
    requires sep != [] && |parts| >= 1
    requires forall k :: 0 <= k < |parts| ==> sep[0] !in parts[k]
    ensures Split(Join(parts, sep), sep) == parts
    decreases |parts|
  {
    if |parts| == 1 {
      var s := parts[0];
      forall j | 0 <= j < |s| ensures !OccursAt(s, sep, j) {
        assert s[j] in s;
        if j + |sep| <= |s| { assert s[j..j + |sep|][0] == s[j]; }
      }
    } else {
      SplitJoin(parts[1..], sep);
      SplitCons(parts[0], Join(parts[1..], sep), sep);
      assert parts == [parts[0]] + parts[1..];
    }
  }

  /** Index one past the run of non-whitespace characters starting at `i`. */
  function WordEnd(s: string, i: nat): (n: nat)
    requires i <= |s|
    ensures i <= n <= |s| && (n < |s| ==> IsSpace(s[n]))
    ensures forall k :: i <= k < n ==> !IsSpace(s[k])
    decreases |s| - i
  {
    if i == |s| || IsSpace(s[i]) then i else WordEnd(s, i + 1)
  }

  /** A word of `split()`: non-empty, with no whitespace character. */
  predicate IsWord(w: string) {
    w != [] && forall c :: c in w ==> !IsSpace(c)
  }

  /**
   * Python's `s.split()`: the maximal runs of non-whitespace characters, in
   * order; every word is non-empty and holds no whitespace.
   */
  function Words(s: string): (r: seq<string>)
    ensures forall k :: 0 <= k < |r| ==> IsWord(r[k])
    decreases |s|
  {
    if s == [] then []
    else if IsSpace(s[0]) then Words(s[1..])
    else
      var n := WordEnd(s, 0);
      [s[..n]] + Words(s[n..])
  }

  /** A word followed by a space and more text splits into that word and the words of the rest. */
  lemma {:induction false} WordsCons(w: string, rest: string)
    requires IsWord(w)
    ensures Words(w + " " + rest) == [w] + Words(rest)
  {
    var s := w + " " + rest;
    assert forall k :: 0 <= k < |w| ==> s[k] == w[k];
    assert WordEnd(s, 0) == |w| by {
      WordEndAt(s, 0, |w|);
    }
    assert s[..|w|] == w;
    assert Words(s[|w|..]) == Words(rest) by {
      assert s[|w|..][1..] == rest;
    }
  }

  lemma {:induction false} WordEndAt(s: string, i: nat, n: nat)
    requires i <= n < |s| && IsSpace(s[n])
    requires forall k :: i <= k < n ==> !IsSpace(s[k])
    ensures WordEnd(s, i) == n
    decreases n - i
  {
    if i < n { WordEndAt(s, i + 1, n); }
  }

  /** Joining non-empty, whitespace-free words with single spaces and splitting again gives the words back. */
  lemma {:induction false} WordsJoin(ws: seq<string>)
    requires forall k :: 0 <= k < |ws| ==> IsWord(ws[k])
    ensures Words(Join(ws, " ")) == ws
    decreases |ws|
  {
    if ws == [] {
    } else if |ws| == 1 {
      var w := ws[0];
      forall k | 0 <= k < |w| ensures !IsSpace(w[k]) { assert w[k] in w; }
      assert w[..|w|] == w && w[|w|..] == [];
    } else {
      WordsJoin(ws[1..]);
      WordsCons(ws[0], Join(ws[1..], " "));
      assert ws == [ws[0]] + ws[1..];
    }
  }

  /** Drops the leading characters that satisfy `drop` (Python `lstrip`). */
  function TrimStart(s: string, drop: char -> bool): (r: string)
    ensures EndsWith(s, r)
    ensures r != [] ==> !drop(r[0])
    ensures forall k :: 0 <= k < |s| - |r| ==> drop(s[k])
    decreases |s|
  {
    if s != [] && drop(s[0]) then TrimStart(s[1..], drop) else s
  }

  /** Drops the trailing characters that satisfy `drop` (Python `rstrip`). */
  function TrimEnd(s: string, drop: char -> bool): (r: string)
    ensures StartsWith(s, r)
    ensures r != [] ==> !drop(r[|r| - 1])
    ensures forall k :: |r| <= k < |s| ==> drop(s[k])
    decreases |s|
  {
    if s != [] && drop(s[|s| - 1]) then TrimEnd(s[..|s| - 1], drop) else s
  }

  /** Python's `s.strip()`: whitespace removed from both ends. */
  function Strip(s: string): string {
    TrimEnd(TrimStart(s, IsSpace), IsSpace)
  }

  /** Python's `s.strip(chars)`. */
  function StripChars(s: string, chars: set<char>): string {
    TrimEnd(TrimStart(s, MemberOf(chars)), MemberOf(chars))
  }

  /** Membership in `chars`, as the test `strip` applies to each end character. */
  function MemberOf(chars: set<char>): (f: char -> bool)
    ensures forall c :: f(c) <==> c in chars
  {
    c => c in chars
  }

  /** A string that neither starts nor ends with a character `drop` accepts is left alone by trimming. */
  lemma TrimmedAlready(s: string, drop: char -> bool)
    requires s != [] ==> !drop(s[0]) && !drop(s[|s| - 1])
    ensures TrimEnd(TrimStart(s, drop), drop) == s
  {
  }

  lemma {:induction false} TrimStartPast(pre: string, s: string, drop: char -> bool)
    requires forall k :: 0 <= k < |pre| ==> drop(pre[k])
    ensures TrimStart(pre + s, drop) == TrimStart(s, drop)
    decreases |pre|
  {
    if pre != [] {
      assert (pre + s)[0] == pre[0] && drop(pre[0]);
      assert (pre + s)[1..] == pre[1..] + s;
      TrimStartPast(pre[1..], s, drop);
    } else {
      assert pre + s == s;
    }
  }

  lemma {:induction false} TrimEndPast(s: string, post: string, drop: char -> bool)
    requires forall k :: 0 <= k < |post| ==> drop(post[k])
    ensures TrimEnd(s + post, drop) == TrimEnd(s, drop)
    decreases |post|
  {
    if post != [] {
      assert (s + post)[|s + post| - 1] == post[|post| - 1] && drop(post[|post| - 1]);
      assert (s + post)[..|s + post| - 1] == s + post[..|post| - 1];
      TrimEndPast(s, post[..|post| - 1], drop);
    } else {
      assert s + post == s;
    }
  }

  /** Trimming removes exactly a droppable prefix and suffix around a core that starts and ends with a kept character. */
  lemma TrimAround(pre: string, s: string, post: string, drop: char -> bool)
    requires forall k :: 0 <= k < |pre| ==> drop(pre[k])
    requires forall k :: 0 <= k < |post| ==> drop(post[k])
    requires s != [] && !drop(s[0]) && !drop(s[|s| - 1])
    ensures TrimEnd(TrimStart(pre + s + post, drop), drop) == s
  {
    assert pre + s + post == pre + (s + post);
    TrimStartPast(pre, s + post, drop);
    assert (s + post)[0] == s[0];
    TrimEndPast(s, post, drop);
  }

  /** Python's `replacement.join(s.split(target))`, which is what `s.replace(target, replacement)` computes. */
  function ReplaceAll(s: string, target: string, replacement: string): string
    requires target != []
  {
    Join(Split(s, target), replacement)
  }

  function Repeat(c: char, n: nat): (r: string)
    ensures |r| == n && forall k :: 0 <= k < n ==> r[k] == c
  {
    if n == 0 then [] else [c] + Repeat(c, n - 1)
  }

  /**
   * Python's `s.zfill(width)`: left-padded with '0' to `width`, the padding
   * going after a leading '+' or '-'.
   */
  function ZFill(s: string, width: nat): (r: string)
    ensures |s| >= width ==> r == s
    ensures |s| < width ==> |r| == width
  {
    if |s| >= width then s
    else if s != [] && (s[0] == '+' || s[0] == '-') then [s[0]] + Repeat('0', width - |s|) + s[1..]
    else Repeat('0', width - |s|) + s
  }

  function LowerChar(c: char): char {
    if 'A' <= c <= 'Z' then (c as int - 'A' as int + 'a' as int) as char else c
  }

  function UpperChar(c: char): char {
    if 'a' <= c <= 'z' then (c as int - 'a' as int + 'A' as int) as char else c
  }

  /** `lower()` on ASCII letters. */
  function Lower(s: string): (r: string)
    ensures |r| == |s| && forall k :: 0 <= k < |s| ==> r[k] == LowerChar(s[k])
  {
    if s == [] then [] else [LowerChar(s[0])] + Lower(s[1..])
  }

  /** `upper()` on ASCII letters. */
  function Upper(s: string): (r: string)
    ensures |r| == |s| && forall k :: 0 <= k < |s| ==> r[k] == UpperChar(s[k])
  {
    if s == [] then [] else [UpperChar(s[0])] + Upper(s[1..])
  }

  /** The first position of `x` in `xs` (Python `list.index`, None where it raises). */
  function IndexOf<T(==)>(xs: seq<T>, x: T): (r: Option<nat>)
    ensures r.Some? ==> r.value < |xs| && xs[r.value] == x && x !in xs[..r.value]
    ensures r.None? ==> x !in xs
  {
    if xs == [] then None
    else if xs[0] == x then Some(0)
    else match IndexOf(xs[1..], x)
      case None => None
      case Some(i) =>
        assert xs[..i + 1] == [xs[0]] + xs[1..][..i];
        Some(i + 1)
  }
}
