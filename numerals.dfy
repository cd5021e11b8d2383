/**
 * Decimal and hexadecimal numerals as Python reads and writes them:
 * `str(n)`, `int(s)`, `int(s, 16)`, `format(n, '04x')` and
 * `bin(n).count('1')`. Only ASCII digits are modelled.
 */
module Numerals {
  import opened Wrappers
  import opened Text

  predicate IsDigit(c: char) { '0' <= c <= '9' }

  predicate IsHexDigit(c: char) { IsDigit(c) || 'a' <= c <= 'f' || 'A' <= c <= 'F' }

  predicate AllDigits(s: string) { forall k :: 0 <= k < |s| ==> IsDigit(s[k]) }

  predicate AllHexDigits(s: string) { forall k :: 0 <= k < |s| ==> IsHexDigit(s[k]) }

  function DigitValue(c: char): (d: nat)
    requires IsDigit(c)
    ensures d < 10
  {
    c as int - '0' as int
  }

  function HexDigitValue(c: char): (d: nat)
    requires IsHexDigit(c)
    ensures d < 16
    ensures IsDigit(c) ==> d == DigitValue(c)
  {
    if IsDigit(c) then DigitValue(c)
    else if 'a' <= c <= 'f' then c as int - 'a' as int + 10
    else c as int - 'A' as int + 10
  }

  /** The digit character for `d`; hexadecimal letters are lower case, as `format` writes them. */
  function DigitChar(d: nat): (c: char)
    requires d < 16
    ensures IsHexDigit(c) && HexDigitValue(c) == d
    ensures d < 10 <==> IsDigit(c)
    ensures !('A' <= c <= 'Z')
  {
    if d < 10 then ('0' as int + d) as char else ('a' as int + d - 10) as char
  }

  /** The value of a numeral written in `base`, most significant digit first. */
  function NumeralValue(s: string, base: nat): nat
    requires base == 10 || base == 16
    requires AllHexDigits(s)
    requires base == 10 ==> AllDigits(s)
    decreases |s|
  {
    if s == [] then 0
    else NumeralValue(s[..|s| - 1], base) * base + HexDigitValue(s[|s| - 1])
  }

  /** `str(n)` for a natural number. */
  function NatToString(n: nat): (r: string)
    ensures r != [] && AllDigits(r) && AllHexDigits(r)
    ensures NumeralValue(r, 10) == n
    ensures r[0] == '0' ==> r == "0"
    decreases n
  {
    if n < 10 then [DigitChar(n)]
    else
      var front := NatToString(n / 10);
      var r := front + [DigitChar(n % 10)];
      assert r[..|r| - 1] == front;
      r
  }

  /**
   * Numeral digits with single underscores allowed between two digits, the
   * form Python's `int` accepts for the digits of a number.
   */
  predicate IsDigitGroups(s: string, base: nat) {
    s != [] && DigitsOrUnderscores(s, base) &&
    forall k :: 0 <= k < |s| && s[k] == '_' ==> 0 < k < |s| - 1 && s[k - 1] != '_' && s[k + 1] != '_'
  }

  predicate DigitsOrUnderscores(s: string, base: nat) {
    forall k :: 0 <= k < |s| ==> s[k] == '_' || (if base == 10 then IsDigit(s[k]) else IsHexDigit(s[k]))
  }

  function RemoveUnderscores(s: string): (r: string)
    ensures forall k :: 0 <= k < |r| ==> r[k] != '_' && r[k] in s
    ensures (forall k :: 0 <= k < |s| ==> s[k] != '_') ==> r == s
    decreases |s|
  {
    if s == [] then []
    else (if s[0] == '_' then [] else [s[0]]) + RemoveUnderscores(s[1..])
  }

  lemma {:induction false} DigitGroupsDigits(s: string, base: nat)
    requires base == 10 || base == 16
    requires DigitsOrUnderscores(s, base)
    ensures AllHexDigits(RemoveUnderscores(s))
    ensures base == 10 ==> AllDigits(RemoveUnderscores(s))
    decreases |s|
  {
    if s != [] {
      DigitGroupsDigits(s[1..], base);
    }
  }

  /** A signed decimal numeral with its surrounding whitespace removed. */
  function SignedValue(t: string): Option<int> {
    var negative := t != [] && t[0] == '-';
    var body := if t != [] && (t[0] == '-' || t[0] == '+') then t[1..] else t;
    if IsDigitGroups(body, 10) then
      DigitGroupsDigits(body, 10);
      var magnitude: int := NumeralValue(RemoveUnderscores(body), 10);
      Some(if negative then -magnitude else magnitude)
    else None
  }

  /** Python's `int(s)`: surrounding whitespace, an optional sign, digits in underscore-separated groups; otherwise `ValueError` (None). */
  function ParseInt(s: string): (r: Option<int>)
    ensures s != [] && AllDigits(s) ==> r == Some(NumeralValue(s, 10))
    ensures r.Some? && r.value < 0 ==> Strip(s) != [] && Strip(s)[0] == '-'
    ensures Strip(s) == [] ==> r == None
  {
    if s != [] && AllDigits(s) then
      assert forall k :: 0 <= k < |s| ==> !IsSpace(s[k]) && s[k] != '_';
      TrimmedAlready(s, IsSpace);
      assert IsDigitGroups(s, 10);
      SignedValue(Strip(s))
    else SignedValue(Strip(s))
  }

  /** Python's `int(t, 16)` for a token starting with "0x": the digits may start with one underscore. */
  function ParseHexPrefixed(t: string): (r: Option<nat>)
    requires StartsWith(t, "0x")
    ensures r.Some? ==> |t| > 2
  {
    var digits := t[2..];
    var body := if digits != [] && digits[0] == '_' then digits[1..] else digits;
    if IsDigitGroups(body, 16) then
      DigitGroupsDigits(body, 16);
      Some(NumeralValue(RemoveUnderscores(body), 16))
    else None
  }

  /** `format(n, '04x')`: at least four lower-case hexadecimal digits. */
  function Hex4(n: nat): (r: string)
    requires n < 0x1_0000
    ensures |r| == 4 && AllHexDigits(r)
    ensures NumeralValue(r, 16) == n
  {
    var q1 := n / 16;
    var q2 := q1 / 16;
    var r := [DigitChar(q2 / 16), DigitChar(q2 % 16), DigitChar(q1 % 16), DigitChar(n % 16)];
    assert r[..1][..0] == [];
    assert NumeralValue(r[..1], 16) == q2 / 16;
    assert r[..2][..1] == r[..1];
    assert NumeralValue(r[..2], 16) == q2;
    assert r[..3][..2] == r[..2];
    assert NumeralValue(r[..3], 16) == q1;
    assert r[..4][..3] == r[..3];
    r
  }

  /** `bin(n).count('1')`: the number of one bits of `n`. */
  function PopCount(n: nat): nat {
    if n == 0 then 0 else n % 2 + PopCount(n / 2)
  }

  lemma PopCountBit(a: nat, b: nat)
    requires b < 2
    ensures PopCount(2 * a + b) == PopCount(a) + b
  {
  }

  /** One hexadecimal digit adds its own four bits. */
  lemma PopCountDigit(a: nat, d: nat)
    requires d < 16
    ensures PopCount(16 * a + d) == PopCount(a) + PopCount(d)
  {
    var b0, h1 := d % 2, d / 2;
    var b1, h2 := h1 % 2, h1 / 2;
    var b2, b3 := h2 % 2, h2 / 2;
    assert b3 < 2;
    PopCountBit(8 * a + h1, b0);
    PopCountBit(4 * a + h2, b1);
    PopCountBit(2 * a + b3, b2);
    PopCountBit(a, b3);
    PopCountBit(h1, b0);
    PopCountBit(h2, b1);
    PopCountBit(b3, b2);
    PopCountBit(0, b3);
  }

  /** The one bits of a hexadecimal numeral, digit by digit. */
  function HexOnes(s: string): nat
    requires AllHexDigits(s)
    decreases |s|
  {
    if s == [] then 0 else HexOnes(s[..|s| - 1]) + PopCount(HexDigitValue(s[|s| - 1]))
  }

  lemma {:induction false} PopCountHex(s: string)
    requires AllHexDigits(s)
    ensures PopCount(NumeralValue(s, 16)) == HexOnes(s)
    decreases |s|
  {
    if s != [] {
      PopCountHex(s[..|s| - 1]);
      PopCountDigit(NumeralValue(s[..|s| - 1], 16), HexDigitValue(s[|s| - 1]));
    }
  }

  lemma NetmaskDigits()
    ensures AllHexDigits("ffffff00")
    ensures HexOnes("ffffff00") == 24
  {
    assert PopCount(HexDigitValue('f')) == 4 && PopCount(HexDigitValue('0')) == 0;
    var s0: string := [];
    HexOnesAppend(s0, 'f');
    var s1 := s0 + ['f'];
    HexOnesAppend(s1, 'f');
    var s2 := s1 + ['f'];
    HexOnesAppend(s2, 'f');
    var s3 := s2 + ['f'];
    HexOnesAppend(s3, 'f');
    var s4 := s3 + ['f'];
    HexOnesAppend(s4, 'f');
    var s5 := s4 + ['f'];
    HexOnesAppend(s5, 'f');
    var s6 := s5 + ['f'];
    HexOnesAppend(s6, '0');
    var s7 := s6 + ['0'];
    HexOnesAppend(s7, '0');
    assert s7 + ['0'] == "ffffff00";
  }

  /** One more digit adds its one bits. */
  lemma HexOnesAppend(s: string, c: char)
    requires AllHexDigits(s) && IsHexDigit(c)
    ensures AllHexDigits(s + [c])
    ensures HexOnes(s + [c]) == HexOnes(s) + PopCount(HexDigitValue(c))
  {
    assert (s + [c])[..|s|] == s;
  }

  /** `int(t, 16)` reads "0x" followed by plain hexadecimal digits as the value of those digits. */
  lemma ParseHexPlain(t: string)
    requires |t| > 2 && StartsWith(t, "0x") && AllHexDigits(t[2..])
    ensures ParseHexPrefixed(t) == Some(NumeralValue(t[2..], 16))
  {
    var digits := t[2..];
    assert forall k :: 0 <= k < |digits| ==> digits[k] != '_';
    assert IsDigitGroups(digits, 16);
  }

  /** The macOS netmask `0xffffff00` has 24 one bits. */
  lemma NetmaskPrefixLength()
    ensures ParseHexPrefixed("0xffffff00").Some?
    ensures PopCount(ParseHexPrefixed("0xffffff00").value) == 24
  {
    var t := "0xffffff00";
    assert t[2..] == "ffffff00";
    NetmaskDigits();
    ParseHexPlain(t);
    PopCountHex("ffffff00");
  }

  /** `int(str(n)) == n`. */
  lemma ParseIntNatToString(n: nat)
    ensures ParseInt(NatToString(n)) == Some(n)
  {
    var s := NatToString(n);
  }
}
