/** String operations of the source's standard library that the codecs depend on. */
module Strings {
  import opened Prelude
  import opened Utf8
  import Radix

  /** Unicode White_Space, which `trim` removes. */
  predicate IsWhitespace(c: char) {
    var n := c as int;
    || 9 <= n <= 13 || n == 0x20 || n == 0x85 || n == 0xA0 || n == 0x1680
    || 0x2000 <= n <= 0x200A || n == 0x2028 || n == 0x2029 || n == 0x202F || n == 0x205F || n == 0x3000
  }

  function TrimStart(s: string): (r: string)
    ensures r == [] || !IsWhitespace(r[0])
    ensures |r| <= |s|
  {
    if s == [] || !IsWhitespace(s[0]) then s else TrimStart(s[1..])
  }

  function TrimEnd(s: string): (r: string)
    ensures r == [] || !IsWhitespace(r[|r| - 1])
    ensures r <= s
  {
    if s == [] || !IsWhitespace(s[|s| - 1]) then s else TrimEnd(s[..|s| - 1])
  }

  function Trim(s: string): (r: string) {
    TrimStart(TrimEnd(s))
  }

  /** No white space at either end. */
  predicate Trimmed(s: string) {
    s == [] || (!IsWhitespace(s[0]) && !IsWhitespace(s[|s| - 1]))
  }

  lemma TrimOfTrimmed(s: string)
    requires Trimmed(s)
    ensures Trim(s) == s && TrimStart(s) == s && TrimEnd(s) == s
  {
  }

  lemma {:induction false} TrimEndBlanks(s: string, k: nat)
    ensures TrimEnd(s + Repeat(' ', k)) == TrimEnd(s)
  {
    var all := s + Repeat(' ', k);
    if k == 0 {
      assert all == s;
    } else {
      assert all[..|all| - 1] == s + Repeat(' ', k - 1);
      TrimEndBlanks(s, k - 1);
    }
  }

  /** `trim_end_matches(c)`. */
  function DropEnd(s: string, c: char): (r: string) {
    if s == [] || s[|s| - 1] != c then s else DropEnd(s[..|s| - 1], c)
  }

  /** `trim_start_matches(c)`. */
  function DropStart(s: string, c: char): (r: string) {
    if s == [] || s[0] != c then s else DropStart(s[1..], c)
  }

  lemma {:induction false} DropEndPadding(s: string, c: char, k: nat)
    ensures DropEnd(s + Repeat(c, k), c) == DropEnd(s, c)
  {
    var all := s + Repeat(c, k);
    if k == 0 {
      assert all == s;
    } else {
      assert all[..|all| - 1] == s + Repeat(c, k - 1);
      DropEndPadding(s, c, k - 1);
    }
  }

  lemma {:induction false} DropStartPadding(s: string, c: char, k: nat)
    ensures DropStart(Repeat(c, k) + s, c) == DropStart(s, c)
  {
    var all := Repeat(c, k) + s;
    if k == 0 {
      assert all == s;
    } else {
      assert all[1..] == Repeat(c, k - 1) + s;
      DropStartPadding(s, c, k - 1);
    }
  }

  /** Everything before the first NUL. */
  function BeforeNul(s: string): string {
    s[..IndexFrom(s, '\0', 0)]
  }

  function UpperChar(c: char): char {
    if 'a' <= c <= 'z' then (c as int - 32) as char else c
  }

  /** `to_ascii_uppercase`: only the 26 ASCII letters change. */
  function Upper(s: string): (u: string)
    ensures |u| == |s|
  {
    seq(|s|, i requires 0 <= i < |s| => UpperChar(s[i]))
  }

  /** `eq_ignore_ascii_case`. */
  predicate SameName(a: string, b: string) {
    Upper(a) == Upper(b)
  }

  /** Names match position by position: the same character, or the two cases of one ASCII letter. */
  lemma SameNameExact(a: string, b: string)
    ensures SameName(a, b) <==>
      |a| == |b| &&
      forall i :: 0 <= i < |a| ==>
        || a[i] == b[i]
        || ('a' <= a[i] <= 'z' && a[i] as int - b[i] as int == 32)
        || ('a' <= b[i] <= 'z' && b[i] as int - a[i] as int == 32)
  {
    if SameName(a, b) {
      forall i | 0 <= i < |a|
        ensures UpperChar(a[i]) == UpperChar(b[i])
      {
        assert Upper(a)[i] == UpperChar(a[i]) && Upper(b)[i] == UpperChar(b[i]);
      }
    }
  }

  predicate IsDigit(c: char) {
    '0' <= c <= '9'
  }

  function DigitOf(c: char): (d: nat)
    requires IsDigit(c)
    ensures d < 10
  {
    c as int - 48
  }

  predicate AllDigits(s: string) {
    forall i :: 0 <= i < |s| ==> IsDigit(s[i])
  }

  /** The digits of a string, other characters dropped. */
  function DigitsIn(s: string): (ds: seq<nat>)
    ensures Radix.IsDigits(10, ds)
  {
    if s == [] then []
    else (if IsDigit(s[0]) then [DigitOf(s[0])] else []) + DigitsIn(s[1..])
  }

  lemma DigitsInCons(c: char, t: string)
    ensures DigitsIn([c] + t) == DigitsIn([c]) + DigitsIn(t)
  {
    assert ([c] + t)[1..] == t && [c][1..] == [];
  }

  /** Digits as text. */
  function DigitBytes(ds: seq<nat>): (bs: seq<Byte>)
    requires Radix.IsDigits(10, ds)
    ensures |bs| == |ds| && IsAscii(bs)
    ensures forall i :: 0 <= i < |ds| ==> bs[i] == 48 + ds[i]
  {
    seq(|ds|, i requires 0 <= i < |ds| => 48 + ds[i])
  }

  /** ... and back. */
  lemma {:induction false} DigitsInDigitBytes(ds: seq<nat>)
    requires Radix.IsDigits(10, ds)
    ensures AllDigits(Chars(DigitBytes(ds)))
    ensures DigitsIn(Chars(DigitBytes(ds))) == ds
  {
    if ds != [] {
      DigitsInDigitBytes(ds[1..]);
      assert Chars(DigitBytes(ds))[1..] == Chars(DigitBytes(ds[1..]));
      assert ds == [ds[0]] + ds[1..];
    }
  }

  predicate AreDigitBytes(bs: seq<Byte>) {
    forall i :: 0 <= i < |bs| ==> 48 <= bs[i] < 58
  }

  function DigitsOfBytes(bs: seq<Byte>): (ds: seq<nat>)
    requires AreDigitBytes(bs)
    ensures |ds| == |bs| && Radix.IsDigits(10, ds)
    ensures DigitBytes(ds) == bs
  {
    seq(|bs|, i requires 0 <= i < |bs| => bs[i] - 48)
  }

  /** `str::parse` for a signed integer type with bounds `lo` and `hi`. */
  function ParseInt(s: string, lo: int, hi: int): Option<int> {
    var signed := s != [] && (s[0] == '+' || s[0] == '-');
    var body := if signed then s[1..] else s;
    if body == [] || !AllDigits(body) then None
    else
      var mag: int := Radix.Value(10, DigitsIn(body));
      var n := if signed && s[0] == '-' then -mag else mag;
      if lo <= n <= hi then Some(n) else None
  }

  /** What parses: digits, with one sign in front or none, for a number within the bounds. */
  lemma ParseIntExact(s: string, lo: int, hi: int, n: int)
    ensures ParseInt(s, lo, hi) == Some(n) <==>
      lo <= n <= hi &&
      ( || (s != [] && AllDigits(s) && n == Radix.Value(10, DigitsIn(s)))
        || (|s| > 1 && s[0] == '+' && AllDigits(s[1..]) && n == Radix.Value(10, DigitsIn(s[1..])))
        || (|s| > 1 && s[0] == '-' && AllDigits(s[1..]) && n + Radix.Value(10, DigitsIn(s[1..])) == 0))
  {
    hide Radix.Value, DigitsIn;
  }

  /** `to_string` of a non-negative number. */
  function NatString(n: nat): string {
    Chars(DigitBytes(Radix.Shortest(10, n)))
  }

  function IntString(n: int): string {
    if n < 0 then "-" + NatString(-n) else NatString(n)
  }

  /** A number's text is its shortest digits, which parse back to it. */
  lemma NatShown(n: nat)
    ensures AllDigits(NatString(n)) && NatString(n) != [] && (|NatString(n)| > 1 ==> NatString(n)[0] != '0')
    ensures DigitsIn(NatString(n)) == Radix.Shortest(10, n) && Radix.Value(10, DigitsIn(NatString(n))) == n
  {
    hide Radix.Value;
    DigitsInDigitBytes(Radix.Shortest(10, n));
    Radix.ShortestValue(10, n);
    Radix.ShortestLeads(10, n);
  }

  /** An integer's text is a minus for a negative one and its digits; parsing gives it back within any bounds. */
  lemma IntShown(n: int, lo: int, hi: int)
    requires lo <= n <= hi
    ensures ParseInt(IntString(n), lo, hi) == Some(n)
    ensures n < 0 ==> IntString(n)[0] == '-'
    ensures var digits := if n < 0 then IntString(n)[1..] else IntString(n);
            AllDigits(digits) && digits != [] && (|digits| > 1 ==> digits[0] != '0')
  {
    hide Radix.Value, NatString;
    NatShown(Abs(n));
    if n < 0 { assert IntString(n)[1..] == NatString(-n); }
  }

  /** The 25 characters of white space: 6 in ASCII, 19 outside. */
  lemma WhitespaceExact(c: char)
    ensures IsWhitespace(c) <==>
      || c in ['\t', '\n', '\U{0B}', '\U{0C}', '\r', ' ']
      || c in ['\U{85}', '\U{A0}', '\U{1680}', '\U{2000}', '\U{2001}', '\U{2002}', '\U{2003}', '\U{2004}', '\U{2005}',
               '\U{2006}', '\U{2007}', '\U{2008}', '\U{2009}', '\U{200A}', '\U{2028}', '\U{2029}', '\U{202F}',
               '\U{205F}', '\U{3000}']
  {
  }
}
