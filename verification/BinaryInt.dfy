/** Fixed-width two's-complement integers of one to eight bytes, in either byte order. */
module BinaryInt {
  import opened Prelude
  import opened Radix

  datatype Endian = Big | Little

  function Reverse<T>(s: seq<T>): (r: seq<T>)
    ensures |r| == |s|
    ensures forall i :: 0 <= i < |s| ==> r[i] == s[|s| - 1 - i]
  {
    seq(|s|, i requires 0 <= i < |s| => s[|s| - 1 - i])
  }

  /** Between storage order and most-significant-first; its own inverse. */
  function Ordered<T>(s: seq<T>, endian: Endian): (r: seq<T>)
    ensures |r| == |s|
  {
    match endian
    case Big => s
    case Little => Reverse(s)
  }

  lemma OrderedTwice<T>(s: seq<T>, endian: Endian)
    ensures Ordered(Ordered(s, endian), endian) == s
  {
  }

  /** 256^w for the widths a field may have. */
  function Span(w: nat): (m: nat)
    ensures m > 0
  {
    if w == 1 then 0x100 else if w == 2 then 0x1_0000
    else if w == 3 then 0x100_0000 else if w == 4 then 0x1_0000_0000
    else if w == 5 then 0x100_0000_0000 else if w == 6 then 0x1_0000_0000_0000
    else if w == 7 then 0x100_0000_0000_0000 else 0x1_0000_0000_0000_0000
  }

  const TWO_128: int := 0x1_0000_0000_0000_0000_0000_0000_0000_0000

  /** Truncation of a 128-bit result to 64 bits, for values of at most 64 significant bits. */
  function Wrap64(n: int): int {
    if n > I64_MAX then n - 0x1_0000_0000_0000_0000 else n
  }

  function Parse(bs: seq<Byte>, endian: Endian, signed: bool): (r: Result<int>)
    ensures r.Ok? ==> I64_MIN <= r.value <= I64_MAX
  {
    var w := |bs|;
    if w == 0 || w > 8 then Err
    else
      var be := Ordered(bs, endian);
      var raw: int := Value(256, be);
      TopBit(be);
      Ok(Wrap64(if signed && be[0] >= 0x80 then raw - Span(w) else raw))
  }

  /** The low bytes of the 128-bit two's complement of `n`: high bits are dropped without an error. */
  function Encode(n: int, width: nat, endian: Endian): (r: Result<seq<Byte>>)
    requires I128_MIN <= n <= I128_MAX
    ensures r.Ok? ==> |r.value| == width
  {
    if width == 0 || width > 8 then Err
    else Ok(Ordered(Bytes(if n < 0 then n + TWO_128 else n, width), endian))
  }

  function Bytes(n: nat, width: nat): (bs: seq<Byte>)
    ensures |bs| == width
  {
    Digits(256, n, width)
  }

  lemma SpanIsPow(w: nat)
    requires 1 <= w <= 8
    ensures Pow(256, w) == Span(w)
  {
    PowZero(256);
    PowStep(256, 0);
    if w >= 2 { PowStep(256, 1); }
    if w >= 3 { PowStep(256, 2); }
    if w >= 4 { PowStep(256, 3); }
    if w >= 5 { PowStep(256, 4); }
    if w >= 6 { PowStep(256, 5); }
    if w >= 7 { PowStep(256, 6); }
    if w >= 8 { PowStep(256, 7); }
  }

  /** The numbers of a field: its signed or unsigned range, except that eight unsigned bytes wrap into i64. */
  predicate InRange(n: int, width: nat, signed: bool) {
    var m: int := Span(width);
    if signed then -m <= 2 * n < m
    else if width < 8 then 0 <= n < m
    else I64_MIN <= n <= I64_MAX
  }

  /** `n` and `m` differ by a multiple of 256^w. */
  predicate Congruent(n: int, m: int, width: nat) {
    (n - m) % Span(width) == 0
  }

  lemma TopBit(be: seq<Byte>)
    requires 1 <= |be| <= 8
    ensures be[0] >= 0x80 <==> 2 * Value(256, be) >= Span(|be|)
    ensures Value(256, be) < Span(|be|)
  {
    hide Value, Pow;
    var w := |be|;
    assert be == [be[0]] + be[1..];
    ValueConcat(256, [be[0]], be[1..]);
    ValueSingle(256, be[0]);
    ValueBound(256, be[1..]);
    ValueBound(256, be);
    SpanIsPow(w);
    if w == 1 {
      PowZero(256);
    } else {
      SpanIsPow(w - 1);
    }
  }

  /** Parsing stays in the field's range and is congruent to the bytes read as a plain number. */
  lemma ParseOrdered(bs: seq<Byte>, endian: Endian, signed: bool)
    requires 1 <= |bs| <= 8
    ensures Parse(bs, endian, signed).Ok?
    ensures InRange(Parse(bs, endian, signed).value, |bs|, signed)
    ensures Congruent(Parse(bs, endian, signed).value, Value(256, Ordered(bs, endian)), |bs|)
    ensures signed ==> (Parse(bs, endian, signed).value < 0 <==> Ordered(bs, endian)[0] >= 0x80)
  {
    hide Value, Span;
    TopBit(Ordered(bs, endian));
    SpanBounds(|bs|);
    MultipleMod(-1, Span(|bs|));
    MultipleMod(0, Span(|bs|));
  }

  // ---------------------------------------------------------------- the weight of each byte

  /** The power of 256 the byte at `i` of a `w`-byte field counts. */
  function Place(w: nat, endian: Endian, i: nat): nat
    requires i < w
  {
    match endian
    case Big => w - 1 - i
    case Little => i
  }

  /** The first `k` bytes, each times its weight. */
  function Weighted(bs: seq<Byte>, endian: Endian, k: nat): nat
    requires k <= |bs|
  {
    if k == 0 then 0
    else Weighted(bs, endian, k - 1) + bs[k - 1] * Pow(256, Place(|bs|, endian, k - 1))
  }

  lemma {:induction false} WeightedBig(bs: seq<Byte>, k: nat)
    requires k <= |bs|
    ensures Weighted(bs, Big, k) == Value(256, bs[..k]) * Pow(256, |bs| - k)
  {
    hide Value, Pow;
    if k == 0 {
      ValueEmpty(256);
    } else {
      WeightedBig(bs, k - 1);
      assert bs[..k] == bs[..k - 1] + [bs[k - 1]];
      ValueSnoc(256, bs[..k - 1], bs[k - 1]);
      PowStep(256, |bs| - k);
      var v, d, p := Value(256, bs[..k - 1]), bs[k - 1], Pow(256, |bs| - k);
      assert (v * 256 + d) * p == v * (256 * p) + d * p;
    }
  }

  lemma {:induction false} WeightedLittle(bs: seq<Byte>, k: nat)
    requires k <= |bs|
    ensures Weighted(bs, Little, k) == Value(256, Reverse(bs[..k]))
  {
    hide Value, Pow;
    if k == 0 {
      ValueEmpty(256);
      assert Reverse(bs[..0]) == [];
    } else {
      WeightedLittle(bs, k - 1);
      var rest, d := Reverse(bs[..k - 1]), bs[k - 1];
      assert Reverse(bs[..k]) == [d] + rest;
      ValueConcat(256, [d], rest);
      ValueSingle(256, d);
    }
  }

  lemma OrderedWeight(bs: seq<Byte>, endian: Endian)
    ensures Weighted(bs, endian, |bs|) == Value(256, Ordered(bs, endian))
  {
    hide Value, Pow;
    assert bs[..|bs|] == bs;
    PowZero(256);
    match endian {
      case Big => WeightedBig(bs, |bs|);
      case Little => WeightedLittle(bs, |bs|);
    }
  }

  /**
   Parsing gives the number of the field's range that is congruent to the bytes times their weights:
   256 to the number of bytes behind in big-endian order, before in little-endian order. A signed
   number is negative when the top bit of the first (big) or the last (little) byte is set.
   */
  lemma ParseRange(bs: seq<Byte>, endian: Endian, signed: bool)
    requires 1 <= |bs| <= 8
    ensures Parse(bs, endian, signed).Ok?
    ensures InRange(Parse(bs, endian, signed).value, |bs|, signed)
    ensures Congruent(Parse(bs, endian, signed).value, Weighted(bs, endian, |bs|), |bs|)
    ensures signed ==>
      (Parse(bs, endian, signed).value < 0 <==> bs[if endian.Big? then 0 else |bs| - 1] >= 0x80)
  {
    hide Value, Span, Parse, Pow, Weighted, Congruent;
    ParseOrdered(bs, endian, signed);
    OrderedWeight(bs, endian);
  }

  lemma FloorShift(n: int, p: nat, c: nat)
    requires p > 0
    ensures (n + p * (256 * c)) / p % 256 == n / p % 256
  {
    var q, r := n / p, n % p;
    assert n == p * q + r;
    var t := n + p * (256 * c);
    assert t == p * (q + 256 * c) + r by { assert p * (q + 256 * c) == p * q + p * (256 * c); }
    assert t == p * (t / p) + t % p;
    var d := t / p - (q + 256 * c);
    assert p * d == r - t % p by { assert p * (t / p) == p * (q + 256 * c) + p * d; }
    assert d * p == p * d;
    if d >= 1 { MulMonotone(1, d, p); }
    if d <= -1 { MulMonotone(d, -1, p); }
    assert (q + 256 * c) % 256 == q % 256;
  }

  /** Sixteen bytes of two's complement and the number itself have the same eight low bytes. */
  lemma ComplementByte(n: int, e: nat)
    requires e < 8
    ensures (n + TWO_128) / PowPos(256, e) % 256 == n / PowPos(256, e) % 256
  {
    hide Pow, PowPos;
    var p := PowPos(256, e);
    if e == 0 { PowZero(256); } else { SpanIsPow(e); }
    assert p == if e == 0 then 1 else Span(e);
    var c: nat := TWO_128 / 256 / p;
    assert TWO_128 == p * (256 * c);
    FloorShift(n, p, c);
  }

  /**
   Each byte stored is the number divided by the byte's weight, downwards for a negative number,
   and reduced to a byte.
   */
  lemma EncodeAt(n: int, width: nat, endian: Endian, i: nat)
    requires 1 <= width <= 8 && I128_MIN <= n <= I128_MAX && i < width
    ensures Encode(n, width, endian).Ok? && |Encode(n, width, endian).value| == width
    ensures Encode(n, width, endian).value[i]
         == n / PowPos(256, if endian.Big? then width - 1 - i else i) % 256
  {
    hide Pow, Digits, PowPos;
    var t := if n < 0 then n + TWO_128 else n;
    var k := if endian.Big? then i else width - 1 - i;
    DigitAt(256, t, width, k);
    ComplementByte(n, width - 1 - k);
    assert Encode(n, width, endian).value[i] == Bytes(t, width)[k];
  }

  lemma SpanBounds(w: nat)
    requires 1 <= w <= 8
    ensures if w == 8 then Span(w) == 0x1_0000_0000_0000_0000 else Span(w) <= 0x100_0000_0000_0000
  {
  }

  lemma ReduceUnique(a: int, b: int, width: nat, signed: bool)
    requires 1 <= width <= 8 && InRange(a, width, signed) && InRange(b, width, signed)
    requires Congruent(a, b, width)
    ensures a == b
  {
    var m := Span(width);
    assert -m < a - b < m;
    assert a - b == m * ((a - b) / m);
  }

  lemma TwosComplement(n: int, width: nat)
    requires 1 <= width <= 8 && I128_MIN <= n <= I128_MAX
    ensures ((if n < 0 then n + TWO_128 else n) - n) % Span(width) == 0
  {
  }

  lemma CongruentTransitive(a: int, b: int, c: int, m: nat)
    requires m > 0 && (a - b) % m == 0 && (b - c) % m == 0
    ensures (a - c) % m == 0
  {
    var x, y := (a - b) / m, (b - c) / m;
    assert a - b == m * x && b - c == m * y;
    assert a - c == m * (x + y);
    MultipleMod(x + y, m);
  }

  lemma ModCongruent(t: nat, m: nat)
    requires m > 0
    ensures (t % m - t) % m == 0
  {
    assert t % m - t == m * -(t / m);
    MultipleMod(-(t / m), m);
  }

  /**
   Decoding what was encoded gives the one number of the field's range that is congruent to the
   input modulo 256^w, so it gives the input back exactly on that range.
   */
  lemma RoundTrip(n: int, width: nat, endian: Endian, signed: bool)
    requires 1 <= width <= 8 && I128_MIN <= n <= I128_MAX
    ensures Encode(n, width, endian).Ok? && |Encode(n, width, endian).value| == width
    ensures var back := Parse(Encode(n, width, endian).value, endian, signed);
            back.Ok? && InRange(back.value, width, signed) && Congruent(back.value, n, width) &&
            (back.value == n <==> InRange(n, width, signed))
  {
    hide Value, Pow, Digits, Parse, Span, Ordered;
    var t := if n < 0 then n + TWO_128 else n;
    var bs := Encode(n, width, endian).value;
    var m := Span(width);
    ParseOrdered(bs, endian, signed);
    OrderedTwice(Bytes(t, width), endian);
    ValueOfDigits(256, t, width);
    SpanIsPow(width);
    var back := Parse(bs, endian, signed).value;
    ModCongruent(t, m);
    CongruentTransitive(back, t % m, t, m);
    TwosComplement(n, width);
    CongruentTransitive(back, t, n, m);
    if InRange(n, width, signed) { ReduceUnique(back, n, width, signed); }
  }

  /** Every byte string of a legal width is the encoding of what it parses to. */
  lemma BytesRoundTrip(bs: seq<Byte>, endian: Endian, signed: bool)
    requires 1 <= |bs| <= 8
    ensures Parse(bs, endian, signed).Ok?
    ensures Encode(Parse(bs, endian, signed).value, |bs|, endian) == Ok(bs)
  {
    hide Value, Pow, Digits, Parse;
    var be, w := Ordered(bs, endian), |bs|;
    ParseOrdered(bs, endian, signed);
    var n := Parse(bs, endian, signed).value;
    var t: nat := if n < 0 then n + TWO_128 else n;
    var m := Span(w);
    TopBit(be);
    TwosComplement(n, w);
    CongruentTransitive(t, n, Value(256, be), m);
    LowBytes(t, be);
    OrderedTwice(bs, endian);
  }

  lemma LowBytes(t: nat, be: seq<Byte>)
    requires 1 <= |be| <= 8
    requires (t - Value(256, be)) % Span(|be|) == 0
    ensures Bytes(t, |be|) == be
  {
    hide Value, Pow, Digits;
    var w, v, m := |be|, Value(256, be), Span(|be|);
    TopBit(be);
    SpanIsPow(w);
    ValueOfDigits(256, t, w);
    ModCongruent(t, m);
    CongruentTransitive(t % m, t, v, m);
    SmallMod(t % m, m);
    SmallDifference(t % m, v, m);
    DigitsOfValue(256, be);
    DigitsOfValue(256, Bytes(t, w));
  }

  lemma SmallDifference(a: nat, b: nat, m: nat)
    requires a < m && b < m && (a - b) % m == 0
    ensures a == b
  {
    if a > b { SmallMod(a - b, m); }
    if a < b { SmallMod(a - b + m, m); ModShift(a - b, m); }
  }

  lemma ModShift(x: int, m: nat)
    requires m > 0 && x % m == 0
    ensures (x + m) % m == 0
  {
    assert x + m == m * (x / m + 1);
    MultipleMod(x / m + 1, m);
  }
}
