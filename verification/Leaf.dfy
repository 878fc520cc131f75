/**
 The codec of a single field occurrence: which bytes a value becomes, and which value bytes become.
 Groups are not leaves; their children are.
 */
module Leaf {
  import opened Prelude
  import opened Layouts
  import opened Strings
  import opened Ebcdic
  import DN = DisplayNumber
  import BI = BinaryInt
  import HX = Hex
  import PK = Packed
  import ZN = Zoned
  import ED = Edited
  import Radix
  import Utf8

  // ---------------------------------------------------------------- coercions

  /** A scalar as text, for a text field given something else. */
  function DisplayScalar(v: Value): string {
    match v
    case StrV(s) => s
    case IntV(n) => IntString(n)
    case BoolV(b) => if b then "true" else "false"
    case DecV(u, scale) => DecimalString(u, scale)
    case _ => ""
  }

  function DecimalString(u: int, scale: nat): string {
    if scale == 0 then IntString(u)
    else
      var digits := NatString(Abs(u));
      var padded := if |digits| <= scale then Repeat('0', scale - |digits| + 1) + digits else digits;
      var point := |padded| - scale;
      (if u < 0 then "-" else "") + padded[..point] + "." + padded[point..]
  }

  function AsInteger(v: Value): Result<I128> {
    match v
    case IntV(n) => Ok(n)
    case DecV(u, scale) => if scale == 0 then Ok(u) else Err
    case Null => Ok(0)
    case StrV(s) =>
      (match ParseInt(Trim(s), I128_MIN, I128_MAX)
       case None => Err
       case Some(n) => Ok(n))
    case _ => Err
  }

  /** The digits of a decimal's text: those of its magnitude, and at least one more than its scale. */
  function PointDigits(u: int, scale: nat): (ds: seq<nat>)
    ensures |ds| > scale && Radix.IsDigits(10, ds)
  {
    var ds := Radix.Shortest(10, Abs(u));
    Repeat(0 as nat, if |ds| <= scale then scale - |ds| + 1 else 0) + ds
  }

  lemma PointDigitsMean(u: int, scale: nat)
    ensures Radix.Value(10, PointDigits(u, scale)) == Abs(u)
    ensures |PointDigits(u, scale)| > scale + 1 ==> PointDigits(u, scale)[0] != 0
  {
    hide Radix.Value, Radix.Shortest;
    var ds := Radix.Shortest(10, Abs(u));
    Radix.LeadingZeros(10, Repeat(0 as nat, if |ds| <= scale then scale - |ds| + 1 else 0), ds);
    Radix.ShortestValue(10, Abs(u));
    Radix.ShortestLeads(10, Abs(u));
    if |ds| > scale { assert Repeat(0 as nat, 0) + ds == ds; }
  }

  lemma DecimalText(u: int, scale: nat)
    requires scale > 0
    ensures var text := Utf8.Chars(DigitBytes(PointDigits(u, scale)));
            var p := |text| - scale;
            DecimalString(u, scale) == (if u < 0 then "-" else "") + text[..p] + "." + text[p..]
  {
    hide Radix.Shortest;
    var ds := Radix.Shortest(10, Abs(u));
    var text, digits := Utf8.Chars(DigitBytes(PointDigits(u, scale))), NatString(Abs(u));
    assert text == (if |ds| <= scale then Repeat('0', scale - |ds| + 1) + digits else digits);
  }

  /**
   A decimal's text: a minus when negative, at least one digit, a point, and as many digits as its
   scale; without the point the digits are the unscaled magnitude, with no needless zero in front.
   */
  lemma DecimalShown(u: int, scale: nat) returns (whole: string, fraction: string)
    requires scale > 0
    ensures DecimalString(u, scale) == (if u < 0 then ['-'] else []) + whole + ['.'] + fraction
    ensures whole != [] && AllDigits(whole) && (|whole| > 1 ==> whole[0] != '0')
    ensures |fraction| == scale && AllDigits(fraction)
    ensures Radix.Value(10, DigitsIn(whole) + DigitsIn(fraction)) == Abs(u)
  {
    hide Radix.Value, DigitsIn, DecimalString, PointDigits;
    var ds := PointDigits(u, scale);
    var text := Utf8.Chars(DigitBytes(ds));
    var p := |ds| - scale;
    DecimalText(u, scale);
    PointDigitsMean(u, scale);
    whole, fraction := text[..p], text[p..];
    TextParts(ds, p);
  }

  lemma TextParts(ds: seq<nat>, p: nat)
    requires Radix.IsDigits(10, ds) && p <= |ds|
    ensures var text := Utf8.Chars(DigitBytes(ds));
            AllDigits(text[..p]) && AllDigits(text[p..]) && (p > 0 ==> (text[0] == '0' <==> ds[0] == 0)) &&
            DigitsIn(text[..p]) + DigitsIn(text[p..]) == ds
  {
    hide DigitsIn;
    var text := Utf8.Chars(DigitBytes(ds));
    assert text[..p] == Utf8.Chars(DigitBytes(ds[..p])) && text[p..] == Utf8.Chars(DigitBytes(ds[p..]));
    DigitsInDigitBytes(ds[..p]);
    DigitsInDigitBytes(ds[p..]);
    assert ds[..p] + ds[p..] == ds;
  }

  /** Flags and texts as text, a decimal without decimals as its integer, and nothing for what is no scalar. */
  lemma ScalarsShown(s: string, u: I128)
    ensures DisplayScalar(StrV(s)) == s && DisplayScalar(DecV(u, 0)) == IntString(u)
    ensures DisplayScalar(BoolV(true)) == ['t', 'r', 'u', 'e']
    ensures DisplayScalar(BoolV(false)) == ['f', 'a', 'l', 's', 'e']
    ensures DisplayScalar(Null) == [] && DisplayScalar(ListV([])) == [] && DisplayScalar(StructV([])) == []
  {
  }

  /** What an integer field takes: integers, decimals without decimals, NULL as 0, and texts that parse. */
  lemma IntegersTaken(v: Value, n: I128)
    ensures AsInteger(v) == Ok(n) <==>
      || (v.IntV? && v.n == n)
      || (v.DecV? && v.scale == 0 && v.unscaled == n)
      || (v.Null? && n == 0)
      || (v.StrV? && ParseInt(Trim(v.s), I128_MIN, I128_MAX) == Some(n))
  {
    hide ParseInt, Trim;
  }

  /** An integer's own text, with any blanks around it, is taken as the integer. */
  lemma IntegerTextTaken(n: I128)
    ensures AsInteger(StrV(IntString(n))) == Ok(n)
  {
    hide ParseInt, IntString, Trim;
    IntShown(n, I128_MIN, I128_MAX);
    TrimOfTrimmed(IntString(n));
  }

  const TWO_127: int := 0x8000_0000_0000_0000_0000_0000_0000_0000

  /** 128-bit arithmetic wraps silently in release builds. */
  function Wrap128(n: int): I128 {
    (n + TWO_127) % (2 * TWO_127) - TWO_127
  }

  /** Division toward zero. */
  function TruncDiv(a: int, b: int): int
    requires b != 0
  {
    var q: int := Abs(a) / Abs(b);
    if (a < 0) == (b < 0) then q else -q
  }

  /** Scaling up wraps; scaling down truncates; a power of ten that wraps to zero cannot be divided by. */
  function Rescale(u: I128, from: nat, to: nat): Result<I128> {
    if from == to then Ok(u)
    else if from < to then Ok(Wrap128(u * Radix.Pow(10, to - from)))
    else
      var d := Wrap128(Radix.Pow(10, from - to));
      if d == 0 then Err else Ok(Wrap128(TruncDiv(u, d)))
  }

  // ---------------------------------------------------------------- numbers at another scale

  /** The number nearest zero at scale `to` that `u` stands for at scale `from`. */
  function AtScale(u: int, from: nat, to: nat): int {
    if from <= to then u * Radix.Pow(10, to - from)
    else
      var q: int := Abs(u) / Radix.PowPos(10, from - to);
      if u < 0 then -q else q
  }

  /** `w` at scale `to` is the same number as `u` at scale `from`, or that number cut toward zero. */
  predicate SameNumber(w: int, u: int, from: nat, to: nat) {
    if from <= to then w * Radix.Pow(10, from) == u * Radix.Pow(10, to)
    else
      Abs(w) * Radix.Pow(10, from - to) <= Abs(u) < (Abs(w) + 1) * Radix.Pow(10, from - to) &&
      (w == 0 || (w < 0 <==> u < 0))
  }

  lemma AtScaleExact(w: int, u: int, from: nat, to: nat)
    ensures SameNumber(w, u, from, to) <==> w == AtScale(u, from, to)
  {
    hide Radix.Pow;
    if from <= to {
      Radix.PowAdd(10, to - from, from);
      Radix.PowPositive(10, from);
      ScaledUp(w, u, Radix.Pow(10, from), Radix.Pow(10, to - from));
    } else {
      QuotientExact(Abs(w), Abs(u), Radix.PowPos(10, from - to));
    }
  }

  lemma ScaledUp(w: int, u: int, p: nat, q: nat)
    requires p > 0
    ensures w * p == u * (q * p) <==> w == u * q
  {
    assert (u * q - w) * p == u * (q * p) - w * p;
    Cancel(u * q - w, p);
  }

  lemma Cancel(x: int, p: nat)
    requires p > 0
    ensures x * p == 0 <==> x == 0
  {
    if x >= 1 { Radix.MulMonotone(1, x, p); }
    if x <= -1 { Radix.MulMonotone(x, -1, p); }
  }

  lemma QuotientExact(w: nat, u: nat, p: nat)
    requires p > 0
    ensures w * p <= u < (w + 1) * p <==> w == u / p
  {
    Radix.DivModLaw(u, p);
    var q := u / p;
    assert (q + 1) * p == q * p + p;
    if w < q { Radix.MulMonotone(w + 1, q, p); }
    if w > q { Radix.MulMonotone(q + 1, w, p); }
  }

  /** The numbers rescaling keeps: 128 bits hold the result, and the power of ten divided by has not wrapped too low. */
  predicate ScaleFits(u: I128, from: nat, to: nat) {
    if from <= to then I128_MIN <= u * Radix.Pow(10, to - from) <= I128_MAX
    else from - to <= 38 || Abs(u) < Abs(Wrap128(Radix.Pow(10, from - to)))
  }

  lemma PowersAround128()
    ensures Radix.Pow(10, 38) == 100_000_000_000_000_000_000_000_000_000_000_000_000
    ensures Radix.Pow(10, 39) == 1_000_000_000_000_000_000_000_000_000_000_000_000_000
  {
    assert Radix.Pow(10, 1) == 10 && Radix.Pow(10, 2) == 100 && Radix.Pow(10, 4) == 10_000;
    hide Radix.Pow;
    Radix.PowAdd(10, 4, 4);
    Radix.PowAdd(10, 8, 8);
    Radix.PowAdd(10, 16, 16);
    Radix.PowAdd(10, 32, 4);
    Radix.PowAdd(10, 36, 2);
    Radix.PowAdd(10, 38, 1);
  }

  lemma WrapExact(n: int)
    ensures Wrap128(n) == n <==> I128_MIN <= n <= I128_MAX
    ensures -TWO_127 <= n <= TWO_127 ==> (Wrap128(n) == 0 <==> n == 0)
  {
  }

  lemma TruncSmall(u: int, d: int)
    requires d != 0
    ensures TruncDiv(u, d) == 0 <==> Abs(u) < Abs(d)
    ensures Abs(TruncDiv(u, d)) <= Abs(u)
  {
    var q := Abs(u) / Abs(d);
    QuotientExact(0, Abs(u), Abs(d));
    QuotientExact(q, Abs(u), Abs(d));
    Radix.MulMonotone(1, Abs(d), q);
    assert Abs(d) * q == q * Abs(d);
  }

  /** Rescaling gives the same number, cut toward zero where decimals are dropped, exactly when it fits. */
  lemma RescaleExact(u: I128, from: nat, to: nat)
    ensures Rescale(u, from, to).Ok? && SameNumber(Rescale(u, from, to).value, u, from, to)
       <==> ScaleFits(u, from, to)
  {
    hide Radix.Pow, Wrap128, TruncDiv, SameNumber;
    var r := Rescale(u, from, to);
    if r.Ok? { AtScaleExact(r.value, u, from, to); }
    Radix.PowZero(10);
    if from < to {
      WrapExact(u * Radix.Pow(10, to - from));
    } else if from > to {
      ScaleDown(u, from - to);
    }
  }

  lemma ScaleDown(u: I128, k: nat)
    requires k > 0
    ensures var d := Wrap128(Radix.Pow(10, k));
            (d != 0 && Wrap128(TruncDiv(u, d)) == AtScale(u, k, 0))
            <==> k <= 38 || Abs(u) < Abs(d)
  {
    hide Radix.Pow;
    var p := Radix.PowPos(10, k);
    var d := Wrap128(p);
    PowersAround128();
    WrapExact(p);
    if k <= 38 {
      Radix.PowMonotone(10, k, 38);
      Radix.PowMonotone(10, 1, k);
      Radix.PowStep(10, 0);
      Radix.PowZero(10);
      SmallQuotient(Abs(u), p);
      WrapExact(TruncDiv(u, d));
    } else {
      Radix.PowMonotone(10, 39, k);
      QuotientExact(0, Abs(u), p);
      assert AtScale(u, k, 0) == 0;
      if d != 0 {
        TruncSmall(u, d);
        WrapExact(TruncDiv(u, d));
      }
    }
  }

  lemma SmallQuotient(u: nat, p: nat)
    requires p >= 10
    ensures u / p * 10 <= u
  {
    Radix.DivModLaw(u, p);
    Radix.MulMonotone(10, p, u / p);
    assert p * (u / p) == u / p * p && 10 * (u / p) == u / p * 10;
  }

  function AsDecimal(v: Value, scale: nat): Result<I128> {
    match v
    case DecV(u, s) => Rescale(u, s, scale)
    case IntV(n) => Rescale(n, 0, scale)
    case Null => Ok(0)
    case _ => Err
  }

  // ---------------------------------------------------------------- text

  function JustifyPad(bs: seq<Byte>, width: nat, justify: Justify, pad: Byte): Result<seq<Byte>> {
    if |bs| > width then Err
    else if justify.Left? then Ok(bs + Repeat(pad, width - |bs|))
    else Ok(Repeat(pad, width - |bs|) + bs)
  }

  function Unpad(s: string, justify: Justify, pad: char): string {
    if justify.Left? then DropEnd(s, pad) else DropStart(s, pad)
  }

  function DecodeText(ascii: seq<Byte>, justify: Justify, trim: bool, pad: Byte): string {
    var s := Utf8.Lossy(ascii);
    if trim then BeforeNul(Unpad(s, justify, pad as char)) else s
  }

  // ---------------------------------------------------------------- the leaf codec

  function EncodeLeaf(f: Field, v: Value, enc: Encoding): Result<seq<Byte>>
    requires !f.kind.Group?
  {
    match f.kind
    case Text(justify, _, pad) =>
      var bs :- JustifyPad(Utf8.Encode(DisplayScalar(v)), f.width, justify, pad);
      Ok(FromAscii(bs, enc))
    case Int(signed, sign) =>
      var n :- AsInteger(v);
      var bs :- DN.EncodeInt(n, f.width, signed, sign);
      Ok(FromAscii(bs, enc))
    case Binary(endian, _) =>
      var n :- AsInteger(v);
      BI.Encode(n, f.width, endian)
    case Hex(order) =>
      if v.StrV? then HX.Encode(v.s, f.width, order)
      else if v.Null? then HX.Encode("", f.width, order)
      else Err
    case Bool =>
      Ok([if v == BoolV(true) || v == IntV(1) then 1 else 0])
    case Pad(fill) =>
      Ok(FromAscii(Repeat(fill, f.width), enc))
    case Decimal(precision, scale, repr, sign) =>
      var u :- AsDecimal(v, scale);
      (match repr
       case Comp3 => PK.Encode(u, f.width, !sign.Unsigned?)
       case Zoned =>
         var bs :- ZN.Encode(u, f.width, !sign.Unsigned?);
         Ok(FromAscii(bs, enc))
       case Display =>
         var bs :- DN.EncodeDecimal(u, precision, f.width, sign);
         Ok(FromAscii(bs, enc)))
    case Edited(_, scale, _, mask) =>
      var u :- AsDecimal(v, scale);
      var bs :- ED.Encode(u, mask);
      Ok(FromAscii(bs, enc))
  }

  function DecodeLeaf(f: Field, bs: seq<Byte>, enc: Encoding): Result<Value>
    requires !f.kind.Group?
  {
    match f.kind
    case Text(justify, trim, pad) => Ok(StrV(DecodeText(ToAscii(bs, enc), justify, trim, pad)))
    case Int(_, sign) =>
      var n :- DN.ParseDisplayInt(ToAscii(bs, enc), sign);
      Ok(IntV(n))
    case Binary(endian, signed) =>
      var n :- BI.Parse(bs, endian, signed);
      Ok(IntV(n))
    case Hex(order) => Ok(StrV(HX.Show(bs, order)))
    case Bool => Ok(BoolV(exists i :: 0 <= i < |bs| && bs[i] != 0 && bs[i] != 48))
    case Pad(_) => Ok(Null)
    case Decimal(_, scale, repr, sign) =>
      var u :- match repr
               case Comp3 => PK.Decode(bs)
               case Zoned => ZN.Decode(ToAscii(bs, enc))
               case Display => DN.ParseDisplayDecimal(ToAscii(bs, enc), sign);
      Ok(DecV(u, scale))
    case Edited(_, scale, signed, _) =>
      var u :- ED.Decode(ToAscii(bs, enc), signed);
      Ok(DecV(u, scale))
  }

  /** A flag is false only in a byte 0 or the character 0. */
  lemma FlagRead(f: Field, b: Byte, enc: Encoding)
    requires f.kind.Bool?
    ensures DecodeLeaf(f, [b], enc) == Ok(BoolV(b != 0 && b != 48))
    ensures EncodeLeaf(f, BoolV(true), enc) == Ok([1]) && EncodeLeaf(f, BoolV(false), enc) == Ok([0])
  {
    assert [b][0] == b;
  }

  // ---------------------------------------------------------------- domains

  /** What the specification must provide for a leaf: room for at least one digit, a usable mask, an ASCII pad. */
  predicate Shaped(f: Field)
    requires !f.kind.Group?
  {
    match f.kind
    case Text(_, _, pad) => pad < 128
    case Int(_, sign) => DN.Places(f.width, sign) >= 1
    case Binary(_, _) => 1 <= f.width <= 8
    case Hex(_) => true
    case Bool => f.width == 1
    case Pad(_) => true
    case Decimal(precision, _, repr, sign) =>
      if repr.Display? then precision <= f.width && DN.Places(f.width, sign) >= 1 else f.width >= 1
    case Edited(_, _, _, mask) =>
      ED.Legal(mask) && !ED.Floating(mask) && |mask| == f.width && ED.Places(mask) > 0
  }

  predicate EdgeIsNot(s: string, justify: Justify, pad: char) {
    s == [] || (if justify.Left? then s[|s| - 1] != pad else s[0] != pad)
  }

  /** The sign of `n` is written by a decimal of this representation. */
  predicate SignKept(n: int, repr: NumRepr, sign: DN.SignKind) {
    n >= 0 || (if repr.Display? then DN.Separate(sign) else !sign.Unsigned?)
  }

  predicate DecimalFits(n: int, width: nat, repr: NumRepr, sign: DN.SignKind) {
    Abs(n) < match repr
             case Comp3 => Radix.Pow(10, Max(0, 2 * width - 1))
             case Zoned => Radix.Pow(10, width)
             case Display => Radix.Pow(10, Max(0, DN.Places(width, sign)))
  }

  /** The values a well-shaped leaf stores exactly. */
  predicate Exact(f: Field, v: Value)
    requires !f.kind.Group? && Shaped(f)
  {
    match f.kind
    case Text(justify, trim, pad) =>
      v.StrV? && |Utf8.Encode(v.s)| <= f.width &&
      (if trim then '\0' !in v.s && EdgeIsNot(v.s, justify, pad as char) else |Utf8.Encode(v.s)| == f.width)
    case Int(signed, sign) =>
      v.IntV? && Abs(v.n) < Radix.Pow(10, DN.Places(f.width, sign)) && Abs(v.n) <= I64_MAX &&
      (DN.Separate(sign) || v.n >= 0)
    case Binary(_, signed) => v.IntV? && BI.InRange(v.n, f.width, signed)
    case Hex(_) =>
      v.StrV? && |v.s| == 2 * f.width &&
      forall i :: 0 <= i < |v.s| ==> '0' <= v.s[i] <= '9' || 'a' <= v.s[i] <= 'f'
    case Bool => v.BoolV?
    case Pad(_) => v.Null?
    case Decimal(_, scale, repr, sign) =>
      v.DecV? && v.scale == scale && DecimalFits(v.unscaled, f.width, repr, sign) &&
      Abs(v.unscaled) <= I128_MAX && SignKept(v.unscaled, repr, sign)
    case Edited(_, scale, signed, mask) =>
      v.DecV? && v.scale == scale && Abs(v.unscaled) < Radix.Pow(10, ED.Places(mask)) &&
      Abs(v.unscaled) <= I128_MAX &&
      (Radix.ShortestLength(10, Abs(v.unscaled), ED.Places(mask));
       var ds := ED.Padded(v.unscaled, mask);
       ED.ZeroSafe(mask, ds, false) && (v.unscaled < 0 ==> signed && ED.SignVisible(mask, ds)))
  }

  /** What an explicit NULL is stored as. */
  function Default(f: Field): Value
    requires !f.kind.Group?
  {
    match f.kind
    case Text(_, trim, pad) => StrV(if trim then "" else Repeat(pad as char, f.width))
    case Int(_, _) => IntV(0)
    case Binary(_, _) => IntV(0)
    case Hex(_) => StrV(Repeat('0', 2 * f.width))
    case Bool => BoolV(false)
    case Pad(_) => Null
    case Decimal(_, scale, _, _) => DecV(0, scale)
    case Edited(_, scale, _, _) => DecV(0, scale)
  }

  /** A value as a 64-bit integer. */
  function WholeNumber(v: Value): Option<Value> {
    match AsInteger(v)
    case Err => None
    case Ok(n) => if I64_MIN <= n <= I64_MAX then Some(IntV(n)) else None
  }

  /** A number at a field's scale: the same one, cut toward zero where the field has fewer decimals. */
  function NumberAt(v: Value, scale: nat): (c: Option<Value>)
    ensures c.Some? ==> c.value.DecV? && c.value.scale == scale
  {
    if !v.DecV? && !v.IntV? then None
    else
      var u, from := if v.DecV? then v.unscaled else v.n, if v.DecV? then v.scale else 0;
      RescaleExact(u, from, scale);
      if !ScaleFits(u, from, scale) then None
      else
        AtScaleExact(Rescale(u, from, scale).value, u, from, scale);
        Some(DecV(AtScale(u, from, scale), scale))
  }

  /** A text in a field: without its padding and all from the first NUL on, or filled up with padding. */
  function TextIn(s: string, width: nat, justify: Justify, trim: bool, pad: char): string
    requires |Utf8.Encode(s)| <= width
  {
    if trim then BeforeNul(Unpad(s, justify, pad))
    else
      var pads := Repeat(pad, width - |Utf8.Encode(s)|);
      if justify.Left? then s + pads else pads + s
  }

  /** The value of the field's own type that a value is stored as; None where it cannot be. */
  function Coerced(f: Field, v: Value): Option<Value>
    requires !f.kind.Group?
  {
    match f.kind
    case Text(justify, trim, pad) =>
      var s := DisplayScalar(v);
      if |Utf8.Encode(s)| > f.width then None else Some(StrV(TextIn(s, f.width, justify, trim, pad as char)))
    case Int(_, _) => WholeNumber(v)
    case Binary(_, _) => WholeNumber(v)
    case Hex(order) =>
      if !v.StrV? || HX.Encode(v.s, f.width, order).Err? then None
      else
        var digits := HX.WithoutBlanks(v.s);
        Some(StrV(HX.Lower(digits) + Repeat('0', 2 * f.width - |digits|)))
    case Bool => Some(BoolV(v == BoolV(true) || v == IntV(1)))
    case Pad(_) => Some(Null)
    case Decimal(_, scale, _, _) => NumberAt(v, scale)
    case Edited(_, scale, _, _) => NumberAt(v, scale)
  }

  /** What a stored value comes back as: the default for NULL, else its form in the field's own type. */
  function NormLeaf(f: Field, v: Value): Value
    requires !f.kind.Group?
  {
    if v.Null? then Default(f)
    else match Coerced(f, v)
      case Some(c) => c
      case None => v
  }

  /** The values a well-shaped leaf takes: texts that fit, hexadecimal digits, and what stands for an exact value. */
  predicate Storable(f: Field, v: Value)
    requires !f.kind.Group?
  {
    Shaped(f) &&
    (v.Null? || f.kind.Pad? ||
     (Coerced(f, v).Some? && (f.kind.Text? || f.kind.Hex? || Exact(f, Coerced(f, v).value))))
  }

  // ---------------------------------------------------------------- round trips

  /** Padding a text and taking the padding off leaves what the text has besides its own. */
  lemma UnpadPadded(s: string, justify: Justify, pad: char, k: nat)
    ensures Unpad(if justify.Left? then s + Repeat(pad, k) else Repeat(pad, k) + s, justify, pad)
         == Unpad(s, justify, pad)
    ensures EdgeIsNot(s, justify, pad) ==> Unpad(s, justify, pad) == s
  {
    if justify.Left? {
      DropEndPadding(s, pad, k);
    } else {
      DropStartPadding(s, pad, k);
    }
  }

  lemma LossyPadded(s: string, justify: Justify, pad: Byte, k: nat)
    requires pad < 128
    ensures var bs, t := Utf8.Encode(s), Repeat(pad as char, k);
            Utf8.Lossy(if justify.Left? then bs + Repeat(pad, k) else Repeat(pad, k) + bs)
            == if justify.Left? then s + t else t + s
  {
    hide Utf8.Lossy, Utf8.Encode;
    var bs, pads, t := Utf8.Encode(s), Repeat(pad, k), Repeat(pad as char, k);
    assert Utf8.Chars(pads) == t;
    Utf8.LossyAscii(pads);
    if justify.Left? {
      Utf8.LossyEncode(s, pads);
    } else {
      Utf8.EncodeAscii(pads);
      Utf8.LossyEncode(t, bs);
      Utf8.LossyWhole(s);
    }
  }

  /** Whatever fits a text field as text comes back without its padding, or filled up with it. */
  lemma TextStored(f: Field, v: Value, enc: Encoding)
    requires f.kind.Text? && Shaped(f) && Coerced(f, v).Some?
    ensures EncodeLeaf(f, v, enc).Ok? && |EncodeLeaf(f, v, enc).value| == f.width
    ensures DecodeLeaf(f, EncodeLeaf(f, v, enc).value, enc) == Ok(Coerced(f, v).value)
  {
    hide Utf8.Lossy, Utf8.Encode, Unpad, FromAscii, ToAscii, BeforeNul, DisplayScalar;
    var s := DisplayScalar(v);
    var k := f.width - |Utf8.Encode(s)|;
    var bs := JustifyPad(Utf8.Encode(s), f.width, f.kind.justify, f.kind.pad).value;
    TranscodeRoundTrip(bs, enc);
    LossyPadded(s, f.kind.justify, f.kind.pad, k);
    UnpadPadded(s, f.kind.justify, f.kind.pad as char, k);
  }

  lemma TextCoerced(f: Field, v: Value)
    requires f.kind.Text? && Shaped(f) && Exact(f, v)
    ensures Coerced(f, v) == Some(v)
  {
    hide Utf8.Encode, Unpad;
    UnpadPadded(v.s, f.kind.justify, f.kind.pad as char, 0);
    var none := Repeat(f.kind.pad as char, 0);
    assert v.s + none == v.s && none + v.s == v.s;
    if f.kind.trim { assert v.s[0..IndexFrom(v.s, '\0', 0)] == v.s; }
  }

  lemma TextRoundTrip(f: Field, v: Value, enc: Encoding)
    requires f.kind.Text? && Shaped(f) && Exact(f, v)
    ensures EncodeLeaf(f, v, enc).Ok? && |EncodeLeaf(f, v, enc).value| == f.width
    ensures DecodeLeaf(f, EncodeLeaf(f, v, enc).value, enc) == Ok(v)
  {
    TextCoerced(f, v);
    hide Coerced, EncodeLeaf, DecodeLeaf;
    TextStored(f, v, enc);
  }

  lemma IntRoundTrip(f: Field, v: Value, enc: Encoding)
    requires f.kind.Int? && Shaped(f) && Exact(f, v)
    ensures EncodeLeaf(f, v, enc).Ok? && |EncodeLeaf(f, v, enc).value| == f.width
    ensures DecodeLeaf(f, EncodeLeaf(f, v, enc).value, enc) == Ok(v)
  {
    hide DN.EncodeInt, DN.ParseDisplayInt, FromAscii, ToAscii, Radix.Pow;
    DN.EncodeIntExact(v.n, f.width, f.kind.signed, f.kind.sign);
    DN.IntRoundTrip(v.n, f.width, f.kind.signed, f.kind.sign);
    TranscodeRoundTrip(DN.EncodeInt(v.n, f.width, f.kind.signed, f.kind.sign).value, enc);
  }

  lemma HexStored(f: Field, v: Value, enc: Encoding)
    requires f.kind.Hex? && Coerced(f, v).Some?
    ensures EncodeLeaf(f, v, enc).Ok? && |EncodeLeaf(f, v, enc).value| == f.width
    ensures DecodeLeaf(f, EncodeLeaf(f, v, enc).value, enc) == Ok(Coerced(f, v).value)
  {
    hide HX.Show, HX.Lower, HX.WithoutBlanks;
    HX.RoundTrip(v.s, f.width, f.kind.order);
  }

  lemma HexCoerced(f: Field, v: Value)
    requires f.kind.Hex? && Shaped(f) && Exact(f, v)
    ensures Coerced(f, v) == Some(v)
  {
    hide HX.WithoutBlanks, HX.HexValue, HX.Join;
    HX.NoBlanks(v.s);
    LowerHex(v.s);
    assert HX.Lower(v.s) + Repeat('0', 0) == v.s;
  }

  lemma LowerHex(s: string)
    requires forall i :: 0 <= i < |s| ==> '0' <= s[i] <= '9' || 'a' <= s[i] <= 'f'
    ensures HX.AllHex(s) && HX.Lower(s) == s
  {
  }

  lemma HexRoundTrip(f: Field, v: Value, enc: Encoding)
    requires f.kind.Hex? && Shaped(f) && Exact(f, v)
    ensures EncodeLeaf(f, v, enc).Ok? && |EncodeLeaf(f, v, enc).value| == f.width
    ensures DecodeLeaf(f, EncodeLeaf(f, v, enc).value, enc) == Ok(v)
  {
    hide Coerced, EncodeLeaf, DecodeLeaf;
    HexCoerced(f, v);
    HexStored(f, v, enc);
  }

  lemma DecimalRoundTrip(f: Field, v: Value, enc: Encoding)
    requires f.kind.Decimal? && Shaped(f) && Exact(f, v)
    ensures EncodeLeaf(f, v, enc).Ok? && |EncodeLeaf(f, v, enc).value| == f.width
    ensures DecodeLeaf(f, EncodeLeaf(f, v, enc).value, enc) == Ok(v)
  {
    hide DN.EncodeDecimal, DN.ParseDisplayDecimal, PK.Encode, PK.Decode, ZN.Encode, ZN.Decode;
    hide FromAscii, ToAscii, Radix.Pow;
    var n, w, sign := v.unscaled, f.width, f.kind.sign;
    match f.kind.repr {
      case Comp3 =>
        PK.RoundTrip(n, w, !sign.Unsigned?);
      case Zoned =>
        ZN.RoundTrip(n, w, !sign.Unsigned?);
        TranscodeRoundTrip(ZN.Encode(n, w, !sign.Unsigned?).value, enc);
      case Display =>
        DN.EncodeDecimalExact(n, f.kind.precision, w, sign);
        DN.DecimalRoundTrip(n, f.kind.precision, w, sign);
        TranscodeRoundTrip(DN.EncodeDecimal(n, f.kind.precision, w, sign).value, enc);
    }
  }

  lemma EditedRoundTrip(f: Field, v: Value, enc: Encoding)
    requires f.kind.Edited? && Shaped(f) && Exact(f, v)
    ensures EncodeLeaf(f, v, enc).Ok? && |EncodeLeaf(f, v, enc).value| == f.width
    ensures DecodeLeaf(f, EncodeLeaf(f, v, enc).value, enc) == Ok(v)
  {
    hide ED.Encode, ED.Decode, FromAscii, ToAscii, Radix.Pow, ED.ZeroSafe, ED.SignVisible, ED.Floating;
    ED.EncodeExact(v.unscaled, f.kind.mask);
    ED.RoundTrip(v.unscaled, f.kind.mask, f.kind.signed);
    TranscodeRoundTrip(ED.Encode(v.unscaled, f.kind.mask).value, enc);
  }

  lemma PlainRoundTrip(f: Field, v: Value, enc: Encoding)
    requires (f.kind.Binary? || f.kind.Bool? || f.kind.Pad?) && Shaped(f) && Exact(f, v)
    ensures EncodeLeaf(f, v, enc).Ok? && |EncodeLeaf(f, v, enc).value| == f.width
    ensures DecodeLeaf(f, EncodeLeaf(f, v, enc).value, enc) == Ok(v)
  {
    hide BI.Encode, BI.Parse, FromAscii;
    if f.kind.Binary? {
      BI.RoundTrip(v.n, f.width, f.kind.endian, f.kind.signed);
    } else if f.kind.Bool? {
      var bs := EncodeLeaf(f, v, enc).value;
      assert bs[0] == if v.b then 1 else 0;
    }
  }

  /** A well-shaped leaf stores its exact values in exactly its width and gives them back. */
  lemma ExactRoundTrip(f: Field, v: Value, enc: Encoding)
    requires !f.kind.Group? && Shaped(f) && Exact(f, v)
    ensures EncodeLeaf(f, v, enc).Ok? && |EncodeLeaf(f, v, enc).value| == f.width
    ensures DecodeLeaf(f, EncodeLeaf(f, v, enc).value, enc) == Ok(v)
  {
    hide Exact, Shaped, EncodeLeaf, DecodeLeaf;
    match f.kind {
      case Text(_, _, _) => TextRoundTrip(f, v, enc);
      case Int(_, _) => IntRoundTrip(f, v, enc);
      case Binary(_, _) => PlainRoundTrip(f, v, enc);
      case Hex(_) => HexRoundTrip(f, v, enc);
      case Bool => PlainRoundTrip(f, v, enc);
      case Pad(_) => PlainRoundTrip(f, v, enc);
      case Decimal(_, _, _, _) => DecimalRoundTrip(f, v, enc);
      case Edited(_, _, _, _) => EditedRoundTrip(f, v, enc);
    }
  }

  lemma ZeroFits(mask: string)
    requires ED.Places(mask) > 0
    ensures 0 < Radix.Pow(10, ED.Places(mask)) && |Radix.Shortest(10, 0)| <= ED.Places(mask)
    ensures ED.ZeroSafe(mask, ED.Padded(0, mask), false)
  {
    Radix.PowPositive(10, ED.Places(mask));
    NeverSeen(mask, ED.Padded(0, mask));
  }

  lemma {:induction false} NeverSeen(mask: string, ds: seq<nat>)
    requires ED.Places(mask) <= |ds| && forall i :: 0 <= i < |ds| ==> ds[i] == 0
    ensures ED.ZeroSafe(mask, ds, false)
  {
    if mask == [] {
    } else if ED.DigitPos(mask[0]) {
      NeverSeen(mask[1..], ds[1..]);
    } else {
      NeverSeen(mask[1..], ds);
    }
  }

  /** NULL is stored as the default, which is itself an exact value. */
  lemma DefaultExact(f: Field, enc: Encoding)
    requires !f.kind.Group? && Shaped(f)
    ensures Exact(f, Default(f))
    ensures EncodeLeaf(f, Null, enc) == EncodeLeaf(f, Default(f), enc)
  {
    hide HX.Encode, ED.Encode, DN.EncodeInt, DN.EncodeDecimal, PK.Encode, ZN.Encode, BI.Encode, FromAscii, Radix.Pow;
    Radix.PowPositive(10, f.width);
    match f.kind {
      case Text(justify, trim, pad) => TextDefault(f, enc);
      case Int(_, sign) => Radix.PowPositive(10, DN.Places(f.width, sign));
      case Hex(order) => HexDefault(f.width, order);
      case Decimal(_, _, repr, sign) =>
        Radix.PowPositive(10, Max(0, 2 * f.width - 1));
        Radix.PowPositive(10, Max(0, DN.Places(f.width, sign)));
      case Edited(_, _, _, mask) => ZeroFits(mask);
      case _ =>
    }
  }

  lemma EmptyText()
    ensures Utf8.Encode("") == []
  {
  }

  lemma TextDefault(f: Field, enc: Encoding)
    requires f.kind.Text? && Shaped(f)
    ensures Exact(f, Default(f))
    ensures EncodeLeaf(f, Null, enc) == EncodeLeaf(f, Default(f), enc)
  {
    hide FromAscii, DecimalString, IntString, Utf8.Encode;
    var pads := Repeat(f.kind.pad, f.width);
    EmptyText();
    assert Utf8.Chars(pads) == Repeat(f.kind.pad as char, f.width);
    Utf8.EncodeAscii(pads);
    assert [] + pads == pads + [] == pads + Repeat(f.kind.pad, 0) == Repeat(f.kind.pad, 0) + pads;
  }

  lemma ZeroPair(order: BI.Endian)
    ensures HX.HexValue('0').Some? && HX.Join('0', '0', order) == 0
  {
  }

  lemma HexDefault(width: nat, order: BI.Endian)
    ensures HX.Encode("", width, order) == HX.Encode(Repeat('0', 2 * width), width, order)
  {
    hide HX.Join, HX.HexValue, HX.WithoutBlanks;
    var zeros := Repeat('0', 2 * width);
    HX.NoBlanks(zeros);
    HX.NoBlanks("");
    ZeroPair(order);
    assert HX.AllHex(zeros) && HX.AllHex("");
    var a, b := HX.Read(zeros, order), HX.Read("", order);
    forall j | 0 <= j < width
      ensures a[j] == 0
    {
      assert zeros[2 * j] == '0' && zeros[2 * j + 1] == '0';
    }
    assert a + Repeat(0, 0) == b + Repeat(0, width);
  }

  lemma NumberSame(v: Value, scale: nat)
    requires v.DecV? && v.scale == scale
    ensures NumberAt(v, scale) == Some(v) && AsDecimal(v, scale) == Ok(v.unscaled)
  {
    Radix.PowZero(10);
    assert v.unscaled * 1 == v.unscaled;
  }

  /** Exact values are their own form in the field's type. */
  lemma ExactCoerced(f: Field, v: Value)
    requires !f.kind.Group? && Shaped(f) && Exact(f, v)
    ensures Coerced(f, v) == Some(v)
  {
    hide AtScale, ScaleFits, NumberAt;
    match f.kind {
      case Text(_, _, _) => TextCoerced(f, v);
      case Hex(_) => HexCoerced(f, v);
      case Decimal(_, scale, _, _) => NumberSame(v, scale);
      case Edited(_, scale, _, _) => NumberSame(v, scale);
      case _ =>
    }
  }

  lemma NumberEncodes(v: Value, scale: nat)
    requires NumberAt(v, scale).Some?
    ensures AsDecimal(v, scale) == AsDecimal(NumberAt(v, scale).value, scale)
    ensures AsDecimal(v, scale) == Ok(NumberAt(v, scale).value.unscaled)
  {
    hide Rescale, ScaleFits, AtScale, SameNumber;
    var u, from := if v.DecV? then v.unscaled else v.n, if v.DecV? then v.scale else 0;
    RescaleExact(u, from, scale);
    AtScaleExact(Rescale(u, from, scale).value, u, from, scale);
    NumberSame(NumberAt(v, scale).value, scale);
  }

  /** Other fields than text and hexadecimal ones write a value as they write its form in their own type. */
  lemma CoercedEncodes(f: Field, v: Value, enc: Encoding)
    requires !f.kind.Group? && !f.kind.Text? && !f.kind.Hex? && Coerced(f, v).Some?
    ensures EncodeLeaf(f, v, enc) == EncodeLeaf(f, Coerced(f, v).value, enc)
  {
    hide ED.Encode, DN.EncodeInt, DN.EncodeDecimal, PK.Encode, ZN.Encode, BI.Encode, FromAscii, NumberAt, AsDecimal;
    match f.kind {
      case Decimal(_, scale, _, _) => NumberEncodes(v, scale);
      case Edited(_, scale, _, _) => NumberEncodes(v, scale);
      case _ =>
    }
  }

  /**
   A number given to a decimal or edited field that can take it comes back at the field's scale as the
   same number, cut toward zero where the field has fewer decimals.
   */
  lemma NumberStored(f: Field, v: Value, enc: Encoding)
    requires (f.kind.Decimal? || f.kind.Edited?) && (v.DecV? || v.IntV?) && Storable(f, v)
    ensures EncodeLeaf(f, v, enc).Ok? && |EncodeLeaf(f, v, enc).value| == f.width
    ensures var u, from := if v.DecV? then v.unscaled else v.n, if v.DecV? then v.scale else 0;
            var back := DecodeLeaf(f, EncodeLeaf(f, v, enc).value, enc);
            back.Ok? && back.value.DecV? && back.value.scale == f.kind.scale &&
            SameNumber(back.value.unscaled, u, from, f.kind.scale)
  {
    hide EncodeLeaf, DecodeLeaf, Exact, AtScale, SameNumber, Rescale, ScaleFits, Shaped;
    RoundTrip(f, v, enc);
    var u, from := if v.DecV? then v.unscaled else v.n, if v.DecV? then v.scale else 0;
    AtScaleExact(NumberAt(v, f.kind.scale).value.unscaled, u, from, f.kind.scale);
  }

  /** A value is stored and comes back in its form of the field's type exactly when it is storable. */
  lemma StoredExactly(f: Field, v: Value, enc: Encoding)
    requires !f.kind.Group? && Shaped(f) && !v.Null? && Coerced(f, v).Some?
    ensures Storable(f, v) <==>
      EncodeLeaf(f, v, enc).Ok? &&
      DecodeLeaf(f, EncodeLeaf(f, v, enc).value, enc) == Ok(Coerced(f, v).value)
  {
    hide EncodeLeaf, DecodeLeaf, Exact, Shaped, Coerced;
    if f.kind.Text? {
      TextStored(f, v, enc);
    } else if f.kind.Hex? {
      HexStored(f, v, enc);
    } else {
      CoercedEncodes(f, v, enc);
      KeptExactly(f, Coerced(f, v).value, enc);
      if f.kind.Pad? { PadCoerced(f, v); }
    }
  }

  lemma PadCoerced(f: Field, v: Value)
    requires f.kind.Pad?
    ensures Coerced(f, v) == Some(Null) && (Shaped(f) ==> Exact(f, Null))
  {
  }

  /** A storable value comes back in its normal form: its form in the field's type, or the default for a NULL. */
  lemma RoundTrip(f: Field, v: Value, enc: Encoding)
    requires !f.kind.Group? && Storable(f, v)
    ensures EncodeLeaf(f, v, enc).Ok? && |EncodeLeaf(f, v, enc).value| == f.width
    ensures DecodeLeaf(f, EncodeLeaf(f, v, enc).value, enc) == Ok(NormLeaf(f, v))
  {
    hide EncodeLeaf, DecodeLeaf, Exact, Coerced;
    if f.kind.Pad? {
      PadCoerced(f, v);
      PadIgnoresValue(f, v, [], enc);
      PadIgnoresValue(f, v, EncodeLeaf(f, v, enc).value, enc);
    } else if v.Null? {
      DefaultExact(f, enc);
      ExactRoundTrip(f, Default(f), enc);
    } else if f.kind.Text? {
      TextStored(f, v, enc);
    } else if f.kind.Hex? {
      HexStored(f, v, enc);
    } else {
      CoercedEncodes(f, v, enc);
      ExactRoundTrip(f, Coerced(f, v).value, enc);
    }
  }

  lemma PadIgnoresValue(f: Field, v: Value, bs: seq<Byte>, enc: Encoding)
    requires f.kind.Pad?
    ensures EncodeLeaf(f, v, enc).Ok? && |EncodeLeaf(f, v, enc).value| == f.width
    ensures DecodeLeaf(f, bs, enc) == Ok(Null) && NormLeaf(f, v) == Null
  {
  }

  lemma SamePad(f: Field, v: Value, w: Value, enc: Encoding)
    requires f.kind.Pad?
    ensures EncodeLeaf(f, v, enc) == EncodeLeaf(f, w, enc)
  {
  }

  /** Whatever a text or a well-shaped field encodes, it fills its width. */
  lemma WidthKept(f: Field, v: Value, enc: Encoding)
    requires !f.kind.Group? && (f.kind.Text? || Shaped(f)) && EncodeLeaf(f, v, enc).Ok?
    ensures |EncodeLeaf(f, v, enc).value| == f.width
  {
    hide FromAscii, ED.Encode, DN.EncodeInt, DN.EncodeDecimal, PK.Encode, ZN.Encode, BI.Encode, HX.Encode;
    match f.kind {
      case Int(signed, sign) => DN.EncodeIntExact(AsInteger(v).value, f.width, signed, sign);
      case Decimal(precision, scale, _, sign) =>
        DN.EncodeDecimalExact(AsDecimal(v, scale).value, precision, f.width, sign);
      case Edited(_, scale, _, mask) => ED.EncodeExact(AsDecimal(v, scale).value, mask);
      case _ =>
    }
  }

  // ---------------------------------------------------------------- exactly the exact values

  /** A value that is stored and comes back. */
  predicate Kept(f: Field, v: Value, enc: Encoding)
    requires !f.kind.Group?
  {
    EncodeLeaf(f, v, enc).Ok? && DecodeLeaf(f, EncodeLeaf(f, v, enc).value, enc) == Ok(v)
  }

  /** A text that loses nothing to its padding is not edged by it. */
  lemma UnpadWhole(s: string, justify: Justify, pad: char)
    requires Unpad(s, justify, pad) == s
    ensures EdgeIsNot(s, justify, pad)
  {
    if s != [] {
      if justify.Left? {
        if s[|s| - 1] == pad { DropEndRest(s[..|s| - 1], pad); }
      } else {
        if s[0] == pad { DropStartRest(s[1..], pad); }
      }
    }
  }

  lemma TextKept(f: Field, v: Value, enc: Encoding)
    requires f.kind.Text? && Shaped(f) && Kept(f, v, enc)
    ensures Exact(f, v)
  {
    hide Utf8.Lossy, Utf8.Encode, Unpad, FromAscii, ToAscii, BeforeNul, EdgeIsNot;
    var justify, pad := f.kind.justify, f.kind.pad;
    var s, k := v.s, f.width - |Utf8.Encode(v.s)|;
    var bs := JustifyPad(Utf8.Encode(s), f.width, justify, pad).value;
    TranscodeRoundTrip(bs, enc);
    LossyPadded(s, justify, pad, k);
    if f.kind.trim {
      UnpadPadded(s, justify, pad as char, k);
      var t := Unpad(s, justify, pad as char);
      NoNul(t);
      UnpadRest(s, justify, pad as char);
      NulPrefix(t);
      assert t == s by {
        if justify.Left? { DropEndRest(s, pad as char); } else { DropStartRest(s, pad as char); }
        assert |BeforeNul(t)| == |s|;
      }
      UnpadWhole(s, justify, pad as char);
    } else {
      assert k == 0;
    }
  }

  lemma NulPrefix(t: string)
    ensures BeforeNul(t) <= t
  {
  }

  lemma HexKept(f: Field, v: Value, enc: Encoding)
    requires f.kind.Hex? && Kept(f, v, enc)
    ensures Exact(f, v)
  {
    HX.ShownIsHex(EncodeLeaf(f, v, enc).value, f.kind.order);
  }

  lemma DecimalKept(f: Field, v: Value, enc: Encoding)
    requires f.kind.Decimal? && Shaped(f) && Kept(f, v, enc)
    ensures Exact(f, v)
  {
    hide DN.EncodeDecimal, DN.ParseDisplayDecimal, PK.Encode, PK.Decode, ZN.Encode, ZN.Decode;
    hide FromAscii, ToAscii, Radix.Pow;
    var n, w, sign := v.unscaled, f.width, f.kind.sign;
    match f.kind.repr {
      case Comp3 => PK.RoundTrip(n, w, !sign.Unsigned?);
      case Zoned =>
        ZN.RoundTrip(n, w, !sign.Unsigned?);
        TranscodeRoundTrip(ZN.Encode(n, w, !sign.Unsigned?).value, enc);
      case Display =>
        DN.EncodeDecimalExact(n, f.kind.precision, w, sign);
        DN.DecimalRoundTrip(n, f.kind.precision, w, sign);
        TranscodeRoundTrip(DN.EncodeDecimal(n, f.kind.precision, w, sign).value, enc);
    }
  }

  lemma IntKept(f: Field, v: Value, enc: Encoding)
    requires f.kind.Int? && Shaped(f) && Kept(f, v, enc)
    ensures Exact(f, v)
  {
    hide DN.EncodeInt, DN.ParseDisplayInt, FromAscii, ToAscii, Radix.Pow;
    DN.EncodeIntExact(v.n, f.width, f.kind.signed, f.kind.sign);
    DN.IntRoundTrip(v.n, f.width, f.kind.signed, f.kind.sign);
    TranscodeRoundTrip(DN.EncodeInt(v.n, f.width, f.kind.signed, f.kind.sign).value, enc);
  }

  lemma EditedKept(f: Field, v: Value, enc: Encoding)
    requires f.kind.Edited? && Shaped(f) && Kept(f, v, enc)
    ensures Exact(f, v)
  {
    hide ED.Encode, ED.Decode, FromAscii, ToAscii, Radix.Pow, ED.ZeroSafe, ED.SignVisible, ED.Floating;
    ED.EncodeExact(v.unscaled, f.kind.mask);
    ED.RoundTrip(v.unscaled, f.kind.mask, f.kind.signed);
    TranscodeRoundTrip(ED.Encode(v.unscaled, f.kind.mask).value, enc);
  }

  lemma PlainKept(f: Field, v: Value, enc: Encoding)
    requires (f.kind.Binary? || f.kind.Bool? || f.kind.Pad?) && Shaped(f) && Kept(f, v, enc)
    ensures Exact(f, v)
  {
    hide BI.Encode, BI.Parse;
    if f.kind.Binary? { BI.RoundTrip(v.n, f.width, f.kind.endian, f.kind.signed); }
  }

  /** The values a well-shaped leaf stores and gives back are exactly the exact ones. */
  lemma KeptExactly(f: Field, v: Value, enc: Encoding)
    requires !f.kind.Group? && Shaped(f)
    ensures Kept(f, v, enc) <==> Exact(f, v)
  {
    hide EncodeLeaf, DecodeLeaf, Exact, Shaped;
    if Exact(f, v) { ExactRoundTrip(f, v, enc); }
    if Kept(f, v, enc) {
      hide Kept;
      match f.kind {
        case Text(_, _, _) => TextKept(f, v, enc);
        case Int(_, _) => IntKept(f, v, enc);
        case Hex(_) => HexKept(f, v, enc);
        case Decimal(_, _, _, _) => DecimalKept(f, v, enc);
        case Edited(_, _, _, _) => EditedKept(f, v, enc);
        case _ => PlainKept(f, v, enc);
      }
    }
  }

  // ---------------------------------------------------------------- canonical bytes

  /** The stored forms that encoding itself produces, told from the bytes alone. */
  predicate Canonical(f: Field, bs: seq<Byte>, enc: Encoding)
    requires !f.kind.Group?
  {
    var ascii := ToAscii(bs, enc);
    |bs| == f.width && (f.kind.Text? || Shaped(f)) &&
    match f.kind
    case Text(justify, trim, pad) =>
      Utf8.WellFormed(ascii) &&
      (trim ==> pad < 128 && '\0' !in Unpad(Utf8.Lossy(ascii), justify, pad as char))
    case Int(_, sign) => DN.Canonical(ascii, sign, I64_MAX)
    case Binary(_, _) => true
    case Hex(_) => true
    case Bool => bs[0] <= 1
    case Pad(fill) => ascii == Repeat(fill, f.width)
    case Decimal(_, _, repr, sign) =>
      (match repr
       case Comp3 => PK.Decode(bs).Ok? && PK.CanonicalSign(bs, !sign.Unsigned?)
       case Zoned => ZN.Decode(ascii).Ok? && ZN.CanonicalSign(ascii, !sign.Unsigned?)
       case Display => DN.Canonical(ascii, sign, I128_MAX))
    case Edited(_, _, signed, mask) => ED.Dressed(ascii, mask, signed)
  }

  lemma {:induction false} DropEndRest(s: string, c: char)
    ensures DropEnd(s, c) <= s
    ensures s == DropEnd(s, c) + Repeat(c, |s| - |DropEnd(s, c)|)
  {
    if s != [] && s[|s| - 1] == c {
      DropEndRest(s[..|s| - 1], c);
      var t := DropEnd(s, c);
      assert s == s[..|s| - 1] + [c];
      assert Repeat(c, |s| - |t|) == Repeat(c, |s| - 1 - |t|) + [c];
    } else {
      assert s == s + Repeat(c, 0);
    }
  }

  lemma {:induction false} DropStartRest(s: string, c: char)
    ensures |DropStart(s, c)| <= |s|
    ensures s == Repeat(c, |s| - |DropStart(s, c)|) + DropStart(s, c)
  {
    if s != [] && s[0] == c {
      DropStartRest(s[1..], c);
      var t := DropStart(s, c);
      assert s == [c] + s[1..];
      assert Repeat(c, |s| - |t|) == [c] + Repeat(c, |s| - 1 - |t|);
    } else {
      assert s == Repeat(c, 0) + s;
    }
  }

  /** What padding takes off a text is padding characters on one side. */
  lemma UnpadRest(s: string, justify: Justify, pad: char)
    ensures var t := Unpad(s, justify, pad);
            |t| <= |s| &&
            s == if justify.Left? then t + Repeat(pad, |s| - |t|) else Repeat(pad, |s| - |t|) + t
  {
    if justify.Left? {
      DropEndRest(s, pad);
    } else {
      DropStartRest(s, pad);
    }
  }

  /** Padding by characters and padding by bytes agree for a pad of one byte. */
  lemma EncodePadded(s: string, justify: Justify, pad: Byte, k: nat)
    requires pad < 128
    ensures var bs, t := Utf8.Encode(s), Repeat(pad as char, k);
            Utf8.Encode(if justify.Left? then s + t else t + s)
            == if justify.Left? then bs + Repeat(pad, k) else Repeat(pad, k) + bs
  {
    var pads, t := Repeat(pad, k), Repeat(pad as char, k);
    assert Utf8.Chars(pads) == t;
    Utf8.EncodeAscii(pads);
    Utf8.EncodeConcat(s, t);
    Utf8.EncodeConcat(t, s);
  }

  lemma FullText(bs: seq<Byte>, width: nat, justify: Justify, pad: Byte)
    requires |bs| == width
    ensures JustifyPad(bs, width, justify, pad) == Ok(bs)
  {
    assert bs + Repeat(pad, 0) == bs == Repeat(pad, 0) + bs;
  }

  lemma NoNul(s: string)
    ensures '\0' !in s ==> BeforeNul(s) == s
    ensures '\0' !in BeforeNul(s)
  {
    var i := IndexFrom(s, '\0', 0);
    assert s[0..i] == s[..i];
  }

  lemma TextBytes(f: Field, bs: seq<Byte>, enc: Encoding)
    requires f.kind.Text? && Canonical(f, bs, enc)
    ensures EncodeLeaf(f, DecodeLeaf(f, bs, enc).value, enc) == Ok(bs)
  {
    hide FromAscii, ToAscii, Utf8.Lossy, Utf8.Encode, Utf8.WellFormed, Unpad, JustifyPad, BeforeNul;
    var ascii, justify, pad := ToAscii(bs, enc), f.kind.justify, f.kind.pad;
    var s := Utf8.Lossy(ascii);
    TranscodeRoundTrip(bs, enc);
    Utf8.WellFormedExact(ascii);
    if f.kind.trim {
      var t := Unpad(s, justify, pad as char);
      NoNul(t);
      UnpadRest(s, justify, pad as char);
      EncodePadded(t, justify, pad, |s| - |t|);
      PaddedFits(Utf8.Encode(t), |s| - |t|, justify, pad);
    } else {
      FullText(ascii, f.width, justify, pad);
    }
  }

  lemma PaddedFits(bs: seq<Byte>, k: nat, justify: Justify, pad: Byte)
    ensures JustifyPad(bs, |bs| + k, justify, pad)
         == Ok(if justify.Left? then bs + Repeat(pad, k) else Repeat(pad, k) + bs)
  {
  }

  /** Text that encodes to the bytes it was decoded from came from well-formed bytes without an inner NUL. */
  lemma TextCanonical(f: Field, bs: seq<Byte>, enc: Encoding)
    requires f.kind.Text? && Shaped(f) && |bs| == f.width
    requires EncodeLeaf(f, DecodeLeaf(f, bs, enc).value, enc) == Ok(bs)
    ensures Canonical(f, bs, enc)
  {
    hide FromAscii, ToAscii, Utf8.Lossy, Utf8.Encode, Utf8.WellFormed, Unpad, BeforeNul;
    var ascii, justify, pad := ToAscii(bs, enc), f.kind.justify, f.kind.pad;
    var s := DecodeText(ascii, justify, f.kind.trim, pad);
    var k := f.width - |Utf8.Encode(s)|;
    var padded := JustifyPad(Utf8.Encode(s), f.width, justify, pad).value;
    TranscodeRoundTrip(padded, enc);
    assert padded == ascii;
    LossyPadded(s, justify, pad, k);
    EncodePadded(s, justify, pad, k);
    Utf8.WellFormedExact(ascii);
    if f.kind.trim {
      var t := Unpad(Utf8.Lossy(ascii), justify, pad as char);
      UnpadPadded(s, justify, pad as char, k);
      NoNul(t);
      UnpadRest(s, justify, pad as char);
      assert forall c :: c in t ==> c in s;
    }
  }

  lemma TextExact(f: Field, bs: seq<Byte>, enc: Encoding)
    requires f.kind.Text? && Shaped(f) && |bs| == f.width
    ensures Survives(f, bs, enc) <==> Canonical(f, bs, enc)
  {
    hide Canonical, EncodeLeaf;
    if Canonical(f, bs, enc) { TextBytes(f, bs, enc); }
    if Survives(f, bs, enc) { TextCanonical(f, bs, enc); }
  }

  /** What a field's bytes become when they are decoded and the value is encoded again. */
  function Recode(f: Field, bs: seq<Byte>, enc: Encoding): Result<seq<Byte>>
    requires !f.kind.Group?
  {
    var v :- DecodeLeaf(f, bs, enc);
    EncodeLeaf(f, v, enc)
  }

  /** Whether a field's bytes decode to a value that encodes to the same bytes. */
  predicate Survives(f: Field, bs: seq<Byte>, enc: Encoding)
    requires !f.kind.Group?
  {
    Recode(f, bs, enc) == Ok(bs)
  }

  lemma FromAsciiIs(ascii: seq<Byte>, bs: seq<Byte>, enc: Encoding)
    ensures FromAscii(ascii, enc) == bs <==> ascii == ToAscii(bs, enc)
  {
    TranscodeRoundTrip(ascii, enc);
    TranscodeRoundTrip(bs, enc);
  }

  lemma DisplayBytes(b: seq<Byte>, precision: nat, sign: DN.SignKind)
    requires precision <= |b|
    ensures DN.ParseDisplayDecimal(b, sign).Ok? &&
            DN.EncodeDecimal(DN.ParseDisplayDecimal(b, sign).value, precision, |b|, sign) == Ok(b)
       <==> DN.Canonical(b, sign, I128_MAX)
  {
    hide DN.EncodeDecimal, DN.ParseDisplayDecimal, DN.Canonical, DN.Image, Radix.Pow;
    if DN.Canonical(b, sign, I128_MAX) {
      DN.CanonicalIsImage(b, sign, I128_MAX);
      var n := DN.CanonicalValue(b, sign, I128_MAX);
      DN.EncodeDecimalExact(n, precision, |b|, sign);
      DN.ParseImage(n, |b|, sign);
    }
    if DN.ParseDisplayDecimal(b, sign).Ok? &&
       DN.EncodeDecimal(DN.ParseDisplayDecimal(b, sign).value, precision, |b|, sign) == Ok(b) {
      var n := DN.ParseDisplayDecimal(b, sign).value;
      DN.EncodeDecimalExact(n, precision, |b|, sign);
      DN.DecimalRoundTrip(n, precision, |b|, sign);
      DN.ImageIsCanonical(n, |b|, sign, I128_MAX);
    }
  }

  lemma DecimalBytes(f: Field, bs: seq<Byte>, enc: Encoding)
    requires f.kind.Decimal? && Shaped(f) && |bs| == f.width
    ensures Survives(f, bs, enc) <==> Canonical(f, bs, enc)
  {
    hide FromAscii, ToAscii, PK.Encode, PK.Decode, ZN.Encode, ZN.Decode, DN.EncodeDecimal, DN.ParseDisplayDecimal;
    hide DN.Canonical, PK.CanonicalSign, ZN.CanonicalSign;
    var ascii, sign := ToAscii(bs, enc), f.kind.sign;
    match f.kind.repr {
      case Comp3 =>
        if PK.Decode(bs).Ok? { PK.BytesRoundTrip(bs, !sign.Unsigned?); }
      case Zoned =>
        if ZN.Decode(ascii).Ok? {
          ZN.BytesRoundTrip(ascii, !sign.Unsigned?);
          var again := ZN.Encode(ZN.Decode(ascii).value, f.width, !sign.Unsigned?);
          if again.Ok? { FromAsciiIs(again.value, bs, enc); }
        }
      case Display =>
        DisplayBytes(ascii, f.kind.precision, sign);
        if DN.ParseDisplayDecimal(ascii, sign).Ok? {
          var n := DN.ParseDisplayDecimal(ascii, sign).value;
          var again := DN.EncodeDecimal(n, f.kind.precision, f.width, sign);
          if again.Ok? { FromAsciiIs(again.value, bs, enc); }
        }
    }
  }

  lemma IntBytes(f: Field, bs: seq<Byte>, enc: Encoding)
    requires f.kind.Int? && Shaped(f) && |bs| == f.width
    ensures Survives(f, bs, enc) <==> Canonical(f, bs, enc)
  {
    hide FromAscii, ToAscii, DN.EncodeInt, DN.ParseDisplayInt, DN.Canonical;
    var ascii := ToAscii(bs, enc);
    DN.IntBytesRoundTrip(ascii, f.kind.signed, f.kind.sign);
    if DN.ParseDisplayInt(ascii, f.kind.sign).Ok? {
      var n := DN.ParseDisplayInt(ascii, f.kind.sign).value;
      var again := DN.EncodeInt(n, f.width, f.kind.signed, f.kind.sign);
      if again.Ok? { FromAsciiIs(again.value, bs, enc); }
    }
  }

  lemma EditedBytes(f: Field, bs: seq<Byte>, enc: Encoding)
    requires f.kind.Edited? && Shaped(f) && |bs| == f.width
    ensures Survives(f, bs, enc) <==> Canonical(f, bs, enc)
  {
    hide ED.Encode, ED.Decode, ED.Dressed, ED.Floating, FromAscii, ToAscii;
    var ascii := ToAscii(bs, enc);
    ED.BytesRoundTrip(ascii, f.kind.mask, f.kind.signed);
    if ED.Decode(ascii, f.kind.signed).Ok? {
      var again := ED.Encode(ED.Decode(ascii, f.kind.signed).value, f.kind.mask);
      if again.Ok? { FromAsciiIs(again.value, bs, enc); }
    }
  }

  lemma PlainBytes(f: Field, bs: seq<Byte>, enc: Encoding)
    requires (f.kind.Bool? || f.kind.Pad?) && Shaped(f) && |bs| == f.width
    ensures Survives(f, bs, enc) <==> Canonical(f, bs, enc)
  {
    hide FromAscii, ToAscii;
    if f.kind.Bool? {
      assert bs == [bs[0]];
    } else {
      FromAsciiIs(Repeat(f.kind.fill, f.width), bs, enc);
    }
  }

  lemma RawBytes(f: Field, bs: seq<Byte>, enc: Encoding)
    requires (f.kind.Binary? || f.kind.Hex?) && Shaped(f) && |bs| == f.width
    ensures Survives(f, bs, enc) && Canonical(f, bs, enc)
  {
    hide BI.Encode, BI.Parse, HX.Encode, HX.Show;
    if f.kind.Binary? {
      BI.BytesRoundTrip(bs, f.kind.endian, f.kind.signed);
    } else {
      HX.BytesRoundTrip(bs, f.kind.order);
    }
  }

  /** The bytes of a well-shaped field decode and encode back to themselves exactly when they are canonical. */
  lemma CanonicalExact(f: Field, bs: seq<Byte>, enc: Encoding)
    requires !f.kind.Group? && Shaped(f) && |bs| == f.width
    ensures Survives(f, bs, enc) <==> Canonical(f, bs, enc)
  {
    hide Survives, Canonical, Shaped;
    match f.kind {
      case Text(_, _, _) => TextExact(f, bs, enc);
      case Int(_, _) => IntBytes(f, bs, enc);
      case Binary(_, _) => RawBytes(f, bs, enc);
      case Hex(_) => RawBytes(f, bs, enc);
      case Decimal(_, _, _, _) => DecimalBytes(f, bs, enc);
      case Edited(_, _, _, _) => EditedBytes(f, bs, enc);
      case _ => PlainBytes(f, bs, enc);
    }
  }

  /** Canonical bytes decode, and their value encodes to the same bytes. */
  lemma CanonicalRoundTrip(f: Field, bs: seq<Byte>, enc: Encoding)
    requires !f.kind.Group? && Canonical(f, bs, enc)
    ensures DecodeLeaf(f, bs, enc).Ok? && Survives(f, bs, enc)
  {
    hide Canonical, DecodeLeaf, EncodeLeaf;
    if f.kind.Text? {
      TextBytes(f, bs, enc);
      TextDecodes(f, bs, enc);
    } else {
      CanonicalShape(f, bs, enc);
      CanonicalExact(f, bs, enc);
      assert Survives(f, bs, enc);
    }
  }

  lemma TextDecodes(f: Field, bs: seq<Byte>, enc: Encoding)
    requires f.kind.Text?
    ensures DecodeLeaf(f, bs, enc).Ok?
  {
  }

  lemma CanonicalShape(f: Field, bs: seq<Byte>, enc: Encoding)
    requires !f.kind.Group? && !f.kind.Text? && Canonical(f, bs, enc)
    ensures Shaped(f) && |bs| == f.width
  {
  }
}
