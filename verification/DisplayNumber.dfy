/** Numeric DISPLAY fields: one character a digit, with an optional separate sign character. */
module DisplayNumber {
  import opened Prelude
  import opened Radix
  import opened Strings
  import Utf8

  datatype SignKind = Unsigned | Embedded | LeadingSeparate | TrailingSeparate

  const PLUS: Byte := 43
  const MINUS: Byte := 45

  predicate Separate(sign: SignKind) {
    sign.LeadingSeparate? || sign.TrailingSeparate?
  }

  /** Digit positions in a field of `width` bytes. */
  function Places(width: nat, sign: SignKind): int {
    if Separate(sign) then width - 1 else width
  }

  function ZeroPad(mag: nat, width: int): Result<seq<Byte>> {
    var ds := Shortest(10, mag);
    if |ds| > width then Err else Ok(DigitBytes(Repeat(0 as nat, width - |ds|) + ds))
  }

  function SignByte(n: int): Byte {
    if n < 0 then MINUS else PLUS
  }

  function EncodeInt(n: int, width: nat, signed: bool, sign: SignKind): Result<seq<Byte>> {
    var places := Places(width, sign);
    match sign
    case LeadingSeparate =>
      if places < 0 then Err else var body :- ZeroPad(Abs(n), places); Ok([SignByte(n)] + body)
    case TrailingSeparate =>
      if places < 0 then Err else var body :- ZeroPad(Abs(n), places); Ok(body + [SignByte(n)])
    case _ =>
      if n < 0 && !signed then Err else ZeroPad(Abs(n), places)
  }

  function EncodeDecimal(n: int, precision: nat, width: nat, sign: SignKind): Result<seq<Byte>> {
    var b :- EncodeInt(n, Max(width, precision), !sign.Unsigned?, sign);
    if |b| > width then Err else Ok(b)
  }

  /** Removes a separate sign character: the rest and whether it was a minus. */
  function StripSign(s: string, sign: SignKind): (string, bool) {
    match sign
    case LeadingSeparate =>
      var t := TrimStart(s);
      if t != [] && t[0] == '-' then (t[1..], true)
      else if t != [] && t[0] == '+' then (t[1..], false)
      else (t, false)
    case TrailingSeparate =>
      var t := TrimEnd(s);
      if t != [] && t[|t| - 1] == '-' then (t[..|t| - 1], true)
      else if t != [] && t[|t| - 1] == '+' then (t[..|t| - 1], false)
      else (t, false)
    case _ => (s, false)
  }

  /** Negation in 64 bits wraps at the one value that has no opposite. */
  function Negate64(n: int): (r: int)
    requires I64_MIN <= n <= I64_MAX
    ensures I64_MIN <= r <= I64_MAX && (r + n) % 0x1_0000_0000_0000_0000 == 0
  {
    if n == I64_MIN then I64_MIN else -n
  }

  function ParseDisplayInt(ascii: seq<Byte>, sign: SignKind): (r: Result<int>)
    ensures r.Ok? ==> I64_MIN <= r.value <= I64_MAX
  {
    var (rest, negative) := StripSign(Trim(Utf8.Lossy(ascii)), sign);
    var digits := Trim(rest);
    if digits == [] then Ok(0)
    else match ParseInt(digits, I64_MIN, I64_MAX)
      case None => Err
      case Some(mag) => Ok(if negative then Negate64(mag) else mag)
  }

  function ParseDisplayDecimal(ascii: seq<Byte>, sign: SignKind): (r: Result<int>)
    ensures r.Ok? ==> I128_MIN < r.value <= I128_MAX
  {
    var (rest, negative) := StripSign(Trim(Utf8.Lossy(ascii)), sign);
    var mag: int := Value(10, DigitsIn(rest));
    if mag > I128_MAX then Err else Ok(if negative then -mag else mag)
  }

  /** The image of a number: its digits in every place, with the sign character where there is one. */
  function Image(n: int, width: nat, sign: SignKind): (b: seq<Byte>)
    requires Places(width, sign) >= 0
    ensures |b| == width
  {
    Arrange(SignByte(n), DigitBytes(Digits(10, Abs(n), Places(width, sign))), sign)
  }

  /** The numbers a field can hold: enough places, and no minus sign where none is written or allowed. */
  predicate Fits(n: int, width: nat, signed: bool, sign: SignKind) {
    Places(width, sign) >= 1 && Abs(n) < Pow(10, Places(width, sign)) && (Separate(sign) || n >= 0 || signed)
  }

  lemma ZeroPadImage(mag: nat, width: nat)
    ensures ZeroPad(mag, width).Ok? <==> width >= 1 && mag < Pow(10, width)
    ensures ZeroPad(mag, width).Ok? ==> ZeroPad(mag, width).value == DigitBytes(Digits(10, mag, width))
  {
    if width >= 1 {
      ShortestLength(10, mag, width);
      if ZeroPad(mag, width).Ok? { PadShortest(10, mag, width); }
    }
  }

  /** Encoding succeeds exactly on the numbers that fit, and then writes the image. */
  lemma EncodeIntExact(n: int, width: nat, signed: bool, sign: SignKind)
    ensures EncodeInt(n, width, signed, sign).Ok? <==> Fits(n, width, signed, sign)
    ensures Fits(n, width, signed, sign) ==> EncodeInt(n, width, signed, sign) == Ok(Image(n, width, sign))
  {
    if Places(width, sign) >= 0 { ZeroPadImage(Abs(n), Places(width, sign)); }
  }

  lemma EncodeDecimalExact(n: int, precision: nat, width: nat, sign: SignKind)
    ensures EncodeDecimal(n, precision, width, sign).Ok?
       <==> precision <= width && Fits(n, width, !sign.Unsigned?, sign)
    ensures EncodeDecimal(n, precision, width, sign).Ok?
        ==> EncodeDecimal(n, precision, width, sign) == Ok(Image(n, width, sign))
  {
    EncodeIntExact(n, Max(width, precision), !sign.Unsigned?, sign);
  }

  /** A sign character and digits, in the order the sign kind puts them. */
  function Arrange(sg: Byte, body: seq<Byte>, sign: SignKind): seq<Byte> {
    match sign
    case LeadingSeparate => [sg] + body
    case TrailingSeparate => body + [sg]
    case _ => body
  }

  lemma StripLeading(c: char, t: string)
    requires t != [] && AllDigits(t) && (c == '+' || c == '-')
    ensures StripSign(Trim([c] + t), LeadingSeparate) == (t, c == '-')
  {
    TrimOfTrimmed([c] + t);
  }

  lemma StripTrailing(c: char, t: string)
    requires t != [] && AllDigits(t) && (c == '+' || c == '-')
    ensures StripSign(Trim(t + [c]), TrailingSeparate) == (t, c == '-')
  {
    TrimOfTrimmed(t + [c]);
    assert (t + [c])[..|t|] == t;
  }

  /** Stripping an arranged field finds the digits, and a minus only in a separate sign. */
  lemma StripArranged(sg: Byte, body: seq<Byte>, sign: SignKind)
    requires body != [] && AreDigitBytes(body) && (sg == PLUS || sg == MINUS)
    ensures StripSign(Trim(Utf8.Lossy(Arrange(sg, body, sign))), sign)
         == (Utf8.Chars(body), sg == MINUS && Separate(sign))
  {
    hide Utf8.Lossy;
    var t := Utf8.Chars(body);
    Utf8.LossyAscii(Arrange(sg, body, sign));
    match sign {
      case LeadingSeparate =>
        assert Utf8.Chars([sg] + body) == [sg as char] + t;
        StripLeading(sg as char, t);
      case TrailingSeparate =>
        assert Utf8.Chars(body + [sg]) == t + [sg as char];
        StripTrailing(sg as char, t);
      case _ =>
        TrimOfTrimmed(t);
    }
  }

  lemma ParseDigits(ds: seq<nat>, hi: int)
    requires IsDigits(10, ds) && |ds| >= 1
    ensures var s := Utf8.Chars(DigitBytes(ds));
            Trim(s) == s && s != [] && (s[0] != '+' && s[0] != '-') &&
            ParseInt(s, I64_MIN, hi) == if Value(10, ds) <= hi then Some(Value(10, ds)) else None
  {
    hide Value, DigitsIn, Trim;
    var s := Utf8.Chars(DigitBytes(ds));
    DigitsInDigitBytes(ds);
    assert IsDigit(s[0]) && IsDigit(s[|s| - 1]);
    TrimOfTrimmed(s);
  }

  lemma ParseArranged(sg: Byte, ds: seq<nat>, sign: SignKind)
    requires ds != [] && IsDigits(10, ds) && (sg == PLUS || sg == MINUS)
    ensures var b, mag: int := Arrange(sg, DigitBytes(ds), sign), Value(10, ds);
            var n := if sg == MINUS && Separate(sign) then -mag else mag;
            ParseDisplayInt(b, sign) == (if mag > I64_MAX then Err else Ok(n)) &&
            ParseDisplayDecimal(b, sign) == (if mag > I128_MAX then Err else Ok(n))
  {
    hide Utf8.Lossy, StripSign, Value, DigitsIn, Trim, ParseInt;
    StripArranged(sg, DigitBytes(ds), sign);
    ParseDigits(ds, I64_MAX);
    DigitsInDigitBytes(ds);
  }

  /** What decoding makes of the image of a number that fits. */
  lemma ParseImage(n: int, width: nat, sign: SignKind)
    requires Places(width, sign) >= 1 && Abs(n) < Pow(10, Places(width, sign))
    ensures ParseDisplayInt(Image(n, width, sign), sign)
         == if Abs(n) > I64_MAX then Err else Ok(if Separate(sign) then n else Abs(n))
    ensures ParseDisplayDecimal(Image(n, width, sign), sign)
         == if Abs(n) > I128_MAX then Err else Ok(if Separate(sign) then n else Abs(n))
  {
    hide Value, Digits, ParseDisplayInt, ParseDisplayDecimal, Arrange;
    DigitsFit(10, Abs(n), Places(width, sign));
    ParseArranged(SignByte(n), Digits(10, Abs(n), Places(width, sign)), sign);
  }

  /**
   A display integer survives the round trip exactly when it fits, its magnitude has a 64-bit
   opposite, and its sign is written: an embedded or absent sign loses a minus silently.
   */
  lemma IntRoundTrip(n: int, width: nat, signed: bool, sign: SignKind)
    ensures EncodeInt(n, width, signed, sign).Ok? ==>
      |EncodeInt(n, width, signed, sign).value| == width &&
      (ParseDisplayInt(EncodeInt(n, width, signed, sign).value, sign) == Ok(n) <==>
        Abs(n) <= I64_MAX && (Separate(sign) || n >= 0))
  {
    EncodeIntExact(n, width, signed, sign);
    if Fits(n, width, signed, sign) { ParseImage(n, width, sign); }
  }

  lemma DecimalRoundTrip(n: int, precision: nat, width: nat, sign: SignKind)
    ensures EncodeDecimal(n, precision, width, sign).Ok? ==>
      |EncodeDecimal(n, precision, width, sign).value| == width &&
      (ParseDisplayDecimal(EncodeDecimal(n, precision, width, sign).value, sign) == Ok(n) <==>
        Abs(n) <= I128_MAX && (Separate(sign) || n >= 0))
  {
    EncodeDecimalExact(n, precision, width, sign);
    if EncodeDecimal(n, precision, width, sign).Ok? { ParseImage(n, width, sign); }
  }

  /** The digit bytes of a field, its separate sign left out. */
  function Body(b: seq<Byte>, sign: SignKind): seq<Byte>
    requires Separate(sign) ==> b != []
  {
    match sign
    case LeadingSeparate => b[1..]
    case TrailingSeparate => b[..|b| - 1]
    case _ => b
  }

  function SignOf(b: seq<Byte>, sign: SignKind): Byte
    requires Separate(sign) ==> b != []
  {
    match sign
    case LeadingSeparate => b[0]
    case TrailingSeparate => b[|b| - 1]
    case _ => PLUS
  }

  /** Digits throughout, an explicit sign character where one belongs, no negative zero, and within `max`. */
  predicate Canonical(b: seq<Byte>, sign: SignKind, max: int) {
    && (Separate(sign) ==> b != [])
    && Body(b, sign) != [] && AreDigitBytes(Body(b, sign))
    && var mag := Value(10, DigitsOfBytes(Body(b, sign)));
       mag <= max && (SignOf(b, sign) == PLUS || (SignOf(b, sign) == MINUS && mag != 0))
  }

  function CanonicalValue(b: seq<Byte>, sign: SignKind, max: int): int
    requires Canonical(b, sign, max)
  {
    var mag: int := Value(10, DigitsOfBytes(Body(b, sign)));
    if SignOf(b, sign) == MINUS then -mag else mag
  }

  lemma BodyOfArranged(sg: Byte, body: seq<Byte>, sign: SignKind)
    ensures Separate(sign) ==> Arrange(sg, body, sign) != []
    ensures Body(Arrange(sg, body, sign), sign) == body
    ensures SignOf(Arrange(sg, body, sign), sign) == if Separate(sign) then sg else PLUS
  {
  }

  lemma ArrangeBody(b: seq<Byte>, sign: SignKind)
    requires Separate(sign) ==> b != []
    ensures Arrange(SignOf(b, sign), Body(b, sign), sign) == b
    ensures |Body(b, sign)| == Places(|b|, sign)
  {
  }

  lemma CanonicalIsImage(b: seq<Byte>, sign: SignKind, max: int)
    requires Canonical(b, sign, max)
    ensures var n := CanonicalValue(b, sign, max);
            Places(|b|, sign) >= 1 && b == Image(n, |b|, sign) && Fits(n, |b|, false, sign) &&
            Abs(n) <= max && (Separate(sign) || n >= 0)
  {
    ArrangeBody(b, sign);
    var ds := DigitsOfBytes(Body(b, sign));
    DigitsOfValue(10, ds);
    ValueBound(10, ds);
    var n := CanonicalValue(b, sign, max);
    assert Abs(n) == Value(10, ds);
    assert Separate(sign) ==> SignByte(n) == SignOf(b, sign);
  }

  lemma ImageIsCanonical(n: int, width: nat, sign: SignKind, max: int)
    requires Places(width, sign) >= 1 && Abs(n) < Pow(10, Places(width, sign)) && Abs(n) <= max
    requires Separate(sign) || n >= 0
    ensures Canonical(Image(n, width, sign), sign, max)
  {
    hide Value, Digits;
    var ds := Digits(10, Abs(n), Places(width, sign));
    DigitsFit(10, Abs(n), Places(width, sign));
    BodyOfArranged(SignByte(n), DigitBytes(ds), sign);
    assert DigitsOfBytes(DigitBytes(ds)) == ds;
  }

  /** Decoding and encoding again gives the same bytes exactly on the canonical images. */
  lemma IntBytesRoundTrip(b: seq<Byte>, signed: bool, sign: SignKind)
    ensures ParseDisplayInt(b, sign).Ok? && EncodeInt(ParseDisplayInt(b, sign).value, |b|, signed, sign) == Ok(b)
       <==> Canonical(b, sign, I64_MAX)
  {
    if Canonical(b, sign, I64_MAX) {
      CanonicalIsImage(b, sign, I64_MAX);
      var n := CanonicalValue(b, sign, I64_MAX);
      EncodeIntExact(n, |b|, signed, sign);
      ParseImage(n, |b|, sign);
    }
    if ParseDisplayInt(b, sign).Ok? && EncodeInt(ParseDisplayInt(b, sign).value, |b|, signed, sign) == Ok(b) {
      var n := ParseDisplayInt(b, sign).value;
      EncodeIntExact(n, |b|, signed, sign);
      IntRoundTrip(n, |b|, signed, sign);
      ImageIsCanonical(n, |b|, sign, I64_MAX);
    }
  }

  /**
   Byte by byte: `+` or `-` where the sign stands apart, first when it leads and last when it trails,
   and a digit everywhere else, from the highest down.
   */
  lemma ImageAt(n: int, width: nat, sign: SignKind, i: nat)
    requires Places(width, sign) >= 0 && i < width
    ensures var b := Image(n, width, sign)[i];
            match sign
            case LeadingSeparate =>
              b == if i == 0 then (if n < 0 then 45 else 43) else 48 + PlaceDigit(10, Abs(n), width - 1 - i)
            case TrailingSeparate =>
              b == if i == width - 1 then (if n < 0 then 45 else 43)
                   else 48 + PlaceDigit(10, Abs(n), width - 2 - i)
            case _ => b == 48 + PlaceDigit(10, Abs(n), width - 1 - i)
  {
    hide Digits, Pow, PlaceDigit, Arrange, DigitBytes;
    var ds := Digits(10, Abs(n), Places(width, sign));
    ArrangeAt(SignByte(n), DigitBytes(ds), sign, i);
    var k := if sign.LeadingSeparate? then i - 1 else i;
    if 0 <= k < |ds| {
      DigitByteAt(ds, k);
      DigitAt(10, Abs(n), |ds|, k);
    }
  }

  lemma ArrangeAt(sg: Byte, body: seq<Byte>, sign: SignKind, i: nat)
    requires i < |body| + if Separate(sign) then 1 else 0
    ensures |Arrange(sg, body, sign)| == |body| + if Separate(sign) then 1 else 0
    ensures Arrange(sg, body, sign)[i]
         == match sign
            case LeadingSeparate => if i == 0 then sg else body[i - 1]
            case TrailingSeparate => if i == |body| then sg else body[i]
            case _ => body[i]
  {
  }

  lemma DigitByteAt(ds: seq<nat>, k: nat)
    requires IsDigits(10, ds) && k < |ds|
    ensures DigitBytes(ds)[k] == 48 + ds[k]
  {
  }

  /** A field of blanks is 0, whatever its sign kind. */
  lemma BlanksAreZero(width: nat, sign: SignKind)
    ensures ParseDisplayInt(Repeat<Byte>(32, width), sign) == Ok(0)
    ensures ParseDisplayDecimal(Repeat<Byte>(32, width), sign) == Ok(0)
  {
    hide Utf8.Lossy;
    var blanks := Repeat<Byte>(32, width);
    Utf8.LossyAscii(blanks);
    assert Utf8.Chars(blanks) == [] + Repeat(' ', width);
    TrimEndBlanks([], width);
    assert Trim(Utf8.Chars(blanks)) == [];
  }
}
