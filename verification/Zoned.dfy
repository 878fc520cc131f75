/** Zoned decimal: one ASCII digit a byte, the last byte carrying the sign as an overpunch. */
module Zoned {
  import opened Prelude
  import opened Radix
  import opened Strings

  /** The digit and sign of an overpunched last byte; plain digits count as positive. */
  function Overpunch(b: Byte): Option<(nat, bool)> {
    if 48 <= b <= 57 then Some((b - 48, false))
    else if b == 123 then Some((0, false))
    else if b == 125 then Some((0, true))
    else if 65 <= b <= 73 then Some((b - 65 + 1, false))
    else if 74 <= b <= 82 then Some((b - 74 + 1, true))
    else None
  }

  function Punch(d: nat, negative: bool): Byte
    requires d < 10
  {
    if d == 0 then if negative then 125 else 123
    else if negative then 74 + (d - 1) else 65 + (d - 1)
  }

  function DigitsOf(bs: seq<Byte>): (ds: seq<nat>)
    requires bs != [] && AreDigitBytes(bs[..|bs| - 1]) && Overpunch(bs[|bs| - 1]).Some?
    ensures IsDigits(10, ds) && |ds| == |bs|
  {
    DigitsOfBytes(bs[..|bs| - 1]) + [Overpunch(bs[|bs| - 1]).value.0]
  }

  predicate Readable(bs: seq<Byte>) {
    bs != [] && AreDigitBytes(bs[..|bs| - 1]) && Overpunch(bs[|bs| - 1]).Some?
  }

  function Decode(bs: seq<Byte>): (r: Result<int>)
    ensures r.Ok? ==> Abs(r.value) <= I128_MAX
  {
    if !Readable(bs) || Value(10, DigitsOf(bs)) > I128_MAX then Err
    else
      var mag: int := Value(10, DigitsOf(bs));
      Ok(if Overpunch(bs[|bs| - 1]).value.1 then -mag else mag)
  }

  /** Digit bytes with the last one overpunched when the field is signed. */
  function Image(value: int, width: nat, signed: bool): (bs: seq<Byte>)
    requires width > 0
    ensures |bs| == width
  {
    var ds := Digits(10, Abs(value), width);
    if signed then DigitBytes(ds)[width - 1 := Punch(ds[width - 1], value < 0)] else DigitBytes(ds)
  }

  function Encode(value: int, width: nat, signed: bool): (r: Result<seq<Byte>>)
    ensures r.Ok? ==> |r.value| == width
  {
    if width == 0 || Abs(value) >= Pow(10, width) then Err else Ok(Image(value, width, signed))
  }

  /** The source's decoding loop, with its checked multiply and add. */
  method DecodeBytes(bs: seq<Byte>) returns (r: Result<int>)
    ensures r == Decode(bs)
  {
    if bs == [] {
      return Err;
    }
    hide Value, Pow, Decode, DigitsOfBytes, DigitBytes;
    ValueEmpty(10);
    var value: int := 0;
    var last := |bs| - 1;
    ghost var ds: seq<nat> := [];
    for i := 0 to last
      invariant |ds| == i && forall j :: 0 <= j < i ==> 48 <= bs[j] < 58 && ds[j] == bs[j] - 48
      invariant value == Value(10, ds) <= I128_MAX
    {
      if bs[i] < 48 || bs[i] > 57 {
        DecodeFails(bs, ds);
        return Err;
      }
      var d: nat := bs[i] - 48;
      value := value * 10 + d;
      ValueSnoc(10, ds, d);
      ds := ds + [d];
      if value > I128_MAX {
        DecodeFails(bs, ds);
        return Err;
      }
    }
    DecodeEnds(bs, ds);
    match Overpunch(bs[last]) {
      case None => return Err;
      case Some((digit, negative)) =>
        ValueSnoc(10, ds, digit);
        value := value * 10 + digit;
        if value > I128_MAX {
          return Err;
        }
        return Ok(if negative then -value else value);
    }
  }

  /** A byte that is not a digit, or a prefix already past 128 bits, fails the whole field. */
  lemma DecodeFails(bs: seq<Byte>, ds: seq<nat>)
    requires |ds| < |bs| && forall i :: 0 <= i < |ds| ==> 48 <= bs[i] < 58 && ds[i] == bs[i] - 48
    requires (|ds| < |bs| - 1 && !(48 <= bs[|ds|] < 58)) || Value(10, ds) > I128_MAX
    ensures Decode(bs) == Err
  {
    hide Value;
    if Readable(bs) {
      if |ds| < |bs| - 1 { assert bs[..|bs| - 1][|ds|] == bs[|ds|]; }
      assert DigitsOf(bs)[..|ds|] == ds;
      PrefixValue(10, DigitsOf(bs), |ds|);
    }
  }

  lemma DecodeEnds(bs: seq<Byte>, ds: seq<nat>)
    requires |ds| + 1 == |bs| && forall i :: 0 <= i < |ds| ==> 48 <= bs[i] < 58 && ds[i] == bs[i] - 48
    ensures var last := Overpunch(bs[|ds|]);
            if last.None? then Decode(bs) == Err
            else
              var mag: int := Value(10, ds + [last.value.0]);
              Decode(bs) == if mag > I128_MAX then Err else Ok(if last.value.1 then -mag else mag)
  {
    hide Value;
    if Overpunch(bs[|ds|]).Some? {
      assert DigitsOf(bs) == ds + [Overpunch(bs[|ds|]).value.0];
    }
  }

  /** The source's encoding loop: digits peeled off from the right into a fixed buffer. */
  method EncodeBytes(value: int, width: nat, signed: bool) returns (r: Result<seq<Byte>>)
    ensures r == Encode(value, width, signed)
  {
    if width == 0 {
      return Err;
    }
    var digits: nat := Abs(value);
    var out := new Byte[width](_ => 0);
    hide Digits, Pow, Image;
    ghost var image := Image(value, width, signed);
    ghost var ds := Digits(10, Abs(value), width);
    for slot := width downto 0
      invariant ds[..slot] == Digits(10, digits, slot)
      invariant forall i :: slot <= i < width ==> out[i] == image[i]
      invariant digits < Pow(10, slot) <==> Abs(value) < Pow(10, width)
    {
      Peel(ds, digits, slot);
      ImageAt(value, width, signed, slot);
      var d := digits % 10;
      digits := digits / 10;
      out[slot] := if slot == width - 1 && signed then Punch(d, value < 0) else 48 + d;
    }
    PowZero(10);
    if digits != 0 {
      return Err;
    }
    assert out[..] == image;
    return Ok(out[..]);
  }

  lemma Peel(ds: seq<nat>, digits: nat, slot: nat)
    requires slot < |ds| && ds[..slot + 1] == Digits(10, digits, slot + 1)
    ensures ds[slot] == digits % 10 && ds[..slot] == Digits(10, digits / 10, slot)
    ensures digits / 10 < Pow(10, slot) <==> digits < Pow(10, slot + 1)
  {
    hide Digits;
    DigitsSnoc(10, digits, slot + 1);
    assert ds[slot] == ds[..slot + 1][slot] && ds[..slot] == ds[..slot + 1][..slot];
    DivBelow(10, digits, Pow(10, slot));
  }

  lemma ImageAt(value: int, width: nat, signed: bool, i: nat)
    requires i < width
    ensures var d := Digits(10, Abs(value), width)[i];
            Image(value, width, signed)[i] == if i == width - 1 && signed then Punch(d, value < 0) else 48 + d
  {
    hide Digits;
  }

  lemma DecodeImage(value: int, width: nat, signed: bool)
    requires width > 0 && Abs(value) < Pow(10, width)
    ensures Decode(Image(value, width, signed))
         == if Abs(value) > I128_MAX then Err else Ok(if signed then value else Abs(value))
  {
    hide Value, Digits;
    var bs, ds := Image(value, width, signed), Digits(10, Abs(value), width);
    DigitsFit(10, Abs(value), width);
    assert bs[..width - 1] == DigitBytes(ds)[..width - 1];
    assert Overpunch(bs[width - 1]) == Some((ds[width - 1], signed && value < 0));
    assert DigitsOf(bs) == ds;
  }

  /** Encoding succeeds exactly below 10^w, and decodes back exactly to values whose sign is written. */
  lemma RoundTrip(value: int, width: nat, signed: bool)
    ensures Encode(value, width, signed).Ok? <==> width > 0 && Abs(value) < Pow(10, width)
    ensures Encode(value, width, signed).Ok? ==>
      |Encode(value, width, signed).value| == width &&
      (Decode(Encode(value, width, signed).value) == Ok(value) <==>
        Abs(value) <= I128_MAX && (signed || value >= 0))
  {
    if Encode(value, width, signed).Ok? { DecodeImage(value, width, signed); }
  }

  /** The last byte the encoder itself would choose: an overpunch in a signed field, a plain digit otherwise. */
  predicate CanonicalSign(bs: seq<Byte>, signed: bool)
    requires Readable(bs)
  {
    var b := bs[|bs| - 1];
    if signed then
      b == 123 || 65 <= b <= 73 || ((b == 125 || 74 <= b <= 82) && Value(10, DigitsOf(bs)) != 0)
    else
      48 <= b <= 57
  }

  /** Decoding and encoding again gives the same bytes exactly when the overpunch is canonical. */
  lemma BytesRoundTrip(bs: seq<Byte>, signed: bool)
    requires Decode(bs).Ok?
    ensures Encode(Decode(bs).value, |bs|, signed) == Ok(bs) <==> CanonicalSign(bs, signed)
  {
    hide Value, Digits;
    var ds, n, last := DigitsOf(bs), Decode(bs).value, |bs| - 1;
    DigitsOfValue(10, ds);
    ValueBound(10, ds);
    assert Abs(n) == Value(10, ds);
    var image := Image(n, |bs|, signed);
    assert forall i :: 0 <= i < last ==> image[i] == 48 + ds[i] == bs[i];
    assert image[last] == if signed then Punch(ds[last], n < 0) else 48 + ds[last];
    assert image == bs <==> image[last] == bs[last];
  }

  /** The overpunch letters by digit: `{` and A to I when positive, `}` and J to R when negative. */
  lemma OverpunchLetters(d: nat)
    requires d < 10
    ensures Punch(d, false) as char == "{ABCDEFGHI"[d] && Overpunch("{ABCDEFGHI"[d] as Byte) == Some((d, false))
    ensures Punch(d, true) as char == "}JKLMNOPQR"[d] && Overpunch("}JKLMNOPQR"[d] as Byte) == Some((d, true))
    ensures Overpunch("0123456789"[d] as Byte) == Some((d, false))
  {
  }

  /** No other byte is a last digit. */
  lemma OverpunchExact(b: Byte)
    requires Overpunch(b).Some?
    ensures var (d, negative) := Overpunch(b).value;
            d < 10 &&
            if negative then b as char == "}JKLMNOPQR"[d]
            else b as char == "{ABCDEFGHI"[d] || b as char == "0123456789"[d]
  {
  }

  /** Byte by byte: a digit each from the highest down, the last one overpunched in a signed field. */
  lemma EncodeAt(value: int, width: nat, signed: bool, i: nat)
    requires Encode(value, width, signed).Ok? && i < width
    ensures var d := PlaceDigit(10, Abs(value), width - 1 - i);
            Encode(value, width, signed).value[i] as char
            == if i < width - 1 || !signed then "0123456789"[d]
               else if value < 0 then "}JKLMNOPQR"[d] else "{ABCDEFGHI"[d]
  {
    hide Digits, Pow, Punch, PlaceDigit;
    DigitAt(10, Abs(value), width, i);
    ImageAt(value, width, signed, i);
    OverpunchLetters(PlaceDigit(10, Abs(value), width - 1 - i));
  }
}
