/** COBOL packed decimal (COMP-3): two decimal digits a byte, the last low nibble holding the sign. */
module Packed {
  import opened Prelude
  import opened Radix

  function Nibble(bs: seq<Byte>, i: nat): (n: nat)
    requires i < 2 * |bs|
    ensures n < 16
  {
    if i % 2 == 0 then bs[i / 2] / 16 else bs[i / 2] % 16
  }

  /** The 2|bs| nibbles of a byte string, high before low. */
  function Nibbles(bs: seq<Byte>): (ns: seq<nat>)
    ensures |ns| == 2 * |bs|
  {
    seq(2 * |bs|, i requires 0 <= i < 2 * |bs| => Nibble(bs, i))
  }

  /** The byte string with the given nibbles. */
  function Pack(ns: seq<nat>): (bs: seq<Byte>)
    requires |ns| % 2 == 0 && IsDigits(16, ns)
    ensures |bs| == |ns| / 2
  {
    seq(|ns| / 2, j requires 0 <= j < |ns| / 2 => 16 * ns[2 * j] + ns[2 * j + 1])
  }

  lemma NibblesOfPack(ns: seq<nat>)
    requires |ns| % 2 == 0 && IsDigits(16, ns)
    ensures Nibbles(Pack(ns)) == ns
  {
    forall i | 0 <= i < |ns|
      ensures Nibbles(Pack(ns))[i] == ns[i]
    {
      var j := i / 2;
      assert j < |ns| / 2 && (i == 2 * j || i == 2 * j + 1);
      assert Pack(ns)[j] == 16 * ns[2 * j] + ns[2 * j + 1];
    }
  }

  lemma PackOfNibbles(bs: seq<Byte>)
    ensures IsDigits(16, Nibbles(bs))
    ensures Pack(Nibbles(bs)) == bs
  {
    forall j | 0 <= j < |bs|
      ensures Pack(Nibbles(bs))[j] == bs[j]
    {
      assert Nibble(bs, 2 * j) == bs[j] / 16 && Nibble(bs, 2 * j + 1) == bs[j] % 16;
    }
  }

  /** The sign a nibble stands for; None for the nibbles that are not signs. */
  function Negative(nibble: nat): Option<bool> {
    if nibble == 0xD || nibble == 0xB then Some(true)
    else if nibble == 0xC || nibble == 0xF || nibble == 0xA || nibble == 0xE then Some(false)
    else None
  }

  function DigitNibbles(bs: seq<Byte>): seq<nat>
    requires bs != []
  {
    Nibbles(bs)[..2 * |bs| - 1]
  }

  function SignNibble(bs: seq<Byte>): nat
    requires bs != []
  {
    Nibbles(bs)[2 * |bs| - 1]
  }

  /** The number packed bytes denote: all digits decimal, a sign nibble, and a magnitude within 128 bits. */
  function Decode(bs: seq<Byte>): (r: Result<int>)
    ensures r.Ok? ==> Abs(r.value) <= I128_MAX
  {
    if bs == [] || !IsDigits(10, DigitNibbles(bs)) || Negative(SignNibble(bs)).None? then Err
    else
      var mag: int := Value(10, DigitNibbles(bs));
      if mag > I128_MAX then Err else Ok(if Negative(SignNibble(bs)).value then -mag else mag)
  }

  function SignFor(value: int, signed: bool): nat {
    if !signed then 0xF else if value < 0 then 0xD else 0xC
  }

  /** The packed image of a number that fits in 2 * width - 1 digits. */
  function Encode(value: int, width: nat, signed: bool): (r: Result<seq<Byte>>)
    ensures r.Ok? ==> |r.value| == width
  {
    if width == 0 || Abs(value) >= Pow(10, 2 * width - 1) then Err
    else Ok(Image(value, width, signed))
  }

  function Image(value: int, width: nat, signed: bool): (bs: seq<Byte>)
    requires width > 0
    ensures |bs| == width
  {
    Pack(Digits(10, Abs(value), 2 * width - 1) + [SignFor(value, signed)])
  }

  /** The source's digit loop, with its checked multiply and add. */
  method DecodeBytes(bs: seq<Byte>) returns (r: Result<int>)
    ensures r == Decode(bs)
  {
    if bs == [] {
      return Err;
    }
    hide Value, Pow, Decode, Nibbles;
    ValueEmpty(10);
    var value: int := 0;
    ghost var ds: seq<nat> := [];
    for i := 0 to |bs| * 2 - 1
      invariant |ds| == i && IsDigits(10, ds) && forall j :: 0 <= j < i ==> ds[j] == Nibble(bs, j)
      invariant value == Value(10, ds) <= I128_MAX
    {
      var nib := if i % 2 == 0 then bs[i / 2] / 16 else bs[i / 2] % 16;
      assert nib == Nibble(bs, i);
      if nib > 9 {
        DecodeFails(bs, ds);
        return Err;
      }
      value := value * 10 + nib;
      ValueSnoc(10, ds, nib);
      ds := ds + [nib];
      if value > I128_MAX {
        DecodeFails(bs, ds);
        return Err;
      }
    }
    var sign := bs[|bs| - 1] % 16;
    assert sign == Nibble(bs, |bs| * 2 - 1);
    DecodeEnds(bs, ds);
    match Negative(sign) {
      case None => return Err;
      case Some(negative) => return Ok(if negative then -value else value);
    }
  }

  /** A digit nibble above 9, or a prefix already past 128 bits, fails the whole field. */
  lemma DecodeFails(bs: seq<Byte>, ds: seq<nat>)
    requires |ds| < 2 * |bs| && forall j :: 0 <= j < |ds| ==> ds[j] == Nibble(bs, j)
    requires (|ds| < 2 * |bs| - 1 && Nibble(bs, |ds|) > 9) || Value(10, ds) > I128_MAX
    ensures Decode(bs) == Err
  {
    hide Value, Nibble;
    var all := DigitNibbles(bs);
    assert all[..|ds|] == ds;
    if |ds| < |all| { assert all[|ds|] == Nibble(bs, |ds|); }
    if IsDigits(10, all) { PrefixValue(10, all, |ds|); }
  }

  lemma DecodeEnds(bs: seq<Byte>, ds: seq<nat>)
    requires |ds| + 1 == 2 * |bs| && IsDigits(10, ds) && Value(10, ds) <= I128_MAX
    requires forall j :: 0 <= j < |ds| ==> ds[j] == Nibble(bs, j)
    ensures var mag: int, sign := Value(10, ds), Negative(Nibble(bs, |ds|));
            Decode(bs) == if sign.None? then Err else Ok(if sign.value then -mag else mag)
  {
    hide Value, Nibble;
    assert DigitNibbles(bs) == ds;
  }

  /** The source's encoder: digit nibbles filled from the right, then merged two to a byte. */
  method EncodeBytes(value: int, width: nat, signed: bool) returns (r: Result<seq<Byte>>)
    ensures r == Encode(value, width, signed)
  {
    if width == 0 {
      return Err;
    }
    var nib := new nat[width * 2];
    var rest := FillDigits(nib, Abs(value));
    if rest != 0 {
      return Err;
    }
    ghost var ds := nib[..width * 2 - 1];
    nib[width * 2 - 1] := SignFor(value, signed);
    assert nib[..] == ds + [SignFor(value, signed)];
    var out := Merge(nib[..], width);
    return Ok(out);
  }

  /** Merges nibbles into zeroed bytes, the even ones high and the odd ones low. */
  method Merge(nib: seq<nat>, width: nat) returns (bs: seq<Byte>)
    requires |nib| == 2 * width && IsDigits(16, nib)
    ensures bs == Pack(nib)
  {
    var out := new Byte[width](_ => 0);
    for i := 0 to |nib|
      invariant forall j :: i <= 2 * j < |nib| ==> out[j] == 0
      invariant i % 2 == 1 ==> out[i / 2] == 16 * nib[i - 1]
      invariant forall j :: 0 <= 2 * j < i - 1 ==> out[j] == 16 * nib[2 * j] + nib[2 * j + 1]
    {
      if i % 2 == 0 {
        out[i / 2] := out[i / 2] + nib[i] * 16;
      } else {
        out[i / 2] := out[i / 2] + nib[i];
      }
    }
    bs := out[..];
  }

  /** Fills every slot but the last with the digits of `n` and returns what is left over. */
  method FillDigits(nib: array<nat>, n: nat) returns (rest: nat)
    requires nib.Length > 0
    modifies nib
    ensures rest == 0 <==> n < Pow(10, nib.Length - 1)
    ensures nib[..nib.Length - 1] == Digits(10, n, nib.Length - 1)
  {
    var count := nib.Length - 1;
    rest := n;
    for slot := count downto 0
      invariant Digits(10, n, count) == Digits(10, rest, slot) + nib[slot..count]
      invariant rest < Pow(10, slot) <==> n < Pow(10, count)
    {
      ghost var before, tail := rest, nib[slot + 1..count];
      nib[slot] := rest % 10;
      rest := rest / 10;
      DivBelow(10, before, Pow(10, slot));
      assert nib[slot..count] == [before % 10] + tail;
      assert Digits(10, before, slot + 1) == Digits(10, rest, slot) + [before % 10];
    }
    assert nib[0..count] == nib[..count];
  }

  lemma ImageParts(value: int, width: nat, signed: bool)
    requires width > 0
    ensures DigitNibbles(Image(value, width, signed)) == Digits(10, Abs(value), 2 * width - 1)
    ensures SignNibble(Image(value, width, signed)) == SignFor(value, signed)
  {
    hide Digits, Nibbles, Pack;
    NibblesOfPack(Digits(10, Abs(value), 2 * width - 1) + [SignFor(value, signed)]);
  }

  /** What decoding makes of an image: the number, unless its minus was not written. */
  lemma DecodeImage(value: int, width: nat, signed: bool)
    requires width > 0 && Abs(value) < Pow(10, 2 * width - 1)
    ensures Decode(Image(value, width, signed))
         == if Abs(value) > I128_MAX then Err else Ok(if signed then value else Abs(value))
  {
    hide Value, Digits, Image, DigitNibbles, SignNibble;
    ImageParts(value, width, signed);
    DigitsFit(10, Abs(value), 2 * width - 1);
  }

  /** Encoding succeeds exactly below 10^(2w-1), and decodes back exactly to values whose sign is written. */
  lemma RoundTrip(value: int, width: nat, signed: bool)
    ensures Encode(value, width, signed).Ok? <==> width > 0 && Abs(value) < Pow(10, 2 * width - 1)
    ensures Encode(value, width, signed).Ok? ==>
      |Encode(value, width, signed).value| == width &&
      (Decode(Encode(value, width, signed).value) == Ok(value) <==>
        Abs(value) <= I128_MAX && (signed || value >= 0))
  {
    if Encode(value, width, signed).Ok? { DecodeImage(value, width, signed); }
  }

  /** The sign nibble the encoder itself would choose. */
  predicate CanonicalSign(bs: seq<Byte>, signed: bool)
    requires bs != []
  {
    if signed then
      SignNibble(bs) == 0xC || (SignNibble(bs) == 0xD && Value(10, DigitNibbles(bs)) != 0)
    else
      SignNibble(bs) == 0xF
  }

  /** Decoding and encoding again gives the same bytes exactly when the sign nibble is canonical. */
  lemma BytesRoundTrip(bs: seq<Byte>, signed: bool)
    requires Decode(bs).Ok?
    ensures Encode(Decode(bs).value, |bs|, signed) == Ok(bs) <==> CanonicalSign(bs, signed)
  {
    hide Value, Digits, Nibbles, Nibble, Pack;
    var ds, n, sign := DigitNibbles(bs), Decode(bs).value, SignNibble(bs);
    DigitsOfValue(10, ds);
    ValueBound(10, ds);
    assert Abs(n) == Value(10, ds);
    assert Nibbles(bs) == ds + [sign];
    assert Image(n, |bs|, signed) == Pack(ds + [SignFor(n, signed)]);
    PackOfNibbles(bs);
    PackInjective(ds, sign, SignFor(n, signed));
  }

  lemma PackInjective(ds: seq<nat>, a: nat, b: nat)
    requires IsDigits(16, ds) && |ds| % 2 == 1 && a < 16 && b < 16
    ensures Pack(ds + [a]) == Pack(ds + [b]) <==> a == b
  {
    hide Pack, Nibbles;
    NibblesOfPack(ds + [a]);
    NibblesOfPack(ds + [b]);
    assert (ds + [a])[|ds|] == a && (ds + [b])[|ds|] == b;
  }

  lemma NibbleAt(bs: seq<Byte>, i: nat)
    requires i < 2 * |bs|
    ensures Nibbles(bs)[i] == if i % 2 == 0 then bs[i / 2] / 16 else bs[i / 2] % 16
  {
  }

  /**
   Nibble by nibble: the digits from the highest down, two a byte, the high nibble first, and the sign
   in the last low nibble: F unsigned, D for a negative number, C otherwise.
   */
  lemma EncodeAt(value: int, width: nat, signed: bool, i: nat)
    requires Encode(value, width, signed).Ok? && i < 2 * width
    ensures var b := Encode(value, width, signed).value[i / 2];
            (if i % 2 == 0 then b / 16 else b % 16)
            == if i < 2 * width - 1 then PlaceDigit(10, Abs(value), 2 * width - 2 - i)
               else if !signed then 15 else if value < 0 then 13 else 12
  {
    hide Digits, Pow, PlaceDigit, Pack, Nibbles, Nibble;
    var ds := Digits(10, Abs(value), 2 * width - 1);
    NibblesOfPack(ds + [SignFor(value, signed)]);
    NibbleAt(Image(value, width, signed), i);
    if i < 2 * width - 1 { DigitAt(10, Abs(value), 2 * width - 1, i); }
  }

  /**
   Packed bytes are read exactly when every nibble but the last is a digit, the last is one of A to F
   and the magnitude fits; B and D make the number negative.
   */
  lemma DecodeExact(bs: seq<Byte>)
    ensures Decode(bs).Ok? <==>
      bs != [] && IsDigits(10, DigitNibbles(bs)) && Value(10, DigitNibbles(bs)) <= I128_MAX &&
      bs[|bs| - 1] % 16 >= 10
    ensures Decode(bs).Ok? ==>
      Abs(Decode(bs).value) == Value(10, DigitNibbles(bs)) &&
      (bs[|bs| - 1] % 16 == 11 || bs[|bs| - 1] % 16 == 13 ==> Decode(bs).value <= 0) &&
      (bs[|bs| - 1] % 16 != 11 && bs[|bs| - 1] % 16 != 13 ==> Decode(bs).value >= 0)
  {
    hide Value;
    if bs != [] { assert SignNibble(bs) == Nibble(bs, 2 * |bs| - 1) == bs[|bs| - 1] % 16; }
  }
}
