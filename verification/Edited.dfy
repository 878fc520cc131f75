/** COBOL edited numeric fields: numbers dressed with insertion, suppression and sign characters. */
module Edited {
  import opened Prelude
  import opened Radix
  import opened Strings
  import opened Utf8

  predicate DigitPos(c: char) {
    c == '9' || c == 'Z' || c == '*'
  }

  function Count(mask: string, sym: char): nat {
    if mask == [] then 0 else (if mask[0] == sym then 1 else 0) + Count(mask[1..], sym)
  }

  function Places(mask: string): nat {
    if mask == [] then 0 else (if DigitPos(mask[0]) then 1 else 0) + Places(mask[1..])
  }

  /** Two or more of a currency or sign symbol float, which encoding refuses. */
  predicate Floating(mask: string) {
    Count(mask, '$') >= 2 || Count(mask, '+') >= 2 || Count(mask, '-') >= 2
  }

  /** Characters an edit mask may hold at a single position. */
  predicate Insertion(c: char) {
    c in ",./B0$+-"
  }

  const BLANK: Byte := 32
  const STAR: Byte := 42

  function Fill(mask: string): Byte {
    if '*' in mask then STAR else BLANK
  }

  /** The byte a one-position symbol other than a digit position shows. */
  function Inserted(c: char, negative: bool, suppressing: bool, fill: Byte): Byte
    requires Insertion(c)
  {
    if c == ',' then if suppressing then fill else 44
    else if c == 'B' then BLANK
    else if c == '+' then if negative then 45 else 43
    else if c == '-' then if negative then 45 else BLANK
    else c as int
  }

  /** The two bytes of a CR or DB marker: shown only for a negative value. */
  function Marker(c: char, negative: bool): (bs: seq<Byte>)
    ensures |bs| == 2
  {
    if !negative then [BLANK, BLANK] else if c == 'C' then [67, 82] else [68, 66]
  }

  function Tail(s: string, k: nat): string {
    if k <= |s| then s[k..] else []
  }

  /** Whether a digit position shows its digit: a Z or * hides zeros while suppression lasts. */
  predicate Hidden(c: char, d: nat, suppressing: bool) {
    c != '9' && suppressing && d == 0
  }

  function Prepend(bs: seq<Byte>, r: Result<seq<Byte>>): Result<seq<Byte>> {
    if r.Ok? then Ok(bs + r.value) else Err
  }

  /** The walk over the rest of a mask with the digits still to place. */
  function Render(mask: string, ds: seq<nat>, negative: bool, suppressing: bool, fill: Byte): Result<seq<Byte>>
    requires Places(mask) <= |ds| && IsDigits(10, ds)
    decreases |mask|
  {
    if mask == [] then Ok([])
    else
      var c := mask[0];
      if DigitPos(c) then
        var hidden := Hidden(c, ds[0], suppressing);
        var shown: Byte := if !hidden then 48 + ds[0] else if c == 'Z' then BLANK else STAR;
        Prepend([shown], Render(mask[1..], ds[1..], negative, hidden, fill))
      else if Insertion(c) then
        Prepend([Inserted(c, negative, suppressing, fill)],
                Render(mask[1..], ds, negative, suppressing && c != '.', fill))
      else if c == 'C' || c == 'D' then
        PlacesTail(mask);
        Prepend(Marker(c, negative), Render(Tail(mask, 2), ds, negative, suppressing, fill))
      else Err
  }

  lemma PlacesTail(mask: string)
    requires mask != []
    ensures Places(Tail(mask, 2)) <= Places(mask[1..]) <= Places(mask)
  {
    if |mask| >= 2 { assert mask[1..][1..] == mask[2..]; }
  }

  function Encode(value: int, mask: string): Result<seq<Byte>> {
    if Floating(mask) || |Shortest(10, Abs(value))| > Places(mask) then Err
    else
      Render(mask, Padded(value, mask), value < 0, true, Fill(mask))
  }

  function Padded(value: int, mask: string): (ds: seq<nat>)
    requires |Shortest(10, Abs(value))| <= Places(mask)
    ensures |ds| == Places(mask) && IsDigits(10, ds)
  {
    var mag := Shortest(10, Abs(value));
    Repeat(0 as nat, Places(mask) - |mag|) + mag
  }

  predicate EndsPair(s: string, a: char, b: char) {
    |s| >= 2 && s[|s| - 2] == a && s[|s| - 1] == b
  }

  predicate IsNegative(s: string) {
    var up := Upper(Trim(s));
    || EndsPair(up, 'C', 'R') || EndsPair(up, 'D', 'B')
    || (up != [] && up[0] == '-') || (up != [] && up[|up| - 1] == '-')
  }

  /** Decoding ignores the mask: the digits in order, and a sign from a marker or an outer minus. */
  function Decode(bs: seq<Byte>, signed: bool): (r: Result<int>)
    ensures r.Ok? ==> Abs(r.value) <= I128_MAX
  {
    var s := Lossy(bs);
    var mag: int := Value(10, DigitsIn(s));
    if mag > I128_MAX then Err else Ok(if signed && IsNegative(s) then -mag else mag)
  }

  /** One position of the walk: what it shows, and the walk that remains. */
  lemma RenderDigit(mask: string, ds: seq<nat>, negative: bool, suppressing: bool, fill: Byte)
    requires mask != [] && Places(mask) <= |ds| && IsDigits(10, ds) && DigitPos(mask[0])
    ensures var hidden := Hidden(mask[0], ds[0], suppressing);
            Render(mask, ds, negative, suppressing, fill)
            == Prepend([if !hidden then 48 + ds[0] else if mask[0] == 'Z' then BLANK else STAR],
                       Render(mask[1..], ds[1..], negative, hidden, fill))
  {
  }

  lemma RenderInsertion(mask: string, ds: seq<nat>, negative: bool, suppressing: bool, fill: Byte)
    requires mask != [] && Places(mask) <= |ds| && IsDigits(10, ds) && Insertion(mask[0])
    ensures Render(mask, ds, negative, suppressing, fill)
         == Prepend([Inserted(mask[0], negative, suppressing, fill)],
                    Render(mask[1..], ds, negative, suppressing && mask[0] != '.', fill))
  {
  }

  lemma RenderMarker(mask: string, ds: seq<nat>, negative: bool, suppressing: bool, fill: Byte)
    requires mask != [] && Places(mask) <= |ds| && IsDigits(10, ds) && (mask[0] == 'C' || mask[0] == 'D')
    ensures Places(Tail(mask, 2)) <= |ds|
    ensures Render(mask, ds, negative, suppressing, fill)
         == Prepend(Marker(mask[0], negative), Render(Tail(mask, 2), ds, negative, suppressing, fill))
  {
    PlacesTail(mask);
  }

  lemma TailStep(mask: string, k: nat)
    requires k < |mask|
    ensures Tail(mask, k) != [] && Tail(mask, k)[0] == mask[k]
    ensures Tail(mask, k)[1..] == Tail(mask, k + 1) && Tail(Tail(mask, k), 2) == Tail(mask, k + 2)
  {
  }

  lemma TailEnds(mask: string)
    ensures Tail(mask, 0) == mask
    ensures forall k :: k >= |mask| ==> Tail(mask, k) == []
  {
  }

  lemma PrependTwice(a: seq<Byte>, b: seq<Byte>, r: Result<seq<Byte>>)
    ensures Prepend(a, Prepend(b, r)) == Prepend(a + b, r)
  {
    if r.Ok? { assert a + (b + r.value) == (a + b) + r.value; }
  }

  lemma PrependNothing(r: Result<seq<Byte>>)
    ensures Prepend([], r) == r
  {
    if r.Ok? { assert [] + r.value == r.value; }
  }

  /** The source's loop over the mask. */
  method EncodeMask(value: int, mask: string) returns (r: Result<seq<Byte>>)
    ensures r == Encode(value, mask)
    ensures Legal(mask) && r.Ok? ==> Shows(r.value, mask, value)
  {
    if Floating(mask) {
      return Err;
    }
    var mag := Shortest(10, Abs(value));
    if |mag| > Places(mask) {
      return Err;
    }
    var digits := Repeat(0 as nat, Places(mask) - |mag|) + mag;
    assert digits == Padded(value, mask);
    r := Walk(mask, digits, value < 0, Fill(mask));
    hide Encode, Shows;
    if Legal(mask) && r.Ok? { EncodeShows(value, mask); }
  }

  method Walk(mask: string, digits: seq<nat>, negative: bool, fill: Byte) returns (r: Result<seq<Byte>>)
    requires Places(mask) == |digits| && IsDigits(10, digits)
    ensures r == Render(mask, digits, negative, true, fill)
  {
    hide Render, Prepend, Insertion, Tail, Marker, Inserted;
    var out: seq<Byte> := [];
    var di, k, suppressing := 0, 0, true;
    ghost var left, goal := digits, Render(mask, digits, negative, true, fill);
    PrependNothing(goal);
    TailEnds(mask);
    assert digits[0..] == digits;
    while k < |mask|
      invariant di <= |digits| && left == digits[di..] && Places(Tail(mask, k)) <= |left|
      invariant goal == Prepend(out, Render(Tail(mask, k), left, negative, suppressing, fill))
    {
      var c := mask[k];
      ghost var rest := Tail(mask, k);
      TailStep(mask, k);
      if DigitPos(c) {
        RenderDigit(rest, left, negative, suppressing, fill);
        var d := digits[di];
        var hidden := Hidden(c, d, suppressing);
        var shown: Byte := if !hidden then 48 + d else if c == 'Z' then BLANK else STAR;
        PrependTwice(out, [shown], Render(rest[1..], left[1..], negative, hidden, fill));
        out := out + [shown];
        left := left[1..];
        di := di + 1;
        suppressing := hidden;
      } else if Insertion(c) {
        RenderInsertion(rest, left, negative, suppressing, fill);
        var shown := Inserted(c, negative, suppressing, fill);
        PrependTwice(out, [shown], Render(rest[1..], left, negative, suppressing && c != '.', fill));
        out := out + [shown];
        suppressing := suppressing && c != '.';
      } else if c == 'C' || c == 'D' {
        RenderMarker(rest, left, negative, suppressing, fill);
        PrependTwice(out, Marker(c, negative), Render(Tail(rest, 2), left, negative, suppressing, fill));
        out := out + Marker(c, negative);
        k := k + 1;
      } else {
        RenderUnknown(rest, left, negative, suppressing, fill, out);
        return Err;
      }
      k := k + 1;
    }
    RenderEnd(left, negative, suppressing, fill, out);
    return Ok(out);
  }

  lemma RenderUnknown(mask: string, ds: seq<nat>, negative: bool, suppressing: bool, fill: Byte, out: seq<Byte>)
    requires mask != [] && Places(mask) <= |ds| && IsDigits(10, ds)
    requires !DigitPos(mask[0]) && !Insertion(mask[0]) && mask[0] != 'C' && mask[0] != 'D'
    ensures Prepend(out, Render(mask, ds, negative, suppressing, fill)) == Err
  {
  }

  lemma RenderEnd(ds: seq<nat>, negative: bool, suppressing: bool, fill: Byte, out: seq<Byte>)
    requires IsDigits(10, ds)
    ensures Prepend(out, Render([], ds, negative, suppressing, fill)) == Ok(out)
  {
    assert out + [] == out;
  }

  /** Markers come in pairs: C before R, D before B; every other character is one the encoder knows. */
  predicate Legal(mask: string) {
    mask == [] ||
    (if mask[0] == 'C' || mask[0] == 'D' then
       |mask| >= 2 && mask[1] == (if mask[0] == 'C' then 'R' else 'B') && Legal(mask[2..])
     else (DigitPos(mask[0]) || Insertion(mask[0])) && Legal(mask[1..]))
  }

  /** No inserted 0 stands after a non-zero digit of the number, where it would read as a digit of it. */
  predicate ZeroSafe(mask: string, ds: seq<nat>, seen: bool)
    requires Places(mask) <= |ds|
  {
    mask == [] ||
    (if DigitPos(mask[0]) then ZeroSafe(mask[1..], ds[1..], seen || ds[0] != 0)
     else (mask[0] == '0' ==> !seen) && ZeroSafe(mask[1..], ds, seen))
  }

  /** The alphabet of a rendered field: signs and marker letters only for a negative value. */
  predicate Clean(bs: seq<Byte>, negative: bool) {
    forall i :: 0 <= i < |bs| ==>
      bs[i] < 91 && (bs[i] >= 65 || bs[i] == 45 ==> negative)
  }

  lemma PrependClean(a: seq<Byte>, r: Result<seq<Byte>>, negative: bool)
    requires Clean(a, negative) && r.Ok? && Clean(r.value, negative)
    ensures Prepend(a, r).Ok? && |Prepend(a, r).value| == |a| + |r.value| && Clean(Prepend(a, r).value, negative)
  {
  }

  lemma PiecesClean(c: char, negative: bool, suppressing: bool, fill: Byte)
    requires fill == BLANK || fill == STAR
    ensures Insertion(c) ==> Clean([Inserted(c, negative, suppressing, fill)], negative)
    ensures Clean(Marker(c, negative), negative)
    ensures forall d :: 48 <= d < 58 ==> Clean([d], negative)
    ensures Clean([BLANK], negative) && Clean([STAR], negative)
  {
  }

  /** A legal mask renders to its own length, in the alphabet of the value's sign. */
  lemma {:induction false} RenderShape(mask: string, ds: seq<nat>, negative: bool, suppressing: bool, fill: Byte)
    requires Places(mask) <= |ds| && IsDigits(10, ds) && Legal(mask) && (fill == BLANK || fill == STAR)
    ensures var r := Render(mask, ds, negative, suppressing, fill);
            r.Ok? && |r.value| == |mask| && Clean(r.value, negative)
    decreases |mask|
  {
    if mask == [] {
    } else {
      hide Render, Clean, Prepend, Inserted, Marker, Insertion, Hidden;
      var c := mask[0];
      PiecesClean(c, negative, suppressing, fill);
      if DigitPos(c) {
        RenderDigit(mask, ds, negative, suppressing, fill);
        var hidden := Hidden(c, ds[0], suppressing);
        var shown: Byte := if !hidden then 48 + ds[0] else if c == 'Z' then BLANK else STAR;
        RenderShape(mask[1..], ds[1..], negative, hidden, fill);
        PrependClean([shown], Render(mask[1..], ds[1..], negative, hidden, fill), negative);
      } else if Insertion(c) {
        RenderInsertion(mask, ds, negative, suppressing, fill);
        RenderShape(mask[1..], ds, negative, suppressing && c != '.', fill);
        PrependClean([Inserted(c, negative, suppressing, fill)],
                     Render(mask[1..], ds, negative, suppressing && c != '.', fill), negative);
      } else {
        RenderMarker(mask, ds, negative, suppressing, fill);
        RenderShape(mask[2..], ds, negative, suppressing, fill);
        PrependClean(Marker(c, negative), Render(mask[2..], ds, negative, suppressing, fill), negative);
      }
    }
  }

  // ---------------------------------------------------------------- what each position shows

  /** The number's digit at a position: as many places from the end as digit positions stand behind it. */
  function DigitFor(mask: string, n: nat, i: nat): (d: nat)
    requires i < |mask|
    ensures d < 10
  {
    PlaceDigit(10, n, Places(mask[i + 1..]))
  }

  /** A 9, a point, or a Z or * with a non-zero digit: no zero behind it is a leading one. */
  predicate EndsZeros(mask: string, n: nat, j: nat)
    requires j < |mask|
  {
    mask[j] == '9' || mask[j] == '.' || ((mask[j] == 'Z' || mask[j] == '*') && DigitFor(mask, n, j) != 0)
  }

  /** Nothing before a position ends the leading zeros. */
  predicate InLeadingZeros(mask: string, n: nat, i: nat)
    requires i <= |mask|
  {
    forall j :: 0 <= j < i ==> !EndsZeros(mask, n, j)
  }

  /** The byte a position shows, given whether a zero there would be a leading one. */
  function ShownByte(mask: string, n: nat, negative: bool, leading: bool, fill: Byte, i: nat): Byte
    requires i < |mask|
  {
    match mask[i]
    case '.' => 46
    case '/' => 47
    case '$' => 36
    case '0' => 48
    case '+' => if negative then 45 else 43
    case '-' => if negative then 45 else 32
    case 'C' => if negative then 67 else 32
    case 'R' => if negative then 82 else 32
    case 'D' => if negative then 68 else 32
    case 'B' => if negative && i > 0 && mask[i - 1] == 'D' then 66 else 32
    case ',' => if leading then fill else 44
    case 'Z' => if leading && DigitFor(mask, n, i) == 0 then 32 else 48 + DigitFor(mask, n, i)
    case '*' => if leading && DigitFor(mask, n, i) == 0 then 42 else 48 + DigitFor(mask, n, i)
    case _ => 48 + DigitFor(mask, n, i)
  }

  /** The field of a number position by position. */
  predicate Shows(bs: seq<Byte>, mask: string, value: int) {
    |bs| == |mask| &&
    forall i :: 0 <= i < |mask| ==>
      bs[i] == ShownByte(mask, Abs(value), value < 0, InLeadingZeros(mask, Abs(value), i),
                         if '*' in mask then 42 else 32, i)
  }

  /** The digits still to place are the low ones of the number. */
  predicate LowDigits(ds: seq<nat>, n: nat) {
    forall k :: 0 <= k < |ds| ==> ds[k] == PlaceDigit(10, n, |ds| - 1 - k)
  }

  lemma DigitForTail(mask: string, n: nat, k: nat, i: nat)
    requires k <= i < |mask|
    ensures DigitFor(mask, n, i) == DigitFor(mask[k..], n, i - k)
    ensures EndsZeros(mask, n, i) == EndsZeros(mask[k..], n, i - k)
  {
    assert mask[k..][i - k + 1..] == mask[i + 1..];
  }

  lemma LeadingTail(mask: string, n: nat, k: nat, i: nat)
    requires k <= i <= |mask|
    ensures InLeadingZeros(mask, n, i) <==> InLeadingZeros(mask, n, k) && InLeadingZeros(mask[k..], n, i - k)
  {
    hide EndsZeros;
    forall j | k <= j < i
      ensures EndsZeros(mask, n, j) == EndsZeros(mask[k..], n, j - k)
    {
      DigitForTail(mask, n, k, j);
    }
    if InLeadingZeros(mask, n, k) && InLeadingZeros(mask[k..], n, i - k) {
      forall j | 0 <= j < i
        ensures !EndsZeros(mask, n, j)
      {
        if j >= k { assert !EndsZeros(mask[k..], n, j - k); }
      }
    }
    if InLeadingZeros(mask, n, i) {
      forall j | 0 <= j < i - k
        ensures !EndsZeros(mask[k..], n, j)
      {
        assert !EndsZeros(mask, n, j + k);
      }
    }
  }

  /** A position shows the same in the mask and in what is left of it from an earlier position that is no D. */
  lemma ShownTail(mask: string, n: nat, negative: bool, leading: bool, fill: Byte, k: nat, i: nat)
    requires 0 < k <= i < |mask| && mask[k - 1] != 'D'
    ensures ShownByte(mask, n, negative, leading, fill, i)
         == ShownByte(mask[k..], n, negative, leading, fill, i - k)
  {
    hide DigitFor;
    DigitForTail(mask, n, k, i);
  }

  lemma LowDigitsRest(ds: seq<nat>, n: nat)
    requires ds != [] && LowDigits(ds, n)
    ensures LowDigits(ds[1..], n)
  {
    hide PlaceDigit;
  }

  lemma FirstDigit(mask: string, n: nat, ds: seq<nat>, negative: bool, suppressing: bool, fill: Byte)
    requires mask != [] && Places(mask) == |ds| && IsDigits(10, ds) && LowDigits(ds, n) && DigitPos(mask[0])
    ensures var c, hidden := mask[0], Hidden(mask[0], ds[0], suppressing);
            ShownByte(mask, n, negative, suppressing, fill, 0)
            == (if !hidden then 48 + ds[0] else if c == 'Z' then BLANK else STAR) &&
            hidden == (suppressing && !EndsZeros(mask, n, 0))
  {
    hide PlaceDigit;
    assert ds[0] == DigitFor(mask, n, 0);
  }

  lemma FirstInsertion(mask: string, n: nat, negative: bool, suppressing: bool, fill: Byte)
    requires mask != [] && Insertion(mask[0])
    ensures ShownByte(mask, n, negative, suppressing, fill, 0) == Inserted(mask[0], negative, suppressing, fill)
    ensures EndsZeros(mask, n, 0) == (mask[0] == '.') && mask[0] != 'D'
  {
    hide DigitFor;
  }

  lemma FirstMarker(mask: string, n: nat, negative: bool, suppressing: bool, fill: Byte)
    requires mask != [] && Legal(mask) && (mask[0] == 'C' || mask[0] == 'D')
    ensures |mask| >= 2 && mask[1] != 'D'
    ensures ShownByte(mask, n, negative, suppressing, fill, 0) == Marker(mask[0], negative)[0]
    ensures ShownByte(mask, n, negative, suppressing, fill, 1) == Marker(mask[0], negative)[1]
    ensures !EndsZeros(mask, n, 0) && !EndsZeros(mask, n, 1)
  {
    hide DigitFor;
  }

  /** What the walk shows at a position. */
  predicate RendersAt(
    mask: string, n: nat, ds: seq<nat>, negative: bool, suppressing: bool, fill: Byte, i: nat
  )
    requires Places(mask) <= |ds| && IsDigits(10, ds) && i < |mask|
  {
    var r := Render(mask, ds, negative, suppressing, fill);
    r.Ok? && |r.value| == |mask| &&
    r.value[i] == ShownByte(mask, n, negative, suppressing && InLeadingZeros(mask, n, i), fill, i)
  }

  lemma LeadingStart(mask: string, n: nat)
    ensures InLeadingZeros(mask, n, 0)
    ensures |mask| >= 1 ==> (InLeadingZeros(mask, n, 1) <==> !EndsZeros(mask, n, 0))
    ensures |mask| >= 2 ==> (InLeadingZeros(mask, n, 2) <==> !EndsZeros(mask, n, 0) && !EndsZeros(mask, n, 1))
  {
    hide EndsZeros;
  }

  lemma PrependAt(a: seq<Byte>, r: Result<seq<Byte>>, i: nat)
    requires r.Ok? && i < |a| + |r.value|
    ensures Prepend(a, r).Ok? && |Prepend(a, r).value| == |a| + |r.value|
    ensures Prepend(a, r).value[i] == if i < |a| then a[i] else r.value[i - |a|]
  {
  }

  lemma ShownRest(
    mask: string, n: nat, negative: bool, suppressing: bool, after: bool, fill: Byte, k: nat, i: nat
  )
    requires 0 < k <= i < |mask| && mask[k - 1] != 'D'
    requires after == (suppressing && InLeadingZeros(mask, n, k))
    ensures ShownByte(mask, n, negative, suppressing && InLeadingZeros(mask, n, i), fill, i)
         == ShownByte(mask[k..], n, negative, after && InLeadingZeros(mask[k..], n, i - k), fill, i - k)
  {
    hide ShownByte, InLeadingZeros;
    LeadingTail(mask, n, k, i);
    ShownTail(mask, n, negative, suppressing && InLeadingZeros(mask, n, i), fill, k, i);
  }

  /** A walk that shows `k` bytes as called for and goes on with the rest of the mask shows every byte as called for. */
  lemma RendersOn(
    mask: string, n: nat, ds: seq<nat>, later: seq<nat>, negative: bool, suppressing: bool, after: bool, fill: Byte,
    shown: seq<Byte>, i: nat
  )
    requires 0 < |shown| <= |mask| && mask[|shown| - 1] != 'D' && i < |mask| && IsDigits(10, ds) && IsDigits(10, later)
    requires Places(mask) <= |ds| && Places(mask[|shown|..]) <= |later|
    requires var rest := Render(mask[|shown|..], later, negative, after, fill);
             rest.Ok? && |rest.value| == |mask| - |shown| &&
             Render(mask, ds, negative, suppressing, fill) == Prepend(shown, rest)
    requires after == (suppressing && InLeadingZeros(mask, n, |shown|))
    requires i < |shown| ==>
      shown[i] == ShownByte(mask, n, negative, suppressing && InLeadingZeros(mask, n, i), fill, i)
    requires i >= |shown| ==> RendersAt(mask[|shown|..], n, later, negative, after, fill, i - |shown|)
    ensures RendersAt(mask, n, ds, negative, suppressing, fill, i)
  {
    hide Render, ShownByte, InLeadingZeros, Prepend, Places, IsDigits;
    PrependAt(shown, Render(mask[|shown|..], later, negative, after, fill), i);
    if i >= |shown| { ShownRest(mask, n, negative, suppressing, after, fill, |shown|, i); }
  }

  lemma RendersDigit(mask: string, n: nat, ds: seq<nat>, negative: bool, suppressing: bool, fill: Byte, i: nat)
    requires mask != [] && Places(mask) == |ds| && IsDigits(10, ds) && Legal(mask) && LowDigits(ds, n)
    requires DigitPos(mask[0]) && i < |mask| && (fill == BLANK || fill == STAR)
    requires Places(mask[1..]) == |ds[1..]| && IsDigits(10, ds[1..]) && Legal(mask[1..])
    requires i > 0 ==>
      RendersAt(mask[1..], n, ds[1..], negative, Hidden(mask[0], ds[0], suppressing), fill, i - 1)
    ensures RendersAt(mask, n, ds, negative, suppressing, fill, i)
  {
    hide Render, ShownByte, EndsZeros, InLeadingZeros, LowDigits, Hidden, Prepend, Legal, RendersAt;
    var hidden := Hidden(mask[0], ds[0], suppressing);
    var shown: Byte := if !hidden then 48 + ds[0] else if mask[0] == 'Z' then BLANK else STAR;
    RenderDigit(mask, ds, negative, suppressing, fill);
    RenderShape(mask[1..], ds[1..], negative, hidden, fill);
    LeadingStart(mask, n);
    FirstDigit(mask, n, ds, negative, suppressing, fill);
    RendersOn(mask, n, ds, ds[1..], negative, suppressing, hidden, fill, [shown], i);
  }

  lemma RendersInsertion(
    mask: string, n: nat, ds: seq<nat>, negative: bool, suppressing: bool, fill: Byte, i: nat
  )
    requires mask != [] && Places(mask) == |ds| && IsDigits(10, ds) && Legal(mask)
    requires Insertion(mask[0]) && i < |mask| && (fill == BLANK || fill == STAR)
    requires Places(mask[1..]) == |ds| && Legal(mask[1..])
    requires i > 0 ==> RendersAt(mask[1..], n, ds, negative, suppressing && mask[0] != '.', fill, i - 1)
    ensures RendersAt(mask, n, ds, negative, suppressing, fill, i)
  {
    hide Render, ShownByte, EndsZeros, InLeadingZeros, Inserted, Insertion, Prepend, Places, Legal, IsDigits, RendersAt;
    var after := suppressing && mask[0] != '.';
    RenderInsertion(mask, ds, negative, suppressing, fill);
    RenderShape(mask[1..], ds, negative, after, fill);
    LeadingStart(mask, n);
    FirstInsertion(mask, n, negative, suppressing, fill);
    RendersOn(mask, n, ds, ds, negative, suppressing, after, fill, [Inserted(mask[0], negative, suppressing, fill)], i);
  }

  lemma RendersMarker(mask: string, n: nat, ds: seq<nat>, negative: bool, suppressing: bool, fill: Byte, i: nat)
    requires mask != [] && Places(mask) == |ds| && IsDigits(10, ds) && Legal(mask)
    requires (mask[0] == 'C' || mask[0] == 'D') && i < |mask| && (fill == BLANK || fill == STAR)
    requires |mask| >= 2 && Places(mask[2..]) == |ds| && Legal(mask[2..])
    requires i > 1 ==> RendersAt(mask[2..], n, ds, negative, suppressing, fill, i - 2)
    ensures RendersAt(mask, n, ds, negative, suppressing, fill, i)
  {
    hide Render, ShownByte, EndsZeros, InLeadingZeros, Marker, Prepend, Places, Legal, IsDigits, RendersAt;
    FirstMarker(mask, n, negative, suppressing && InLeadingZeros(mask, n, i), fill);
    RenderMarker(mask, ds, negative, suppressing, fill);
    RenderShape(mask[2..], ds, negative, suppressing, fill);
    LeadingStart(mask, n);
    var shown := Marker(mask[0], negative);
    assert i < 2 ==> i == 0 || i == 1;
    RendersOn(mask, n, ds, ds, negative, suppressing, suppressing, fill, shown, i);
  }

  /** The walk shows at every position what the position and the digits before it call for. */
  lemma {:induction false} RenderAt(
    mask: string, n: nat, ds: seq<nat>, negative: bool, suppressing: bool, fill: Byte, i: nat
  )
    requires Places(mask) == |ds| && IsDigits(10, ds) && Legal(mask) && LowDigits(ds, n)
    requires (fill == BLANK || fill == STAR) && i < |mask|
    ensures RendersAt(mask, n, ds, negative, suppressing, fill, i)
    decreases |mask|
  {
    LegalCases(mask);
    if DigitPos(mask[0]) {
      StepDigit(mask, ds, 0);
      LowDigitsRest(ds, n);
      hide RendersAt, LowDigits, Places, Legal, Hidden;
      if i > 0 { RenderAt(mask[1..], n, ds[1..], negative, Hidden(mask[0], ds[0], suppressing), fill, i - 1); }
      RendersDigit(mask, n, ds, negative, suppressing, fill, i);
    } else if Insertion(mask[0]) {
      StepInsertion(mask, ds, 0);
      hide RendersAt, LowDigits, Places, Legal, Insertion;
      if i > 0 { RenderAt(mask[1..], n, ds, negative, suppressing && mask[0] != '.', fill, i - 1); }
      RendersInsertion(mask, n, ds, negative, suppressing, fill, i);
    } else {
      ZeroSafeMarker(mask, ds, false);
      hide RendersAt, LowDigits, Places, Legal;
      if i > 1 { RenderAt(mask[2..], n, ds, negative, suppressing, fill, i - 2); }
      RendersMarker(mask, n, ds, negative, suppressing, fill, i);
    }
  }

  /** Encoding through a legal mask shows the number position by position. */
  lemma EncodeShows(value: int, mask: string)
    requires Legal(mask) && Encode(value, mask).Ok?
    ensures Shows(Encode(value, mask).value, mask, value)
  {
    hide Render, PlaceDigit, ShownByte, InLeadingZeros, Floating;
    var ds := Padded(value, mask);
    PadShortest(10, Abs(value), Places(mask));
    forall k | 0 <= k < |ds|
      ensures ds[k] == PlaceDigit(10, Abs(value), |ds| - 1 - k)
    {
      DigitAt(10, Abs(value), |ds|, k);
    }
    RenderShape(mask, ds, value < 0, true, Fill(mask));
    forall i | 0 <= i < |mask|
      ensures Encode(value, mask).value[i]
           == ShownByte(mask, Abs(value), value < 0, InLeadingZeros(mask, Abs(value), i),
                        if '*' in mask then 42 else 32, i)
    {
      RenderAt(mask, Abs(value), ds, value < 0, true, Fill(mask), i);
    }
  }

  /** Reading digits on from a number already read. */
  function Accumulate(p: nat, s: string): nat
    decreases |s|
  {
    if s == [] then p else Accumulate(if IsDigit(s[0]) then 10 * p + DigitOf(s[0]) else p, s[1..])
  }

  function AccumulateDigits(t: nat, ds: seq<nat>): nat
    decreases |ds|
  {
    if ds == [] then t else AccumulateDigits(10 * t + ds[0], ds[1..])
  }

  lemma {:induction false} AccumulateIsDigits(p: nat, s: string)
    ensures Accumulate(p, s) == AccumulateDigits(p, DigitsIn(s))
    decreases |s|
  {
    if s == [] {
    } else {
      hide AccumulateDigits, DigitsIn;
      DigitsInCons(s[0], s[1..]);
      assert [s[0]] + s[1..] == s;
      DigitsInOne(s[0]);
      if IsDigit(s[0]) {
        AccumulateIsDigits(10 * p + DigitOf(s[0]), s[1..]);
        AccumulateDigitsStep(p, DigitOf(s[0]), DigitsIn(s[1..]));
      } else {
        AccumulateIsDigits(p, s[1..]);
        assert [] + DigitsIn(s[1..]) == DigitsIn(s[1..]);
      }
    }
  }

  lemma AccumulateDigitsStep(t: nat, d: nat, ds: seq<nat>)
    ensures AccumulateDigits(t, [d] + ds) == AccumulateDigits(10 * t + d, ds)
  {
    assert ([d] + ds)[1..] == ds;
  }

  lemma DigitsInOne(c: char)
    ensures DigitsIn([c]) == if IsDigit(c) then [DigitOf(c)] else []
  {
    assert [c][1..] == [];
  }

  lemma {:induction false} AccumulateDigitsIsValue(q: seq<nat>, ds: seq<nat>)
    ensures AccumulateDigits(Value(10, q), ds) == Value(10, q + ds)
    decreases |ds|
  {
    if ds == [] {
      assert q + ds == q;
    } else {
      ValueSnoc(10, q, ds[0]);
      AccumulateDigitsIsValue(q + [ds[0]], ds[1..]);
      assert q + ds == (q + [ds[0]]) + ds[1..];
    }
  }

  lemma CharsOfPrepend(b: Byte, rest: seq<Byte>, p: nat)
    ensures Accumulate(p, Chars([b] + rest))
         == Accumulate(if IsDigit(b as char) then 10 * p + DigitOf(b as char) else p, Chars(rest))
  {
    assert Chars([b] + rest)[1..] == Chars(rest);
  }

  lemma CharsOfMarker(c: char, negative: bool, rest: seq<Byte>, p: nat)
    ensures Accumulate(p, Chars(Marker(c, negative) + rest)) == Accumulate(p, Chars(rest))
  {
    var m := Marker(c, negative);
    assert m + rest == [m[0]] + ([m[1]] + rest);
    CharsOfPrepend(m[0], [m[1]] + rest, p);
    CharsOfPrepend(m[1], rest, p);
  }

  lemma LegalCases(mask: string)
    requires Legal(mask) && mask != []
    ensures DigitPos(mask[0]) || Insertion(mask[0]) || ((mask[0] == 'C' || mask[0] == 'D') && |mask| >= 2)
  {
  }

  lemma StepDigit(mask: string, ds: seq<nat>, t: nat)
    requires mask != [] && DigitPos(mask[0]) && |ds| == Places(mask) && Legal(mask)
    ensures Legal(mask[1..]) && |ds| == Places(mask[1..]) + 1
    ensures ZeroSafe(mask, ds, t != 0) == ZeroSafe(mask[1..], ds[1..], 10 * t + ds[0] != 0)
    ensures AccumulateDigits(t, ds) == AccumulateDigits(10 * t + ds[0], ds[1..])
  {
  }

  lemma StepInsertion(mask: string, ds: seq<nat>, t: nat)
    requires mask != [] && Insertion(mask[0]) && |ds| == Places(mask) && Legal(mask)
    ensures Legal(mask[1..]) && |ds| == Places(mask[1..])
    ensures ZeroSafe(mask, ds, t != 0) == ((mask[0] == '0' ==> t == 0) && ZeroSafe(mask[1..], ds, t != 0))
  {
  }

  lemma ZeroSafeMarker(mask: string, ds: seq<nat>, seen: bool)
    requires |mask| >= 2 && Legal(mask) && (mask[0] == 'C' || mask[0] == 'D') && Places(mask) <= |ds|
    ensures Legal(mask[2..]) && Places(mask[2..]) == Places(mask)
    ensures ZeroSafe(mask, ds, seen) == ZeroSafe(mask[2..], ds, seen)
  {
    assert mask[1..][1..] == mask[2..];
  }

  lemma ShownDigit(c: char, d: nat, hidden: bool, rest: seq<Byte>, p: nat)
    requires d < 10 && (hidden ==> d == 0)
    ensures var shown: Byte := if !hidden then 48 + d else if c == 'Z' then BLANK else STAR;
            Accumulate(p, Chars([shown] + rest)) == Accumulate(if hidden then p else 10 * p + d, Chars(rest))
  {
    hide Accumulate;
    var shown: Byte := if !hidden then 48 + d else if c == 'Z' then BLANK else STAR;
    CharsOfPrepend(shown, rest, p);
  }

  lemma ShownInsertion(c: char, negative: bool, suppressing: bool, fill: Byte, rest: seq<Byte>, p: nat)
    requires Insertion(c) && (fill == BLANK || fill == STAR)
    ensures Accumulate(p, Chars([Inserted(c, negative, suppressing, fill)] + rest))
         == Accumulate(if c == '0' then 10 * p else p, Chars(rest))
  {
    hide Accumulate;
    CharsOfPrepend(Inserted(c, negative, suppressing, fill), rest, p);
  }

  /**
   Suppression removes leading zeros only and insertions add nothing but the inserted zeros: what
   is read back is never below the number, and equal to it exactly when no inserted 0 counts.
   */
  lemma {:induction false} DigitsBack(
    mask: string, ds: seq<nat>, negative: bool, suppressing: bool, fill: Byte, p: nat, t: nat
  )
    requires |ds| == Places(mask) && IsDigits(10, ds) && Legal(mask) && (fill == BLANK || fill == STAR)
    requires p >= t && (suppressing ==> t == 0)
    requires Render(mask, ds, negative, suppressing, fill).Ok?
    ensures var e := Accumulate(p, Chars(Render(mask, ds, negative, suppressing, fill).value));
            var v := AccumulateDigits(t, ds);
            e >= v && (e == v <==> p == t && ZeroSafe(mask, ds, t != 0))
    decreases |mask|
  {
    if mask == [] {
    } else {
      hide Render, Inserted, Marker, Insertion, Accumulate, AccumulateDigits, ZeroSafe, Places;
      LegalCases(mask);
      hide Legal;
      var c := mask[0];
      if DigitPos(c) {
        StepDigit(mask, ds, t);
        RenderDigit(mask, ds, negative, suppressing, fill);
        var d, hidden := ds[0], Hidden(c, ds[0], suppressing);
        assert hidden ==> suppressing && d == 0;
        ShownDigit(c, d, hidden, Render(mask[1..], ds[1..], negative, hidden, fill).value, p);
        DigitsBack(mask[1..], ds[1..], negative, hidden, fill, if hidden then p else 10 * p + d, 10 * t + d);
      } else if Insertion(c) {
        StepInsertion(mask, ds, t);
        RenderInsertion(mask, ds, negative, suppressing, fill);
        var after := suppressing && c != '.';
        ShownInsertion(c, negative, suppressing, fill, Render(mask[1..], ds, negative, after, fill).value, p);
        DigitsBack(mask[1..], ds, negative, after, fill, if c == '0' then 10 * p else p, t);
      } else {
        RenderMarker(mask, ds, negative, suppressing, fill);
        ZeroSafeMarker(mask, ds, t != 0);
        CharsOfMarker(c, negative, Render(mask[2..], ds, negative, suppressing, fill).value, p);
        DigitsBack(mask[2..], ds, negative, suppressing, fill, p, t);
      }
    }
  }

  // ---------------------------------------------------------------- the sign of a negative value

  predicate SignSymbol(c: char) {
    c == '+' || c == '-'
  }

  /** Whether an insertion symbol shows a blank in a negative value. */
  predicate BlankInsertion(c: char, suppressing: bool, fill: Byte) {
    c == 'B' || (c == ',' && suppressing && fill == BLANK)
  }

  /** The mask symbols whose positions do not come out blank in a negative value, in order. */
  function ShownSymbols(mask: string, ds: seq<nat>, suppressing: bool, fill: Byte): string
    requires Places(mask) <= |ds|
    decreases |mask|
  {
    if mask == [] then []
    else
      var c := mask[0];
      if DigitPos(c) then
        var hidden := Hidden(c, ds[0], suppressing);
        (if hidden && c == 'Z' then [] else [c]) + ShownSymbols(mask[1..], ds[1..], hidden, fill)
      else if c == 'C' || c == 'D' then
        PlacesTail(mask);
        [c, if c == 'C' then 'R' else 'B'] + ShownSymbols(Tail(mask, 2), ds, suppressing, fill)
      else
        (if BlankInsertion(c, suppressing, fill) then [] else [c])
        + ShownSymbols(mask[1..], ds, suppressing && c != '.', fill)
  }

  /** A sign symbol is the first or the last symbol that shows, or a CR or DB marker is the last. */
  predicate SignVisible(mask: string, ds: seq<nat>)
    requires Places(mask) <= |ds|
  {
    var s := ShownSymbols(mask, ds, true, Fill(mask));
    s != [] && (SignSymbol(s[0]) || SignSymbol(s[|s| - 1]) || s[|s| - 1] == 'R' || s[|s| - 1] == 'B')
  }

  /** The bytes that are not blanks. */
  function Visible(bs: seq<Byte>): seq<Byte> {
    if bs == [] then [] else (if bs[0] == BLANK then [] else [bs[0]]) + Visible(bs[1..])
  }

  lemma {:induction false} VisibleConcat(a: seq<Byte>, b: seq<Byte>)
    ensures Visible(a + b) == Visible(a) + Visible(b)
  {
    hide Visible;
    if a == [] {
      assert a + b == b;
      VisibleNone();
    } else {
      VisibleConcat(a[1..], b);
      VisibleCons(a[0], a[1..]);
      VisibleCons(a[0], a[1..] + b);
      assert [a[0]] + a[1..] == a && [a[0]] + (a[1..] + b) == a + b;
    }
  }

  lemma VisibleNone()
    ensures Visible([]) == []
  {
  }

  lemma VisibleCons(b: Byte, rest: seq<Byte>)
    ensures Visible([b] + rest) == (if b == BLANK then [] else [b]) + Visible(rest)
  {
    assert ([b] + rest)[1..] == rest;
  }

  lemma VisibleOne(b: Byte)
    ensures Visible([b]) == if b == BLANK then [] else [b]
  {
    assert [b][1..] == [];
  }

  lemma {:induction false} VisibleBlanks(bs: seq<Byte>)
    requires forall i :: 0 <= i < |bs| ==> bs[i] == BLANK
    ensures Visible(bs) == []
  {
    if bs != [] { VisibleBlanks(bs[1..]); }
  }

  /** What each shown symbol of a negative value looks like, as far as the sign is concerned. */
  predicate Mirrors(bs: seq<Byte>, s: string) {
    |bs| == |s| &&
    forall i :: 0 <= i < |bs| ==>
      (bs[i] == 45 <==> SignSymbol(s[i])) && (bs[i] == 82 || bs[i] == 66 <==> s[i] == 'R' || s[i] == 'B')
  }

  /** Marker letters come in pairs, and the only white space is the blank. */
  predicate Paired(bs: seq<Byte>) {
    forall i :: 0 <= i < |bs| ==> PairedAt(bs, i)
  }

  predicate PairedAt(bs: seq<Byte>, i: nat)
    requires i < |bs|
  {
    32 <= bs[i] < 91 &&
    (bs[i] == 82 ==> i > 0 && bs[i - 1] == 67) && (bs[i] == 66 ==> i > 0 && bs[i - 1] == 68)
  }

  lemma Joined(a: seq<Byte>, b: seq<Byte>, s: string, t: string)
    requires Mirrors(Visible(a), s) && Mirrors(Visible(b), t) && Paired(a) && Paired(b)
    ensures Mirrors(Visible(a + b), s + t) && Paired(a + b)
  {
    VisibleConcat(a, b);
    MirrorsConcat(Visible(a), Visible(b), s, t);
    PairedConcat(a, b);
  }

  lemma MirrorsConcat(v: seq<Byte>, w: seq<Byte>, s: string, t: string)
    requires Mirrors(v, s) && Mirrors(w, t)
    ensures Mirrors(v + w, s + t)
  {
    var vw, st := v + w, s + t;
    forall i | 0 <= i < |vw|
      ensures (vw[i] == 45 <==> SignSymbol(st[i])) &&
              (vw[i] == 82 || vw[i] == 66 <==> st[i] == 'R' || st[i] == 'B')
    {
      if i < |v| {
        assert vw[i] == v[i] && st[i] == s[i];
      } else {
        assert vw[i] == w[i - |v|] && st[i] == t[i - |v|];
      }
    }
  }

  lemma PairedConcat(a: seq<Byte>, b: seq<Byte>)
    requires Paired(a) && Paired(b)
    ensures Paired(a + b)
  {
    var ab := a + b;
    forall i | 0 <= i < |ab|
      ensures PairedAt(ab, i)
    {
      if i < |a| {
        assert PairedAt(a, i) && ab[i] == a[i] && (i > 0 ==> ab[i - 1] == a[i - 1]);
      } else {
        assert PairedAt(b, i - |a|) && ab[i] == b[i - |a|] && (i > |a| ==> ab[i - 1] == b[i - |a| - 1]);
      }
    }
  }

  lemma DigitMirrors(c: char, d: nat, hidden: bool)
    requires DigitPos(c) && d < 10 && (hidden ==> c != '9')
    ensures var shown: Byte := if !hidden then 48 + d else if c == 'Z' then BLANK else STAR;
            Mirrors(Visible([shown]), if hidden && c == 'Z' then [] else [c]) && Paired([shown])
  {
    VisibleOne(if !hidden then 48 + d else if c == 'Z' then BLANK else STAR);
  }

  lemma InsertionMirrors(c: char, suppressing: bool, fill: Byte)
    requires Insertion(c) && (fill == BLANK || fill == STAR)
    ensures var b := Inserted(c, true, suppressing, fill);
            Mirrors(Visible([b]), if BlankInsertion(c, suppressing, fill) then [] else [c]) && Paired([b])
  {
    VisibleOne(Inserted(c, true, suppressing, fill));
  }

  lemma MarkerMirrors(c: char)
    requires c == 'C' || c == 'D'
    ensures Mirrors(Visible(Marker(c, true)), [c, if c == 'C' then 'R' else 'B']) && Paired(Marker(c, true))
  {
    var m := Marker(c, true);
    assert m[1..] == [m[1]];
    VisibleOne(m[1]);
  }

  /** The bytes of a negative value that are not blank are those of the shown symbols, in order. */
  lemma {:induction false} ShownIsVisible(mask: string, ds: seq<nat>, suppressing: bool, fill: Byte)
    requires |ds| == Places(mask) && IsDigits(10, ds) && Legal(mask) && (fill == BLANK || fill == STAR)
    ensures var r := Render(mask, ds, true, suppressing, fill);
            r.Ok? && Mirrors(Visible(r.value), ShownSymbols(mask, ds, suppressing, fill)) && Paired(r.value)
    decreases |mask|
  {
    RenderShape(mask, ds, true, suppressing, fill);
    hide Render, Visible, Mirrors, Paired, Inserted, Marker, BlankInsertion, Clean;
    if mask == [] {
      NothingShown();
    } else {
      LegalCases(mask);
      var c := mask[0];
      if DigitPos(c) {
        var hidden := Hidden(c, ds[0], suppressing);
        var shown: Byte := if !hidden then 48 + ds[0] else if c == 'Z' then BLANK else STAR;
        RenderDigit(mask, ds, true, suppressing, fill);
        StepDigit(mask, ds, 0);
        ShownIsVisible(mask[1..], ds[1..], hidden, fill);
        DigitMirrors(c, ds[0], hidden);
        Joined([shown], Render(mask[1..], ds[1..], true, hidden, fill).value,
               if hidden && c == 'Z' then [] else [c], ShownSymbols(mask[1..], ds[1..], hidden, fill));
      } else if c == 'C' || c == 'D' {
        RenderMarker(mask, ds, true, suppressing, fill);
        ZeroSafeMarker(mask, ds, false);
        ShownIsVisible(mask[2..], ds, suppressing, fill);
        MarkerMirrors(c);
        Joined(Marker(c, true), Render(mask[2..], ds, true, suppressing, fill).value,
               [c, if c == 'C' then 'R' else 'B'], ShownSymbols(mask[2..], ds, suppressing, fill));
      } else {
        var after := suppressing && c != '.';
        RenderInsertion(mask, ds, true, suppressing, fill);
        StepInsertion(mask, ds, 0);
        ShownIsVisible(mask[1..], ds, after, fill);
        InsertionMirrors(c, suppressing, fill);
        Joined([Inserted(c, true, suppressing, fill)], Render(mask[1..], ds, true, after, fill).value,
               if BlankInsertion(c, suppressing, fill) then [] else [c],
               ShownSymbols(mask[1..], ds, after, fill));
      }
    }
  }

  lemma NothingShown()
    ensures Mirrors(Visible([]), []) && Paired([])
    ensures forall ds, negative, suppressing, fill :: IsDigits(10, ds) ==>
              Render([], ds, negative, suppressing, fill) == Ok([])
  {
  }

  /** Trimming cuts white space off both ends and nothing else. */
  lemma TrimSlice(s: string) returns (i: nat, j: nat)
    ensures i <= j <= |s| && Trim(s) == s[i..j]
    ensures forall k :: 0 <= k < |s| && (k < i || j <= k) ==> IsWhitespace(s[k])
  {
    j := TrimEndSlice(s);
    i := TrimStartSlice(s[..j]);
    assert s[..j][i..] == s[i..j];
    forall k | 0 <= k < i
      ensures IsWhitespace(s[k])
    {
      assert s[..j][k] == s[k];
    }
  }

  lemma {:induction false} TrimStartSlice(s: string) returns (i: nat)
    ensures i <= |s| && TrimStart(s) == s[i..]
    ensures forall k :: 0 <= k < i ==> IsWhitespace(s[k])
  {
    i := 0;
    if s != [] && IsWhitespace(s[0]) {
      i := TrimStartSlice(s[1..]);
      assert s[1..][i..] == s[i + 1..];
      assert forall k :: 0 < k <= i ==> s[k] == s[1..][k - 1];
      i := i + 1;
    }
  }

  lemma {:induction false} TrimEndSlice(s: string) returns (j: nat)
    ensures j <= |s| && TrimEnd(s) == s[..j]
    ensures forall k :: j <= k < |s| ==> IsWhitespace(s[k])
  {
    j := |s|;
    if s != [] && IsWhitespace(s[|s| - 1]) {
      j := TrimEndSlice(s[..|s| - 1]);
      assert s[..|s| - 1][..j] == s[..j];
      assert forall k :: j <= k < |s| - 1 ==> s[k] == s[..|s| - 1][k];
    }
  }

  /** Without signs and marker letters nothing reads as negative. */
  lemma NotNegative(bs: seq<Byte>)
    requires Clean(bs, false)
    ensures !IsNegative(Chars(bs))
  {
    hide Trim;
    var s := Chars(bs);
    var i, j := TrimSlice(s);
    var t := Trim(s);
    forall k | 0 <= k < |t|
      ensures t[k] < 'A' && t[k] != '-'
    {
      assert t[k] == s[i + k] == bs[i + k] as char;
    }
    assert Upper(t) == t;
  }

  /** Whether the outermost bytes that are not blank say minus. */
  predicate ReadsMinus(v: seq<Byte>) {
    v != [] && (v[0] == 45 || v[|v| - 1] == 45 || v[|v| - 1] == 82 || v[|v| - 1] == 66)
  }

  lemma VisibleEnds(bs: seq<Byte>, i: nat, j: nat)
    requires i <= j <= |bs|
    requires forall k :: 0 <= k < |bs| && (k < i || j <= k) ==> bs[k] == BLANK
    requires i < j ==> bs[i] != BLANK && bs[j - 1] != BLANK
    ensures var v := Visible(bs);
            if i == j then v == [] else v != [] && v[0] == bs[i] && v[|v| - 1] == bs[j - 1]
  {
    hide Visible;
    var front, core, back := bs[..i], bs[i..j], bs[j..];
    assert bs == front + (core + back);
    VisibleConcat(front, core + back);
    VisibleConcat(core, back);
    VisibleBlanks(front);
    VisibleBlanks(back);
    if i < j {
      VisibleCore(core);
    }
  }

  lemma VisibleCore(core: seq<Byte>)
    requires core != [] && core[0] != BLANK && core[|core| - 1] != BLANK
    ensures var v := Visible(core); v != [] && v[0] == core[0] && v[|v| - 1] == core[|core| - 1]
  {
    hide Visible;
    var front, last := core[..|core| - 1], core[|core| - 1];
    assert core == front + [last] && core == [core[0]] + core[1..];
    VisibleConcat(front, [last]);
    VisibleOne(last);
    VisibleCons(core[0], core[1..]);
  }

  /** Trimming rendered bytes cuts blanks off, and their letters are capitals already. */
  lemma TrimmedBytes(bs: seq<Byte>) returns (i: nat, j: nat)
    requires Paired(bs)
    ensures i <= j <= |bs| && Upper(Trim(Chars(bs))) == Chars(bs[i..j])
    ensures forall k :: 0 <= k < |bs| && (k < i || j <= k) ==> bs[k] == BLANK
    ensures i < j ==> bs[i] != BLANK && bs[j - 1] != BLANK
  {
    hide Trim;
    var s := Chars(bs);
    i, j := TrimSlice(s);
    var t := Trim(s);
    forall k | 0 <= k < |s|
      ensures IsWhitespace(s[k]) <==> bs[k] == BLANK
    {
      assert s[k] == bs[k] as char && PairedAt(bs, k);
    }
    forall k | 0 <= k < |t|
      ensures t[k] == bs[i + k] as char && UpperChar(t[k]) == t[k]
    {
      assert t[k] == s[i + k] && PairedAt(bs, i + k);
    }
    TrimEdges(s);
    if i < j { assert t[0] == s[i] && t[|t| - 1] == s[j - 1]; }
  }

  /** A field reads as negative exactly when its outermost visible bytes say so. */
  lemma NegativeWhenVisible(bs: seq<Byte>)
    requires Paired(bs)
    ensures IsNegative(Chars(bs)) <==> ReadsMinus(Visible(bs))
  {
    hide Trim, Visible, Upper, Paired, PairedAt;
    var i, j := TrimmedBytes(bs);
    var up := Upper(Trim(Chars(bs)));
    VisibleEnds(bs, i, j);
    if i < j {
      assert up[0] == bs[i] as char && up[|up| - 1] == bs[j - 1] as char;
      LetterBefore(bs, j - 1);
      assert |up| >= 2 ==> up[|up| - 2] == bs[j - 2] as char;
    }
  }

  lemma LetterBefore(bs: seq<Byte>, k: nat)
    requires Paired(bs) && k < |bs|
    ensures bs[k] == 82 ==> k > 0 && bs[k - 1] == 67
    ensures bs[k] == 66 ==> k > 0 && bs[k - 1] == 68
  {
    assert PairedAt(bs, k);
  }

  lemma TrimEdges(s: string)
    ensures var t := Trim(s); t == [] || (!IsWhitespace(t[0]) && !IsWhitespace(t[|t| - 1]))
  {
    TrimStartKeepsEnd(TrimEnd(s));
  }

  lemma {:induction false} TrimStartKeepsEnd(s: string)
    requires s != [] ==> !IsWhitespace(s[|s| - 1])
    ensures TrimStart(s) != [] ==> !IsWhitespace(TrimStart(s)[|TrimStart(s)| - 1])
  {
    if s != [] && IsWhitespace(s[0]) { TrimStartKeepsEnd(s[1..]); }
  }

  /** A negative value reads as negative exactly when its sign stands at an edge of what shows. */
  lemma NegativeShown(value: int, mask: string)
    requires Legal(mask) && Encode(value, mask).Ok? && value < 0
    ensures IsNegative(Chars(Encode(value, mask).value)) <==> SignVisible(mask, Padded(value, mask))
  {
    hide Render, IsNegative, Floating, Visible, ShownSymbols;
    var bs, ds := Encode(value, mask).value, Padded(value, mask);
    ShownIsVisible(mask, ds, true, Fill(mask));
    NegativeWhenVisible(bs);
  }

  /** Encoding succeeds on a legal mask exactly when nothing floats and the digits fit. */
  lemma EncodeExact(value: int, mask: string)
    requires Legal(mask)
    ensures Encode(value, mask).Ok? <==> !Floating(mask) && Places(mask) > 0 && Abs(value) < Pow(10, Places(mask))
    ensures Encode(value, mask).Ok? ==> |Encode(value, mask).value| == |mask|
  {
    if Places(mask) > 0 { ShortestLength(10, Abs(value), Places(mask)); }
    if !Floating(mask) && |Shortest(10, Abs(value))| <= Places(mask) {
      RenderShape(mask, Padded(value, mask), value < 0, true, Fill(mask));
    }
  }

  lemma ReadBack(value: int, mask: string)
    requires Legal(mask) && Encode(value, mask).Ok?
    ensures var s := Chars(Encode(value, mask).value);
            Lossy(Encode(value, mask).value) == s && Value(10, DigitsIn(s)) >= Abs(value) &&
            (Value(10, DigitsIn(s)) == Abs(value) <==> ZeroSafe(mask, Padded(value, mask), false))
  {
    hide Value, Render, Accumulate, AccumulateDigits, ZeroSafe, DigitsIn, Lossy, Floating;
    var bs, ds := Encode(value, mask).value, Padded(value, mask);
    RenderShape(mask, ds, value < 0, true, Fill(mask));
    LossyAscii(bs);
    DigitsBack(mask, ds, value < 0, true, Fill(mask), 0, 0);
    AccumulateIsDigits(0, Chars(bs));
    ValueEmpty(10);
    AccumulateDigitsIsValue([], DigitsIn(Chars(bs)));
    AccumulateDigitsIsValue([], ds);
    assert [] + DigitsIn(Chars(bs)) == DigitsIn(Chars(bs)) && [] + ds == ds;
    LeadingZeros(10, Repeat(0 as nat, Places(mask) - |Shortest(10, Abs(value))|), Shortest(10, Abs(value)));
    ShortestValue(10, Abs(value));
  }

  /**
   A value rendered through a legal mask is read back exactly when no inserted 0 follows a non-zero
   digit, the magnitude is within 128 bits, and a negative value is of a signed field and shows its
   sign at an edge of what is not blank.
   */
  lemma RoundTrip(value: int, mask: string, signed: bool)
    requires Legal(mask) && Encode(value, mask).Ok?
    ensures Decode(Encode(value, mask).value, signed) == Ok(value)
       <==> ZeroSafe(mask, Padded(value, mask), false) && Abs(value) <= I128_MAX &&
            (value >= 0 || (signed && SignVisible(mask, Padded(value, mask))))
  {
    hide Value, Render, ZeroSafe, DigitsIn, Lossy, Floating, IsNegative, SignVisible;
    var bs := Encode(value, mask).value;
    ReadBack(value, mask);
    RenderShape(mask, Padded(value, mask), value < 0, true, Fill(mask));
    if value >= 0 {
      NotNegative(bs);
    } else {
      NegativeShown(value, mask);
    }
  }

  predicate Signless(mask: string) {
    forall i :: 0 <= i < |mask| ==> !SignSymbol(mask[i]) && mask[i] != 'C' && mask[i] != 'D'
  }

  /** Without any sign symbol a negative value loses its sign: decoding never gives it back. */
  lemma UnsignedMaskLosesSign(value: int, mask: string, signed: bool)
    requires Legal(mask) && Encode(value, mask).Ok? && value < 0 && Signless(mask)
    ensures Decode(Encode(value, mask).value, signed) != Ok(value)
  {
    hide Render, ZeroSafe, Floating, Decode, ShownSymbols, Legal, Signless;
    var ds := Padded(value, mask);
    SignlessShown(mask, ds, true, Fill(mask));
    RoundTrip(value, mask, signed);
  }

  lemma {:induction false} SignlessShown(mask: string, ds: seq<nat>, suppressing: bool, fill: Byte)
    requires Places(mask) <= |ds| && Legal(mask) && Signless(mask)
    ensures forall c :: c in ShownSymbols(mask, ds, suppressing, fill) ==> !SignSymbol(c) && c != 'R' && c != 'B'
    decreases |mask|
  {
    if mask != [] {
      if DigitPos(mask[0]) {
        SignlessShown(mask[1..], ds[1..], Hidden(mask[0], ds[0], suppressing), fill);
      } else {
        SignlessShown(mask[1..], ds, suppressing && mask[0] != '.', fill);
      }
    }
  }

  /** A sign inside the mask is at the edge only while what stands before it is suppressed. */
  lemma InnerSignLost()
    ensures Encode(-5, "Z-9").Ok? && Decode(Encode(-5, "Z-9").value, true) == Ok(-5)
    ensures Encode(-15, "Z-9").Ok? && Decode(Encode(-15, "Z-9").value, true) != Ok(-15)
  {
    var mask := "Z-9";
    InnerSign(mask);
    EncodeExact(-5, mask);
    EncodeExact(-15, mask);
    PowStep(10, 1);
    PowStep(10, 0);
    assert Shortest(10, 5) == [5] && Shortest(10, 15) == [1, 5];
    assert Padded(-5, mask) == [0, 5] && Padded(-15, mask) == [1, 5];
    InnerShown(mask, "-9");
    hide Encode, Decode, Shortest, Pow;
    RoundTrip(-5, mask, true);
    RoundTrip(-15, mask, true);
  }

  lemma InnerSign(mask: string)
    requires mask == "Z-9"
    ensures Places(mask) == 2 && Legal(mask) && !Floating(mask) && '*' !in mask
    ensures ZeroSafe(mask, [0, 5], false)
  {
    var rest, last, none: string := ['-', '9'], ['9'], [];
    assert mask == ['Z', '-', '9'] && mask[1..] == rest && rest[1..] == last && last[1..] == none;
    assert Places(last) == 1 && Legal(last) && ZeroSafe(last, [5], false);
    assert Places(rest) == 1 && Legal(rest) && ZeroSafe(rest, [5], false);
    assert [0 as nat, 5][1..] == [5];
    forall c
      ensures Count(mask, c) <= 1
    {
      assert Count(none, c) == 0 && Count(last, c) <= 1 && Count(rest, c) <= 1;
    }
  }

  lemma InnerShown(mask: string, rest: string)
    requires mask == "Z-9" && rest == "-9" && Places(mask) == 2
    ensures SignVisible(mask, [0, 5]) && !SignVisible(mask, [1, 5])
  {
    assert mask[1..] == rest && rest[1..] == "9";
    assert [0 as nat, 5][1..] == [5] && [1 as nat, 5][1..] == [5];
    ShownMinus(rest, true);
    ShownMinus(rest, false);
    assert ShownSymbols(mask, [0, 5], true, BLANK) == ['-', '9'];
    assert ShownSymbols(mask, [1, 5], true, BLANK) == ['Z', '-', '9'];
  }

  lemma ShownMinus(rest: string, suppressing: bool)
    requires rest == "-9"
    ensures Places(rest) == 1 && ShownSymbols(rest, [5], suppressing, BLANK) == ['-', '9']
  {
    ShownNine(suppressing);
    assert rest[1..] == "9";
  }

  lemma ShownNine(suppressing: bool)
    ensures Places("9") == 1 && ShownSymbols("9", [5], suppressing, BLANK) == "9"
  {
    assert "9"[1..] == [];
  }

  /** An inserted 0 is read back as a digit: 5 does not survive the mask `90`. */
  lemma InsertedZeroMisread()
    ensures Encode(5, "90").Ok?
    ensures Decode(Encode(5, "90").value, false) != Ok(5)
  {
    var mask := "90";
    NinetyZero();
    EncodeExact(5, mask);
    PowStep(10, 0);
    assert Padded(5, mask) == [5] by {
      assert Shortest(10, 5) == [5];
    }
    hide Encode, Decode;
    RoundTrip(5, mask, false);
  }

  lemma NinetyZero()
    ensures Places("90") == 1 && Legal("90") && !Floating("90") && !ZeroSafe("90", [5], false)
  {
    assert "90"[1..] == "0" && "0"[1..] == "";
  }
  // ---------------------------------------------------------------- bytes that came from the mask

  /** The digit a position shows as the byte `b`, if any. */
  function DigitShown(c: char, b: Byte, suppressing: bool): (d: Option<nat>)
    ensures d.Some? ==> d.value < 10
  {
    if c != '9' && suppressing && b == (if c == 'Z' then BLANK else STAR) then Some(0)
    else if 48 <= b < 58 && !Hidden(c, b - 48, suppressing) then Some(b - 48)
    else None
  }

  lemma DigitShownExact(c: char, b: Byte, suppressing: bool, d: nat)
    requires DigitPos(c) && d < 10
    ensures DigitShown(c, b, suppressing) == Some(d)
       <==> b == if !Hidden(c, d, suppressing) then 48 + d else if c == 'Z' then BLANK else STAR
  {
  }

  function AndThen(d: nat, ds: Option<seq<nat>>): Option<seq<nat>> {
    if ds.Some? then Some([d] + ds.value) else None
  }

  /** Holds the bytes against the mask symbol by symbol; the digits when all of them agree. */
  function ReadMask(
    mask: string, bs: seq<Byte>, negative: bool, suppressing: bool, fill: Byte
  ): (r: Option<seq<nat>>)
    requires Legal(mask)
    ensures r.Some? ==> |r.value| == Places(mask) && IsDigits(10, r.value)
    decreases |mask|
  {
    if mask == [] then if bs == [] then Some([]) else None
    else if bs == [] then None
    else
      var c := mask[0];
      if DigitPos(c) then
        var d := DigitShown(c, bs[0], suppressing);
        if d.None? then None
        else AndThen(d.value, ReadMask(mask[1..], bs[1..], negative, Hidden(c, d.value, suppressing), fill))
      else if Insertion(c) then
        if bs[0] != Inserted(c, negative, suppressing, fill) then None
        else ReadMask(mask[1..], bs[1..], negative, suppressing && c != '.', fill)
      else
        assert mask[1..][1..] == mask[2..];
        if |bs| < 2 || bs[..2] != Marker(c, negative) then None
        else ReadMask(mask[2..], bs[2..], negative, suppressing, fill)
  }

  lemma PrependIs(a: seq<Byte>, r: Result<seq<Byte>>, bs: seq<Byte>)
    requires r.Ok?
    ensures Prepend(a, r) == Ok(bs) <==> |a| <= |bs| && bs[..|a|] == a && r == Ok(bs[|a|..])
  {
    if |a| <= |bs| && bs[..|a|] == a { assert bs == a + bs[|a|..]; }
    assert (a + r.value)[..|a|] == a && (a + r.value)[|a|..] == r.value;
  }

  lemma AndThenIs(d: nat, r: Option<seq<nat>>, ds: seq<nat>)
    requires ds != []
    ensures AndThen(d, r) == Some(ds) <==> d == ds[0] && r == Some(ds[1..])
  {
    assert ds == [ds[0]] + ds[1..];
    if r.Some? { assert ([d] + r.value)[1..] == r.value; }
  }

  lemma OneByte(bs: seq<Byte>, b: Byte)
    ensures |bs| >= 1 && bs[..1] == [b] <==> bs != [] && bs[0] == b
  {
    if bs != [] { assert bs[..1] == [bs[0]]; }
  }

  /** Reading against the mask inverts rendering through it. */
  lemma {:induction false} ReadMaskInverts(
    mask: string, bs: seq<Byte>, ds: seq<nat>, negative: bool, suppressing: bool, fill: Byte
  )
    requires Legal(mask) && |ds| == Places(mask) && IsDigits(10, ds) && (fill == BLANK || fill == STAR)
    ensures ReadMask(mask, bs, negative, suppressing, fill) == Some(ds)
       <==> Render(mask, ds, negative, suppressing, fill) == Ok(bs)
    decreases |mask|
  {
    RenderShape(mask, ds, negative, suppressing, fill);
    hide Render, Prepend, AndThen, Clean, DigitShown, Hidden, Inserted, Marker;
    if mask == [] {
      RenderNothing(ds, negative, suppressing, fill);
    } else if bs != [] {
      LegalCases(mask);
      var c := mask[0];
      if DigitPos(c) {
        var hidden := Hidden(c, ds[0], suppressing);
        var shown: Byte := if !hidden then 48 + ds[0] else if c == 'Z' then BLANK else STAR;
        var after := Render(mask[1..], ds[1..], negative, hidden, fill);
        RenderDigit(mask, ds, negative, suppressing, fill);
        StepDigit(mask, ds, 0);
        RenderShape(mask[1..], ds[1..], negative, hidden, fill);
        ReadMaskInverts(mask[1..], bs[1..], ds[1..], negative, hidden, fill);
        DigitShownExact(c, bs[0], suppressing, ds[0]);
        PrependIs([shown], after, bs);
        OneByte(bs, shown);
        var d := DigitShown(c, bs[0], suppressing);
        if d.Some? {
          AndThenIs(d.value, ReadMask(mask[1..], bs[1..], negative, Hidden(c, d.value, suppressing), fill), ds);
        }
      } else if Insertion(c) {
        var shown := Inserted(c, negative, suppressing, fill);
        var after := Render(mask[1..], ds, negative, suppressing && c != '.', fill);
        RenderInsertion(mask, ds, negative, suppressing, fill);
        StepInsertion(mask, ds, 0);
        RenderShape(mask[1..], ds, negative, suppressing && c != '.', fill);
        ReadMaskInverts(mask[1..], bs[1..], ds, negative, suppressing && c != '.', fill);
        PrependIs([shown], after, bs);
        OneByte(bs, shown);
      } else {
        var after := Render(mask[2..], ds, negative, suppressing, fill);
        RenderMarker(mask, ds, negative, suppressing, fill);
        ZeroSafeMarker(mask, ds, false);
        RenderShape(mask[2..], ds, negative, suppressing, fill);
        PrependIs(Marker(c, negative), after, bs);
        if |bs| >= 2 {
          ReadMaskInverts(mask[2..], bs[2..], ds, negative, suppressing, fill);
        }
      }
    }
  }

  lemma RenderNothing(ds: seq<nat>, negative: bool, suppressing: bool, fill: Byte)
    requires IsDigits(10, ds)
    ensures Render([], ds, negative, suppressing, fill) == Ok([])
  {
  }

  /** The bytes agree with the mask position by position and hold no digit that is not the number's. */
  predicate Dressed(bs: seq<Byte>, mask: string, signed: bool)
    requires Legal(mask)
  {
    var negative := signed && IsNegative(Lossy(bs));
    var ds := ReadMask(mask, bs, negative, true, Fill(mask));
    ds.Some? && ZeroSafe(mask, ds.value, false) &&
    Value(10, ds.value) <= I128_MAX && (negative ==> Value(10, ds.value) > 0)
  }

  /** The digits placed are those of the number they denote. */
  lemma PaddedOfValue(n: int, mask: string, ds: seq<nat>)
    requires |ds| == Places(mask) && ds != [] && IsDigits(10, ds) && Abs(n) == Value(10, ds)
    ensures |Shortest(10, Abs(n))| <= Places(mask) && Padded(n, mask) == ds
  {
    ValueBound(10, ds);
    ShortestLength(10, Abs(n), Places(mask));
    PadShortest(10, Abs(n), Places(mask));
    DigitsOfValue(10, ds);
  }

  lemma DressedSurvives(bs: seq<Byte>, mask: string, signed: bool)
    requires Legal(mask) && !Floating(mask) && Places(mask) > 0 && Dressed(bs, mask, signed)
    ensures Decode(bs, signed).Ok? && Encode(Decode(bs, signed).value, mask) == Ok(bs)
  {
    hide Value, Render, ReadMask, ZeroSafe, DigitsIn, Lossy, Floating, IsNegative;
    var negative := signed && IsNegative(Lossy(bs));
    var ds := ReadMask(mask, bs, negative, true, Fill(mask)).value;
    var mag: int := Value(10, ds);
    var n := if negative then -mag else mag;
    ReadMaskInverts(mask, bs, ds, negative, true, Fill(mask));
    PaddedOfValue(n, mask, ds);
    ReadBack(n, mask);
  }

  /** Bytes survive decoding and encoding exactly when they are dressed as the mask dresses them. */
  lemma BytesRoundTrip(bs: seq<Byte>, mask: string, signed: bool)
    requires Legal(mask) && !Floating(mask) && Places(mask) > 0
    ensures Decode(bs, signed).Ok? && Encode(Decode(bs, signed).value, mask) == Ok(bs)
       <==> Dressed(bs, mask, signed)
  {
    if Dressed(bs, mask, signed) {
      DressedSurvives(bs, mask, signed);
    } else if Decode(bs, signed).Ok? && Encode(Decode(bs, signed).value, mask) == Ok(bs) {
      SurvivorDressed(Decode(bs, signed).value, bs, mask, signed);
    }
  }

  lemma SurvivorDressed(n: int, bs: seq<Byte>, mask: string, signed: bool)
    requires Legal(mask) && Decode(bs, signed) == Ok(n) && Encode(n, mask) == Ok(bs)
    ensures Dressed(bs, mask, signed)
  {
    hide Render, ReadMask, ZeroSafe, DigitsIn, Lossy, Floating, IsNegative, Value;
    var ds := Padded(n, mask);
    ReadBack(n, mask);
    RenderShape(mask, ds, n < 0, true, Fill(mask));
    if n >= 0 { NotNegative(bs); }
    ReadMaskInverts(mask, bs, ds, n < 0, true, Fill(mask));
    PaddedValue(n, mask);
  }

  lemma PaddedValue(n: int, mask: string)
    requires |Shortest(10, Abs(n))| <= Places(mask)
    ensures Value(10, Padded(n, mask)) == Abs(n)
  {
    LeadingZeros(10, Repeat(0 as nat, Places(mask) - |Shortest(10, Abs(n))|), Shortest(10, Abs(n)));
    ShortestValue(10, Abs(n));
  }
}
