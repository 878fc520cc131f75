/**
 COBOL picture strings: the storage kind and byte width they stand for, and that the width holds
 every value the picture has digits for.
 */
module Picture {
  import opened Prelude
  import opened Layouts
  import opened DisplayNumber
  import BI = BinaryInt
  import ED = Edited
  import Leaf
  import Radix
  import Strings

  datatype Usage = Display | Comp3 | Comp

  const USIZE_MAX: int := 0xFFFF_FFFF_FFFF_FFFF

  // ---------------------------------------------------------------- repeats

  /** `str::parse` for an unsigned count. */
  function ParseCount(s: string): Option<nat> {
    if s != [] && s[0] == '-' then None
    else
      match Strings.ParseInt(s, 0, USIZE_MAX)
      case None => None
      case Some(n) => Some(n)
  }

  /** A symbol, the number of times it stands, and how many characters said so. */
  datatype Repeated = Repeated(symbol: char, count: nat, taken: nat)

  function NextSymbol(pic: string): (r: Result<Repeated>)
    requires pic != []
    ensures r.Ok? ==> 0 < r.value.taken <= |pic|
  {
    if |pic| > 1 && pic[1] == '(' then
      var close := IndexFrom(pic, ')', 1);
      if close == |pic| then Err
      else
        match ParseCount(Strings.Trim(pic[2..close]))
        case None => Err
        case Some(n) => Ok(Repeated(pic[0], n, close + 1))
    else Ok(Repeated(pic[0], 1, 1))
  }

  /** The picture with every `(n)` written out. */
  function Expand(pic: string): Result<string>
    decreases |pic|
  {
    if pic == [] then Ok([])
    else
      var first :- NextSymbol(pic);
      var rest :- Expand(pic[first.taken..]);
      Ok(Repeat(first.symbol, first.count) + rest)
  }

  lemma ExpandCons(pic: string)
    ensures pic == [] ==> Expand(pic) == Ok([])
    ensures pic != [] ==>
      var first := NextSymbol(pic);
      if first.Err? then Expand(pic) == Err
      else
        var rest := Expand(pic[first.value.taken..]);
        Expand(pic) == if rest.Err? then Err else Ok(Repeat(first.value.symbol, first.value.count) + rest.value)
  {
  }

  lemma NextTaken(pic: string)
    requires pic != [] && NextSymbol(pic).Ok?
    ensures 0 < NextSymbol(pic).value.taken <= |pic|
  {
  }

  /** The source's loop over the picture, with the loop that writes one symbol out. */
  method ExpandLoop(pic: string) returns (r: Result<string>)
    ensures r == Expand(pic)
  {
    hide Expand, NextSymbol;
    ExpandCons([]);
    var expanded: string, i := [], 0;
    ghost var whole := Expand(pic);
    assert pic[0..] == pic;
    if whole.Ok? { assert [] + whole.value == whole.value; }
    while i < |pic|
      invariant i <= |pic|
      invariant var rest := Expand(pic[i..]);
                if rest.Err? then whole.Err? else whole == Ok(expanded + rest.value)
    {
      var first := NextSymbol(pic[i..]);
      ExpandCons(pic[i..]);
      if first.Err? {
        return Err;
      }
      NextTaken(pic[i..]);
      ghost var before, after := expanded, Expand(pic[i + first.value.taken..]);
      assert pic[i..][first.value.taken..] == pic[i + first.value.taken..];
      for k := 0 to first.value.count
        invariant expanded == before + Repeat(first.value.symbol, k)
      {
        expanded := expanded + [first.value.symbol];
      }
      if after.Ok? {
        var run := Repeat(first.value.symbol, first.value.count);
        assert before + (run + after.value) == (before + run) + after.value;
      }
      i := i + first.value.taken;
    }
    assert pic[|pic|..] == [] && expanded + [] == expanded;
    return Ok(expanded);
  }

  // ---------------------------------------------------------------- tallying the symbols

  datatype Tally = Tally(
    text: bool, chars: nat, ints: nat, fracs: nat, signed: bool, edited: bool, mask: string,
    dollars: nat, pluses: nat, minuses: nat
  )

  const NOTHING: Tally := Tally(false, 0, 0, 0, false, false, [], 0, 0, 0)

  function Add(a: Tally, b: Tally): Tally {
    Tally(a.text || b.text, a.chars + b.chars, a.ints + b.ints, a.fracs + b.fracs, a.signed || b.signed,
          a.edited || b.edited, a.mask + b.mask, a.dollars + b.dollars, a.pluses + b.pluses, a.minuses + b.minuses)
  }

  /** What a single symbol contributes, before or after the decimal point. */
  function Symbol(c: char, afterPoint: bool): Option<Tally> {
    var digit := if afterPoint then NOTHING.(fracs := 1) else NOTHING.(ints := 1);
    match c
    case 'X' => Some(NOTHING.(text := true, chars := 1, mask := [c]))
    case 'A' => Some(NOTHING.(text := true, chars := 1, mask := [c]))
    case '9' => Some(digit.(mask := [c]))
    case 'S' => Some(NOTHING.(signed := true))
    case 'V' => Some(NOTHING)
    case 'P' => Some(NOTHING.(fracs := 1))
    case 'Z' => Some(digit.(edited := true, mask := [c]))
    case '*' => Some(digit.(edited := true, mask := [c]))
    case '$' => Some(NOTHING.(edited := true, dollars := 1, mask := [c]))
    case '+' => Some(NOTHING.(edited := true, signed := true, pluses := 1, mask := [c]))
    case '-' => Some(NOTHING.(edited := true, signed := true, minuses := 1, mask := [c]))
    case _ => if c in ",/B0." then Some(NOTHING.(edited := true, mask := [c])) else None
  }

  /** The two-character credit and debit markers. */
  function Marker(c: char): Tally {
    NOTHING.(edited := true, signed := true, mask := if c == 'C' then "CR" else "DB")
  }

  predicate MarkerAt(e: string) {
    |e| >= 2 && ((e[0] == 'C' && e[1] == 'R') || (e[0] == 'D' && e[1] == 'B'))
  }

  function TallyOf(e: string, afterPoint: bool): Result<Tally> {
    if e == [] then Ok(NOTHING)
    else if e[0] == 'C' || e[0] == 'D' then
      if !MarkerAt(e) then Err
      else
        var rest :- TallyOf(e[2..], afterPoint);
        Ok(Add(Marker(e[0]), rest))
    else
      match Symbol(e[0], afterPoint)
      case None => Err
      case Some(t) =>
        var rest :- TallyOf(e[1..], afterPoint || e[0] == 'V' || e[0] == '.');
        Ok(Add(t, rest))
  }

  predicate GoesOn(whole: Result<Tally>, done: Tally, rest: Result<Tally>) {
    if rest.Err? then whole.Err? else whole == Ok(Add(done, rest.value))
  }

  lemma AddSteps(whole: Result<Tally>, done: Tally, t: Tally, rest: Tally)
    requires GoesOn(whole, done, Ok(Add(t, rest)))
    ensures GoesOn(whole, Add(done, t), Ok(rest))
  {
    assert done.mask + (t.mask + rest.mask) == (done.mask + t.mask) + rest.mask;
  }

  /** `PicShape::parse`'s loop over the expanded symbols. */
  method TallyLoop(e: string) returns (r: Result<Tally>)
    ensures r == TallyOf(e, false)
    ensures (r.Ok? <==> Known(e)) && (r.Ok? ==> Tallied(r.value, e, false))
  {
    hide Add, Symbol, Marker, Known, Tallied;
    TallyCounts(e, false);
    var acc, afterPoint, j := NOTHING, false, 0;
    ghost var whole := TallyOf(e, false);
    assert e[0..] == e;
    AddNothing(whole);
    while j < |e|
      invariant j <= |e| && GoesOn(whole, acc, TallyOf(e[j..], afterPoint))
    {
      var c := e[j];
      assert e[j..][1..] == e[j + 1..];
      if c == 'C' || c == 'D' {
        if !MarkerAt(e[j..]) {
          return Err;
        }
        assert e[j..][2..] == e[j + 2..];
        ghost var rest := TallyOf(e[j + 2..], afterPoint);
        if rest.Ok? { AddSteps(whole, acc, Marker(c), rest.value); }
        acc := Add(acc, Marker(c));
        j := j + 2;
        continue;
      }
      var t := Symbol(c, afterPoint);
      if t.None? {
        return Err;
      }
      ghost var rest := TallyOf(e[j + 1..], afterPoint || c == 'V' || c == '.');
      if rest.Ok? { AddSteps(whole, acc, t.value, rest.value); }
      acc := Add(acc, t.value);
      if c == 'V' || c == '.' {
        afterPoint := true;
      }
      j := j + 1;
    }
    assert e[|e|..] == [];
    AddsNothing(acc);
    return Ok(acc);
  }

  lemma AddNothing(whole: Result<Tally>)
    ensures GoesOn(whole, NOTHING, whole)
  {
    if whole.Ok? { assert [] + whole.value.mask == whole.value.mask; }
  }

  lemma AddsNothing(t: Tally)
    ensures Add(t, NOTHING) == t
  {
    assert t.mask + [] == t.mask;
  }

  // ---------------------------------------------------------------- the storage of a picture

  datatype Shape = Shape(tally: Tally, ints: nat) {
    /** All digit positions; each currency or sign run has one symbol more than digits. */
    function Digits(): nat {
      ints + tally.fracs
    }
  }

  function Less(n: nat): nat {
    if n == 0 then 0 else n - 1
  }

  function ShapeOf(pic: string): Result<Shape> {
    var expanded :- Expand(Strings.Upper(Strings.Trim(pic)));
    var t :- TallyOf(expanded, false);
    var ints := t.ints + Less(t.dollars) + Less(t.pluses) + Less(t.minuses);
    if t.text && (ints + t.fracs > 0 || t.edited) then Err else Ok(Shape(t, ints))
  }

  function ResolveSign(signed: bool, explicit: Option<SignKind>): SignKind {
    if !signed then Unsigned
    else if explicit.Some? then explicit.value
    else Embedded
  }

  function CompWidth(digits: nat): nat {
    if digits <= 4 then 2 else if digits <= 9 then 4 else 8
  }

  datatype Storage = Storage(kind: FieldKind, width: nat)

  /** The storage of a shape; the counts are narrowed to a byte. */
  function StorageFor(shape: Shape, usage: Usage, sign: Option<SignKind>): (s: Storage)
    ensures !s.kind.Group? && !s.kind.Pad? && (s.kind.Binary? ==> s.width > 0)
  {
    var t := shape.tally;
    if t.text then Storage(Text(Left, true, 32), t.chars)
    else if t.edited && usage.Display? then
      Storage(FieldKind.Edited(Max(shape.Digits() % 256, 1), t.fracs % 256, t.signed, t.mask), |t.mask|)
    else Plain(shape.Digits(), t.fracs % 256, t.signed, usage, ResolveSign(t.signed, sign))
  }

  /** `parse_pic`. */
  function ParsePic(pic: string, usage: Usage, sign: Option<SignKind>): Result<Storage> {
    match ShapeOf(pic)
    case Err => Err
    case Ok(shape) => Ok(StorageFor(shape, usage, sign))
  }

  /** A picture's field is a leaf, and a binary one takes at least a byte. */
  lemma PictureLeaf(pic: string, usage: Usage, sign: Option<SignKind>)
    ensures var s := ParsePic(pic, usage, sign);
            s.Ok? ==> !s.value.kind.Group? && !s.value.kind.Pad? && (s.value.kind.Binary? ==> s.value.width > 0)
  {
    hide ShapeOf, StorageFor;
    if ShapeOf(pic).Ok? { StorageLeaf(ShapeOf(pic).value, usage, sign); }
  }

  lemma StorageLeaf(shape: Shape, usage: Usage, sign: Option<SignKind>)
    ensures var s := StorageFor(shape, usage, sign);
            !s.kind.Group? && !s.kind.Pad? && (s.kind.Binary? ==> s.width > 0)
  {
  }

  /** The storage of an unedited numeric picture. */
  function Plain(digits: nat, scale: nat, signed: bool, usage: Usage, sign: SignKind): Storage {
    var separate := if Separate(sign) then 1 else 0;
    match usage
    case Comp3 => Storage(Decimal(digits % 256, scale, NumRepr.Comp3, Embedded), digits % 256 / 2 + 1)
    case Comp => Storage(Binary(BI.Big, signed), CompWidth(digits))
    case Display =>
      if scale == 0 then
        if signed && sign.Embedded? then Storage(Decimal(digits % 256, 0, Zoned, Embedded), digits)
        else Storage(Int(signed, sign), digits + separate)
      else
        Storage(Decimal(digits % 256, scale, if signed && sign.Embedded? then Zoned else NumRepr.Display, sign),
                digits + separate)
  }

  // ---------------------------------------------------------------- pictures the codec can serve

  lemma {:induction false} LegalConcat(a: string, b: string)
    requires ED.Legal(a) && ED.Legal(b)
    ensures ED.Legal(a + b)
    decreases |a|
  {
    var all := a + b;
    if a == [] {
      assert all == b;
    } else if a[0] == 'C' || a[0] == 'D' {
      assert all[2..] == a[2..] + b;
      LegalConcat(a[2..], b);
    } else {
      assert all[1..] == a[1..] + b;
      LegalConcat(a[1..], b);
    }
  }

  lemma {:induction false} PlacesConcat(a: string, b: string)
    ensures ED.Places(a + b) == ED.Places(a) + ED.Places(b)
  {
    if a == [] {
      assert a + b == b;
    } else {
      assert (a + b)[1..] == a[1..] + b;
      PlacesConcat(a[1..], b);
    }
  }

  lemma {:induction false} CountConcat(a: string, b: string, c: char)
    ensures ED.Count(a + b, c) == ED.Count(a, c) + ED.Count(b, c)
  {
    if a == [] {
      assert a + b == b;
    } else {
      assert (a + b)[1..] == a[1..] + b;
      CountConcat(a[1..], b, c);
    }
  }

  /** The tallies are those of the mask and of `p` scaling positions, and the mask is walkable. */
  predicate Counted(t: Tally, p: nat) {
    ED.Legal(t.mask) && ED.Places(t.mask) + p == t.ints + t.fracs &&
    ED.Count(t.mask, '$') == t.dollars && ED.Count(t.mask, '+') == t.pluses && ED.Count(t.mask, '-') == t.minuses
  }

  lemma CountedAdd(a: Tally, b: Tally, p: nat, q: nat)
    requires Counted(a, p) && Counted(b, q)
    ensures Counted(Add(a, b), p + q)
  {
    hide ED.Legal, ED.Places, ED.Count;
    LegalConcat(a.mask, b.mask);
    PlacesConcat(a.mask, b.mask);
    CountConcat(a.mask, b.mask, '$');
    CountConcat(a.mask, b.mask, '+');
    CountConcat(a.mask, b.mask, '-');
  }

  /** A numeric picture's mask is one the edited codec can walk, and holds every digit but the scaling positions. */
  lemma {:induction false} MaskCounted(e: string, afterPoint: bool)
    requires TallyOf(e, afterPoint).Ok? && !TallyOf(e, afterPoint).value.text
    ensures Counted(TallyOf(e, afterPoint).value, ED.Count(e, 'P'))
    decreases |e|
  {
    hide Counted, Symbol;
    if e == [] {
      CountedNothing();
    } else if e[0] == 'C' || e[0] == 'D' {
      MaskCounted(e[2..], afterPoint);
      MarkerCounted(e[0]);
      CountedAdd(Marker(e[0]), TallyOf(e[2..], afterPoint).value, 0, ED.Count(e[2..], 'P'));
      assert e[1..][1..] == e[2..];
    } else {
      var after := afterPoint || e[0] == 'V' || e[0] == '.';
      var p := if e[0] == 'P' then 1 else 0;
      MaskCounted(e[1..], after);
      SymbolCounted(e[0], afterPoint, p);
      CountedAdd(Symbol(e[0], afterPoint).value, TallyOf(e[1..], after).value, p, ED.Count(e[1..], 'P'));
    }
  }

  lemma CountedNothing()
    ensures Counted(NOTHING, 0)
  {
  }

  lemma MarkerCounted(c: char)
    ensures Counted(Marker(c), 0)
  {
    var mask := Marker(c).mask;
    assert mask == [mask[0]] + [mask[1]];
    forall sym
      ensures ED.Count(mask, sym) == (if mask[0] == sym then 1 else 0) + (if mask[1] == sym then 1 else 0)
    {
      CountConcat([mask[0]], [mask[1]], sym);
    }
    PlacesConcat([mask[0]], [mask[1]]);
    assert mask[2..] == [];
  }

  lemma SymbolCounted(c: char, afterPoint: bool, p: nat)
    requires c != 'C' && c != 'D' && Symbol(c, afterPoint).Some? && !Symbol(c, afterPoint).value.text
    requires p == if c == 'P' then 1 else 0
    ensures Counted(Symbol(c, afterPoint).value, p)
  {
    var mask := Symbol(c, afterPoint).value.mask;
    if mask != [] { assert mask == [c] && mask[1..] == []; }
  }

  /** What a picture must have for its field to be one the leaf codec can serve. */
  predicate Usable(shape: Shape, usage: Usage) {
    shape.tally.text || !usage.Display? ||
    if shape.tally.edited then !ED.Floating(shape.tally.mask) && ED.Places(shape.tally.mask) > 0
    else shape.Digits() > 0
  }

  /** The written-out symbols of a picture. */
  function Symbols(pic: string): Result<string> {
    Expand(Strings.Upper(Strings.Trim(pic)))
  }

  // ---------------------------------------------------------------- what the written-out symbols say

  /** Where the implied or the actual decimal point stands; the end when there is none. */
  function PointAt(e: string): (i: nat)
    ensures i <= |e|
    ensures i < |e| ==> e[i] == 'V' || e[i] == '.'
    ensures forall j :: 0 <= j < i ==> e[j] != 'V' && e[j] != '.'
  {
    if e == [] || e[0] == 'V' || e[0] == '.' then 0
    else
      var i := PointAt(e[1..]);
      assert forall j :: 0 < j < i + 1 ==> e[j] == e[1..][j - 1];
      i + 1
  }

  /** The symbols that take a byte: all but the sign, the implied point and the scaling positions. */
  function Bytes(e: string): string {
    if e == [] then []
    else (if e[0] == 'S' || e[0] == 'V' || e[0] == 'P' then [] else [e[0]]) + Bytes(e[1..])
  }

  /** Insertions, suppression, currency, signs that take a byte, and the C and D of the markers. */
  predicate Edits(c: char) {
    || c == 'Z' || c == '*' || c == '$' || c == '+' || c == '-' || c == ',' || c == '/' || c == 'B' || c == '0'
    || c == '.' || c == 'C' || c == 'D'
  }

  predicate Signs(c: char) {
    c == 'S' || c == '+' || c == '-' || c == 'C' || c == 'D'
  }

  /** Known symbols throughout, credit and debit markers whole. */
  predicate Known(e: string) {
    e == [] ||
    if e[0] == 'C' || e[0] == 'D' then
      |e| >= 2 && e[1] == (if e[0] == 'C' then 'R' else 'B') && Known(e[2..])
    else
      (Edits(e[0]) || e[0] == 'X' || e[0] == 'A' || e[0] == '9' || e[0] == 'S' || e[0] == 'V' || e[0] == 'P') &&
      Known(e[1..])
  }

  /** Digits before the point, and one less than the symbols of each floating run. */
  function IntDigits(e: string): nat {
    ED.Places(e[..PointAt(e)]) + Less(ED.Count(e, '$')) + Less(ED.Count(e, '+')) + Less(ED.Count(e, '-'))
  }

  /** Digits behind the point, and the scaling positions wherever they stand. */
  function FracDigits(e: string): nat {
    ED.Places(e[PointAt(e)..]) + ED.Count(e, 'P')
  }

  function TextBytes(e: string): nat {
    ED.Count(e, 'X') + ED.Count(e, 'A')
  }

  predicate IsEdited(e: string) {
    exists i :: 0 <= i < |e| && Edits(e[i])
  }

  predicate IsSigned(e: string) {
    exists i :: 0 <= i < |e| && Signs(e[i])
  }

  /** The tallies counted symbol by symbol. */
  predicate Tallied(t: Tally, e: string, afterPoint: bool) {
    t.ints == (if afterPoint then 0 else ED.Places(e[..PointAt(e)])) &&
    t.fracs == ED.Places(if afterPoint then e else e[PointAt(e)..]) + ED.Count(e, 'P') &&
    t.dollars == ED.Count(e, '$') && t.pluses == ED.Count(e, '+') && t.minuses == ED.Count(e, '-') &&
    t.chars == TextBytes(e) && t.text == (TextBytes(e) > 0) && t.edited == IsEdited(e) &&
    t.signed == IsSigned(e) && t.mask == Bytes(e)
  }

  function One(b: bool): nat {
    if b then 1 else 0
  }

  /** What a symbol in front adds to the counts of a string. */
  lemma CountsCons(c: char, s: string)
    ensures var e := [c] + s;
            ED.Count(e, 'P') == One(c == 'P') + ED.Count(s, 'P') &&
            ED.Count(e, '$') == One(c == '$') + ED.Count(s, '$') &&
            ED.Count(e, '+') == One(c == '+') + ED.Count(s, '+') &&
            ED.Count(e, '-') == One(c == '-') + ED.Count(s, '-') &&
            TextBytes(e) == One(c == 'X' || c == 'A') + TextBytes(s) &&
            Bytes(e) == (if c == 'S' || c == 'V' || c == 'P' then [] else [c]) + Bytes(s) &&
            PointAt(e) == (if c == 'V' || c == '.' then 0 else 1 + PointAt(s)) &&
            ED.Places(e) == One(ED.DigitPos(c)) + ED.Places(s)
  {
    assert ([c] + s)[1..] == s;
  }

  lemma MarksCons(c: char, s: string)
    ensures IsEdited([c] + s) <==> Edits(c) || IsEdited(s)
    ensures IsSigned([c] + s) <==> Signs(c) || IsSigned(s)
  {
    var e := [c] + s;
    hide Edits, Signs;
    assert e[0] == c && forall i :: 0 <= i < |s| ==> e[i + 1] == s[i];
    assert forall i :: 0 < i < |e| ==> e[i] == s[i - 1];
  }

  /** What one symbol adds to the tallies. */
  lemma SymbolTallied(c: char, afterPoint: bool)
    requires c != 'C' && c != 'D'
    ensures Symbol(c, afterPoint).Some?
       <==> Edits(c) || c == 'X' || c == 'A' || c == '9' || c == 'S' || c == 'V' || c == 'P'
    ensures Symbol(c, afterPoint).Some? ==>
      var t := Symbol(c, afterPoint).value;
      t.ints == One(!afterPoint && ED.DigitPos(c)) &&
      t.fracs == One(afterPoint && ED.DigitPos(c)) + One(c == 'P') &&
      t.dollars == One(c == '$') && t.pluses == One(c == '+') && t.minuses == One(c == '-') &&
      t.chars == One(c == 'X' || c == 'A') && t.text == (c == 'X' || c == 'A') && t.edited == Edits(c) &&
      t.signed == Signs(c) && t.mask == if c == 'S' || c == 'V' || c == 'P' then [] else [c]
  {
  }

  lemma TalliedSymbol(c: char, s: string, afterPoint: bool, rest: Tally)
    requires c != 'C' && c != 'D' && Symbol(c, afterPoint).Some?
    requires Tallied(rest, s, afterPoint || c == 'V' || c == '.')
    ensures Tallied(Add(Symbol(c, afterPoint).value, rest), [c] + s, afterPoint)
  {
    hide Symbol, Bytes, PointAt, Edits, Signs, ED.Count, ED.Places, TextBytes, IsEdited, IsSigned;
    SymbolTallied(c, afterPoint);
    var e, p, q := [c] + s, PointAt([c] + s), PointAt(s);
    CountsCons(c, s);
    MarksCons(c, s);
    if c == 'V' || c == '.' {
      assert e[..0] == [] && e[0..] == e;
      PlacesNothing();
    } else {
      assert e[..p] == [c] + s[..q] && e[p..] == s[q..];
      CountsCons(c, s[..q]);
    }
  }

  lemma PlacesNothing()
    ensures ED.Places([]) == 0
  {
  }

  lemma TalliedMarker(a: char, b: char, s: string, afterPoint: bool, rest: Tally)
    requires (a == 'C' && b == 'R') || (a == 'D' && b == 'B')
    requires Tallied(rest, s, afterPoint)
    ensures Tallied(Add(Marker(a), rest), [a] + ([b] + s), afterPoint)
  {
    hide Bytes, PointAt, ED.Count, ED.Places, TextBytes, IsEdited, IsSigned;
    var t := [b] + s;
    var e, q := [a] + t, PointAt(s);
    CountsCons(b, s);
    CountsCons(a, t);
    MarksCons(b, s);
    MarksCons(a, t);
    assert [a] + ([b] + Bytes(s)) == Marker(a).mask + Bytes(s);
    assert e[..q + 2] == [a] + ([b] + s[..q]) && e[q + 2..] == s[q..];
    CountsCons(b, s[..q]);
    CountsCons(a, [b] + s[..q]);
  }

  lemma TalliedNothing(afterPoint: bool)
    ensures TallyOf([], afterPoint) == Ok(NOTHING) && Known([]) && Tallied(NOTHING, [], afterPoint)
  {
  }

  lemma TallyCons(e: string, afterPoint: bool)
    requires e != []
    ensures e[0] == 'C' || e[0] == 'D' ==>
      (Known(e) <==> MarkerAt(e) && Known(e[2..])) &&
      TallyOf(e, afterPoint) ==
        if !MarkerAt(e) || TallyOf(e[2..], afterPoint).Err? then Err
        else Ok(Add(Marker(e[0]), TallyOf(e[2..], afterPoint).value))
    ensures e[0] != 'C' && e[0] != 'D' ==>
      var t, rest := Symbol(e[0], afterPoint), TallyOf(e[1..], afterPoint || e[0] == 'V' || e[0] == '.');
      (Known(e) <==> t.Some? && Known(e[1..])) &&
      TallyOf(e, afterPoint) == if t.None? || rest.Err? then Err else Ok(Add(t.value, rest.value))
  {
    hide Symbol, Edits, Add;
    if e[0] != 'C' && e[0] != 'D' { SymbolTallied(e[0], afterPoint); }
  }

  /** A picture's symbols are tallied exactly when all are known, and the tallies count them. */
  lemma {:induction false} TallyCounts(e: string, afterPoint: bool)
    ensures TallyOf(e, afterPoint).Ok? <==> Known(e)
    ensures Known(e) ==> Tallied(TallyOf(e, afterPoint).value, e, afterPoint)
    decreases |e|
  {
    hide Tallied, Symbol, Add, Marker, TallyOf, Known;
    if e == [] {
      TalliedNothing(afterPoint);
    } else if e[0] == 'C' || e[0] == 'D' {
      TallyCons(e, afterPoint);
      if MarkerAt(e) {
        TallyCounts(e[2..], afterPoint);
        if Known(e) {
          TalliedMarker(e[0], e[1], e[2..], afterPoint, TallyOf(e[2..], afterPoint).value);
          assert [e[0]] + ([e[1]] + e[2..]) == e;
        }
      }
    } else {
      TallyCons(e, afterPoint);
      var after := afterPoint || e[0] == 'V' || e[0] == '.';
      TallyCounts(e[1..], after);
      if Known(e) {
        TalliedSymbol(e[0], e[1..], afterPoint, TallyOf(e[1..], after).value);
        assert [e[0]] + e[1..] == e;
      }
    }
  }

  /** A run written as a count stands for as many symbols; a symbol without a count for itself. */
  lemma ExpandRepeat(c: char, n: nat, rest: string)
    requires n <= USIZE_MAX
    ensures Expand([c] + "(" + Strings.NatString(n) + ")" + rest)
         == if Expand(rest).Err? then Err else Ok(Repeat(c, n) + Expand(rest).value)
    ensures rest == [] || rest[0] != '(' ==>
      Expand([c] + rest) == if Expand(rest).Err? then Err else Ok([c] + Expand(rest).value)
  {
    hide Expand, NextSymbol;
    var count := Strings.NatString(n);
    var pic := [c] + "(" + count + ")" + rest;
    NextIsRun(c, n, rest);
    ExpandCons(pic);
    assert pic[|count| + 3..] == rest;
    if rest == [] || rest[0] != '(' {
      NextIsOne(c, rest);
      ExpandCons([c] + rest);
      assert ([c] + rest)[1..] == rest;
      assert Repeat(c, 1) == [c];
    }
  }

  lemma NextIsOne(c: char, rest: string)
    requires rest == [] || rest[0] != '('
    ensures NextSymbol([c] + rest) == Ok(Repeated(c, 1, 1))
  {
  }

  /** The digits of a count parse back to it. */
  lemma CountParsed(n: nat)
    requires n <= USIZE_MAX
    ensures var count := Strings.NatString(n);
            ParseCount(Strings.Trim(count)) == Some(n) && Strings.AllDigits(count)
  {
    hide Radix.Shortest, Radix.Value;
    var ds := Radix.Shortest(10, n);
    Strings.DigitsInDigitBytes(ds);
    Radix.ShortestValue(10, n);
    Strings.TrimOfTrimmed(Strings.NatString(n));
  }

  lemma NextIsRun(c: char, n: nat, rest: string)
    requires n <= USIZE_MAX
    ensures NextSymbol([c] + "(" + Strings.NatString(n) + ")" + rest)
         == Ok(Repeated(c, n, |Strings.NatString(n)| + 3))
  {
    hide Strings.NatString, Strings.Trim, ParseCount;
    var count := Strings.NatString(n);
    var pic := [c] + "(" + count + ")" + rest;
    CountParsed(n);
    var close := IndexFrom(pic, ')', 1);
    assert pic[|count| + 2] == ')' && forall j :: 0 <= j < |count| ==> pic[j + 2] == count[j];
    assert forall k :: |count| + 2 < k <= |pic| ==> pic[1..k][|count| + 1] == ')';
    assert forall j :: 1 <= j < |count| + 2 ==> pic[j] != ')';
    assert pic[2..close] == count;
  }

  /**
   What a picture's symbols say its field is. Text takes a byte a symbol. An edited display item takes
   its byte symbols, with as many decimals as digits stand behind the point or scale. Packed items take
   the fewest bytes for their digits and a sign nibble, binary ones 2, 4 or 8 bytes up to 4, up to 9
   and from 10 digits. Other display items take a byte a digit, and one for a sign of its own.
   */
  predicate Says(e: string, usage: Usage, explicit: Option<SignKind>, kind: FieldKind, width: nat) {
    var digits, scale := IntDigits(e) + FracDigits(e), FracDigits(e) % 256;
    var sign := if !IsSigned(e) then Unsigned else if explicit.None? then Embedded else explicit.value;
    var apart := if sign.LeadingSeparate? || sign.TrailingSeparate? then 1 else 0;
    if TextBytes(e) > 0 then kind == Text(Left, true, 32) && width == TextBytes(e)
    else if IsEdited(e) && usage.Display? then
      width == |Bytes(e)| && kind.Edited? && kind.mask == Bytes(e) && kind.scale == scale &&
      kind.signed == IsSigned(e) && kind.precision == (if digits % 256 == 0 then 1 else digits % 256)
    else match usage
      case Comp3 =>
        kind == Decimal(digits % 256, scale, NumRepr.Comp3, Embedded) && 2 * width - 2 < digits % 256 + 1 <= 2 * width
      case Comp =>
        kind == Binary(BI.Big, IsSigned(e)) && (width == 2 || width == 4 || width == 8) &&
        (width == 2 <==> digits <= 4) && (width == 8 <==> digits > 9)
      case Display =>
        if sign.Embedded? then
          kind == Decimal(digits % 256, scale, Zoned, Embedded) && width == digits
        else if scale == 0 then
          kind == Int(IsSigned(e), sign) && width == digits + apart
        else
          kind == Decimal(digits % 256, scale, NumRepr.Display, sign) && width == digits + apart
  }

  /** Symbols a picture may not mix: text with digits or editing. */
  predicate Mixed(e: string) {
    TextBytes(e) > 0 && (IntDigits(e) + FracDigits(e) > 0 || IsEdited(e))
  }

  lemma ShapeSays(pic: string)
    ensures ShapeOf(pic).Ok? <==> Symbols(pic).Ok? && Known(Symbols(pic).value) && !Mixed(Symbols(pic).value)
    ensures ShapeOf(pic).Ok? ==>
      var t, e := ShapeOf(pic).value, Symbols(pic).value;
      t.ints == IntDigits(e) && t.tally.fracs == FracDigits(e) && t.tally.text == (TextBytes(e) > 0) &&
      t.tally.edited == IsEdited(e) && t.tally.signed == IsSigned(e) && t.tally.mask == Bytes(e) &&
      t.tally.chars == TextBytes(e)
  {
    hide Expand, TallyOf, Known, ED.Count, ED.Places, TextBytes, IsEdited, IsSigned, PointAt;
    if Symbols(pic).Ok? { TallyCounts(Symbols(pic).value, false); }
  }

  /** A picture is accepted exactly when its symbols are known and not mixed, and its field is what they say. */
  lemma PictureSays(pic: string, usage: Usage, sign: Option<SignKind>)
    ensures ParsePic(pic, usage, sign).Ok?
       <==> Symbols(pic).Ok? && Known(Symbols(pic).value) && !Mixed(Symbols(pic).value)
    ensures ParsePic(pic, usage, sign).Ok? ==>
      var s := ParsePic(pic, usage, sign).value;
      Says(Symbols(pic).value, usage, sign, s.kind, s.width)
  {
    hide ShapeOf, Symbols, Known, Mixed, IntDigits, FracDigits, TextBytes, IsEdited, IsSigned, Bytes;
    ShapeSays(pic);
  }

  lemma ShapeCounted(pic: string)
    requires ShapeOf(pic).Ok? && !ShapeOf(pic).value.tally.text
    ensures Symbols(pic).Ok? && Counted(ShapeOf(pic).value.tally, ED.Count(Symbols(pic).value, 'P'))
    ensures var s := ShapeOf(pic).value;
            s.ints == s.tally.ints + Less(s.tally.dollars) + Less(s.tally.pluses) + Less(s.tally.minuses)
  {
    hide Counted, TallyOf, Expand, ED.Count;
    MaskCounted(Symbols(pic).value, false);
  }

  /** A picture gives a field the leaf codec can serve exactly when it has a digit and floats no symbol. */
  lemma PictureShaped(pic: string, usage: Usage, sign: Option<SignKind>, f: Field)
    requires ParsePic(pic, usage, sign) == Ok(Storage(f.kind, f.width))
    ensures ShapeOf(pic).Ok? && (Leaf.Shaped(f) <==> Usable(ShapeOf(pic).value, usage))
  {
    hide ShapeOf, ED.Legal, ED.Floating, ED.Places, Plain;
    var shape := ShapeOf(pic).value;
    if !shape.tally.text {
      ShapeCounted(pic);
      if !(shape.tally.edited && usage.Display?) {
        PlainShaped(shape.Digits(), shape.tally.fracs % 256, shape.tally.signed, usage,
                    ResolveSign(shape.tally.signed, sign), f);
      }
    }
  }

  lemma PlainShaped(digits: nat, scale: nat, signed: bool, usage: Usage, sign: SignKind, f: Field)
    requires Plain(digits, scale, signed, usage, sign) == Storage(f.kind, f.width)
    requires signed || sign.Unsigned?
    ensures !f.kind.Group? && (Leaf.Shaped(f) <==> !usage.Display? || digits > 0)
  {
    assert digits % 256 <= digits;
  }

  /** A field has room for a magnitude. */
  predicate RoomFor(f: Field, n: nat) {
    match f.kind
    case Decimal(_, _, repr, sign) => Leaf.DecimalFits(n, f.width, repr, sign)
    case Int(_, sign) => n < Radix.Pow(10, Max(0, Places(f.width, sign)))
    case Edited(_, _, _, mask) => n < Radix.Pow(10, ED.Places(mask))
    case Binary(_, signed) => BI.InRange(n, f.width, signed)
    case _ => true
  }

  predicate HasDigits(n: nat, digits: nat) {
    n < Radix.Pow(10, digits)
  }

  /** A field has room for every magnitude of so many digits. */
  ghost predicate HoldsDigits(f: Field, digits: nat) {
    forall n: nat :: HasDigits(n, digits) ==> RoomFor(f, n)
  }

  /** Where a picture has as many positions as digits: no scaling or floating ones in a mask, no count cut to a byte. */
  predicate Roomy(pic: string, usage: Usage)
    requires ShapeOf(pic).Ok?
  {
    var shape := ShapeOf(pic).value;
    shape.tally.text ||
    match usage
    case Display =>
      shape.tally.edited ==>
        Symbols(pic).Ok? && 'P' !in Symbols(pic).value && !ED.Floating(shape.tally.mask)
    case Comp3 => shape.Digits() < 256
    case Comp => shape.Digits() <= 18
  }

  /** The field of a picture holds every number of the picture's digits exactly when the picture is roomy. */
  lemma PictureHolds(pic: string, usage: Usage, sign: Option<SignKind>, f: Field)
    requires ParsePic(pic, usage, sign) == Ok(Storage(f.kind, f.width))
    ensures ShapeOf(pic).Ok? && (HoldsDigits(f, ShapeOf(pic).value.Digits()) <==> Roomy(pic, usage))
  {
    hide ShapeOf, ED.Legal, ED.Floating, Plain, Radix.Pow, RoomFor;
    var shape := ShapeOf(pic).value;
    if shape.tally.text {
      TextHolds(f, shape.Digits());
    } else {
      ShapeCounted(pic);
      if shape.tally.edited && usage.Display? {
        NoneCounted(Symbols(pic).value, 'P');
        EditedHolds(f, shape.Digits());
        assert shape.Digits() <= ED.Places(shape.tally.mask)
          <==> ED.Count(Symbols(pic).value, 'P') == 0 && !ED.Floating(shape.tally.mask) by {
          MaskDigits(shape, ED.Count(Symbols(pic).value, 'P'));
        }
      } else {
        PlainHolds(shape.Digits(), shape.tally.fracs % 256, shape.tally.signed, usage,
                   ResolveSign(shape.tally.signed, sign), f);
      }
    }
  }

  lemma MaskDigits(shape: Shape, p: nat)
    requires Counted(shape.tally, p)
    requires shape.ints == shape.tally.ints + Less(shape.tally.dollars) + Less(shape.tally.pluses)
                           + Less(shape.tally.minuses)
    ensures shape.Digits() <= ED.Places(shape.tally.mask) <==> p == 0 && !ED.Floating(shape.tally.mask)
  {
  }

  lemma {:induction false} NoneCounted(s: string, c: char)
    ensures ED.Count(s, c) == 0 <==> c !in s
  {
    if s != [] { NoneCounted(s[1..], c); }
  }

  /** Room for p digits is room for d digits exactly when d is at most p. */
  lemma RoomExactly(d: nat, p: nat)
    ensures (forall n: nat :: HasDigits(n, d) ==> HasDigits(n, p)) <==> d <= p
  {
    hide Radix.Pow;
    if d <= p {
      Radix.PowMonotone(10, d, p);
    } else {
      Radix.PowMonotone(10, p + 1, d);
      Radix.PowStep(10, p);
      Radix.PowPositive(10, p);
      var n := Radix.Pow(10, p);
      assert HasDigits(n, d) && !HasDigits(n, p);
    }
  }

  lemma TextHolds(f: Field, digits: nat)
    requires f.kind.Text?
    ensures HoldsDigits(f, digits)
  {
  }

  lemma EditedHolds(f: Field, digits: nat)
    requires f.kind.Edited?
    ensures HoldsDigits(f, digits) <==> digits <= ED.Places(f.kind.mask)
  {
    hide Radix.Pow;
    RoomExactly(digits, ED.Places(f.kind.mask));
    assert forall n: nat :: RoomFor(f, n) <==> HasDigits(n, ED.Places(f.kind.mask));
  }

  lemma PlainHolds(digits: nat, scale: nat, signed: bool, usage: Usage, sign: SignKind, f: Field)
    requires Plain(digits, scale, signed, usage, sign) == Storage(f.kind, f.width)
    ensures HoldsDigits(f, digits)
       <==> (usage.Comp3? ==> digits < 256) && (usage.Comp? ==> digits <= 18)
  {
    hide Radix.Pow, BI.Span, BI.InRange;
    match usage {
      case Comp =>
        CompHolds(digits, signed);
        assert forall n: nat :: RoomFor(f, n) <==> BI.InRange(n, CompWidth(digits), signed);
      case Comp3 =>
        var p := 2 * f.width - 1;
        RoomExactly(digits, p);
        assert forall n: nat :: RoomFor(f, n) <==> HasDigits(n, p);
        assert digits <= p <==> digits < 256;
      case Display =>
        RoomExactly(digits, digits);
        assert forall n: nat :: RoomFor(f, n) <==> HasDigits(n, digits);
    }
  }

  /** A binary item of up to 18 digits holds all its numbers; one of more digits does not. */
  lemma CompHolds(digits: nat, signed: bool)
    ensures (forall n :: 0 <= n < Radix.Pow(10, digits) ==> BI.InRange(n, CompWidth(digits), signed)) <==> digits <= 18
  {
    hide Radix.Pow, BI.Span;
    Powers();
    if digits <= 18 {
      Radix.PowMonotone(10, digits, if digits <= 4 then 4 else if digits <= 9 then 9 else 18);
    } else {
      Radix.PowMonotone(10, 19, digits);
      var n := Radix.Pow(10, digits) - 1;
      assert 0 <= n < Radix.Pow(10, digits) && !BI.InRange(n, CompWidth(digits), signed);
    }
  }

  lemma Powers()
    ensures Radix.Pow(10, 4) == 10_000 && Radix.Pow(10, 9) == 1_000_000_000
    ensures Radix.Pow(10, 18) == 1_000_000_000_000_000_000
    ensures Radix.Pow(10, 19) == 10_000_000_000_000_000_000
    ensures BI.Span(2) == 0x1_0000 && BI.Span(4) == 0x1_0000_0000 && BI.Span(8) == 0x1_0000_0000_0000_0000
  {
  }
}
