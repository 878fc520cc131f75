/**
 The structured field-list specification, from already-parsed field objects: fields laid end to end,
 nested lists as groups, and unnamed fields numbered by one counter threaded through the nesting.
 */
module JsonSpec {
  import opened Prelude
  import opened Layouts
  import opened DisplayNumber
  import opened BinaryInt
  import opened Picture
  import opened Addressing
  import opened Ebcdic
  import Decode
  import Encode
  import Normal
  import RoundTrip
  import Strings
  import Utf8

  /** One field object; an absent option is None. */
  datatype JsonField = JsonField(
    name: Option<string>,
    ty: Option<string>,
    width: Option<nat>,
    digits: Option<nat>,
    scale: Option<nat>,
    signed: Option<bool>,
    endian: Option<string>,
    occurs: Option<nat>,
    justify: Option<string>,
    pad: Option<string>,
    sign: Option<string>,
    fields: Nested
  )

  /** The `fields` array that makes a field a group. */
  datatype Nested = Absent | Present(list: seq<JsonField>)

  function Or<T>(o: Option<T>, other: T): T {
    if o.Some? then o.value else other
  }

  // ---------------------------------------------------------------- leaf types

  function ParseEndian(o: Option<string>): Result<Endian> {
    if o.None? || o.value == "big" || o.value == "be" || o.value == "network" then Ok(Big)
    else if o.value == "little" || o.value == "le" then Ok(Little)
    else Err
  }

  function ParseSign(o: Option<string>, signed: bool): Result<SignKind> {
    if o.None? then Ok(if signed then Embedded else Unsigned)
    else if o.value == "leading" || o.value == "leading_separate" then Ok(LeadingSeparate)
    else if o.value == "trailing" || o.value == "trailing_separate" then Ok(TrailingSeparate)
    else if o.value == "embedded" || o.value == "overpunch" then Ok(Embedded)
    else if o.value == "none" || o.value == "unsigned" then Ok(Unsigned)
    else Err
  }

  function ParseJustify(o: Option<string>): Result<Justify> {
    if o.None? || o.value == "left" || o.value == "l" then Ok(Left)
    else if o.value == "right" || o.value == "r" then Ok(Right)
    else Err
  }

  /** The first byte of the option, unless it is a named one. */
  function ParsePad(o: Option<string>): Result<Byte> {
    if o.None? || o.value == "space" then Ok(32)
    else if o.value == "zero" then Ok(48)
    else if o.value == "null" || o.value == "nul" then Ok(0)
    else if o.value == [] then Err
    else Ok(Utf8.EncodeChar(o.value[0])[0])
  }

  /** A width, or the digits standing in for it. */
  function RequiredWidth(f: JsonField): Result<nat> {
    if f.width.Some? then Ok(f.width.value)
    else if f.digits.Some? then Ok(f.digits.value)
    else Err
  }

  /** Digits, or the width narrowed to a byte standing in for them. */
  function RequiredDigits(f: JsonField): Result<nat> {
    if f.digits.Some? then Ok(f.digits.value)
    else if f.width.Some? then Ok(f.width.value % 256)
    else Err
  }

  /** Text, numbers, hexadecimal, flags and fillers; the date, time and floating types are not modelled. */
  function LeafStorage(f: JsonField): Result<Storage> {
    var endian :- ParseEndian(f.endian);
    var signed := Or(f.signed, false);
    var sign :- ParseSign(f.sign, signed);
    var separate := if Separate(sign) then 1 else 0;
    if f.ty.None? then Err
    else
      var ty := Lower(f.ty.value);
      if ty in ["str", "string", "text", "char", "x"] then
        var width :- RequiredWidth(f);
        var justify :- ParseJustify(f.justify);
        var pad :- ParsePad(f.pad);
        Ok(Storage(Text(justify, true, pad), width))
      else if ty in ["int", "integer", "display", "num", "numeric"] then
        var digits :- RequiredDigits(f);
        Ok(Storage(Int(signed, sign), digits + separate))
      else if ty in ["binary", "comp", "comp4", "comp5"] then
        var width :- RequiredWidth(f);
        Ok(Storage(Binary(endian, signed), width))
      else if ty in ["comp3", "packed", "packed-decimal"] then
        var digits :- RequiredDigits(f);
        Ok(Storage(Decimal(digits, Or(f.scale, 0), NumRepr.Comp3, Embedded), digits / 2 + 1))
      else if ty == "zoned" then
        var digits :- RequiredDigits(f);
        Ok(Storage(Decimal(digits, Or(f.scale, 0), Zoned, Embedded), digits))
      else if ty == "decimal" || ty == "dec" then
        var digits :- RequiredDigits(f);
        Ok(Storage(Decimal(digits, Or(f.scale, 0), NumRepr.Display, sign), digits + separate))
      else if ty == "hex" then
        var width :- RequiredWidth(f);
        Ok(Storage(Hex(endian), width))
      else if ty == "bool" || ty == "boolean" then Ok(Storage(Bool, 1))
      else if ty == "pad" || ty == "filler" then
        var pad :- ParsePad(f.pad);
        var width :- RequiredWidth(f);
        Ok(Storage(Pad(pad), width))
      else Err
  }

  function Lower(s: string): (t: string)
    ensures |t| == |s|
  {
    seq(|s|, i requires 0 <= i < |s| => if 'A' <= s[i] <= 'Z' then (s[i] as int + 32) as char else s[i])
  }

  /** The type names of each kind of field; no other name is accepted. */
  lemma TypeKinds(f: JsonField)
    requires LeafStorage(f).Ok?
    ensures f.ty.Some?
    ensures var ty, k := Lower(f.ty.value), LeafStorage(f).value.kind;
            && (k.Text? <==> ty in ["str", "string", "text", "char", "x"])
            && (k.Int? <==> ty in ["int", "integer", "display", "num", "numeric"])
            && (k.Binary? <==> ty in ["binary", "comp", "comp4", "comp5"])
            && (k.Decimal? && k.repr.Comp3? <==> ty in ["comp3", "packed", "packed-decimal"])
            && (k.Decimal? && k.repr.Zoned? <==> ty in ["zoned"])
            && (k.Decimal? && k.repr.Display? <==> ty in ["decimal", "dec"])
            && (k.Hex? <==> ty in ["hex"])
            && (k.Bool? <==> ty in ["bool", "boolean"])
            && (k.Pad? <==> ty in ["pad", "filler"])
            && !k.Edited? && !k.Group?
  {
    hide ParseEndian, ParseSign, ParseJustify, ParsePad, RequiredWidth, RequiredDigits, Lower;
  }

  /** The digits of a field: as given, or its width narrowed to a byte. */
  function DigitsGiven(f: JsonField): Option<nat> {
    if f.digits.Some? then f.digits else if f.width.Some? then Some(f.width.value % 256) else None
  }

  /** The sign kind an option names, or stands for when it is absent. */
  lemma SignNamed(o: Option<string>, signed: bool)
    requires ParseSign(o, signed).Ok?
    ensures var k := ParseSign(o, signed).value;
            (k.LeadingSeparate? <==> o == Some("leading") || o == Some("leading_separate")) &&
            (k.TrailingSeparate? <==> o == Some("trailing") || o == Some("trailing_separate")) &&
            (k.Embedded? <==> (o.None? && signed) || o == Some("embedded") || o == Some("overpunch"))
  {
  }

  /** The byte order, side and padding that options name. */
  lemma OptionsNamed(o: Option<string>)
    ensures ParseEndian(o).Ok? ==> (ParseEndian(o).value.Little? <==> o == Some("little") || o == Some("le"))
    ensures ParseJustify(o).Ok? ==> (ParseJustify(o).value.Right? <==> o == Some("right") || o == Some("r"))
    ensures o.None? || o == Some("space") ==> ParsePad(o) == Ok(32)
    ensures o == Some("zero") ==> ParsePad(o) == Ok(48)
    ensures o == Some("null") || o == Some("nul") ==> ParsePad(o) == Ok(0)
  {
  }

  /** Any other single ASCII character pads with itself. */
  lemma PadCharacter(c: char)
    requires c as int < 128
    ensures ParsePad(Some([c])) == Ok(c as int)
  {
    var bs: seq<Byte> := [c as int];
    assert Utf8.Chars(bs) == [c];
    Utf8.EncodeAscii(bs);
  }

  /** The options a kind carries are the ones its own option names. */
  lemma TypeOptions(f: JsonField)
    requires LeafStorage(f).Ok?
    ensures var signed := f.signed == Some(true);
            match LeafStorage(f).value.kind
            case Int(s, sign) => s == signed && ParseSign(f.sign, signed) == Ok(sign)
            case Decimal(_, scale, repr, sign) =>
              scale == (if f.scale.None? then 0 else f.scale.value) &&
              if repr.Display? then ParseSign(f.sign, signed) == Ok(sign) else sign == Embedded
            case Binary(endian, s) => s == signed && ParseEndian(f.endian) == Ok(endian)
            case Hex(order) => ParseEndian(f.endian) == Ok(order)
            case Text(justify, trim, pad) =>
              trim && ParseJustify(f.justify) == Ok(justify) && ParsePad(f.pad) == Ok(pad)
            case Pad(fill) => ParsePad(f.pad) == Ok(fill)
            case _ => true
  {
    hide Lower, ParseSign, ParseEndian, ParseJustify, ParsePad, RequiredWidth, RequiredDigits;
  }

  /** How many bytes each kind takes: a sign character of its own adds one. */
  lemma TypeWidths(f: JsonField)
    requires LeafStorage(f).Ok?
    ensures var s, d := LeafStorage(f).value, DigitsGiven(f);
            match s.kind
            case Int(_, sign) => d.Some? && s.width == d.value + if Separate(sign) then 1 else 0
            case Decimal(precision, _, repr, sign) =>
              d.Some? && precision == d.value &&
              s.width == (match repr
                          case Comp3 => d.value / 2 + 1
                          case Zoned => d.value
                          case Display => d.value + if Separate(sign) then 1 else 0)
            case Bool => s.width == 1
            case _ =>
              (f.width.Some? || f.digits.Some?) &&
              s.width == (if f.width.Some? then f.width.value else f.digits.value)
  {
    hide Lower, ParseSign, ParseEndian, ParseJustify, ParsePad, RequiredWidth, RequiredDigits;
    SizesGiven(f);
  }

  lemma SizesGiven(f: JsonField)
    ensures RequiredDigits(f) == if DigitsGiven(f).None? then Err else Ok(DigitsGiven(f).value)
    ensures RequiredWidth(f)
         == if f.width.Some? then Ok(f.width.value) else if f.digits.Some? then Ok(f.digits.value) else Err
  {
  }

  // ---------------------------------------------------------------- laying fields out

  /** A lowered list, the counter after it, and the bytes one occurrence of the list takes. */
  datatype Lowered = Lowered(fields: seq<Field>, auto: nat, end: nat)
  datatype Typed = Typed(storage: Storage, auto: nat)

  function AutoName(n: nat): string {
    "field_" + Strings.NatString(n)
  }

  /** A field's own name, or the next numbered one. */
  function NameOf(f: JsonField, auto: nat): (string, nat) {
    if f.name.Some? then (f.name.value, auto) else (AutoName(auto + 1), auto + 1)
  }

  function StorageOf(f: JsonField, auto: nat, depth: nat): Result<Typed>
    decreases f, 0
  {
    match f.fields
    case Absent =>
      var s :- LeafStorage(f);
      Ok(Typed(s, auto))
    case Present(children) =>
      var inner :- LayoutFields(children, auto, depth + 1);
      Ok(Typed(Storage(Group(inner.fields), inner.end), inner.auto))
  }

  function LayoutFields(raw: seq<JsonField>, auto: nat, depth: nat): Result<Lowered>
    decreases raw, 1
  {
    if depth > MAX_NESTING_DEPTH then Err else LayoutFrom(raw, auto, depth, 0)
  }

  function LayoutFrom(raw: seq<JsonField>, auto: nat, depth: nat, offset: nat): Result<Lowered>
    decreases raw, 0
  {
    if raw == [] then Ok(Lowered([], auto, offset))
    else
      var (name, named) := NameOf(raw[0], auto);
      var typed :- StorageOf(raw[0], named, depth);
      var f := Field(name, offset, typed.storage.width, typed.storage.kind, raw[0].occurs, None, None);
      var rest :- LayoutFrom(raw[1..], typed.auto, depth, offset + f.TotalWidth());
      Ok(Lowered([f] + rest.fields, rest.auto, rest.end))
  }

  lemma LayoutFromCons(raw: seq<JsonField>, auto: nat, depth: nat, offset: nat)
    requires raw != []
    ensures var (name, named) := NameOf(raw[0], auto);
            var typed := StorageOf(raw[0], named, depth);
            LayoutFrom(raw, auto, depth, offset) ==
            if typed.Err? then Err
            else
              var s := typed.value.storage;
              var f := Field(name, offset, s.width, s.kind, raw[0].occurs, None, None);
              var rest := LayoutFrom(raw[1..], typed.value.auto, depth, offset + f.TotalWidth());
              if rest.Err? then Err else Ok(Lowered([f] + rest.value.fields, rest.value.auto, rest.value.end))
  {
    hide StorageOf;
  }

  predicate Continues(whole: Result<Lowered>, done: seq<Field>, rest: Result<Lowered>) {
    if rest.Err? then whole.Err? else whole == Ok(rest.value.(fields := done + rest.value.fields))
  }

  lemma ContinuesStep(whole: Result<Lowered>, done: seq<Field>, f: Field, rest: Lowered)
    requires Continues(whole, done, Ok(rest.(fields := [f] + rest.fields)))
    ensures Continues(whole, done + [f], Ok(rest))
  {
    assert done + ([f] + rest.fields) == (done + [f]) + rest.fields;
  }

  lemma ContinuesEnds(whole: Result<Lowered>, done: seq<Field>, auto: nat, depth: nat, offset: nat)
    ensures Continues(whole, [], whole)
    ensures Continues(whole, done, LayoutFrom([], auto, depth, offset)) ==> whole == Ok(Lowered(done, auto, offset))
  {
    assert done + [] == done;
    if whole.Ok? { assert [] + whole.value.fields == whole.value.fields; }
  }

  /** `layout_fields`: the loop over siblings, with its running offset and counter. */
  method LayoutLoop(raw: seq<JsonField>, auto: nat, depth: nat) returns (r: Result<Lowered>)
    ensures r == LayoutFields(raw, auto, depth)
    decreases raw, 1
  {
    hide LayoutFrom, StorageOf, NameOf;
    if depth > MAX_NESTING_DEPTH {
      return Err;
    }
    var fields: seq<Field>, offset: nat, counter: nat := [], 0, auto;
    ghost var whole := LayoutFrom(raw, auto, depth, 0);
    ContinuesEnds(whole, [], counter, depth, offset);
    assert raw[0..] == raw;
    for n := 0 to |raw|
      invariant Continues(whole, fields, LayoutFrom(raw[n..], counter, depth, offset))
    {
      LayoutFromCons(raw[n..], counter, depth, offset);
      assert raw[n..][0] == raw[n] && raw[n..][1..] == raw[n + 1..];
      var (name, named) := NameOf(raw[n], counter);
      var typed := StorageLoop(raw[n], named, depth);
      if typed.Err? {
        return Err;
      }
      counter := typed.value.auto;
      var s := typed.value.storage;
      var f := Field(name, offset, s.width, s.kind, raw[n].occurs, None, None);
      ghost var rest := LayoutFrom(raw[n + 1..], counter, depth, offset + f.TotalWidth());
      if rest.Ok? { ContinuesStep(whole, fields, f, rest.value); }
      fields := fields + [f];
      offset := offset + f.TotalWidth();
    }
    assert raw[|raw|..] == [];
    ContinuesEnds(whole, fields, counter, depth, offset);
    return Ok(Lowered(fields, counter, offset));
  }

  method StorageLoop(f: JsonField, auto: nat, depth: nat) returns (r: Result<Typed>)
    ensures r == StorageOf(f, auto, depth)
    decreases f, 0
  {
    match f.fields {
      case Absent =>
        var s := LeafStorage(f);
        return if s.Err? then Err else Ok(Typed(s.value, auto));
      case Present(children) =>
        var inner := LayoutLoop(children, auto, depth + 1);
        return if inner.Err? then Err
               else Ok(Typed(Storage(Group(inner.value.fields), inner.value.end), inner.value.auto));
    }
  }

  function Parse(raw: seq<JsonField>): Result<Layout> {
    var lowered :- LayoutFields(raw, 0, 0);
    Ok(FromFields(lowered.fields))
  }

  // ---------------------------------------------------------------- the layout is contiguous

  lemma {:induction false} FromTight(raw: seq<JsonField>, auto: nat, depth: nat, offset: nat)
    requires LayoutFrom(raw, auto, depth, offset).Ok?
    ensures var l := LayoutFrom(raw, auto, depth, offset).value;
            Tight(l.fields, offset) && l.end == offset + StaticWidth(l.fields)
    decreases raw, 0
  {
    hide LayoutFrom, StorageOf, Tight, StaticWidth;
    if raw == [] {
      EmptyTight(auto, depth, offset);
    } else {
      LayoutFromCons(raw, auto, depth, offset);
      var (name, named) := NameOf(raw[0], auto);
      var typed := StorageOf(raw[0], named, depth).value;
      var f := Field(name, offset, typed.storage.width, typed.storage.kind, raw[0].occurs, None, None);
      StorageTight(raw[0], named, depth, f);
      FromTight(raw[1..], typed.auto, depth, offset + f.TotalWidth());
      TightCons(f, LayoutFrom(raw[1..], typed.auto, depth, offset + f.TotalWidth()).value.fields);
    }
  }

  lemma EmptyTight(auto: nat, depth: nat, offset: nat)
    ensures LayoutFrom([], auto, depth, offset) == Ok(Lowered([], auto, offset))
    ensures Tight([], offset) && StaticWidth([]) == 0
  {
  }

  lemma {:induction false} StorageTight(j: JsonField, auto: nat, depth: nat, f: Field)
    requires StorageOf(j, auto, depth).Ok?
    requires f.kind == StorageOf(j, auto, depth).value.storage.kind
    requires f.width == StorageOf(j, auto, depth).value.storage.width
    ensures TightField(f)
    decreases j, 0
  {
    hide LayoutFrom, StaticWidth, LeafStorage;
    if j.fields.Present? {
      FromTight(j.fields.list, auto, depth + 1, 0);
    } else {
      LeafIsNotGroup(j);
    }
  }

  /**
   Every accepted field list lowers to a contiguous layout whose record length is the width reported
   and whose siblings are in order, so its records are plain concatenations that read back.
   */
  lemma JsonLaid(raw: seq<JsonField>)
    requires Parse(raw).Ok?
    ensures var layout := Parse(raw).value;
            Tight(layout.fields, 0) && RoundTrip.Ordered(layout.fields) &&
            layout.recordLen == StaticWidth(layout.fields) == LayoutFields(raw, 0, 0).value.end
  {
    var fields := Parse(raw).value.fields;
    hide LayoutFrom, Tight, StaticWidth, StaticEnd;
    FromTight(raw, 0, 0, 0);
    if fields == [] { NoBytes(); }
    TightStaticEnd(fields, 0);
    TightOrdered(fields, 0);
  }

  lemma JsonRoundTrip(raw: seq<JsonField>, values: Pairs, enc: Encoding)
    requires Parse(raw).Ok?
    requires var fields := Parse(raw).value.fields;
             Encode.Supplied(fields, values) && Normal.InSeq(fields, values, map[])
    ensures var layout := Parse(raw).value;
            var record := Encode.EncodeRecord(layout, values, enc);
            record.Ok? && record == SerialSeq(layout.fields, values, enc) &&
            Decode.DecodeRecord(layout, record.value, enc) == Ok(Normal.NormSeq(layout.fields, values, map[]).pairs)
  {
    hide LayoutFields, Encode.Supplied, Normal.InSeq, Normal.NormSeq, Tight, RoundTrip.Ordered, SerialSeq;
    JsonLaid(raw);
    var layout := Parse(raw).value;
    RoundTrip.RoundTrip(layout, values, enc);
    EncodeIsSerial(layout.fields, values, enc);
  }

  // ---------------------------------------------------------------- each field as given

  /** A lowered field keeps the name and the repetitions given, and depends on nothing. */
  predicate AsGiven(j: JsonField, f: Field) {
    (j.name.Some? ==> f.name == j.name.value) && f.occurs == j.occurs && f.dependingOn.None? && f.redefines.None? &&
    match j.fields
    case Absent => LeafStorage(j) == Ok(Storage(f.kind, f.width))
    case Present(children) => f.kind.Group? && AllAsGiven(children, f.kind.children)
  }

  predicate AllAsGiven(raw: seq<JsonField>, fields: seq<Field>)
    decreases raw
  {
    |raw| == |fields| && forall i :: 0 <= i < |raw| ==> AsGiven(raw[i], fields[i])
  }

  lemma GivenStorage(j: JsonField, auto: nat, depth: nat, f: Field)
    requires StorageOf(j, auto, depth).Ok?
    requires StorageOf(j, auto, depth).value.storage == Storage(f.kind, f.width)
    requires j.name.Some? ==> f.name == j.name.value
    requires f.occurs == j.occurs && f.dependingOn.None? && f.redefines.None?
    ensures AsGiven(j, f)
    decreases j, 0
  {
    hide LeafStorage, AllAsGiven, LayoutFrom;
    if j.fields.Present? { FieldsAsGiven(j.fields.list, auto, depth + 1, 0); }
  }

  /** Every field of an accepted list comes out once, in order, as it was given. */
  lemma {:induction false} FieldsAsGiven(raw: seq<JsonField>, auto: nat, depth: nat, offset: nat)
    requires LayoutFrom(raw, auto, depth, offset).Ok?
    ensures AllAsGiven(raw, LayoutFrom(raw, auto, depth, offset).value.fields)
    decreases raw, 0
  {
    hide LayoutFrom, StorageOf, AsGiven;
    if raw == [] {
      EmptyTight(auto, depth, offset);
    } else {
      LayoutFromCons(raw, auto, depth, offset);
      var (name, named) := NameOf(raw[0], auto);
      var typed := StorageOf(raw[0], named, depth).value;
      var f := Field(name, offset, typed.storage.width, typed.storage.kind, raw[0].occurs, None, None);
      GivenStorage(raw[0], named, depth, f);
      FieldsAsGiven(raw[1..], typed.auto, depth, offset + f.TotalWidth());
      var fields := LayoutFrom(raw, auto, depth, offset).value.fields;
      forall i | 0 <= i < |raw|
        ensures AsGiven(raw[i], fields[i])
      {
        if i > 0 { assert raw[i] == raw[1..][i - 1] && fields[i] == fields[1..][i - 1]; }
      }
    }
  }

  /** A specification's layout has its fields in order, each as it was given. */
  lemma ParseKeeps(raw: seq<JsonField>)
    requires Parse(raw).Ok?
    ensures AllAsGiven(raw, Parse(raw).value.fields)
  {
    hide LayoutFrom, AllAsGiven;
    FieldsAsGiven(raw, 0, 0, 0);
  }

  /** Numbered names are `field_` and the number. */
  lemma AutoNamed(n: nat)
    ensures AutoName(n) == ['f', 'i', 'e', 'l', 'd', '_'] + Strings.NatString(n)
  {
    hide Strings.NatString;
  }

  // ---------------------------------------------------------------- what is accepted

  /** How deep groups nest. */
  function Nesting(raw: seq<JsonField>): nat
    decreases raw, 1
  {
    if raw == [] then 0 else Max(NestingIn(raw[0]), Nesting(raw[1..]))
  }

  function NestingIn(j: JsonField): nat
    decreases j, 0
  {
    match j.fields
    case Absent => 0
    case Present(children) => 1 + Nesting(children)
  }

  /** Every field that is no group has a storage. */
  predicate AllStored(raw: seq<JsonField>)
    decreases raw, 1
  {
    raw == [] || (HasStorage(raw[0]) && AllStored(raw[1..]))
  }

  predicate HasStorage(j: JsonField)
    decreases j, 0
  {
    match j.fields
    case Absent => LeafStorage(j).Ok?
    case Present(children) => AllStored(children)
  }

  lemma {:induction false} FromAccepted(raw: seq<JsonField>, auto: nat, depth: nat, offset: nat)
    requires depth <= MAX_NESTING_DEPTH
    ensures LayoutFrom(raw, auto, depth, offset).Ok? <==> depth + Nesting(raw) <= 64 && AllStored(raw)
    decreases raw, 1
  {
    hide LayoutFrom, StorageOf, NestingIn, HasStorage;
    if raw == [] {
      EmptyTight(auto, depth, offset);
    } else {
      LayoutFromCons(raw, auto, depth, offset);
      var (name, named) := NameOf(raw[0], auto);
      StorageAccepted(raw[0], named, depth);
      var typed := StorageOf(raw[0], named, depth);
      if typed.Ok? {
        var s := typed.value.storage;
        var f := Field(name, offset, s.width, s.kind, raw[0].occurs, None, None);
        FromAccepted(raw[1..], typed.value.auto, depth, offset + f.TotalWidth());
      }
    }
  }

  lemma {:induction false} StorageAccepted(j: JsonField, auto: nat, depth: nat)
    requires depth <= MAX_NESTING_DEPTH
    ensures StorageOf(j, auto, depth).Ok? <==> depth + NestingIn(j) <= 64 && HasStorage(j)
    decreases j, 0
  {
    hide LayoutFrom, LeafStorage, Nesting, AllStored;
    if j.fields.Present? && depth < MAX_NESTING_DEPTH { FromAccepted(j.fields.list, auto, depth + 1, 0); }
  }

  /** A specification is accepted exactly when groups nest at most 64 deep and every other field has a storage. */
  lemma ParseAccepts(raw: seq<JsonField>)
    ensures Parse(raw).Ok? <==> Nesting(raw) <= 64 && AllStored(raw)
  {
    hide LayoutFrom, Nesting, AllStored;
    FromAccepted(raw, 0, 0, 0);
  }

  // ---------------------------------------------------------------- numbering

  /** Whether each field has a name of its own, in reading order. */
  function NamedFlags(raw: seq<JsonField>): seq<bool>
    decreases raw, 1
  {
    if raw == [] then []
    else
      [raw[0].name.Some?] + FlagsWithin(raw[0]) + NamedFlags(raw[1..])
  }

  function FlagsWithin(f: JsonField): seq<bool>
    decreases f, 0
  {
    if f.fields.Present? then NamedFlags(f.fields.list) else []
  }

  /** The names of all fields in reading order. */
  function NamesOf(fields: seq<Field>): seq<string>
    decreases fields
  {
    if fields == [] then []
    else
      [fields[0].name] + (if fields[0].kind.Group? then NamesOf(fields[0].kind.children) else []) + NamesOf(fields[1..])
  }

  /** The names given where the flags say there was none. */
  function Given(names: seq<string>, flags: seq<bool>): seq<string>
    requires |names| == |flags|
  {
    if names == [] then []
    else (if flags[0] then [] else [names[0]]) + Given(names[1..], flags[1..])
  }

  function Numbered(auto: nat, n: nat): (names: seq<string>)
    ensures |names| == n
  {
    seq(n, i requires 0 <= i < n => AutoName(auto + 1 + i))
  }

  lemma {:induction false} GivenConcat(a: seq<string>, b: seq<string>, fa: seq<bool>, fb: seq<bool>)
    requires |a| == |fa| && |b| == |fb|
    ensures Given(a + b, fa + fb) == Given(a, fa) + Given(b, fb)
  {
    if a == [] {
      assert a + b == b && fa + fb == fb;
    } else {
      assert (a + b)[1..] == a[1..] + b && (fa + fb)[1..] == fa[1..] + fb;
      GivenConcat(a[1..], b, fa[1..], fb);
    }
  }

  lemma NumberedConcat(auto: nat, m: nat, n: nat)
    ensures Numbered(auto, m) + Numbered(auto + m, n) == Numbered(auto, m + n)
  {
  }

  /** Names fit the flags, and the given ones are the numbers from one counter to the next. */
  predicate NumbersFrom(names: seq<string>, flags: seq<bool>, auto: nat, after: nat) {
    |names| == |flags| && after >= auto && Given(names, flags) == Numbered(auto, after - auto)
  }

  lemma NumbersConcat(a: seq<string>, b: seq<string>, fa: seq<bool>, fb: seq<bool>, auto: nat, mid: nat, after: nat)
    requires NumbersFrom(a, fa, auto, mid) && NumbersFrom(b, fb, mid, after)
    ensures NumbersFrom(a + b, fa + fb, auto, after)
  {
    GivenConcat(a, b, fa, fb);
    NumberedConcat(auto, mid - auto, after - mid);
  }

  lemma NumbersOne(f: JsonField, auto: nat)
    ensures var (name, named) := NameOf(f, auto); NumbersFrom([name], [f.name.Some?], auto, named)
    ensures NumbersFrom([], [], auto, auto)
  {
    var (name, named) := NameOf(f, auto);
    assert [name][1..] == [] && [f.name.Some?][1..] == [];
    assert Numbered(auto, 0) == [] && Numbered(auto, 1) == [AutoName(auto + 1)];
  }

  lemma {:induction false} FromNumbered(raw: seq<JsonField>, auto: nat, depth: nat, offset: nat)
    requires LayoutFrom(raw, auto, depth, offset).Ok?
    ensures var l := LayoutFrom(raw, auto, depth, offset).value;
            NumbersFrom(NamesOf(l.fields), NamedFlags(raw), auto, l.auto)
    decreases raw, 0
  {
    hide LayoutFrom, NumbersFrom, LeafStorage, NameOf;
    if raw == [] {
      EmptyTight(auto, depth, offset);
      NumbersOne(JsonField(None, None, None, None, None, None, None, None, None, None, None, Absent), auto);
    } else {
      LayoutFromCons(raw, auto, depth, offset);
      NumbersOne(raw[0], auto);
      var (name, named) := NameOf(raw[0], auto);
      var typed := StorageOf(raw[0], named, depth).value;
      var f := Field(name, offset, typed.storage.width, typed.storage.kind, raw[0].occurs, None, None);
      var next := offset + f.TotalWidth();
      var rest := LayoutFrom(raw[1..], typed.auto, depth, next).value;
      FromNumbered(raw[1..], typed.auto, depth, next);
      var inside := if f.kind.Group? then NamesOf(f.kind.children) else [];
      var flags := FlagsWithin(raw[0]);
      InsideNumbered(raw[0], named, depth);
      NumbersConcat([name], inside, [raw[0].name.Some?], flags, auto, named, typed.auto);
      NumbersConcat([name] + inside, NamesOf(rest.fields), [raw[0].name.Some?] + flags, NamedFlags(raw[1..]),
                    auto, typed.auto, rest.auto);
      var all := LayoutFrom(raw, auto, depth, offset).value.fields;
      assert all[0] == f && all[1..] == rest.fields;
    }
  }

  lemma {:induction false} InsideNumbered(j: JsonField, auto: nat, depth: nat)
    requires StorageOf(j, auto, depth).Ok?
    ensures var typed := StorageOf(j, auto, depth).value;
            var inside := if typed.storage.kind.Group? then NamesOf(typed.storage.kind.children) else [];
            NumbersFrom(inside, FlagsWithin(j), auto, typed.auto)
    decreases j, 0
  {
    hide LayoutFrom, NumbersFrom, NamesOf, NamedFlags;
    if j.fields.Present? {
      FromNumbered(j.fields.list, auto, depth + 1, 0);
    } else {
      NumbersOne(j, auto);
      LeafIsNotGroup(j);
    }
  }

  lemma LeafIsNotGroup(j: JsonField)
    requires LeafStorage(j).Ok?
    ensures !LeafStorage(j).value.kind.Group?
  {
  }

  /** The unnamed fields of a whole specification are field_1, field_2 and so on in reading order, at any depth. */
  lemma UnnamedAreNumbered(raw: seq<JsonField>)
    requires Parse(raw).Ok?
    ensures var names := NamesOf(Parse(raw).value.fields);
            |names| == |NamedFlags(raw)| &&
            Given(names, NamedFlags(raw)) == Numbered(0, |Given(names, NamedFlags(raw))|)
  {
    hide LayoutFrom, NamesOf, NamedFlags, Given, Numbered;
    FromNumbered(raw, 0, 0, 0);
    NumberedLength(0, LayoutFields(raw, 0, 0).value.auto);
  }

  lemma NumberedLength(auto: nat, n: nat)
    ensures |Numbered(auto, n)| == n
  {
  }
}
