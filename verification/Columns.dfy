/**
 The column types of a layout, and that every decoded value is of its column's type, so that
 shredding a decoded record and reading it back loses nothing.
 */
module Columns {
  import opened Prelude
  import opened Layouts
  import opened Arrow
  import opened Decode
  import opened Ebcdic
  import Leaf

  const MAX_DECIMAL_PRECISION: nat := 38

  /** A byte taken as a signed one. */
  function AsI8(n: nat): int {
    (n + 128) % 256 - 128
  }

  function DecimalType(precision: nat, scale: nat): Result<DataType> {
    if precision > MAX_DECIMAL_PRECISION then Err else Ok(Decimal128(Max(precision, 1), AsI8(scale)))
  }

  /** A decimal's column keeps precision, at least 1 and at most 38, and scale, taken as a signed byte. */
  lemma DecimalColumn(precision: nat, scale: nat)
    requires scale < 256
    ensures DecimalType(precision, scale) ==
            if precision > 38 then Err
            else Ok(Decimal128(if precision == 0 then 1 else precision, if scale < 128 then scale else scale - 256))
  {
  }

  /** The type of one occurrence; a filler has no column. */
  function BaseType(f: Field): Result<DataType>
    decreases f, 0
  {
    match f.kind
    case Text(_, _, _) => Ok(Utf8)
    case Hex(_) => Ok(Utf8)
    case Int(_, _) => Ok(Int64)
    case Binary(_, _) => Ok(Int64)
    case Bool => Ok(Boolean)
    case Pad(_) => Err
    case Decimal(precision, scale, _, _) => DecimalType(precision, scale)
    case Edited(precision, scale, _, _) => DecimalType(precision, scale)
    case Group(children) =>
      var fields :- ColumnFields(children);
      Ok(Struct(fields))
  }

  /** A repeating field is a list. */
  function FieldType(f: Field): Result<DataType>
    decreases f, 1
  {
    var base :- BaseType(f);
    Ok(if f.occurs.Some? || f.dependingOn.Some? then List(base) else base)
  }

  /** One column per field that is not a filler. */
  function ColumnFields(fields: seq<Field>): Result<seq<ColumnField>>
    decreases fields, 0
  {
    if fields == [] then Ok([])
    else if fields[0].kind.Pad? then ColumnFields(fields[1..])
    else
      var ty :- FieldType(fields[0]);
      var rest :- ColumnFields(fields[1..]);
      Ok([ColumnField(fields[0].name, ty)] + rest)
  }

  /** Scales are small enough to be the same number as a signed byte. */
  predicate SmallScales(fields: seq<Field>)
    decreases fields, 0
  {
    fields == [] || (SmallScale(fields[0]) && SmallScales(fields[1..]))
  }

  predicate SmallScale(f: Field)
    decreases f, 0
  {
    match f.kind
    case Decimal(_, scale, _, _) => scale < 128
    case Edited(_, scale, _, _) => scale < 128
    case Group(children) => SmallScales(children)
    case _ => true
  }

  /** Names and types match, one pair per column. */
  predicate PairsTyped(fields: seq<ColumnField>, pairs: Pairs) {
    |pairs| == |fields| &&
    forall i :: 0 <= i < |fields| ==> pairs[i].0 == fields[i].name && WellTyped(fields[i].ty, pairs[i].1)
  }

  lemma {:induction false} TypedSeq(
    fields: seq<Field>, base: nat, shift: nat, end: nat, bytes: seq<Byte>, enc: Encoding, scope: Scope
  )
    requires DecodeSeq(fields, base, shift, end, bytes, enc, scope).Ok?
    requires ColumnFields(fields).Ok? && SmallScales(fields)
    ensures PairsTyped(ColumnFields(fields).value, DecodeSeq(fields, base, shift, end, bytes, enc, scope).value.pairs)
    decreases fields, 0
  {
    hide DecodeSeq, DecodeField, PairsTyped, FieldType, SmallScale, Remember, Excess;
    if fields == [] {
      TypedNothing(base, shift, end, bytes, enc, scope);
    } else {
      DecodeSeqCons(fields, base, shift, end, bytes, enc, scope);
      var f := fields[0];
      var at := base + f.offset + shift;
      var one := DecodeField(f, at, bytes, enc, scope).value;
      var shift', end' := shift + Excess(f, one.size), Max(end, at + one.size);
      var scope' := Remember(f, one.value, one.scope);
      TypedSeq(fields[1..], base, shift', end', bytes, enc, scope');
      var rest := DecodeSeq(fields[1..], base, shift', end', bytes, enc, scope').value;
      if f.kind.Pad? {
        assert [] + rest.pairs == rest.pairs;
      } else {
        TypedField(f, at, bytes, enc, scope);
        TypedCons(f.name, FieldType(f).value, one.value, ColumnFields(fields[1..]).value, rest.pairs);
      }
    }
  }

  lemma TypedNothing(base: nat, shift: nat, end: nat, bytes: seq<Byte>, enc: Encoding, scope: Scope)
    ensures DecodeSeq([], base, shift, end, bytes, enc, scope) == Ok(Siblings([], end, scope, []))
    ensures PairsTyped([], [])
  {
  }

  lemma TypedCons(name: string, ty: DataType, v: Value, fields: seq<ColumnField>, pairs: Pairs)
    requires WellTyped(ty, v) && PairsTyped(fields, pairs)
    ensures PairsTyped([ColumnField(name, ty)] + fields, [(name, v)] + pairs)
  {
    hide WellTyped;
  }

  lemma {:induction false} TypedField(f: Field, at: nat, bytes: seq<Byte>, enc: Encoding, scope: Scope)
    requires DecodeField(f, at, bytes, enc, scope).Ok? && FieldType(f).Ok? && SmallScale(f) && !f.kind.Pad?
    ensures WellTyped(FieldType(f).value, DecodeField(f, at, bytes, enc, scope).value.value)
    decreases f, 3
  {
    hide DecodeOne, DecodeItems, BaseType, SmallScale;
    match CountFor(f, scope).value {
      case None => TypedOne(f, at, bytes, enc, scope);
      case Some(n) => TypedItems(f, n, at, bytes, enc, scope);
    }
  }

  lemma {:induction false} TypedItems(f: Field, n: nat, at: nat, bytes: seq<Byte>, enc: Encoding, scope: Scope)
    requires DecodeItems(f, n, at, bytes, enc, scope).Ok? && BaseType(f).Ok? && SmallScale(f) && !f.kind.Pad?
    ensures var values := DecodeItems(f, n, at, bytes, enc, scope).value.values;
            forall i :: 0 <= i < |values| ==> WellTyped(BaseType(f).value, values[i])
    decreases f, 2, n
  {
    hide DecodeOne, BaseType, SmallScale, WellTyped;
    if n > 0 {
      TypedOne(f, at, bytes, enc, scope);
      var one := DecodeOne(f, at, bytes, enc, scope).value;
      TypedItems(f, n - 1, at + one.size, bytes, enc, one.scope);
    }
  }

  lemma {:induction false} TypedOne(f: Field, at: nat, bytes: seq<Byte>, enc: Encoding, scope: Scope)
    requires DecodeOne(f, at, bytes, enc, scope).Ok? && BaseType(f).Ok? && SmallScale(f) && !f.kind.Pad?
    ensures WellTyped(BaseType(f).value, DecodeOne(f, at, bytes, enc, scope).value.value)
    decreases f, 1
  {
    hide DecodeSeq, Leaf.DecodeLeaf, ColumnFields, SmallScales;
    if f.kind.Group? {
      TypedSeq(f.kind.children, at, 0, at, bytes, enc, scope);
      GroupTyped(ColumnFields(f.kind.children).value, DecodeSeq(f.kind.children, at, 0, at, bytes, enc, scope).value.pairs);
    } else {
      LeafTyped(f, bytes[at..at + f.width], enc);
    }
  }

  lemma GroupTyped(fields: seq<ColumnField>, pairs: Pairs)
    requires PairsTyped(fields, pairs)
    ensures WellTyped(Struct(fields), StructV(pairs))
  {
  }

  lemma LeafTyped(f: Field, bs: seq<Byte>, enc: Encoding)
    requires !f.kind.Group? && !f.kind.Pad? && Leaf.DecodeLeaf(f, bs, enc).Ok? && BaseType(f).Ok? && SmallScale(f)
    ensures WellTyped(BaseType(f).value, Leaf.DecodeLeaf(f, bs, enc).value)
  {
    hide Leaf.DecodeText;
  }

  /**
   Whatever a record's bytes are: if it decodes, its fields are of the layout's column types, and a
   column built from them gives them back unchanged, as long as names are distinct in every group.
   */
  lemma DecodedReadsBack(layout: Layout, bytes: seq<Byte>, enc: Encoding)
    requires DecodeRecord(layout, bytes, enc).Ok? && ColumnFields(layout.fields).Ok? && SmallScales(layout.fields)
    requires Plain(Struct(ColumnFields(layout.fields).value))
    ensures var ty, row := Struct(ColumnFields(layout.fields).value), StructV(DecodeRecord(layout, bytes, enc).value);
            WellTyped(ty, row) && Conform(ty, row) == Ok(row)
  {
    hide DecodeSeq, ColumnFields, SmallScales, Conform, Plain;
    TypedSeq(layout.fields, 0, 0, 0, bytes, enc, map[]);
    var fields, pairs := ColumnFields(layout.fields).value, DecodeRecord(layout, bytes, enc).value;
    GroupTyped(fields, pairs);
    ExactWhenTyped(Struct(fields), StructV(pairs));
  }
}
