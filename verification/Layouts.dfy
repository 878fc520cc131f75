/** The layout a specification lowers to, and the neutral values a record decodes to. */
module Layouts {
  import opened Prelude
  import opened DisplayNumber
  import opened BinaryInt
  import Strings

  datatype Justify = Left | Right

  datatype NumRepr = Display | Comp3 | Zoned

  /** How a field's bytes are interpreted. */
  datatype FieldKind =
    | Text(justify: Justify, trim: bool, pad: Byte)
    | Int(signed: bool, sign: SignKind)
    | Binary(endian: Endian, signed: bool)
    | Hex(order: Endian)
    | Bool
    | Pad(fill: Byte)
    | Decimal(precision: nat, scale: nat, repr: NumRepr, sign: SignKind)
    | Edited(precision: nat, scale: nat, signed: bool, mask: string)
    | Group(children: seq<Field>)

  /**
   One field. Its offset is relative to its parent; a table that depends on another field reserves
   no static bytes, and `occurs` is then its declared maximum.
   */
  datatype Field = Field(
    name: string,
    offset: nat,
    width: nat,
    kind: FieldKind,
    occurs: Option<nat>,
    dependingOn: Option<string>,
    redefines: Option<string>
  ) {
    function TotalWidth(): nat {
      match occurs
      case None => width
      case Some(n) => width * n
    }

    function ReservedWidth(): nat {
      if dependingOn.Some? then 0 else TotalWidth()
    }
  }

  /** How deep a specification may nest groups. */
  const MAX_NESTING_DEPTH: nat := 64

  datatype Layout = Layout(recordLen: nat, fields: seq<Field>, variable: bool)

  /** Whether the field or a descendant is a table whose length depends on another field. */
  predicate HasDependingOn(f: Field) {
    f.dependingOn.Some? ||
    (f.kind.Group? && exists i :: 0 <= i < |f.kind.children| && HasDependingOn(f.kind.children[i]))
  }

  /** The furthest static end of the fields. */
  function StaticEnd(fields: seq<Field>): nat {
    if fields == [] then 0
    else Max(fields[0].offset + fields[0].ReservedWidth(), StaticEnd(fields[1..]))
  }

  function FromFields(fields: seq<Field>): Layout {
    Layout(StaticEnd(fields), fields, exists i :: 0 <= i < |fields| && HasDependingOn(fields[i]))
  }

  /** All fields in reading order, a group before its members. */
  function Everything(fields: seq<Field>): seq<Field>
    decreases fields
  {
    if fields == [] then []
    else
      [fields[0]] + (if fields[0].kind.Group? then Everything(fields[0].kind.children) else [])
      + Everything(fields[1..])
  }

  /** A layout is variable exactly when some field, at any depth, depends on another. */
  lemma VariableExactly(fields: seq<Field>)
    ensures FromFields(fields).variable <==> exists f :: f in Everything(fields) && f.dependingOn.Some?
  {
    SomeDepends(fields);
  }

  lemma {:induction false} SomeDepends(fields: seq<Field>)
    ensures (exists i :: 0 <= i < |fields| && HasDependingOn(fields[i]))
       <==> (exists f :: f in Everything(fields) && f.dependingOn.Some?)
    decreases fields
  {
    if fields != [] {
      var f, inside := fields[0], if fields[0].kind.Group? then Everything(fields[0].kind.children) else [];
      SomeDepends(fields[1..]);
      if f.kind.Group? { SomeDepends(f.kind.children); }
      assert Everything(fields) == [f] + inside + Everything(fields[1..]);
      assert forall g :: g in Everything(fields) <==> g == f || g in inside || g in Everything(fields[1..]);
      assert forall i :: 0 < i < |fields| ==> fields[i] == fields[1..][i - 1];
      assert (exists i :: 0 <= i < |fields| && HasDependingOn(fields[i]))
        <==> HasDependingOn(f) || exists i :: 0 <= i < |fields[1..]| && HasDependingOn(fields[1..][i]) by {
        if i :| 0 <= i < |fields[1..]| && HasDependingOn(fields[1..][i]) { assert HasDependingOn(fields[i + 1]); }
      }
    }
  }

  type I64 = n: int | I64_MIN <= n <= I64_MAX
  type I128 = n: int | I128_MIN <= n <= I128_MAX

  datatype Value =
    | Null
    | StrV(s: string)
    | IntV(n: I64)
    | DecV(unscaled: I128, scale: nat)
    | BoolV(b: bool)
    | ListV(items: seq<Value>)
    | StructV(pairs: Pairs)

  type Pairs = seq<(string, Value)>

  /** The first value whose name matches ignoring case; Null when there is none. */
  function Lookup(values: Pairs, name: string): Value {
    if values == [] then Null
    else if Strings.SameName(values[0].0, name) then values[0].1
    else Lookup(values[1..], name)
  }

  /** A lookup gives the first value of the name, and NULL when none has it. */
  lemma {:induction false} LookupFirst(values: Pairs, name: string, i: nat)
    requires i <= |values| && forall j :: 0 <= j < i ==> !Strings.SameName(values[j].0, name)
    requires i < |values| ==> Strings.SameName(values[i].0, name)
    ensures Lookup(values, name) == if i < |values| then values[i].1 else Null
  {
    if i > 0 {
      assert forall j :: 0 <= j < |values[1..]| ==> values[1..][j] == values[j + 1];
      LookupFirst(values[1..], name, i - 1);
    }
  }

  /** No two fields of a sibling list have the same name ignoring case. */
  predicate DistinctNames(fields: seq<Field>) {
    forall i, j :: 0 <= i < j < |fields| ==> !Strings.SameName(fields[i].name, fields[j].name)
  }
}
