/**
 The normal form of a value under a layout, stated on values alone: names matched ignoring case
 and put in layout order, tables cut or filled to their length, NULLs replaced by defaults. The
 scope of table lengths is threaded through it exactly as decoding threads it.
 */
module Normal {
  import opened Prelude
  import opened Layouts
  import opened Decode
  import Encode
  import Leaf
  import Strings

  datatype Normed = Normed(value: Value, scope: Scope)
  datatype NormedItems = NormedItems(values: seq<Value>, scope: Scope)
  datatype NormedSeq = NormedSeq(pairs: Pairs, scope: Scope)

  function MembersOf(v: Value): Pairs {
    if v.StructV? then v.pairs else []
  }

  function NormSeq(fields: seq<Field>, values: Pairs, scope: Scope): NormedSeq
    decreases fields, 0
  {
    if fields == [] then NormedSeq([], scope)
    else
      var f := fields[0];
      var one := NormField(f, Lookup(values, f.name), scope);
      var rest := NormSeq(fields[1..], values, Remember(f, one.value, one.scope));
      NormedSeq(Shown(f, one.value) + rest.pairs, rest.scope)
  }

  function NormField(f: Field, v: Value, scope: Scope): Normed
    decreases f, 3
  {
    match Encode.Elements(f, v)
    case Ok(Some(items)) =>
      var n := NormItems(f, items, scope);
      Normed(ListV(n.values), n.scope)
    case _ => NormOne(f, v, scope)
  }

  function NormItems(f: Field, items: seq<Value>, scope: Scope): (n: NormedItems)
    ensures |n.values| == |items|
    decreases f, 2, |items|
  {
    if items == [] then NormedItems([], scope)
    else
      var one := NormOne(f, items[0], scope);
      var rest := NormItems(f, items[1..], one.scope);
      NormedItems([one.value] + rest.values, rest.scope)
  }

  function NormOne(f: Field, v: Value, scope: Scope): Normed
    decreases f, 1
  {
    if f.kind.Group? then
      var s := NormSeq(f.kind.children, MembersOf(v), scope);
      Normed(StructV(s.pairs), s.scope)
    else Normed(Leaf.NormLeaf(f, v), scope)
  }

  // ---------------------------------------------------------------- sizes

  /** The end, relative to the siblings' start, of the bytes a sibling list stores. */
  function SizeSeq(fields: seq<Field>, shift: nat, end: nat, values: Pairs): (n: nat)
    ensures n >= end
    decreases fields, 0
  {
    if fields == [] then end
    else
      var f := fields[0];
      var size := SizeField(f, Lookup(values, f.name));
      SizeSeq(fields[1..], shift + Excess(f, size), Max(end, f.offset + shift + size), values)
  }

  function SizeField(f: Field, v: Value): nat
    decreases f, 3
  {
    match Encode.Elements(f, v)
    case Ok(Some(items)) => SizeItems(f, items)
    case _ => SizeOne(f, v)
  }

  function SizeItems(f: Field, items: seq<Value>): nat
    decreases f, 2, |items|
  {
    if items == [] then 0 else SizeOne(f, items[0]) + SizeItems(f, items[1..])
  }

  function SizeOne(f: Field, v: Value): nat
    decreases f, 1
  {
    if f.kind.Group? then SizeSeq(f.kind.children, 0, 0, MembersOf(v)) else f.width
  }

  // ---------------------------------------------------------------- the domain

  /**
   Values a record can store: leaves storable, every table as long as its controller says (within
   its maximum), and no table element of zero bytes.
   */
  predicate InSeq(fields: seq<Field>, values: Pairs, scope: Scope)
    decreases fields, 0
  {
    fields == [] ||
    (var f := fields[0];
     var v := Lookup(values, f.name);
     InField(f, v, scope) &&
     var one := NormField(f, v, scope);
     InSeq(fields[1..], values, Remember(f, one.value, one.scope)))
  }

  predicate InField(f: Field, v: Value, scope: Scope)
    decreases f, 3
  {
    match Encode.Elements(f, v)
    case Err => false
    case Ok(None) => InOne(f, v, scope)
    case Ok(Some(items)) => CountFor(f, scope) == Ok(Some(|items|)) && InItems(f, items, scope)
  }

  predicate InItems(f: Field, items: seq<Value>, scope: Scope)
    decreases f, 2, |items|
  {
    items == [] ||
    (InOne(f, items[0], scope) && SizeOne(f, items[0]) > 0 &&
     InItems(f, items[1..], NormOne(f, items[0], scope).scope))
  }

  predicate InOne(f: Field, v: Value, scope: Scope)
    decreases f, 1
  {
    if f.kind.Group? then Encode.Members(v).Ok? && InSeq(f.kind.children, MembersOf(v), scope)
    else Leaf.Storable(f, v)
  }

  lemma InSeqCons(fields: seq<Field>, values: Pairs, scope: Scope)
    requires fields != []
    ensures var f := fields[0];
            var v := Lookup(values, f.name);
            var one := NormField(f, v, scope);
            InSeq(fields, values, scope) <==>
            InField(f, v, scope) && InSeq(fields[1..], values, Remember(f, one.value, one.scope))
  {
  }

  lemma NormSeqCons(fields: seq<Field>, values: Pairs, scope: Scope)
    requires fields != []
    ensures var f := fields[0];
            var one := NormField(f, Lookup(values, f.name), scope);
            var rest := NormSeq(fields[1..], values, Remember(f, one.value, one.scope));
            NormSeq(fields, values, scope) == NormedSeq(Shown(f, one.value) + rest.pairs, rest.scope)
  {
  }

  lemma SizeSeqCons(fields: seq<Field>, shift: nat, end: nat, values: Pairs)
    requires fields != []
    ensures var f := fields[0];
            var size := SizeField(f, Lookup(values, f.name));
            SizeSeq(fields, shift, end, values)
            == SizeSeq(fields[1..], shift + Excess(f, size), Max(end, f.offset + shift + size), values)
  {
  }

  // ---------------------------------------------------------------- values already normal

  /** Exactly the shown fields in layout order under their own names, every leaf exact, fixed tables full. */
  predicate ExactSeq(fields: seq<Field>, pairs: Pairs)
    decreases fields, 0
  {
    if fields == [] then pairs == []
    else if fields[0].kind.Pad? then ExactSeq(fields[1..], pairs)
    else
      pairs != [] && pairs[0].0 == fields[0].name && ExactField(fields[0], pairs[0].1) &&
      ExactSeq(fields[1..], pairs[1..])
  }

  predicate ExactField(f: Field, v: Value)
    decreases f, 3
  {
    if f.dependingOn.None? && f.occurs.None? then ExactOne(f, v)
    else
      v.ListV? && (f.dependingOn.None? ==> |v.items| == f.occurs.value) &&
      forall i :: 0 <= i < |v.items| ==> ExactOne(f, v.items[i])
  }

  predicate ExactOne(f: Field, v: Value)
    decreases f, 1
  {
    if f.kind.Group? then v.StructV? && ExactSeq(f.kind.children, v.pairs)
    else Leaf.Shaped(f) && Leaf.Exact(f, v)
  }

  /** Sibling names are distinct at every level. */
  predicate DistinctSeq(fields: seq<Field>) {
    DistinctNames(fields) &&
    forall i :: 0 <= i < |fields| && fields[i].kind.Group? ==> DistinctSeq(fields[i].kind.children)
  }

  /** A name that none of the pairs carries. */
  predicate Fresh(values: Pairs, name: string) {
    forall i :: 0 <= i < |values| ==> !Strings.SameName(values[i].0, name)
  }

  lemma {:induction false} LookupAfter(prefix: Pairs, values: Pairs, name: string)
    requires Fresh(prefix, name)
    ensures Lookup(prefix + values, name) == Lookup(values, name)
  {
    if prefix == [] {
      assert prefix + values == values;
    } else {
      assert (prefix + values)[1..] == prefix[1..] + values;
      LookupAfter(prefix[1..], values, name);
    }
  }

  lemma LookupHead(pairs: Pairs, name: string)
    requires pairs != [] && pairs[0].0 == name
    ensures Lookup(pairs, name) == pairs[0].1
  {
  }

  /** A prefix of pairs whose names none of these fields has. */
  predicate FreshFor(prefix: Pairs, fields: seq<Field>) {
    forall i :: 0 <= i < |fields| ==> Fresh(prefix, fields[i].name)
  }

  lemma ExtendFresh(prefix: Pairs, fields: seq<Field>, v: Value)
    requires fields != [] && DistinctSeq(fields) && FreshFor(prefix, fields)
    ensures FreshFor(prefix, fields[1..]) && DistinctSeq(fields[1..])
    ensures FreshFor(prefix + [(fields[0].name, v)], fields[1..])
    ensures Fresh(prefix, fields[0].name)
    ensures fields[0].kind.Group? ==> DistinctSeq(fields[0].kind.children)
  {
    forall i | 0 <= i < |fields[1..]|
      ensures !Strings.SameName(fields[0].name, fields[1..][i].name)
    {
      assert fields[1..][i] == fields[i + 1];
    }
  }

  lemma NormNone(values: Pairs, scope: Scope)
    ensures NormSeq([], values, scope) == NormedSeq([], scope)
  {
  }

  /** Exact values are their own normal form. */
  lemma {:induction false} ExactNormSeq(fields: seq<Field>, prefix: Pairs, pairs: Pairs, scope: Scope)
    requires DistinctSeq(fields) && FreshFor(prefix, fields) && ExactSeq(fields, pairs)
    ensures NormSeq(fields, prefix + pairs, scope).pairs == pairs
    decreases fields, 0
  {
    hide NormSeq, NormField, ExactField, FreshFor, DistinctSeq, Lookup, Remember;
    if fields == [] {
      assert prefix + [] == prefix;
      NormNone(prefix, scope);
    } else {
      NormSeqCons(fields, prefix + pairs, scope);
      var f, values := fields[0], prefix + pairs;
      var one := NormField(f, Lookup(values, f.name), scope);
      var after := Remember(f, one.value, one.scope);
      if f.kind.Pad? {
        ExtendFresh(prefix, fields, Null);
        ExactNormSeq(fields[1..], prefix, pairs, after);
        assert [] + pairs == pairs;
      } else {
        var v := pairs[0].1;
        ExtendFresh(prefix, fields, v);
        LookupAfter(prefix, pairs, f.name);
        LookupHead(pairs, f.name);
        ExactNormField(f, v, scope);
        ExactNormSeq(fields[1..], prefix + [(f.name, v)], pairs[1..], after);
        assert (prefix + [(f.name, v)]) + pairs[1..] == values;
      }
    }
  }

  lemma {:induction false} ExactNormField(f: Field, v: Value, scope: Scope)
    requires ExactField(f, v) && (f.kind.Group? ==> DistinctSeq(f.kind.children))
    ensures NormField(f, v, scope).value == v
    decreases f, 3
  {
    if f.dependingOn.None? && f.occurs.None? {
      ExactNormOne(f, v, scope);
    } else {
      assert v.items[..|v.items|] == v.items;
      ExactNormItems(f, v.items, scope);
    }
  }

  lemma {:induction false} ExactNormItems(f: Field, items: seq<Value>, scope: Scope)
    requires forall i :: 0 <= i < |items| ==> ExactOne(f, items[i])
    requires f.kind.Group? ==> DistinctSeq(f.kind.children)
    ensures NormItems(f, items, scope).values == items
    decreases f, 2, |items|
  {
    if items != [] {
      ExactNormOne(f, items[0], scope);
      ExactNormItems(f, items[1..], NormOne(f, items[0], scope).scope);
    }
  }

  lemma {:induction false} ExactNormOne(f: Field, v: Value, scope: Scope)
    requires ExactOne(f, v) && (f.kind.Group? ==> DistinctSeq(f.kind.children))
    ensures NormOne(f, v, scope).value == v
    decreases f, 1
  {
    if f.kind.Group? {
      ExactNormSeq(f.kind.children, [], v.pairs, scope);
      assert [] + v.pairs == v.pairs;
    } else {
      LeafNotNull(f, v);
      hide Leaf.Exact, Leaf.Coerced;
      Leaf.ExactCoerced(f, v);
    }
  }

  lemma LeafNotNull(f: Field, v: Value)
    requires !f.kind.Group? && Leaf.Shaped(f) && Leaf.Exact(f, v)
    ensures v.Null? <==> f.kind.Pad?
  {
  }
}
