/** The static description of a layout, and its agreement with where decoding actually reads. */
module Describe {
  import opened Prelude
  import opened Layouts
  import opened Decode
  import opened Ebcdic
  import Leaf

  /** One described field: its dotted path, depth, static offset, and the field itself. */
  datatype Desc = Desc(path: string, depth: nat, offset: nat, field: Field)

  function PathOf(prefix: string, name: string): string {
    if prefix == "" then name else prefix + "." + name
  }

  /** Depth first, groups before their members, pads left out. */
  function Walk(fields: seq<Field>, prefix: string, base: nat, depth: nat): seq<Desc>
    decreases fields, 0
  {
    if fields == [] then []
    else (if fields[0].kind.Pad? then [] else WalkField(fields[0], prefix, base, depth)) +
         Walk(fields[1..], prefix, base, depth)
  }

  function WalkField(f: Field, prefix: string, base: nat, depth: nat): seq<Desc>
    decreases f, 1
  {
    var path := PathOf(prefix, f.name);
    [Desc(path, depth, base + f.offset, f)] +
    (if f.kind.Group? then Walk(f.kind.children, path, base + f.offset, depth + 1) else [])
  }

  /** The source's walk, pushing rows onto one output list. */
  method Describe(layout: Layout) returns (out: seq<Desc>)
    ensures out == Walk(layout.fields, "", 0, 0)
  {
    out := WalkLoop(layout.fields, "", 0, 0, []);
  }

  method WalkLoop(fields: seq<Field>, prefix: string, base: nat, depth: nat, sofar: seq<Desc>)
    returns (out: seq<Desc>)
    ensures out == sofar + Walk(fields, prefix, base, depth)
    decreases fields
  {
    hide Walk, WalkField, PathOf;
    out := sofar;
    ghost var whole := sofar + Walk(fields, prefix, base, depth);
    assert fields[0..] == fields;
    for i := 0 to |fields|
      invariant whole == out + Walk(fields[i..], prefix, base, depth)
    {
      var f := fields[i];
      WalkStep(fields, i, prefix, base, depth, out);
      if !f.kind.Pad? {
        var path := PathOf(prefix, f.name);
        out := out + [Desc(path, depth, base + f.offset, f)];
        if f.kind.Group? {
          out := WalkLoop(f.kind.children, path, base + f.offset, depth + 1, out);
        }
      }
    }
    WalkDone(fields, prefix, base, depth, out);
  }

  lemma WalkStep(fields: seq<Field>, i: nat, prefix: string, base: nat, depth: nat, out: seq<Desc>)
    requires i < |fields|
    ensures var f := fields[i];
            var path := PathOf(prefix, f.name);
            var row := out + [Desc(path, depth, base + f.offset, f)];
            var rest := Walk(fields[i + 1..], prefix, base, depth);
            out + Walk(fields[i..], prefix, base, depth) ==
            if f.kind.Pad? then out + rest
            else if f.kind.Group? then (row + Walk(f.kind.children, path, base + f.offset, depth + 1)) + rest
            else row + rest
  {
    hide PathOf;
    var f := fields[i];
    assert fields[i..][0] == f && fields[i..][1..] == fields[i + 1..];
    var path := PathOf(prefix, f.name);
    var row := [Desc(path, depth, base + f.offset, f)];
    var rest := Walk(fields[i + 1..], prefix, base, depth);
    if f.kind.Group? {
      var inner := Walk(f.kind.children, path, base + f.offset, depth + 1);
      assert WalkField(f, prefix, base, depth) == row + inner;
      assert out + ((row + inner) + rest) == ((out + row) + inner) + rest;
    } else if !f.kind.Pad? {
      assert WalkField(f, prefix, base, depth) == row + [] == row;
      assert out + (row + rest) == (out + row) + rest;
    } else {
      assert [] + rest == rest;
    }
  }

  lemma WalkDone(fields: seq<Field>, prefix: string, base: nat, depth: nat, out: seq<Desc>)
    ensures out + Walk(fields[|fields|..], prefix, base, depth) == out
  {
    assert fields[|fields|..] == [];
    assert out + [] == out;
  }

  // ---------------------------------------------------------------- static layouts

  /** Nothing depends on another field, and every group is exactly as wide as its members reach. */
  predicate Static(fields: seq<Field>)
    decreases fields, 0
  {
    fields == [] || (StaticField(fields[0]) && Static(fields[1..]))
  }

  predicate StaticField(f: Field)
    decreases f, 1
  {
    f.dependingOn.None? &&
    (f.kind.Group? ==> Static(f.kind.children) && f.width == StaticEnd(f.kind.children))
  }

  /** Where a static layout's leaves lie: every occurrence at its offset plus a multiple of its width. */
  function StaticTrace(fields: seq<Field>, base: nat): seq<Read>
    decreases fields, 0
  {
    if fields == [] then []
    else Occurrences(fields[0], base + fields[0].offset) + StaticTrace(fields[1..], base)
  }

  function Occurrences(f: Field, at: nat): seq<Read>
    decreases f, 3
  {
    match f.occurs
    case None => StaticOne(f, at)
    case Some(n) => StaticItems(f, n, at)
  }

  function StaticItems(f: Field, n: nat, at: nat): seq<Read>
    decreases f, 2, n
  {
    if n == 0 then [] else StaticOne(f, at) + StaticItems(f, n - 1, at + f.width)
  }

  function StaticOne(f: Field, at: nat): seq<Read>
    decreases f, 1
  {
    if f.kind.Group? then StaticTrace(f.kind.children, at) else [Read(at, f)]
  }

  lemma {:induction false} ReadsStaticSeq(
    fields: seq<Field>, base: nat, end: nat, bytes: seq<Byte>, enc: Encoding, scope: Scope
  )
    requires Static(fields) && end >= base && DecodeSeq(fields, base, 0, end, bytes, enc, scope).Ok?
    ensures var s := DecodeSeq(fields, base, 0, end, bytes, enc, scope).value;
            s.end == Max(end, base + StaticEnd(fields)) && s.trace == StaticTrace(fields, base)
    decreases fields, 0
  {
    hide DecodeSeq, DecodeField, Remember, Occurrences;
    if fields == [] {
      DecodeSeqNone(base, 0, end, bytes, enc, scope);
    } else {
      DecodeSeqCons(fields, base, 0, end, bytes, enc, scope);
      var f := fields[0];
      var at := base + f.offset;
      ReadsStaticField(f, at, bytes, enc, scope);
      var one := DecodeField(f, at, bytes, enc, scope).value;
      ReadsStaticSeq(fields[1..], base, Max(end, at + one.size), bytes, enc, Remember(f, one.value, one.scope));
    }
  }

  lemma {:induction false} ReadsStaticField(f: Field, at: nat, bytes: seq<Byte>, enc: Encoding, scope: Scope)
    requires StaticField(f) && DecodeField(f, at, bytes, enc, scope).Ok?
    ensures var one := DecodeField(f, at, bytes, enc, scope).value;
            one.size == f.ReservedWidth() && one.trace == Occurrences(f, at)
    decreases f, 3
  {
    hide DecodeOne, DecodeItems, StaticOne, StaticItems;
    match f.occurs {
      case None => ReadsStaticOne(f, at, bytes, enc, scope);
      case Some(n) => ReadsStaticItems(f, n, at, bytes, enc, scope);
    }
  }

  lemma {:induction false} ReadsStaticItems(f: Field, n: nat, at: nat, bytes: seq<Byte>, enc: Encoding, scope: Scope)
    requires StaticField(f) && DecodeItems(f, n, at, bytes, enc, scope).Ok?
    ensures var items := DecodeItems(f, n, at, bytes, enc, scope).value;
            items.end == at + f.width * n && items.trace == StaticItems(f, n, at)
    decreases f, 2, n
  {
    hide DecodeOne, StaticOne;
    if n > 0 {
      ReadsStaticOne(f, at, bytes, enc, scope);
      var one := DecodeOne(f, at, bytes, enc, scope).value;
      ReadsStaticItems(f, n - 1, at + one.size, bytes, enc, one.scope);
      assert f.width * n == f.width + f.width * (n - 1);
    }
  }

  lemma {:induction false} ReadsStaticOne(f: Field, at: nat, bytes: seq<Byte>, enc: Encoding, scope: Scope)
    requires StaticField(f) && DecodeOne(f, at, bytes, enc, scope).Ok?
    ensures var one := DecodeOne(f, at, bytes, enc, scope).value;
            one.size == f.width && one.trace == StaticOne(f, at)
    decreases f, 1
  {
    hide DecodeSeq, Leaf.DecodeLeaf;
    if f.kind.Group? { ReadsStaticSeq(f.kind.children, at, at, bytes, enc, scope); }
  }

  // ---------------------------------------------------------------- described offsets are read

  /** No field, at any level, is a table of no elements. */
  predicate NoEmptyTable(fields: seq<Field>)
    decreases fields, 0
  {
    fields == [] ||
    (fields[0].occurs != Some(0) && (fields[0].kind.Group? ==> NoEmptyTable(fields[0].kind.children)) &&
     NoEmptyTable(fields[1..]))
  }

  lemma {:induction false} DescribedInTrace(
    fields: seq<Field>, prefix: string, base: nat, depth: nat, d: Desc
  )
    requires NoEmptyTable(fields) && d in Walk(fields, prefix, base, depth) && !d.field.kind.Group?
    ensures Read(d.offset, d.field) in StaticTrace(fields, base)
    decreases fields, 0
  {
    var f := fields[0];
    if !f.kind.Pad? && d in WalkField(f, prefix, base, depth) {
      DescribedInOne(f, prefix, base, depth, d);
      OneInField(f, base + f.offset);
    } else {
      DescribedInTrace(fields[1..], prefix, base, depth, d);
    }
  }

  lemma OneInField(f: Field, at: nat)
    requires f.occurs != Some(0)
    ensures StaticOne(f, at) <= Occurrences(f, at)
  {
    hide StaticOne;
  }

  lemma {:induction false} DescribedInOne(f: Field, prefix: string, base: nat, depth: nat, d: Desc)
    requires (f.kind.Group? ==> NoEmptyTable(f.kind.children))
    requires d in WalkField(f, prefix, base, depth) && !d.field.kind.Group?
    ensures Read(d.offset, d.field) in StaticOne(f, base + f.offset)
    decreases f, 1
  {
    if f.kind.Group? {
      DescribedInTrace(f.kind.children, PathOf(prefix, f.name), base + f.offset, depth + 1, d);
    }
  }

  /**
   In a layout without variable tables the decoder never shifts: it consumes exactly the static
   length, its reads are exactly the static addresses, and every described leaf is read at the offset
   its description reports.
   */
  lemma DescribedIsRead(layout: Layout, bytes: seq<Byte>, enc: Encoding)
    requires Static(layout.fields) && NoEmptyTable(layout.fields) && layout.recordLen == StaticEnd(layout.fields)
    requires DecodeRecord(layout, bytes, enc).Ok?
    ensures var s := DecodeSeq(layout.fields, 0, 0, 0, bytes, enc, map[]).value;
            s.end == layout.recordLen && s.trace == StaticTrace(layout.fields, 0) &&
            forall d :: d in Walk(layout.fields, "", 0, 0) && !d.field.kind.Group? ==>
              Read(d.offset, d.field) in s.trace
  {
    ReadsStaticSeq(layout.fields, 0, 0, bytes, enc, map[]);
    forall d | d in Walk(layout.fields, "", 0, 0) && !d.field.kind.Group?
      ensures Read(d.offset, d.field) in StaticTrace(layout.fields, 0)
    {
      DescribedInTrace(layout.fields, "", 0, 0, d);
    }
  }

  // ---------------------------------------------------------------- described paths

  /** The names joined by points. */
  function Dotted(names: seq<string>): string {
    if names == [] then []
    else if |names| == 1 then names[0]
    else Dotted(names[..|names| - 1]) + ['.'] + names[|names| - 1]
  }

  /** The names lead from these fields through groups down to `f`. */
  predicate Leads(fields: seq<Field>, names: seq<string>, f: Field)
    decreases |names|
  {
    names != [] &&
    exists i :: 0 <= i < |fields| && fields[i].name == names[0] &&
      if |names| == 1 then fields[i] == f
      else fields[i].kind.Group? && Leads(fields[i].kind.children, names[1..], f)
  }

  /** No field, at any level, has an empty name. */
  predicate AllNamed(fields: seq<Field>)
    decreases fields
  {
    forall i :: 0 <= i < |fields| ==>
      fields[i].name != [] && (fields[i].kind.Group? ==> AllNamed(fields[i].kind.children))
  }

  lemma DottedSnoc(chain: seq<string>, name: string)
    requires name != [] && (chain != [] ==> Dotted(chain) != [])
    ensures PathOf(Dotted(chain), name) == Dotted(chain + [name]) != []
  {
    assert (chain + [name])[..|chain|] == chain;
  }

  lemma LeadsLater(fields: seq<Field>, names: seq<string>, f: Field)
    requires fields != [] && Leads(fields[1..], names, f)
    ensures Leads(fields, names, f)
  {
    var i :| 0 <= i < |fields[1..]| && fields[1..][i].name == names[0] &&
      if |names| == 1 then fields[1..][i] == f
      else fields[1..][i].kind.Group? && Leads(fields[1..][i].kind.children, names[1..], f);
    assert fields[i + 1] == fields[1..][i];
  }

  lemma {:induction false} PathFrom(fields: seq<Field>, chain: seq<string>, base: nat, d: Desc)
    returns (names: seq<string>)
    requires AllNamed(fields) && (chain != [] ==> Dotted(chain) != [])
    requires d in Walk(fields, Dotted(chain), base, |chain|)
    ensures names != [] && Leads(fields, names, d.field) && d.depth + 1 == |chain| + |names|
    ensures d.path == Dotted(chain + names)
    decreases fields, 0
  {
    hide PathOf, Dotted;
    var f := fields[0];
    if !f.kind.Pad? && d in WalkField(f, Dotted(chain), base, |chain|) {
      names := PathOne(f, chain, base, d);
      assert fields[0].name == names[0];
    } else {
      assert forall i :: 0 <= i < |fields[1..]| ==> fields[1..][i] == fields[i + 1];
      names := PathFrom(fields[1..], chain, base, d);
      LeadsLater(fields, names, d.field);
    }
  }

  lemma {:induction false} PathOne(f: Field, chain: seq<string>, base: nat, d: Desc) returns (names: seq<string>)
    requires f.name != [] && (f.kind.Group? ==> AllNamed(f.kind.children)) && (chain != [] ==> Dotted(chain) != [])
    requires d in WalkField(f, Dotted(chain), base, |chain|)
    ensures names != [] && names[0] == f.name && d.depth + 1 == |chain| + |names|
    ensures if |names| == 1 then f == d.field else f.kind.Group? && Leads(f.kind.children, names[1..], d.field)
    ensures d.path == Dotted(chain + names)
    decreases f, 1
  {
    hide PathOf, Dotted, Leads, WalkField, Walk, AllNamed;
    DottedSnoc(chain, f.name);
    FieldOrInside(f, Dotted(chain), base, |chain|, d);
    if d == Desc(PathOf(Dotted(chain), f.name), |chain|, base + f.offset, f) {
      names := [f.name];
    } else {
      var inner := PathFrom(f.kind.children, chain + [f.name], base + f.offset, d);
      names := [f.name] + inner;
      assert (chain + [f.name]) + inner == chain + names && names[1..] == inner;
    }
  }

  lemma FieldOrInside(f: Field, prefix: string, base: nat, depth: nat, d: Desc)
    requires d in WalkField(f, prefix, base, depth)
    ensures var path := PathOf(prefix, f.name);
            d == Desc(path, depth, base + f.offset, f) ||
            (f.kind.Group? && d in Walk(f.kind.children, path, base + f.offset, depth + 1))
  {
    hide PathOf, Walk;
  }

  /** A described field's path is the names that lead to it, joined by points; its depth is one less than their number. */
  lemma DescribedPath(layout: Layout, d: Desc) returns (names: seq<string>)
    requires AllNamed(layout.fields) && d in Walk(layout.fields, "", 0, 0)
    ensures Leads(layout.fields, names, d.field) && |names| == d.depth + 1 && d.path == Dotted(names)
  {
    hide Walk, AllNamed, Leads;
    names := PathFrom(layout.fields, [], 0, d);
    assert [] + names == names;
  }
}
