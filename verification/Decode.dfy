/**
 Decoding record bytes into values, driven by a layout. The functions are the specification and
 also list every leaf read, with its address; the methods are the source's loops.
 */
module Decode {
  import opened Prelude
  import opened Layouts
  import opened Ebcdic
  import Leaf
  import Strings

  /** Decoded integers by upper-case field name, where tables find their lengths. */
  type Scope = map<string, I64>

  datatype Read = Read(at: nat, leaf: Field)

  datatype One = One(value: Value, size: nat, scope: Scope, trace: seq<Read>)
  datatype Items = Items(values: seq<Value>, end: nat, scope: Scope, trace: seq<Read>)
  datatype Siblings = Siblings(pairs: Pairs, end: nat, scope: Scope, trace: seq<Read>)

  /** The number of elements of a table; None for a field that does not repeat. */
  function CountFor(f: Field, scope: Scope): Result<Option<nat>> {
    match f.dependingOn
    case None => Ok(f.occurs)
    case Some(ctrl) =>
      var key := Strings.Upper(ctrl);
      if key !in scope || scope[key] < 0 then Err
      else if f.occurs.Some? && scope[key] > f.occurs.value then Err
      else Ok(Some(scope[key]))
  }

  /** The scope after a sibling's value is known: scalar integers are remembered by name. */
  function Remember(f: Field, v: Value, scope: Scope): Scope {
    if f.kind.Pad? || !v.IntV? then scope else scope[Strings.Upper(f.name) := v.n]
  }

  /** The pair a sibling contributes: none for a pad. */
  function Shown(f: Field, v: Value): Pairs {
    if f.kind.Pad? then [] else [(f.name, v)]
  }

  /** How far a field's actual bytes exceed its static reservation. */
  function Excess(f: Field, size: nat): nat {
    if size <= f.ReservedWidth() then 0 else size - f.ReservedWidth()
  }

  function DecodeSeq(
    fields: seq<Field>, base: nat, shift: nat, end: nat, bytes: seq<Byte>, enc: Encoding, scope: Scope
  ): (r: Result<Siblings>)
    ensures r.Ok? ==> r.value.end >= end
    decreases fields, 0
  {
    if fields == [] then Ok(Siblings([], end, scope, []))
    else
      var f := fields[0];
      var at := base + f.offset + shift;
      var one :- DecodeField(f, at, bytes, enc, scope);
      var rest :- DecodeSeq(fields[1..], base, shift + Excess(f, one.size), Max(end, at + one.size),
                            bytes, enc, Remember(f, one.value, one.scope));
      Ok(Siblings(Shown(f, one.value) + rest.pairs, rest.end, rest.scope, one.trace + rest.trace))
  }

  function DecodeField(f: Field, at: nat, bytes: seq<Byte>, enc: Encoding, scope: Scope): Result<One>
    decreases f, 3
  {
    var count :- CountFor(f, scope);
    match count
    case None => DecodeOne(f, at, bytes, enc, scope)
    case Some(n) =>
      var items :- DecodeItems(f, n, at, bytes, enc, scope);
      Ok(One(ListV(items.values), items.end - at, items.scope, items.trace))
  }

  /** `n` elements one after another; an element of no bytes is refused. */
  function DecodeItems(f: Field, n: nat, at: nat, bytes: seq<Byte>, enc: Encoding, scope: Scope): (r: Result<Items>)
    ensures r.Ok? ==> r.value.end >= at + n && |r.value.values| == n
    decreases f, 2, n
  {
    if n == 0 then Ok(Items([], at, scope, []))
    else
      var one :- DecodeOne(f, at, bytes, enc, scope);
      if one.size == 0 then Err
      else
        var rest :- DecodeItems(f, n - 1, at + one.size, bytes, enc, one.scope);
        Ok(Items([one.value] + rest.values, rest.end, rest.scope, one.trace + rest.trace))
  }

  function DecodeOne(f: Field, at: nat, bytes: seq<Byte>, enc: Encoding, scope: Scope): Result<One>
    decreases f, 1
  {
    if f.kind.Group? then
      var s :- DecodeSeq(f.kind.children, at, 0, at, bytes, enc, scope);
      Ok(One(StructV(s.pairs), s.end - at, s.scope, s.trace))
    else if at + f.width > |bytes| then Err
    else
      var v :- Leaf.DecodeLeaf(f, bytes[at..at + f.width], enc);
      Ok(One(v, f.width, scope, [Read(at, f)]))
  }

  lemma DecodeSeqNone(base: nat, shift: nat, end: nat, bytes: seq<Byte>, enc: Encoding, scope: Scope)
    ensures DecodeSeq([], base, shift, end, bytes, enc, scope) == Ok(Siblings([], end, scope, []))
  {
  }

  /** One step of decoding a sibling list. */
  lemma DecodeSeqCons(
    fields: seq<Field>, base: nat, shift: nat, end: nat, bytes: seq<Byte>, enc: Encoding, scope: Scope
  )
    requires fields != []
    ensures var f := fields[0];
            var at := base + f.offset + shift;
            var one := DecodeField(f, at, bytes, enc, scope);
            DecodeSeq(fields, base, shift, end, bytes, enc, scope) ==
            if one.Err? then Err
            else
              var rest := DecodeSeq(fields[1..], base, shift + Excess(f, one.value.size),
                                    Max(end, at + one.value.size), bytes, enc,
                                    Remember(f, one.value.value, one.value.scope));
              if rest.Err? then Err
              else Ok(Siblings(Shown(f, one.value.value) + rest.value.pairs, rest.value.end, rest.value.scope,
                               one.value.trace + rest.value.trace))
  {
  }

  /** One step of decoding a table. */
  lemma DecodeItemsCons(f: Field, n: nat, at: nat, enc: Encoding, scope: Scope, bytes: seq<Byte>)
    requires n > 0
    ensures var got := DecodeOne(f, at, bytes, enc, scope);
            DecodeItems(f, n, at, bytes, enc, scope) ==
            if got.Err? || got.value.size == 0 then Err
            else
              var later := DecodeItems(f, n - 1, at + got.value.size, bytes, enc, got.value.scope);
              if later.Err? then Err
              else Ok(Items([got.value.value] + later.value.values, later.value.end, later.value.scope,
                            got.value.trace + later.value.trace))
  {
    hide DecodeOne;
  }

  /** A fixed-length record shorter than its layout is refused. */
  predicate LengthOk(layout: Layout, n: nat) {
    layout.variable || n >= layout.recordLen
  }

  function DecodeRecord(layout: Layout, bytes: seq<Byte>, enc: Encoding): Result<Pairs> {
    if !LengthOk(layout, |bytes|) then Err
    else
      var s :- DecodeSeq(layout.fields, 0, 0, 0, bytes, enc, map[]);
      Ok(s.pairs)
  }

  /**
   A table has as many elements as declared, or as its controller holds: the controller must be known,
   not negative, and within the declared maximum. No element is empty.
   */
  lemma TableLength(f: Field, at: nat, bytes: seq<Byte>, enc: Encoding, scope: Scope)
    requires f.dependingOn.Some? || f.occurs.Some?
    ensures var r := DecodeField(f, at, bytes, enc, scope);
            (r.Ok? ==> r.value.value.ListV? && r.value.size >= |r.value.value.items|) &&
            match f.dependingOn
            case None => r.Ok? ==> |r.value.value.items| == f.occurs.value
            case Some(ctrl) =>
              var key := Strings.Upper(ctrl);
              (r.Ok? ==> key in scope && scope[key] == |r.value.value.items|) &&
              (r.Ok? && f.occurs.Some? ==> |r.value.value.items| <= f.occurs.value)
  {
    hide DecodeOne, DecodeItems;
  }

  /** A sibling decoded as an integer sets the length of every table that depends on it by name, in any letter case. */
  lemma ControllerCounts(f: Field, n: I64, table: Field, scope: Scope)
    requires !f.kind.Pad? && table.dependingOn.Some? && Strings.SameName(table.dependingOn.value, f.name)
    ensures CountFor(table, Remember(f, IntV(n), scope))
         == if n < 0 || (table.occurs.Some? && n > table.occurs.value) then Err else Ok(Some(n))
  {
    hide Strings.Upper;
  }

  /** A record of a layout of fixed length is refused when it is shorter, and read when its fields are otherwise. */
  lemma ShortRefused(layout: Layout, bytes: seq<Byte>, enc: Encoding)
    ensures !layout.variable && |bytes| < layout.recordLen ==> DecodeRecord(layout, bytes, enc).Err?
    ensures layout.variable || |bytes| >= layout.recordLen ==>
      (DecodeRecord(layout, bytes, enc).Ok? <==> DecodeSeq(layout.fields, 0, 0, 0, bytes, enc, map[]).Ok?)
  {
    hide DecodeSeq;
  }

  // ---------------------------------------------------------------- the source's loops

  class ScopeTable {
    var counts: Scope

    constructor ()
      ensures counts == map[]
    {
      counts := map[];
    }
  }

  /** A whole list is a done prefix in front of the outcome of the rest. */
  ghost predicate SeqGoesOn(whole: Result<Siblings>, done: Pairs, rest: Result<Siblings>) {
    if rest.Err? then whole.Err?
    else whole.Ok? && whole.value.pairs == done + rest.value.pairs &&
         whole.value.end == rest.value.end && whole.value.scope == rest.value.scope
  }

  ghost predicate ItemsGoOn(whole: Result<Items>, done: seq<Value>, rest: Result<Items>) {
    if rest.Err? then whole.Err?
    else whole.Ok? && whole.value.values == done + rest.value.values &&
         whole.value.end == rest.value.end && whole.value.scope == rest.value.scope
  }

  lemma SeqStart(whole: Result<Siblings>)
    ensures SeqGoesOn(whole, [], whole)
  {
    if whole.Ok? { assert [] + whole.value.pairs == whole.value.pairs; }
  }

  lemma SeqStep(
    whole: Result<Siblings>, done: Pairs, fields: seq<Field>, base: nat, shift: nat, end: nat,
    bytes: seq<Byte>, enc: Encoding, scope: Scope
  )
    requires fields != []
    requires SeqGoesOn(whole, done, DecodeSeq(fields, base, shift, end, bytes, enc, scope))
    ensures var f := fields[0];
            var at := base + f.offset + shift;
            var one := DecodeField(f, at, bytes, enc, scope);
            if one.Err? then whole.Err?
            else
              SeqGoesOn(whole, done + Shown(f, one.value.value),
                        DecodeSeq(fields[1..], base, shift + Excess(f, one.value.size), Max(end, at + one.value.size),
                                  bytes, enc, Remember(f, one.value.value, one.value.scope)))
  {
    hide DecodeField, Remember, Excess, Shown;
    var f := fields[0];
    var at := base + f.offset + shift;
    var one := DecodeField(f, at, bytes, enc, scope);
    if one.Ok? {
      var rest := DecodeSeq(fields[1..], base, shift + Excess(f, one.value.size), Max(end, at + one.value.size),
                            bytes, enc, Remember(f, one.value.value, one.value.scope));
      if rest.Ok? {
        var x := Shown(f, one.value.value);
        assert done + (x + rest.value.pairs) == (done + x) + rest.value.pairs;
      }
    }
  }

  lemma SeqDone(
    whole: Result<Siblings>, done: Pairs, base: nat, shift: nat, end: nat,
    bytes: seq<Byte>, enc: Encoding, scope: Scope
  )
    requires SeqGoesOn(whole, done, DecodeSeq([], base, shift, end, bytes, enc, scope))
    ensures whole.Ok? && whole.value.pairs == done && whole.value.end == end && whole.value.scope == scope
  {
    assert done + [] == done;
  }

  lemma ItemsStart(whole: Result<Items>)
    ensures ItemsGoOn(whole, [], whole)
  {
    if whole.Ok? { assert [] + whole.value.values == whole.value.values; }
  }

  lemma ItemsStep(
    whole: Result<Items>, done: seq<Value>, f: Field, n: nat, at: nat, bytes: seq<Byte>, enc: Encoding, scope: Scope
  )
    requires n > 0
    requires ItemsGoOn(whole, done, DecodeItems(f, n, at, bytes, enc, scope))
    ensures var one := DecodeOne(f, at, bytes, enc, scope);
            if one.Err? || one.value.size == 0 then whole.Err?
            else
              ItemsGoOn(whole, done + [one.value.value],
                        DecodeItems(f, n - 1, at + one.value.size, bytes, enc, one.value.scope))
  {
    hide DecodeOne;
    var one := DecodeOne(f, at, bytes, enc, scope);
    if one.Ok? && one.value.size > 0 {
      var rest := DecodeItems(f, n - 1, at + one.value.size, bytes, enc, one.value.scope);
      if rest.Ok? {
        assert done + ([one.value.value] + rest.value.values) == (done + [one.value.value]) + rest.value.values;
      }
    }
  }

  lemma ItemsDone(
    whole: Result<Items>, done: seq<Value>, f: Field, at: nat, bytes: seq<Byte>, enc: Encoding, scope: Scope
  )
    requires ItemsGoOn(whole, done, DecodeItems(f, 0, at, bytes, enc, scope))
    ensures whole.Ok? && whole.value.values == done && whole.value.end == at && whole.value.scope == scope
  {
    assert done + [] == done;
  }

  method ReadRecord(layout: Layout, bytes: seq<Byte>, enc: Encoding) returns (r: Result<Pairs>)
    ensures r == DecodeRecord(layout, bytes, enc)
  {
    if !LengthOk(layout, |bytes|) {
      return Err;
    }
    var scope := new ScopeTable();
    var res := ReadSeq(layout.fields, 0, bytes, enc, scope);
    return if res.Err? then Err else Ok(res.value.0);
  }

  /** The loop over siblings: `shift` carries the excess of the tables met so far. */
  method ReadSeq(fields: seq<Field>, base: nat, bytes: seq<Byte>, enc: Encoding, scope: ScopeTable)
    returns (r: Result<(Pairs, nat)>)
    modifies scope
    ensures var s := DecodeSeq(fields, base, 0, base, bytes, enc, old(scope.counts));
            r == (if s.Err? then Err else Ok((s.value.pairs, s.value.end - base))) &&
            (s.Ok? ==> scope.counts == s.value.scope)
    decreases fields, 0
  {
    hide DecodeSeq, DecodeField, SeqGoesOn;
    var out: Pairs := [];
    var shift: nat, end: nat := 0, base;
    ghost var whole := DecodeSeq(fields, base, 0, base, bytes, enc, scope.counts);
    SeqStart(whole);
    assert fields[0..] == fields;
    for i := 0 to |fields|
      invariant end >= base
      invariant SeqGoesOn(whole, out, DecodeSeq(fields[i..], base, shift, end, bytes, enc, scope.counts))
    {
      var f := fields[i];
      assert fields[i..][0] == f && fields[i..][1..] == fields[i + 1..];
      SeqStep(whole, out, fields[i..], base, shift, end, bytes, enc, scope.counts);
      var at := base + f.offset + shift;
      var res := ReadField(f, at, bytes, enc, scope);
      if res.Err? {
        return Err;
      }
      var (value, size) := res.value;
      shift := shift + Excess(f, size);
      end := Max(end, at + size);
      if !f.kind.Pad? {
        if value.IntV? {
          scope.counts := scope.counts[Strings.Upper(f.name) := value.n];
        }
        out := out + [(f.name, value)];
      } else {
        assert out + [] == out;
      }
    }
    assert fields[|fields|..] == [];
    SeqDone(whole, out, base, shift, end, bytes, enc, scope.counts);
    return Ok((out, end - base));
  }

  method ReadField(f: Field, at: nat, bytes: seq<Byte>, enc: Encoding, scope: ScopeTable)
    returns (r: Result<(Value, nat)>)
    modifies scope
    ensures var s := DecodeField(f, at, bytes, enc, old(scope.counts));
            r == (if s.Err? then Err else Ok((s.value.value, s.value.size))) &&
            (s.Ok? ==> scope.counts == s.value.scope)
    decreases f, 3
  {
    hide DecodeItems, DecodeOne, CountFor;
    var count := CountFor(f, scope.counts);
    match count {
      case Err => return Err;
      case Ok(None) =>
        r := ReadOne(f, at, bytes, enc, scope);
      case Ok(Some(n)) =>
        r := ReadItems(f, n, at, bytes, enc, scope);
    }
  }

  /** The loop over the elements of a table. */
  method ReadItems(f: Field, n: nat, at: nat, bytes: seq<Byte>, enc: Encoding, scope: ScopeTable)
    returns (r: Result<(Value, nat)>)
    modifies scope
    ensures var s := DecodeItems(f, n, at, bytes, enc, old(scope.counts));
            r == (if s.Err? then Err else Ok((ListV(s.value.values), s.value.end - at))) &&
            (s.Ok? ==> scope.counts == s.value.scope)
    decreases f, 2
  {
    hide DecodeItems, DecodeOne, ItemsGoOn;
    var items: seq<Value> := [];
    var cursor: nat := at;
    ghost var whole := DecodeItems(f, n, at, bytes, enc, scope.counts);
    ItemsStart(whole);
    for i := 0 to n
      invariant cursor >= at
      invariant ItemsGoOn(whole, items, DecodeItems(f, n - i, cursor, bytes, enc, scope.counts))
    {
      ItemsStep(whole, items, f, n - i, cursor, bytes, enc, scope.counts);
      var res := ReadOne(f, cursor, bytes, enc, scope);
      if res.Err? {
        return Err;
      }
      var (value, size) := res.value;
      if size == 0 {
        return Err;
      }
      cursor := cursor + size;
      items := items + [value];
    }
    ItemsDone(whole, items, f, cursor, bytes, enc, scope.counts);
    return Ok((ListV(items), cursor - at));
  }

  method ReadOne(f: Field, at: nat, bytes: seq<Byte>, enc: Encoding, scope: ScopeTable)
    returns (r: Result<(Value, nat)>)
    modifies scope
    ensures var s := DecodeOne(f, at, bytes, enc, old(scope.counts));
            r == (if s.Err? then Err else Ok((s.value.value, s.value.size))) &&
            (s.Ok? ==> scope.counts == s.value.scope)
    decreases f, 1
  {
    hide DecodeSeq, Leaf.DecodeLeaf;
    if f.kind.Group? {
      var res := ReadSeq(f.kind.children, at, bytes, enc, scope);
      return if res.Err? then Err else Ok((StructV(res.value.0), res.value.1));
    }
    if at + f.width > |bytes| {
      return Err;
    }
    var v := Leaf.DecodeLeaf(f, bytes[at..at + f.width], enc);
    return if v.Err? then Err else Ok((v.value, f.width));
  }
}
