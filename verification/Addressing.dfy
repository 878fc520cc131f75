/**
 Contiguous layouts, the ones the JSON and template specifications produce: offsets without gaps and
 group widths equal to their members'. There the address arithmetic collapses: encoding is plain
 concatenation, and decoding reads every byte once, in order, with no list longer than the record.
 */
module Addressing {
  import opened Prelude
  import opened Layouts
  import opened Decode
  import opened Encode
  import opened Normal
  import opened RoundTrip
  import opened Ebcdic
  import Leaf

  /** The static bytes of siblings laid end to end. */
  function StaticWidth(fields: seq<Field>): nat {
    if fields == [] then 0 else fields[0].ReservedWidth() + StaticWidth(fields[1..])
  }

  /** Siblings laid end to end from an offset, groups exactly as wide as their members, at every level. */
  predicate Tight(fields: seq<Field>, from: nat)
    decreases fields, 0
  {
    fields == [] ||
    (fields[0].offset == from && TightField(fields[0]) && Tight(fields[1..], from + fields[0].ReservedWidth()))
  }

  predicate TightField(f: Field)
    decreases f, 1
  {
    f.kind.Group? ==> Tight(f.kind.children, 0) && f.width == StaticWidth(f.kind.children)
  }

  lemma NoBytes()
    ensures StaticEnd([]) == 0 && StaticWidth([]) == 0
  {
  }

  /** A field in front of contiguous siblings. */
  lemma TightCons(f: Field, rest: seq<Field>)
    requires TightField(f) && Tight(rest, f.offset + f.ReservedWidth())
    ensures Tight([f] + rest, f.offset) && StaticWidth([f] + rest) == f.ReservedWidth() + StaticWidth(rest)
  {
    assert ([f] + rest)[1..] == rest;
  }

  lemma {:induction false} TightStaticEnd(fields: seq<Field>, from: nat)
    requires Tight(fields, from)
    ensures fields != [] ==> StaticEnd(fields) == from + StaticWidth(fields)
    decreases |fields|
  {
    if fields != [] { TightStaticEnd(fields[1..], from + fields[0].ReservedWidth()); }
  }

  /** Contiguous siblings are in order. */
  lemma {:induction false} TightOrdered(fields: seq<Field>, from: nat)
    requires Tight(fields, from)
    ensures Ordered(fields)
    decreases fields, 0
  {
    if fields != [] {
      if fields[0].kind.Group? { TightOrdered(fields[0].kind.children, 0); }
      TightOrdered(fields[1..], from + fields[0].ReservedWidth());
    }
  }

  // ---------------------------------------------------------------- decoding reads every byte once

  /** Reads without a gap or an overlap from one address to another. */
  predicate Run(trace: seq<Read>, lo: nat, hi: nat)
    decreases |trace|
  {
    if trace == [] then lo == hi
    else trace[0].at == lo && Run(trace[1..], lo + trace[0].leaf.width, hi)
  }

  lemma {:induction false} RunConcat(a: seq<Read>, b: seq<Read>, lo: nat, mid: nat, hi: nat)
    requires Run(a, lo, mid) && Run(b, mid, hi)
    ensures Run(a + b, lo, hi)
    decreases |a|
  {
    if a == [] {
      assert a + b == b;
    } else {
      assert (a + b)[1..] == a[1..] + b;
      RunConcat(a[1..], b, lo + a[0].leaf.width, mid, hi);
    }
  }

  lemma {:induction false} RunSeq(
    fields: seq<Field>, from: nat, base: nat, shift: nat, bytes: seq<Byte>, enc: Encoding, scope: Scope
  )
    requires Tight(fields, from) && base + from + shift <= |bytes|
    requires DecodeSeq(fields, base, shift, base + from + shift, bytes, enc, scope).Ok?
    ensures var s := DecodeSeq(fields, base, shift, base + from + shift, bytes, enc, scope).value;
            Run(s.trace, base + from + shift, s.end) && s.end <= |bytes| &&
            s.end >= base + from + shift + StaticWidth(fields)
    decreases fields, 0
  {
    hide DecodeSeq, DecodeField, Remember, Run;
    var at := base + from + shift;
    if fields == [] {
      DecodeNothing(base, shift, at, bytes, enc, scope);
    } else {
      DecodeSeqCons(fields, base, shift, at, bytes, enc, scope);
      var f := fields[0];
      RunField(f, at, bytes, enc, scope);
      var one := DecodeField(f, at, bytes, enc, scope).value;
      var scope' := Remember(f, one.value, one.scope);
      RunSeq(fields[1..], from + f.ReservedWidth(), base, shift + Excess(f, one.size), bytes, enc, scope');
      var rest := DecodeSeq(fields[1..], base, shift + Excess(f, one.size), at + one.size, bytes, enc, scope').value;
      RunConcat(one.trace, rest.trace, at, at + one.size, rest.end);
    }
  }

  lemma DecodeNothing(base: nat, shift: nat, end: nat, bytes: seq<Byte>, enc: Encoding, scope: Scope)
    ensures DecodeSeq([], base, shift, end, bytes, enc, scope) == Ok(Siblings([], end, scope, []))
    ensures Run([], end, end)
  {
  }

  lemma {:induction false} RunField(f: Field, at: nat, bytes: seq<Byte>, enc: Encoding, scope: Scope)
    requires TightField(f) && at <= |bytes| && DecodeField(f, at, bytes, enc, scope).Ok?
    ensures var one := DecodeField(f, at, bytes, enc, scope).value;
            Run(one.trace, at, at + one.size) && at + one.size <= |bytes| && one.size >= f.ReservedWidth() &&
            (one.value.ListV? && !(f.dependingOn.None? && f.occurs.None?) ==> |one.value.items| <= |bytes| - at)
    decreases f, 3
  {
    hide DecodeOne, DecodeItems, Run;
    match CountFor(f, scope).value {
      case None => RunOne(f, at, bytes, enc, scope);
      case Some(n) => RunItems(f, n, at, bytes, enc, scope);
    }
  }

  lemma {:induction false} RunItems(f: Field, n: nat, at: nat, bytes: seq<Byte>, enc: Encoding, scope: Scope)
    requires TightField(f) && at <= |bytes| && DecodeItems(f, n, at, bytes, enc, scope).Ok?
    ensures var items := DecodeItems(f, n, at, bytes, enc, scope).value;
            Run(items.trace, at, items.end) && items.end <= |bytes| && items.end >= at + f.width * n
    decreases f, 2, n
  {
    hide DecodeOne, Run, DecodeItems;
    if n == 0 {
      NoItemsRun(f, at, bytes, enc, scope);
    } else {
      DecodeItemsCons(f, n, at, enc, scope, bytes);
      RunOne(f, at, bytes, enc, scope);
      var one := DecodeOne(f, at, bytes, enc, scope).value;
      RunItems(f, n - 1, at + one.size, bytes, enc, one.scope);
      var rest := DecodeItems(f, n - 1, at + one.size, bytes, enc, one.scope).value;
      RunConcat(one.trace, rest.trace, at, at + one.size, rest.end);
      OneMore(f.width, n);
    }
  }

  lemma NoItemsRun(f: Field, at: nat, bytes: seq<Byte>, enc: Encoding, scope: Scope)
    ensures DecodeItems(f, 0, at, bytes, enc, scope) == Ok(Items([], at, scope, [])) && Run([], at, at)
  {
  }

  lemma OneMore(w: nat, n: nat)
    requires n > 0
    ensures w * n == w + w * (n - 1)
  {
  }

  lemma {:induction false} RunOne(f: Field, at: nat, bytes: seq<Byte>, enc: Encoding, scope: Scope)
    requires TightField(f) && at <= |bytes| && DecodeOne(f, at, bytes, enc, scope).Ok?
    ensures var one := DecodeOne(f, at, bytes, enc, scope).value;
            Run(one.trace, at, at + one.size) && at + one.size <= |bytes| && one.size >= f.width
    decreases f, 1
  {
    hide DecodeSeq, Run, Leaf.DecodeLeaf;
    if f.kind.Group? {
      RunSeq(f.kind.children, 0, at, 0, bytes, enc, scope);
    } else {
      RunLeaf(f, at);
    }
  }

  lemma RunLeaf(f: Field, at: nat)
    ensures Run([Read(at, f)], at, at + f.width)
  {
    assert [Read(at, f)][1..] == [];
  }

  /**
   Decoding a contiguous layout reads the record from its first byte to the last one consumed with
   no gap and no overlap: each leaf starts exactly where the previous leaf's actual bytes ended.
   */
  lemma DecodeReadsInOrder(layout: Layout, bytes: seq<Byte>, enc: Encoding)
    requires Tight(layout.fields, 0) && DecodeRecord(layout, bytes, enc).Ok?
    ensures var s := DecodeSeq(layout.fields, 0, 0, 0, bytes, enc, map[]).value;
            Run(s.trace, 0, s.end) && StaticWidth(layout.fields) <= s.end <= |bytes|
  {
    RunSeq(layout.fields, 0, 0, 0, bytes, enc, map[]);
  }

  /** A decoded table never has more elements than the record has bytes left, whatever its controller claims. */
  lemma ListBounded(f: Field, at: nat, bytes: seq<Byte>, enc: Encoding, scope: Scope)
    requires TightField(f) && at <= |bytes| && (f.dependingOn.Some? || f.occurs.Some?)
    requires DecodeField(f, at, bytes, enc, scope).Ok?
    ensures var v := DecodeField(f, at, bytes, enc, scope).value.value;
            v.ListV? && |v.items| <= |bytes| - at
  {
    RunField(f, at, bytes, enc, scope);
  }

  // ---------------------------------------------------------------- encoding is concatenation

  /** The simple form: the encodings of the leaves one after another, no addresses at all. */
  function SerialSeq(fields: seq<Field>, values: Pairs, enc: Encoding): Result<seq<Byte>>
    decreases fields, 0
  {
    if fields == [] then Ok([])
    else
      var head :- SerialField(fields[0], Lookup(values, fields[0].name), enc);
      var rest :- SerialSeq(fields[1..], values, enc);
      Ok(head + rest)
  }

  function SerialField(f: Field, v: Value, enc: Encoding): Result<seq<Byte>>
    decreases f, 3
  {
    var elements :- Elements(f, v);
    match elements
    case None => SerialOne(f, v, enc)
    case Some(items) => SerialItems(f, items, enc)
  }

  function SerialItems(f: Field, items: seq<Value>, enc: Encoding): Result<seq<Byte>>
    decreases f, 2, |items|
  {
    if items == [] then Ok([])
    else
      var head :- SerialOne(f, items[0], enc);
      var rest :- SerialItems(f, items[1..], enc);
      Ok(head + rest)
  }

  function SerialOne(f: Field, v: Value, enc: Encoding): Result<seq<Byte>>
    decreases f, 1
  {
    if f.kind.Group? then
      var pairs :- Members(v);
      SerialSeq(f.kind.children, pairs, enc)
    else Leaf.EncodeLeaf(f, v, enc)
  }

  /** The bytes of writes one after another from one address to another. */
  predicate Laid(ws: seq<Write>, lo: nat, hi: nat, data: seq<Byte>)
    decreases |ws|
  {
    if ws == [] then lo == hi && data == []
    else
      ws[0].at == lo && ws[0].data <= data &&
      Laid(ws[1..], lo + |ws[0].data|, hi, data[|ws[0].data|..])
  }

  lemma {:induction false} LaidLength(ws: seq<Write>, lo: nat, hi: nat, data: seq<Byte>)
    requires Laid(ws, lo, hi, data)
    ensures lo + |data| == hi
    decreases |ws|
  {
    if ws != [] { LaidLength(ws[1..], lo + |ws[0].data|, hi, data[|ws[0].data|..]); }
  }

  lemma {:induction false} LaidConcat(
    a: seq<Write>, b: seq<Write>, lo: nat, mid: nat, hi: nat, x: seq<Byte>, y: seq<Byte>
  )
    requires Laid(a, lo, mid, x) && Laid(b, mid, hi, y)
    ensures Laid(a + b, lo, hi, x + y)
    decreases |a|
  {
    if a == [] {
      assert a + b == b && x + y == y;
    } else {
      assert (a + b)[1..] == a[1..] + b;
      var k := |a[0].data|;
      LaidConcat(a[1..], b, lo + k, mid, hi, x[k..], y);
      assert (x + y)[k..] == x[k..] + y;
      assert a[0].data <= x + y;
    }
  }

  lemma {:induction false} SerialIsPlanSeq(
    fields: seq<Field>, from: nat, base: nat, shift: nat, values: Pairs, enc: Encoding, scope: Scope
  )
    requires Tight(fields, from) && InSeq(fields, values, scope)
    ensures var p := PlanSeq(fields, base, shift, base + from + shift, values, enc);
            var data := SerialSeq(fields, values, enc);
            p.Ok? && data.Ok? && Laid(p.value.writes, base + from + shift, p.value.end, data.value) &&
            p.value.end >= base + from + shift + StaticWidth(fields)
    decreases fields, 0
  {
    hide PlanSeq, PlanField, InSeq, InField, NormField, Lookup, Remember, Laid, SerialField;
    var at := base + from + shift;
    if fields == [] {
      PlanSeqEmpty(base, shift, at, values, enc);
      LaidNothing(at);
    } else {
      InSeqCons(fields, values, scope);
      PlanSeqCons(fields, base, shift, at, values, enc);
      var f := fields[0];
      var v := Lookup(values, f.name);
      SerialIsPlanField(f, at, v, enc, scope);
      var one, n := PlanField(f, at, v, enc).value, NormField(f, v, scope);
      var shift' := shift + Excess(f, one.end - at);
      SerialIsPlanSeq(fields[1..], from + f.ReservedWidth(), base, shift', values, enc, Remember(f, n.value, n.scope));
      var rest := PlanSeq(fields[1..], base, shift', one.end, values, enc).value;
      LaidConcat(one.writes, rest.writes, at, one.end, rest.end,
                 SerialField(f, v, enc).value, SerialSeq(fields[1..], values, enc).value);
    }
  }

  lemma LaidNothing(at: nat)
    ensures Laid([], at, at, [])
  {
  }

  lemma {:induction false} SerialIsPlanField(f: Field, at: nat, v: Value, enc: Encoding, scope: Scope)
    requires TightField(f) && InField(f, v, scope)
    ensures var p, data := PlanField(f, at, v, enc), SerialField(f, v, enc);
            p.Ok? && data.Ok? && Laid(p.value.writes, at, p.value.end, data.value) &&
            p.value.end >= at + f.ReservedWidth()
    decreases f, 3
  {
    hide PlanOne, PlanItems, InOne, InItems, Laid;
    match Elements(f, v) {
      case Ok(None) => SerialIsPlanOne(f, at, v, enc, scope);
      case Ok(Some(items)) => SerialIsPlanItems(f, items, at, enc, scope);
    }
  }

  lemma {:induction false} SerialIsPlanItems(f: Field, items: seq<Value>, at: nat, enc: Encoding, scope: Scope)
    requires TightField(f) && InItems(f, items, scope)
    ensures var p, data := PlanItems(f, items, at, enc), SerialItems(f, items, enc);
            p.Ok? && data.Ok? && Laid(p.value.writes, at, p.value.end, data.value) &&
            p.value.end >= at + f.width * |items|
    decreases f, 2, |items|
  {
    hide PlanOne, InOne, NormOne, Laid, SizeOne;
    if items == [] {
      LaidNothing(at);
    } else {
      SerialIsPlanOne(f, at, items[0], enc, scope);
      var one := PlanOne(f, at, items[0], enc).value;
      SerialIsPlanItems(f, items[1..], one.end, enc, NormOne(f, items[0], scope).scope);
      var rest := PlanItems(f, items[1..], one.end, enc).value;
      LaidConcat(one.writes, rest.writes, at, one.end, rest.end,
                 SerialOne(f, items[0], enc).value, SerialItems(f, items[1..], enc).value);
      assert f.width * |items| == f.width + f.width * (|items| - 1);
    }
  }

  lemma {:induction false} SerialIsPlanOne(f: Field, at: nat, v: Value, enc: Encoding, scope: Scope)
    requires TightField(f) && InOne(f, v, scope)
    ensures var p, data := PlanOne(f, at, v, enc), SerialOne(f, v, enc);
            p.Ok? && data.Ok? && Laid(p.value.writes, at, p.value.end, data.value) &&
            p.value.end >= at + f.width
    decreases f, 1
  {
    hide PlanSeq, InSeq, Leaf.EncodeLeaf, Leaf.DecodeLeaf, Leaf.Storable;
    if f.kind.Group? {
      SerialIsPlanSeq(f.kind.children, 0, at, 0, MembersOf(v), enc, scope);
    } else {
      Leaf.RoundTrip(f, v, enc);
      var w := Write(at, Leaf.EncodeLeaf(f, v, enc).value, f);
      assert [w][1..] == [] && w.data[|w.data|..] == [];
    }
  }

  lemma PutPrefix(buf: seq<Byte>, lo: nat, d: seq<Byte>)
    requires lo <= |buf|
    ensures Put(buf, lo, d)[..lo + |d|] == buf[..lo] + d
  {
  }

  /** Carrying out laid-out writes on a buffer no longer than their end yields exactly their bytes. */
  lemma {:induction false} PutAllLaid(buf: seq<Byte>, ws: seq<Write>, lo: nat, hi: nat, data: seq<Byte>)
    requires Laid(ws, lo, hi, data) && lo <= |buf| <= hi
    ensures PutAll(buf, ws) == buf[..lo] + data
    decreases |ws|
  {
    hide Put;
    if ws == [] {
      assert buf[..lo] + [] == buf;
    } else {
      LaidLength(ws, lo, hi, data);
      var k := |ws[0].data|;
      LaidLength(ws[1..], lo + k, hi, data[k..]);
      var now := Put(buf, lo, ws[0].data);
      PutPrefix(buf, lo, ws[0].data);
      PutAllLaid(now, ws[1..], lo + k, hi, data[k..]);
      assert data == ws[0].data + data[k..];
      assert buf[..lo] + data == (buf[..lo] + ws[0].data) + data[k..];
    }
  }

  /**
   On a contiguous layout the in-place encoder computes the concatenation of the leaf encodings:
   offsets, shifts and buffer growth all cancel out.
   */
  lemma EncodeIsSerial(fields: seq<Field>, values: Pairs, enc: Encoding)
    requires Tight(fields, 0) && Supplied(fields, values) && InSeq(fields, values, map[])
    ensures EncodeRecord(FromFields(fields), values, enc).Ok?
    ensures EncodeRecord(FromFields(fields), values, enc) == SerialSeq(fields, values, enc)
  {
    hide PlanSeq, SerialSeq, InSeq, PutAll, Supplied, Tight, Laid;
    SerialIsPlanSeq(fields, 0, 0, 0, values, enc, map[]);
    TightStaticEnd(fields, 0);
    var p, data := PlanSeq(fields, 0, 0, 0, values, enc).value, SerialSeq(fields, values, enc).value;
    var buf := Repeat<Byte>(0, StaticEnd(fields));
    PutAllLaid(buf, p.writes, 0, p.end, data);
    assert buf[..0] + data == data;
  }
}
