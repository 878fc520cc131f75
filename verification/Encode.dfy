/**
 Encoding values into record bytes. The specification is a plan, the list of writes an encoding
 performs with their addresses, and a buffer that carries the writes out; the methods are the
 source's loops over a growing buffer.
 */
module Encode {
  import opened Prelude
  import opened Layouts
  import opened Ebcdic
  import Leaf
  import Strings
  import Decode

  datatype Write = Write(at: nat, data: seq<Byte>, leaf: Field)

  datatype Plan = Plan(writes: seq<Write>, end: nat)

  /** A list cut or filled with NULLs to exactly `n` elements. */
  function Fit(items: seq<Value>, n: nat): (r: seq<Value>)
    ensures |r| == n
    ensures forall i :: 0 <= i < n ==> r[i] == if i < |items| then items[i] else Null
  {
    if n <= |items| then items[..n] else items + Repeat(Null, n - |items|)
  }

  /** The elements a repeating field writes; None for a field that does not repeat. */
  function Elements(f: Field, v: Value): Result<Option<seq<Value>>> {
    if f.dependingOn.None? && f.occurs.None? then Ok(None)
    else if !v.ListV? && !v.Null? then Err
    else
      var items := if v.ListV? then v.items else [];
      Ok(Some(if f.dependingOn.Some? then items else Fit(items, f.occurs.value)))
  }

  /** The members of a group value; NULL has none. */
  function Members(v: Value): Result<Pairs> {
    match v
    case StructV(pairs) => Ok(pairs)
    case Null => Ok([])
    case _ => Err
  }

  function PlanSeq(fields: seq<Field>, base: nat, shift: nat, end: nat, values: Pairs, enc: Encoding): (r: Result<Plan>)
    ensures r.Ok? ==> r.value.end >= end
    decreases fields, 0
  {
    if fields == [] then Ok(Plan([], end))
    else
      var f := fields[0];
      var at := base + f.offset + shift;
      var one :- PlanField(f, at, Lookup(values, f.name), enc);
      var rest :- PlanSeq(fields[1..], base, shift + Decode.Excess(f, one.end - at), Max(end, one.end), values, enc);
      Ok(Plan(one.writes + rest.writes, rest.end))
  }

  function PlanField(f: Field, at: nat, v: Value, enc: Encoding): (r: Result<Plan>)
    ensures r.Ok? ==> r.value.end >= at
    decreases f, 3
  {
    var elements :- Elements(f, v);
    match elements
    case None => PlanOne(f, at, v, enc)
    case Some(items) => PlanItems(f, items, at, enc)
  }

  function PlanItems(f: Field, items: seq<Value>, at: nat, enc: Encoding): (r: Result<Plan>)
    ensures r.Ok? ==> r.value.end >= at
    decreases f, 2, |items|
  {
    if items == [] then Ok(Plan([], at))
    else
      var one :- PlanOne(f, at, items[0], enc);
      var rest :- PlanItems(f, items[1..], one.end, enc);
      Ok(Plan(one.writes + rest.writes, rest.end))
  }

  function PlanOne(f: Field, at: nat, v: Value, enc: Encoding): (r: Result<Plan>)
    ensures r.Ok? ==> r.value.end >= at
    decreases f, 1
  {
    if f.kind.Group? then
      var pairs :- Members(v);
      PlanSeq(f.kind.children, at, 0, at, pairs, enc)
    else
      var data :- Leaf.EncodeLeaf(f, v, enc);
      Ok(Plan([Write(at, data, f)], at + f.width))
  }

  /** One step of the plan of a sibling list. */
  lemma PlanSeqCons(fields: seq<Field>, base: nat, shift: nat, end: nat, values: Pairs, enc: Encoding)
    requires fields != []
    ensures var f := fields[0];
            var at := base + f.offset + shift;
            var one := PlanField(f, at, Lookup(values, f.name), enc);
            PlanSeq(fields, base, shift, end, values, enc) ==
            if one.Err? then Err
            else
              var rest := PlanSeq(fields[1..], base, shift + Decode.Excess(f, one.value.end - at),
                                  Max(end, one.value.end), values, enc);
              if rest.Err? then Err else Ok(Plan(one.value.writes + rest.value.writes, rest.value.end))
  {
  }

  /** Overwrites a stretch of the buffer, first growing it with zeros as far as needed. */
  function Put(buf: seq<Byte>, at: nat, data: seq<Byte>): (r: seq<Byte>)
    ensures |r| == Max(|buf|, at + |data|)
    ensures forall i :: 0 <= i < |r| ==>
      r[i] == if at <= i < at + |data| then data[i - at] else if i < |buf| then buf[i] else 0
  {
    var grown := Grow(buf, at + |data|);
    grown[..at] + data + grown[at + |data|..]
  }

  function Grow(buf: seq<Byte>, end: nat): (r: seq<Byte>)
    ensures |r| == Max(|buf|, end)
    ensures forall i :: 0 <= i < |r| ==> r[i] == if i < |buf| then buf[i] else 0
  {
    if |buf| < end then buf + Repeat<Byte>(0, end - |buf|) else buf
  }

  function PutAll(buf: seq<Byte>, writes: seq<Write>): (r: seq<Byte>)
    ensures |r| >= |buf|
    decreases |writes|
  {
    if writes == [] then buf else PutAll(Put(buf, writes[0].at, writes[0].data), writes[1..])
  }

  /** Every field that shows in the output must have a column of its name. */
  predicate Supplied(fields: seq<Field>, values: Pairs) {
    forall i :: 0 <= i < |fields| && !fields[i].kind.Pad? ==> Named(fields[i], values)
  }

  /** Whether some column has the field's name. */
  predicate Named(f: Field, values: Pairs) {
    exists j :: 0 <= j < |values| && Strings.SameName(values[j].0, f.name)
  }

  function EncodeRecord(layout: Layout, values: Pairs, enc: Encoding): Result<seq<Byte>> {
    if !Supplied(layout.fields, values) then Err
    else
      var plan :- PlanSeq(layout.fields, 0, 0, 0, values, enc);
      Ok(PutAll(Repeat<Byte>(0, layout.recordLen), plan.writes))
  }

  /** A field that is no filler and that no column is named for makes the record an error. */
  lemma MissingRefused(layout: Layout, values: Pairs, enc: Encoding, k: nat)
    requires k < |layout.fields| && !layout.fields[k].kind.Pad?
    requires forall j :: 0 <= j < |values| ==> !Strings.SameName(values[j].0, layout.fields[k].name)
    ensures EncodeRecord(layout, values, enc).Err?
  {
  }

  // ---------------------------------------------------------------- the source's loops

  lemma {:induction false} PutAllConcat(buf: seq<Byte>, a: seq<Write>, b: seq<Write>)
    ensures PutAll(buf, a + b) == PutAll(PutAll(buf, a), b)
    decreases |a|
  {
    if a == [] {
      assert a + b == b;
    } else {
      assert (a + b)[1..] == a[1..] + b;
      PutAllConcat(Put(buf, a[0].at, a[0].data), a[1..], b);
    }
  }

  /** The record being built. */
  class Buffer {
    var data: seq<Byte>

    constructor (size: nat)
      ensures data == Repeat<Byte>(0, size)
    {
      data := Repeat<Byte>(0, size);
    }

    method Ensure(end: nat)
      modifies this
      ensures data == Grow(old(data), end)
    {
      if |data| < end {
        data := data + Repeat<Byte>(0, end - |data|);
      }
    }

    method Write(at: nat, bytes: seq<Byte>)
      modifies this
      ensures data == Put(old(data), at, bytes)
    {
      Ensure(at + |bytes|);
      data := data[..at] + bytes + data[at + |bytes|..];
    }

    /** Overwrites `width` bytes with one byte, a slot at a time. */
    method Fill(at: nat, width: nat, b: Byte)
      modifies this
      ensures data == Put(old(data), at, Repeat<Byte>(b, width))
    {
      Ensure(at + width);
      ghost var grown := data;
      for i := 0 to width
        invariant |data| == |grown|
        invariant forall k :: 0 <= k < |data| ==> data[k] == if at <= k < at + i then b else grown[k]
      {
        data := data[at + i := b];
      }
      assert data == Put(old(data), at, Repeat<Byte>(b, width));
    }
  }

  /** The whole plan is a done part, already in the buffer, in front of the plan of the rest. */
  ghost predicate PlanGoesOn(whole: Result<Plan>, start: seq<Byte>, now: seq<Byte>, rest: Result<Plan>) {
    if rest.Err? then whole.Err?
    else whole.Ok? && whole.value.end == rest.value.end &&
         PutAll(start, whole.value.writes) == PutAll(now, rest.value.writes)
  }

  lemma PlanStep(whole: Result<Plan>, start: seq<Byte>, now: seq<Byte>, one: Plan, rest: Result<Plan>)
    requires PlanGoesOn(whole, start, now,
                        if rest.Err? then Err else Ok(Plan(one.writes + rest.value.writes, rest.value.end)))
    ensures PlanGoesOn(whole, start, PutAll(now, one.writes), rest)
  {
    hide PutAll;
    if rest.Ok? { PutAllConcat(now, one.writes, rest.value.writes); }
  }

  lemma PlanSeqStep(
    whole: Result<Plan>, start: seq<Byte>, now: seq<Byte>,
    fields: seq<Field>, base: nat, shift: nat, end: nat, values: Pairs, enc: Encoding
  )
    requires fields != []
    requires PlanGoesOn(whole, start, now, PlanSeq(fields, base, shift, end, values, enc))
    ensures var f := fields[0];
            var at := base + f.offset + shift;
            var one := PlanField(f, at, Lookup(values, f.name), enc);
            if one.Err? then whole.Err?
            else
              PlanGoesOn(whole, start, PutAll(now, one.value.writes),
                         PlanSeq(fields[1..], base, shift + Decode.Excess(f, one.value.end - at),
                                 Max(end, one.value.end), values, enc))
  {
    hide PlanField, Lookup, PutAll, PlanGoesOn, Decode.Excess;
    var f := fields[0];
    var at := base + f.offset + shift;
    var one := PlanField(f, at, Lookup(values, f.name), enc);
    if one.Ok? {
      PlanStep(whole, start, now, one.value,
               PlanSeq(fields[1..], base, shift + Decode.Excess(f, one.value.end - at),
                       Max(end, one.value.end), values, enc));
    } else {
      PlanFails(whole, start, now);
    }
  }

  lemma PlanFails(whole: Result<Plan>, start: seq<Byte>, now: seq<Byte>)
    requires PlanGoesOn(whole, start, now, Err)
    ensures whole.Err?
  {
  }

  lemma PlanItemsStep(
    whole: Result<Plan>, start: seq<Byte>, now: seq<Byte>, f: Field, items: seq<Value>, at: nat, enc: Encoding
  )
    requires items != []
    requires PlanGoesOn(whole, start, now, PlanItems(f, items, at, enc))
    ensures var one := PlanOne(f, at, items[0], enc);
            if one.Err? then whole.Err?
            else PlanGoesOn(whole, start, PutAll(now, one.value.writes), PlanItems(f, items[1..], one.value.end, enc))
  {
    hide PlanOne, PutAll, PlanGoesOn;
    var one := PlanOne(f, at, items[0], enc);
    if one.Ok? {
      PlanStep(whole, start, now, one.value, PlanItems(f, items[1..], one.value.end, enc));
    } else {
      PlanFails(whole, start, now);
    }
  }

  lemma PlanDone(whole: Result<Plan>, start: seq<Byte>, now: seq<Byte>, end: nat)
    requires PlanGoesOn(whole, start, now, Ok(Plan([], end)))
    ensures whole.Ok? && whole.value.end == end && PutAll(start, whole.value.writes) == now
  {
  }

  method WriteRecord(layout: Layout, values: Pairs, enc: Encoding) returns (r: Result<seq<Byte>>)
    ensures r == EncodeRecord(layout, values, enc)
  {
    if !Supplied(layout.fields, values) {
      return Err;
    }
    var buf := new Buffer(layout.recordLen);
    var res := WriteSeq(layout.fields, 0, buf, values, enc);
    return if res.Err? then Err else Ok(buf.data);
  }

  method WriteSeq(fields: seq<Field>, base: nat, buf: Buffer, values: Pairs, enc: Encoding)
    returns (r: Result<nat>)
    modifies buf
    ensures var p := PlanSeq(fields, base, 0, base, values, enc);
            r == (if p.Err? then Err else Ok(p.value.end - base)) &&
            (p.Ok? ==> buf.data == PutAll(old(buf.data), p.value.writes))
    decreases fields, 0
  {
    hide PlanSeq, PlanField, PutAll, Lookup, PlanGoesOn;
    var shift: nat, end: nat := 0, base;
    ghost var start, whole := buf.data, PlanSeq(fields, base, 0, base, values, enc);
    PlanStart(whole, start);
    assert fields[0..] == fields;
    for i := 0 to |fields|
      invariant end >= base
      invariant PlanGoesOn(whole, start, buf.data, PlanSeq(fields[i..], base, shift, end, values, enc))
    {
      var f := fields[i];
      assert fields[i..][0] == f && fields[i..][1..] == fields[i + 1..];
      PlanSeqStep(whole, start, buf.data, fields[i..], base, shift, end, values, enc);
      var at := base + f.offset + shift;
      var size := WriteField(f, at, buf, Lookup(values, f.name), enc);
      if size.Err? {
        return Err;
      }
      shift := shift + Decode.Excess(f, size.value);
      end := Max(end, at + size.value);
    }
    assert fields[|fields|..] == [];
    PlanSeqEmpty(base, shift, end, values, enc);
    PlanDone(whole, start, buf.data, end);
    return Ok(end - base);
  }

  lemma PlanStart(whole: Result<Plan>, start: seq<Byte>)
    ensures PlanGoesOn(whole, start, start, whole)
  {
  }

  lemma PlanSeqEmpty(base: nat, shift: nat, end: nat, values: Pairs, enc: Encoding)
    ensures PlanSeq([], base, shift, end, values, enc) == Ok(Plan([], end))
  {
  }

  method WriteField(f: Field, at: nat, buf: Buffer, v: Value, enc: Encoding) returns (r: Result<nat>)
    modifies buf
    ensures var p := PlanField(f, at, v, enc);
            r == (if p.Err? then Err else Ok(p.value.end - at)) &&
            (p.Ok? ==> buf.data == PutAll(old(buf.data), p.value.writes))
    decreases f, 3
  {
    hide PlanItems, PlanOne, Elements;
    var elements := Elements(f, v);
    match elements {
      case Err => return Err;
      case Ok(None) => r := WriteOne(f, at, buf, v, enc);
      case Ok(Some(items)) => r := WriteItems(f, items, at, buf, enc);
    }
  }

  method WriteItems(f: Field, items: seq<Value>, at: nat, buf: Buffer, enc: Encoding) returns (r: Result<nat>)
    modifies buf
    ensures var p := PlanItems(f, items, at, enc);
            r == (if p.Err? then Err else Ok(p.value.end - at)) &&
            (p.Ok? ==> buf.data == PutAll(old(buf.data), p.value.writes))
    decreases f, 2
  {
    hide PlanOne, PutAll, PlanGoesOn;
    var cursor: nat := at;
    ghost var start, whole := buf.data, PlanItems(f, items, at, enc);
    PlanStart(whole, start);
    assert items[0..] == items;
    for i := 0 to |items|
      invariant cursor >= at
      invariant PlanGoesOn(whole, start, buf.data, PlanItems(f, items[i..], cursor, enc))
    {
      assert items[i..][0] == items[i] && items[i..][1..] == items[i + 1..];
      PlanItemsStep(whole, start, buf.data, f, items[i..], cursor, enc);
      var size := WriteOne(f, cursor, buf, items[i], enc);
      if size.Err? {
        return Err;
      }
      cursor := cursor + size.value;
    }
    assert items[|items|..] == [];
    PlanDone(whole, start, buf.data, cursor);
    return Ok(cursor - at);
  }

  method WriteOne(f: Field, at: nat, buf: Buffer, v: Value, enc: Encoding) returns (r: Result<nat>)
    modifies buf
    ensures var p := PlanOne(f, at, v, enc);
            r == (if p.Err? then Err else Ok(p.value.end - at)) &&
            (p.Ok? ==> buf.data == PutAll(old(buf.data), p.value.writes))
    decreases f, 1
  {
    hide PlanSeq, Members;
    if f.kind.Group? {
      var pairs := Members(v);
      if pairs.Err? {
        return Err;
      }
      r := WriteSeq(f.kind.children, at, buf, pairs.value, enc);
      return;
    }
    if f.kind.Pad? {
      var b := FromAscii([f.kind.fill], enc)[0];
      buf.Fill(at, f.width, b);
      assert FromAscii(Repeat(f.kind.fill, f.width), enc) == Repeat<Byte>(b, f.width);
      return Ok(f.width);
    }
    var data := Leaf.EncodeLeaf(f, v, enc);
    if data.Err? {
      return Err;
    }
    buf.Write(at, data.value);
    return Ok(f.width);
  }
}
