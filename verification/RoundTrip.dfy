/** Decoding what was encoded: the structural induction over the layout, and the order of the writes. */
module RoundTrip {
  import opened Prelude
  import opened Layouts
  import opened Decode
  import opened Encode
  import opened Normal
  import opened Ebcdic
  import Leaf
  import Strings

  // ---------------------------------------------------------------- what a buffer must hold

  /** A buffer long enough for a write and, unless the write is a filler, holding its bytes. */
  predicate HoldsWrite(w: Write, bytes: seq<Byte>) {
    |w.data| == w.leaf.width && w.at + w.leaf.width <= |bytes| &&
    (!w.leaf.kind.Pad? ==> bytes[w.at..w.at + w.leaf.width] == w.data)
  }

  predicate Holds(ws: seq<Write>, bytes: seq<Byte>) {
    forall i :: 0 <= i < |ws| ==> HoldsWrite(ws[i], bytes)
  }

  /** Where a write went, the buffer reads as the written bytes would, whatever bytes it now has there. */
  predicate ReadsAlike(w: Write, bytes: seq<Byte>, enc: Encoding) {
    !w.leaf.kind.Group? && w.at + w.leaf.width <= |bytes| &&
    Leaf.DecodeLeaf(w.leaf, bytes[w.at..w.at + w.leaf.width], enc) == Leaf.DecodeLeaf(w.leaf, w.data, enc)
  }

  predicate AllAlike(ws: seq<Write>, bytes: seq<Byte>, enc: Encoding) {
    forall i :: 0 <= i < |ws| ==> ReadsAlike(ws[i], bytes, enc)
  }

  lemma AlikeConcat(a: seq<Write>, b: seq<Write>, bytes: seq<Byte>, enc: Encoding)
    ensures AllAlike(a + b, bytes, enc) <==> AllAlike(a, bytes, enc) && AllAlike(b, bytes, enc)
  {
    hide ReadsAlike;
    assert forall i :: 0 <= i < |a| ==> (a + b)[i] == a[i];
    assert forall i :: 0 <= i < |b| ==> (a + b)[|a| + i] == b[i];
  }

  /** A buffer that holds a write reads alike there. */
  lemma HeldIsAlike(ws: seq<Write>, bytes: seq<Byte>, enc: Encoding)
    requires Sized(ws) && Holds(ws, bytes)
    ensures AllAlike(ws, bytes, enc)
  {
    hide Leaf.DecodeLeaf;
    forall i | 0 <= i < |ws|
      ensures ReadsAlike(ws[i], bytes, enc)
    {
      var w := ws[i];
      assert HoldsWrite(w, bytes);
      if w.leaf.kind.Pad? {
        Leaf.PadIgnoresValue(w.leaf, Null, w.data, enc);
        Leaf.PadIgnoresValue(w.leaf, Null, bytes[w.at..w.at + w.leaf.width], enc);
      }
    }
  }

  /** The reads that visit the same leaves at the same addresses as a list of writes. */
  function TraceOf(ws: seq<Write>): seq<Read> {
    seq(|ws|, i requires 0 <= i < |ws| => Read(ws[i].at, ws[i].leaf))
  }

  lemma TraceConcat(a: seq<Write>, b: seq<Write>)
    ensures TraceOf(a + b) == TraceOf(a) + TraceOf(b)
  {
  }

  /** Every write is of a leaf and fills exactly its width. */
  predicate Sized(ws: seq<Write>) {
    forall i :: 0 <= i < |ws| ==> !ws[i].leaf.kind.Group? && |ws[i].data| == ws[i].leaf.width
  }

  lemma SizedConcat(a: seq<Write>, b: seq<Write>)
    ensures Sized(a + b) <==> Sized(a) && Sized(b)
  {
    assert forall i :: 0 <= i < |a| ==> (a + b)[i] == a[i];
    assert forall i :: 0 <= i < |b| ==> (a + b)[|a| + i] == b[i];
  }

  // ---------------------------------------------------------------- encoding succeeds on the domain

  lemma PlansNone(base: nat, shift: nat, end: nat, values: Pairs, enc: Encoding)
    requires end >= base
    ensures PlanSeq([], base, shift, end, values, enc) == Ok(Plan([], end)) && Sized([])
    ensures SizeSeq([], shift, end - base, values) == end - base
  {
  }

  lemma {:induction false} PlansSeq(
    fields: seq<Field>, base: nat, shift: nat, end: nat, values: Pairs, enc: Encoding, scope: Scope
  )
    requires InSeq(fields, values, scope) && end >= base
    ensures var p := PlanSeq(fields, base, shift, end, values, enc);
            p.Ok? && Sized(p.value.writes) && p.value.end == base + SizeSeq(fields, shift, end - base, values)
    decreases fields, 0
  {
    hide PlanSeq, PlanField, NormField, SizeField, InField, Lookup, Remember, Sized, Excess, InSeq, SizeSeq;
    if fields == [] {
      PlansNone(base, shift, end, values, enc);
    } else {
      InSeqCons(fields, values, scope);
      SizeSeqCons(fields, shift, end - base, values);
      PlanSeqCons(fields, base, shift, end, values, enc);
      var f := fields[0];
      var v, at := Lookup(values, f.name), base + f.offset + shift;
      PlansField(f, at, v, enc, scope);
      var one := PlanField(f, at, v, enc).value;
      var n := NormField(f, v, scope);
      PlansSeq(fields[1..], base, shift + Excess(f, one.end - at), Max(end, one.end), values, enc,
               Remember(f, n.value, n.scope));
      SizedConcat(one.writes, PlanSeq(fields[1..], base, shift + Excess(f, one.end - at), Max(end, one.end),
                                      values, enc).value.writes);
    }
  }

  lemma {:induction false} PlansField(f: Field, at: nat, v: Value, enc: Encoding, scope: Scope)
    requires InField(f, v, scope)
    ensures var p := PlanField(f, at, v, enc);
            p.Ok? && Sized(p.value.writes) && p.value.end == at + SizeField(f, v)
    decreases f, 3
  {
    match Elements(f, v) {
      case Ok(None) => PlansOne(f, at, v, enc, scope);
      case Ok(Some(items)) => PlansItems(f, items, at, enc, scope);
    }
  }

  lemma SizedNone()
    ensures Sized([])
  {
  }

  lemma {:induction false} PlansItems(f: Field, items: seq<Value>, at: nat, enc: Encoding, scope: Scope)
    requires InItems(f, items, scope)
    ensures var p := PlanItems(f, items, at, enc);
            p.Ok? && Sized(p.value.writes) && p.value.end == at + SizeItems(f, items)
    decreases f, 2, |items|
  {
    hide PlanOne, NormOne, SizeOne, InOne, Sized;
    if items == [] {
      SizedNone();
    } else {
      PlansOne(f, at, items[0], enc, scope);
      PlansItems(f, items[1..], at + SizeOne(f, items[0]), enc, NormOne(f, items[0], scope).scope);
      SizedConcat(PlanOne(f, at, items[0], enc).value.writes,
                  PlanItems(f, items[1..], at + SizeOne(f, items[0]), enc).value.writes);
    }
  }

  lemma {:induction false} PlansOne(f: Field, at: nat, v: Value, enc: Encoding, scope: Scope)
    requires InOne(f, v, scope)
    ensures var p := PlanOne(f, at, v, enc);
            p.Ok? && Sized(p.value.writes) && p.value.end == at + SizeOne(f, v)
    decreases f, 1
  {
    if f.kind.Group? {
      PlansSeq(f.kind.children, at, 0, at, MembersOf(v), enc, scope);
    } else {
      hide Leaf.EncodeLeaf, Leaf.DecodeLeaf, Leaf.Storable, Leaf.NormLeaf;
      Leaf.RoundTrip(f, v, enc);
    }
  }

  // ---------------------------------------------------------------- decoding after writing

  lemma ReplayNone(
    base: nat, shift: nat, end: nat, values: Pairs, enc: Encoding, scope: Scope, bytes: seq<Byte>
  )
    ensures PlanSeq([], base, shift, end, values, enc) == Ok(Plan([], end))
    ensures DecodeSeq([], base, shift, end, bytes, enc, scope) == Ok(Siblings([], end, scope, TraceOf([])))
    ensures NormSeq([], values, scope) == NormedSeq([], scope)
    ensures TraceOf([]) == [] && AllAlike([], bytes, enc)
  {
    assert TraceOf([]) == [];
  }

  /** Two sibling lists are shown alike exactly when their first values are, unless hidden, and so are the rest. */
  lemma ShownAlike(f: Field, a: Value, b: Value, s: Pairs, t: Pairs)
    ensures Shown(f, a) + s == Shown(f, b) + t <==> (f.kind.Pad? || a == b) && s == t
  {
    if f.kind.Pad? {
      assert Shown(f, a) + s == s && Shown(f, b) + t == t;
    } else {
      assert (Shown(f, a) + s)[0] == (f.name, a) && (Shown(f, b) + t)[0] == (f.name, b);
      assert (Shown(f, a) + s)[1..] == s && (Shown(f, b) + t)[1..] == t;
    }
  }

  /**
   Decoding a buffer gives the normal form of the planned values exactly when it reads alike wherever
   the plan wrote; it then consumes what the plan consumed and reads each leaf where it was written.
   */
  lemma {:induction false} ReplaySeq(
    fields: seq<Field>, base: nat, shift: nat, end: nat, values: Pairs, enc: Encoding, scope: Scope, bytes: seq<Byte>
  )
    requires InSeq(fields, values, scope) && PlanSeq(fields, base, shift, end, values, enc).Ok?
    ensures var p, n := PlanSeq(fields, base, shift, end, values, enc).value, NormSeq(fields, values, scope);
            var r := DecodeSeq(fields, base, shift, end, bytes, enc, scope);
            (AllAlike(p.writes, bytes, enc) <==> r.Ok? && r.value.pairs == n.pairs) &&
            (AllAlike(p.writes, bytes, enc) ==> r == Ok(Siblings(n.pairs, p.end, n.scope, TraceOf(p.writes))))
    decreases fields, 0
  {
    hide PlanSeq, PlanField, NormSeq, NormField, InSeq, InField, DecodeSeq, DecodeField;
    hide Lookup, Remember, Shown, Excess, AllAlike, TraceOf;
    if fields == [] {
      ReplayNone(base, shift, end, values, enc, scope, bytes);
    } else {
      InSeqCons(fields, values, scope);
      NormSeqCons(fields, values, scope);
      PlanSeqCons(fields, base, shift, end, values, enc);
      DecodeSeqCons(fields, base, shift, end, bytes, enc, scope);
      var f := fields[0];
      var v, at := Lookup(values, f.name), base + f.offset + shift;
      var one, n := PlanField(f, at, v, enc).value, NormField(f, v, scope);
      var shift', end' := shift + Excess(f, one.end - at), Max(end, one.end);
      var rest := PlanSeq(fields[1..], base, shift', end', values, enc).value;
      AlikeConcat(one.writes, rest.writes, bytes, enc);
      TraceConcat(one.writes, rest.writes);
      ReplayField(f, at, v, enc, scope, bytes);
      var scope' := Remember(f, n.value, n.scope);
      if AllAlike(one.writes, bytes, enc) {
        ReplaySeq(fields[1..], base, shift', end', values, enc, scope', bytes);
        var later := DecodeSeq(fields[1..], base, shift', end', bytes, enc, scope');
        if later.Ok? { ShownAlike(f, n.value, n.value, later.value.pairs, NormSeq(fields[1..], values, scope').pairs); }
      } else {
        var got := DecodeField(f, at, bytes, enc, scope);
        if got.Ok? {
          var later := DecodeSeq(fields[1..], base, shift + Excess(f, got.value.size), Max(end, at + got.value.size),
                                 bytes, enc, Remember(f, got.value.value, got.value.scope));
          if later.Ok? {
            ShownAlike(f, got.value.value, n.value, later.value.pairs, NormSeq(fields[1..], values, scope').pairs);
          }
        }
      }
    }
  }

  lemma {:induction false} ReplayField(f: Field, at: nat, v: Value, enc: Encoding, scope: Scope, bytes: seq<Byte>)
    requires InField(f, v, scope) && PlanField(f, at, v, enc).Ok?
    ensures var p, n := PlanField(f, at, v, enc).value, NormField(f, v, scope);
            var r := DecodeField(f, at, bytes, enc, scope);
            (AllAlike(p.writes, bytes, enc) <==> r.Ok? && (f.kind.Pad? || r.value.value == n.value)) &&
            (AllAlike(p.writes, bytes, enc) ==> r == Ok(One(n.value, p.end - at, n.scope, TraceOf(p.writes))))
    decreases f, 3
  {
    hide AllAlike, TraceOf, PlanOne, InOne, NormOne, DecodeOne, PlanItems, InItems, NormItems, DecodeItems;
    match Elements(f, v) {
      case Ok(None) => ReplayOne(f, at, v, enc, scope, bytes);
      case Ok(Some(items)) => ReplayItems(f, items, at, enc, scope, bytes);
    }
  }

  lemma {:induction false} ReplayItems(
    f: Field, items: seq<Value>, at: nat, enc: Encoding, scope: Scope, bytes: seq<Byte>
  )
    requires InItems(f, items, scope) && PlanItems(f, items, at, enc).Ok?
    ensures var p, n := PlanItems(f, items, at, enc).value, NormItems(f, items, scope);
            var r := DecodeItems(f, |items|, at, bytes, enc, scope);
            (AllAlike(p.writes, bytes, enc) <==> r.Ok? && (f.kind.Pad? || r.value.values == n.values)) &&
            (AllAlike(p.writes, bytes, enc) ==> r == Ok(Items(n.values, p.end, n.scope, TraceOf(p.writes))))
    decreases f, 2, |items|
  {
    hide PlanOne, NormOne, InOne, DecodeOne, SizeOne, AllAlike, TraceOf, PlanItems, NormItems, InItems, DecodeItems;
    if items == [] {
      NoItems(f, at, enc, scope, bytes);
    } else {
      PlanItemsCons(f, items, at, enc);
      NormItemsCons(f, items, scope);
      DecodeItemsCons(f, |items|, at, enc, scope, bytes);
      var one, n := PlanOne(f, at, items[0], enc).value, NormOne(f, items[0], scope);
      var rest := PlanItems(f, items[1..], one.end, enc).value;
      AlikeConcat(one.writes, rest.writes, bytes, enc);
      TraceConcat(one.writes, rest.writes);
      PlansOne(f, at, items[0], enc, scope);
      ReplayOne(f, at, items[0], enc, scope, bytes);
      ReplayItems(f, items[1..], one.end, enc, n.scope, bytes);
      var got := DecodeOne(f, at, bytes, enc, scope);
      if got.Ok? && got.value.size > 0 {
        var later := DecodeItems(f, |items| - 1, at + got.value.size, bytes, enc, got.value.scope);
        if later.Ok? {
          ItemsAlike(got.value.value, n.value, later.value.values, NormItems(f, items[1..], n.scope).values);
        }
      }
    }
  }

  lemma NoItems(f: Field, at: nat, enc: Encoding, scope: Scope, bytes: seq<Byte>)
    ensures PlanItems(f, [], at, enc) == Ok(Plan([], at)) && NormItems(f, [], scope) == NormedItems([], scope)
    ensures DecodeItems(f, 0, at, bytes, enc, scope) == Ok(Items([], at, scope, []))
    ensures TraceOf([]) == [] && AllAlike([], bytes, enc)
  {
    assert TraceOf([]) == [];
  }

  /** One element of a table, planned, normalised and decoded. */
  lemma PlanItemsCons(f: Field, items: seq<Value>, at: nat, enc: Encoding)
    requires items != [] && PlanItems(f, items, at, enc).Ok?
    ensures PlanOne(f, at, items[0], enc).Ok?
    ensures var one := PlanOne(f, at, items[0], enc).value;
            PlanItems(f, items[1..], one.end, enc).Ok? &&
            PlanItems(f, items, at, enc) == Ok(Plan(one.writes + PlanItems(f, items[1..], one.end, enc).value.writes,
                                                    PlanItems(f, items[1..], one.end, enc).value.end))
  {
    hide PlanOne;
  }

  lemma NormItemsCons(f: Field, items: seq<Value>, scope: Scope)
    requires items != [] && InItems(f, items, scope)
    ensures var n := NormOne(f, items[0], scope);
            NormItems(f, items, scope) == NormedItems([n.value] + NormItems(f, items[1..], n.scope).values,
                                                      NormItems(f, items[1..], n.scope).scope) &&
            InOne(f, items[0], scope) && SizeOne(f, items[0]) > 0 && InItems(f, items[1..], n.scope)
  {
    hide NormOne, InOne, SizeOne;
  }

  lemma ItemsAlike(x: Value, y: Value, xs: seq<Value>, ys: seq<Value>)
    ensures [x] + xs == [y] + ys <==> x == y && xs == ys
  {
    assert ([x] + xs)[0] == x && ([x] + xs)[1..] == xs;
    assert ([y] + ys)[0] == y && ([y] + ys)[1..] == ys;
  }

  lemma {:induction false} ReplayOne(f: Field, at: nat, v: Value, enc: Encoding, scope: Scope, bytes: seq<Byte>)
    requires InOne(f, v, scope) && PlanOne(f, at, v, enc).Ok?
    ensures var p, n := PlanOne(f, at, v, enc).value, NormOne(f, v, scope);
            var r := DecodeOne(f, at, bytes, enc, scope);
            (AllAlike(p.writes, bytes, enc) <==> r.Ok? && (f.kind.Pad? || r.value.value == n.value)) &&
            (AllAlike(p.writes, bytes, enc) ==> r == Ok(One(n.value, p.end - at, n.scope, TraceOf(p.writes))))
    decreases f, 1
  {
    hide AllAlike, TraceOf, PlanSeq, InSeq, NormSeq, DecodeSeq, Leaf.EncodeLeaf, Leaf.DecodeLeaf;
    if f.kind.Group? {
      ReplaySeq(f.kind.children, at, 0, at, MembersOf(v), enc, scope, bytes);
    } else {
      ReplayLeaf(f, at, v, enc, scope, bytes);
    }
  }

  lemma ReplayLeaf(f: Field, at: nat, v: Value, enc: Encoding, scope: Scope, bytes: seq<Byte>)
    requires !f.kind.Group? && Leaf.Storable(f, v) && PlanOne(f, at, v, enc).Ok?
    ensures var ws, r := PlanOne(f, at, v, enc).value.writes, DecodeOne(f, at, bytes, enc, scope);
            (AllAlike(ws, bytes, enc) <==> r.Ok? && (f.kind.Pad? || r.value.value == Leaf.NormLeaf(f, v))) &&
            (AllAlike(ws, bytes, enc) ==> r == Ok(One(Leaf.NormLeaf(f, v), f.width, scope, TraceOf(ws))))
  {
    hide Leaf.EncodeLeaf, Leaf.DecodeLeaf, Leaf.Storable, Leaf.NormLeaf;
    Leaf.RoundTrip(f, v, enc);
    var w := PlanOne(f, at, v, enc).value.writes[0];
    assert PlanOne(f, at, v, enc).value.writes == [w];
    assert AllAlike([w], bytes, enc) <==> ReadsAlike(w, bytes, enc) by {
      if AllAlike([w], bytes, enc) { assert ReadsAlike([w][0], bytes, enc); }
    }
    if f.kind.Pad? {
      Leaf.PadIgnoresValue(f, v, if at + f.width <= |bytes| then bytes[at..at + f.width] else [], enc);
    }
    assert TraceOf([w]) == [Read(at, f)];
  }

  // ---------------------------------------------------------------- the order of the writes

  /** Siblings in order, each starting no earlier than the reserved end of the one before, at every level. */
  predicate Ordered(fields: seq<Field>)
    decreases fields, 0
  {
    fields == [] ||
    ((fields[0].kind.Group? ==> Ordered(fields[0].kind.children)) &&
     (|fields| > 1 ==> fields[1].offset >= fields[0].offset + fields[0].ReservedWidth()) &&
     Ordered(fields[1..]))
  }

  /** Writes one after another between two addresses. */
  predicate Within(ws: seq<Write>, lo: nat, hi: nat)
    decreases |ws|
  {
    if ws == [] then lo <= hi
    else lo <= ws[0].at && Within(ws[1..], ws[0].at + |ws[0].data|, hi)
  }

  lemma {:induction false} WithinConcat(a: seq<Write>, b: seq<Write>, lo: nat, mid: nat, hi: nat)
    requires Within(a, lo, mid) && Within(b, mid, hi)
    ensures Within(a + b, lo, hi)
    decreases |a|
  {
    if a == [] {
      assert a + b == b;
      WithinWider(b, lo, mid, hi);
    } else {
      assert (a + b)[1..] == a[1..] + b;
      WithinConcat(a[1..], b, a[0].at + |a[0].data|, mid, hi);
    }
  }

  lemma WithinWider(ws: seq<Write>, lo: nat, mid: nat, hi: nat)
    requires lo <= mid && Within(ws, mid, hi)
    ensures Within(ws, lo, hi)
  {
  }

  /** An ordered layout's plan never writes backwards: dynamic shifts keep the static order. */
  lemma {:induction false} OrderedSeq(
    fields: seq<Field>, base: nat, shift: nat, end: nat, lo: nat, values: Pairs, enc: Encoding
  )
    requires Ordered(fields) && PlanSeq(fields, base, shift, end, values, enc).Ok?
    requires Sized(PlanSeq(fields, base, shift, end, values, enc).value.writes)
    requires lo <= end && (fields != [] ==> lo <= base + fields[0].offset + shift)
    ensures var p := PlanSeq(fields, base, shift, end, values, enc).value;
            Within(p.writes, lo, p.end)
    decreases fields, 0
  {
    hide PlanSeq, PlanField, Sized, Lookup, Within;
    if fields == [] {
      PlanSeqEmpty(base, shift, end, values, enc);
      WithinNone(lo, end);
    } else {
      PlanSeqCons(fields, base, shift, end, values, enc);
      var f := fields[0];
      var v, at := Lookup(values, f.name), base + f.offset + shift;
      var one := PlanField(f, at, v, enc).value;
      var shift', end' := shift + Excess(f, one.end - at), Max(end, one.end);
      var rest := PlanSeq(fields[1..], base, shift', end', values, enc).value;
      SizedConcat(one.writes, rest.writes);
      OrderedField(f, at, v, enc);
      if |fields| > 1 { assert fields[1..][0] == fields[1]; }
      OrderedSeq(fields[1..], base, shift', end', one.end, values, enc);
      WithinWider(one.writes, lo, at, one.end);
      WithinConcat(one.writes, rest.writes, lo, one.end, rest.end);
    }
  }

  lemma WithinNone(lo: nat, hi: nat)
    requires lo <= hi
    ensures Within([], lo, hi)
  {
  }

  lemma {:induction false} OrderedField(f: Field, at: nat, v: Value, enc: Encoding)
    requires (f.kind.Group? ==> Ordered(f.kind.children)) && PlanField(f, at, v, enc).Ok?
    requires Sized(PlanField(f, at, v, enc).value.writes)
    ensures var p := PlanField(f, at, v, enc).value; Within(p.writes, at, p.end)
    decreases f, 3
  {
    hide PlanOne, PlanItems, Sized, Within;
    match Elements(f, v) {
      case Ok(None) => OrderedOne(f, at, v, enc);
      case Ok(Some(items)) => OrderedItems(f, items, at, enc);
    }
  }

  lemma {:induction false} OrderedItems(f: Field, items: seq<Value>, at: nat, enc: Encoding)
    requires (f.kind.Group? ==> Ordered(f.kind.children)) && PlanItems(f, items, at, enc).Ok?
    requires Sized(PlanItems(f, items, at, enc).value.writes)
    ensures var p := PlanItems(f, items, at, enc).value; Within(p.writes, at, p.end)
    decreases f, 2, |items|
  {
    hide PlanOne, Sized, Within;
    if items == [] {
      WithinNone(at, at);
    } else {
      var one := PlanOne(f, at, items[0], enc).value;
      var rest := PlanItems(f, items[1..], one.end, enc).value;
      SizedConcat(one.writes, rest.writes);
      OrderedOne(f, at, items[0], enc);
      OrderedItems(f, items[1..], one.end, enc);
      WithinConcat(one.writes, rest.writes, at, one.end, rest.end);
    }
  }

  lemma {:induction false} OrderedOne(f: Field, at: nat, v: Value, enc: Encoding)
    requires (f.kind.Group? ==> Ordered(f.kind.children)) && PlanOne(f, at, v, enc).Ok?
    requires Sized(PlanOne(f, at, v, enc).value.writes)
    ensures var p := PlanOne(f, at, v, enc).value; Within(p.writes, at, p.end)
    decreases f, 1
  {
    hide PlanSeq, Sized, Within;
    if f.kind.Group? {
      OrderedSeq(f.kind.children, at, 0, at, at, Members(v).value, enc);
    } else {
      WithinOne(PlanOne(f, at, v, enc).value.writes, f, at);
    }
  }

  lemma WithinOne(ws: seq<Write>, f: Field, at: nat)
    requires |ws| == 1 && ws[0].at == at && ws[0].leaf == f && Sized(ws)
    ensures Within(ws, at, at + f.width)
  {
    assert ws[1..] == [];
  }

  // ---------------------------------------------------------------- the buffer

  /** Writes at or after an address leave every earlier byte alone. */
  lemma {:induction false} PutAllFrame(buf: seq<Byte>, ws: seq<Write>, lo: nat, hi: nat)
    requires Within(ws, lo, hi)
    ensures forall i :: 0 <= i < lo && i < |buf| ==> PutAll(buf, ws)[i] == buf[i]
    decreases |ws|
  {
    if ws != [] {
      PutAllFrame(Put(buf, ws[0].at, ws[0].data), ws[1..], ws[0].at + |ws[0].data|, hi);
    }
  }

  /** The buffer has a write's bytes at its address. */
  predicate Stores(w: Write, bytes: seq<Byte>) {
    w.at + |w.data| <= |bytes| && bytes[w.at..w.at + |w.data|] == w.data
  }

  /** Ordered writes all survive: the finished buffer has every one of them. */
  lemma {:induction false} PutAllStores(buf: seq<Byte>, ws: seq<Write>, lo: nat, hi: nat)
    requires Within(ws, lo, hi)
    ensures forall i :: 0 <= i < |ws| ==> Stores(ws[i], PutAll(buf, ws))
    decreases |ws|
  {
    hide Stores, PutAll, Put;
    if ws != [] {
      var w := ws[0];
      PutAllStores(Put(buf, w.at, w.data), ws[1..], w.at + |w.data|, hi);
      PutAllCons(buf, ws);
      FirstStored(buf, ws, lo, hi);
      forall i | 0 <= i < |ws|
        ensures Stores(ws[i], PutAll(buf, ws))
      {
        if i > 0 { assert Stores(ws[1..][i - 1], PutAll(buf, ws)); }
      }
    }
  }

  lemma PutAllCons(buf: seq<Byte>, ws: seq<Write>)
    requires ws != []
    ensures PutAll(buf, ws) == PutAll(Put(buf, ws[0].at, ws[0].data), ws[1..])
  {
    hide Put;
  }

  lemma FirstStored(buf: seq<Byte>, ws: seq<Write>, lo: nat, hi: nat)
    requires ws != [] && Within(ws, lo, hi)
    ensures Stores(ws[0], PutAll(buf, ws))
  {
    hide Put, PutAll, Stores;
    var w, now := ws[0], Put(buf, ws[0].at, ws[0].data);
    PutAllCons(buf, ws);
    PutAllFrame(now, ws[1..], w.at + |w.data|, hi);
    FrameStores(now, PutAll(now, ws[1..]), w);
  }

  /** A buffer that starts like one just written has the write. */
  lemma FrameStores(now: seq<Byte>, final: seq<Byte>, w: Write)
    requires w.at + |w.data| <= |now| <= |final|
    requires forall i :: 0 <= i < w.at + |w.data| ==> final[i] == now[i]
    requires forall i :: w.at <= i < w.at + |w.data| ==> now[i] == w.data[i - w.at]
    ensures Stores(w, final)
  {
    SliceIs(final, w.at, w.data);
  }

  lemma PutAllHolds(buf: seq<Byte>, ws: seq<Write>, lo: nat, hi: nat)
    requires Within(ws, lo, hi) && Sized(ws)
    ensures Holds(ws, PutAll(buf, ws))
  {
    hide PutAll, Within;
    PutAllStores(buf, ws, lo, hi);
    forall i | 0 <= i < |ws|
      ensures HoldsWrite(ws[i], PutAll(buf, ws))
    {
      assert Stores(ws[i], PutAll(buf, ws));
    }
  }

  // ---------------------------------------------------------------- the round trip

  /**
   Any layout, any buffer: decoding gives the normal form of the values exactly when the buffer reads
   alike wherever the plan wrote.
   */
  lemma DecodeAlike(layout: Layout, values: Pairs, enc: Encoding, bytes: seq<Byte>)
    requires InSeq(layout.fields, values, map[]) && LengthOk(layout, |bytes|)
    requires PlanSeq(layout.fields, 0, 0, 0, values, enc).Ok?
    ensures DecodeRecord(layout, bytes, enc) == Ok(NormSeq(layout.fields, values, map[]).pairs)
       <==> AllAlike(PlanSeq(layout.fields, 0, 0, 0, values, enc).value.writes, bytes, enc)
  {
    ReplaySeq(layout.fields, 0, 0, 0, values, enc, map[], bytes);
  }

  /** In particular when the buffer still holds every write. */
  lemma DecodeHeld(layout: Layout, values: Pairs, enc: Encoding, bytes: seq<Byte>)
    requires InSeq(layout.fields, values, map[]) && LengthOk(layout, |bytes|)
    requires var p := PlanSeq(layout.fields, 0, 0, 0, values, enc); p.Ok? && Holds(p.value.writes, bytes)
    ensures DecodeRecord(layout, bytes, enc) == Ok(NormSeq(layout.fields, values, map[]).pairs)
  {
    hide PlanSeq, InSeq, NormSeq, Holds, AllAlike, DecodeRecord;
    PlansSeq(layout.fields, 0, 0, 0, values, enc, map[]);
    HeldIsAlike(PlanSeq(layout.fields, 0, 0, 0, values, enc).value.writes, bytes, enc);
    DecodeAlike(layout, values, enc, bytes);
  }

  /**
   The round trip: for every layout whose siblings are in order, and every value in its domain,
   encoding succeeds and decoding the record gives the value's normal form.
   */
  lemma RoundTrip(layout: Layout, values: Pairs, enc: Encoding)
    requires Ordered(layout.fields) && Supplied(layout.fields, values) && InSeq(layout.fields, values, map[])
    ensures EncodeRecord(layout, values, enc).Ok?
    ensures DecodeRecord(layout, EncodeRecord(layout, values, enc).value, enc)
         == Ok(NormSeq(layout.fields, values, map[]).pairs)
  {
    hide PlanSeq, InSeq, NormSeq, Ordered, Supplied, Holds, PutAll;
    PlansSeq(layout.fields, 0, 0, 0, values, enc, map[]);
    var p := PlanSeq(layout.fields, 0, 0, 0, values, enc).value;
    OrderedSeq(layout.fields, 0, 0, 0, 0, values, enc);
    PutAllHolds(Repeat<Byte>(0, layout.recordLen), p.writes, 0, p.end);
    DecodeHeld(layout, values, enc, PutAll(Repeat<Byte>(0, layout.recordLen), p.writes));
  }

  // ---------------------------------------------------------------- numbers of any scale

  predicate IsNumber(v: Value) {
    v.IntV? || v.DecV?
  }

  /** An integer or a decimal of any scale, for a single field that has a scale of its own. */
  predicate NumberFor(f: Field, v: Value) {
    (f.kind.Decimal? || f.kind.Edited?) && f.occurs.None? && f.dependingOn.None? && IsNumber(v)
  }

  /** A decimal at the field's scale that is the number given, cut toward zero where decimals are dropped. */
  predicate IsNumberOf(w: Value, f: Field, v: Value)
    requires NumberFor(f, v)
  {
    w.DecV? && w.scale == f.kind.scale &&
    match v
    case IntV(n) => Leaf.SameNumber(w.unscaled, n, 0, w.scale)
    case DecV(u, from) => Leaf.SameNumber(w.unscaled, u, from, w.scale)
    case _ => false
  }

  predicate HoldsNumber(pairs: Pairs, f: Field, v: Value)
    requires NumberFor(f, v)
  {
    exists i :: 0 <= i < |pairs| && pairs[i].0 == f.name && IsNumberOf(pairs[i].1, f, v)
  }

  lemma NumberNormed(f: Field, v: Value, scope: Scope)
    requires NumberFor(f, v) && InField(f, v, scope)
    ensures IsNumberOf(NormField(f, v, scope).value, f, v)
  {
    hide Leaf.ScaleFits, Leaf.AtScale, Leaf.SameNumber, Leaf.Shaped, Leaf.Exact, Leaf.Rescale;
    var u, from := if v.DecV? then v.unscaled else v.n, if v.DecV? then v.scale else 0;
    assert Leaf.Storable(f, v);
    Leaf.AtScaleExact(Leaf.AtScale(u, from, f.kind.scale), u, from, f.kind.scale);
  }

  lemma HoldsLater(f: Field, w: Value, rest: Pairs, g: Field, v: Value)
    requires NumberFor(g, v) && HoldsNumber(rest, g, v)
    ensures HoldsNumber(Shown(f, w) + rest, g, v)
  {
    hide IsNumberOf;
    var all := Shown(f, w) + rest;
    var i :| 0 <= i < |rest| && rest[i].0 == g.name && IsNumberOf(rest[i].1, g, v);
    assert all[i + |Shown(f, w)|] == rest[i];
  }

  lemma {:induction false} NormHoldsNumber(fields: seq<Field>, values: Pairs, scope: Scope, k: nat)
    requires k < |fields| && NumberFor(fields[k], Lookup(values, fields[k].name)) && InSeq(fields, values, scope)
    ensures HoldsNumber(NormSeq(fields, values, scope).pairs, fields[k], Lookup(values, fields[k].name))
    decreases k
  {
    hide NormSeq, InSeq, NormField, InField, Lookup, Remember, IsNumberOf;
    InSeqCons(fields, values, scope);
    NormSeqCons(fields, values, scope);
    var f := fields[0];
    var v := Lookup(values, f.name);
    var one := NormField(f, v, scope);
    var rest := NormSeq(fields[1..], values, Remember(f, one.value, one.scope));
    if k == 0 {
      NumberNormed(f, v, scope);
      assert (Shown(f, one.value) + rest.pairs)[0] == (f.name, one.value);
    } else {
      NormHoldsNumber(fields[1..], values, Remember(f, one.value, one.scope), k - 1);
      HoldsLater(f, one.value, rest.pairs, fields[k], Lookup(values, fields[k].name));
    }
  }

  /**
   Integers and decimals of any scale given to decimal and edited fields come back from the record as
   the same numbers at the fields' scales, cut toward zero where a field has fewer decimals.
   */
  lemma NumbersComeBack(layout: Layout, values: Pairs, enc: Encoding, k: nat)
    requires Ordered(layout.fields) && Supplied(layout.fields, values) && InSeq(layout.fields, values, map[])
    requires k < |layout.fields|
    requires var f := layout.fields[k]; NumberFor(f, Lookup(values, f.name))
    ensures EncodeRecord(layout, values, enc).Ok?
    ensures var f := layout.fields[k];
            var back := DecodeRecord(layout, EncodeRecord(layout, values, enc).value, enc);
            back.Ok? && HoldsNumber(back.value, f, Lookup(values, f.name))
  {
    hide Ordered, Supplied, InSeq, NormSeq, EncodeRecord, DecodeRecord, HoldsNumber, Lookup;
    RoundTrip(layout, values, enc);
    NormHoldsNumber(layout.fields, values, map[], k);
  }

  // ---------------------------------------------------------------- overlays

  predicate Covers(w: Write, b: nat) {
    w.at <= b < w.at + |w.data|
  }

  /** What the last of the writes over a byte puts there. */
  function LastOver(ws: seq<Write>, b: nat): Option<Byte> {
    if ws == [] then None
    else
      var later := LastOver(ws[1..], b);
      if later.Some? then later
      else if Covers(ws[0], b) then Some(ws[0].data[b - ws[0].at])
      else None
  }

  /** Every byte of every field is what the last write over it puts there; fillers may lose theirs. */
  predicate LastAgrees(ws: seq<Write>) {
    forall i, b :: 0 <= i < |ws| && ws[i].at <= b < ws[i].at + |ws[i].data| && !ws[i].leaf.kind.Pad? ==>
      LastOver(ws, b) == Some(ws[i].data[b - ws[i].at])
  }

  lemma {:induction false} PutAllAt(buf: seq<Byte>, ws: seq<Write>, b: nat)
    ensures LastOver(ws, b).Some? ==> b < |PutAll(buf, ws)| && PutAll(buf, ws)[b] == LastOver(ws, b).value
    ensures LastOver(ws, b).None? && b < |buf| ==> PutAll(buf, ws)[b] == buf[b]
    decreases |ws|
  {
    if ws != [] { PutAllAt(Put(buf, ws[0].at, ws[0].data), ws[1..], b); }
  }

  lemma {:induction false} CoveredHasLast(ws: seq<Write>, i: nat, b: nat)
    requires i < |ws| && Covers(ws[i], b)
    ensures LastOver(ws, b).Some?
  {
    if i > 0 { CoveredHasLast(ws[1..], i - 1, b); }
  }

  lemma HeldAgrees(buf: seq<Byte>, ws: seq<Write>, i: nat, b: nat)
    requires i < |ws| && ws[i].at <= b < ws[i].at + |ws[i].data| && !ws[i].leaf.kind.Pad?
    requires HoldsWrite(ws[i], PutAll(buf, ws))
    ensures LastOver(ws, b) == Some(ws[i].data[b - ws[i].at])
  {
    hide PutAll, LastOver;
    CoveredHasLast(ws, i, b);
    PutAllAt(buf, ws, b);
    assert PutAll(buf, ws)[ws[i].at..ws[i].at + |ws[i].data|][b - ws[i].at] == PutAll(buf, ws)[b];
  }

  /** The finished record holds every field exactly when the last write over each of its bytes agrees with it. */
  lemma HeldExactly(buf: seq<Byte>, ws: seq<Write>)
    requires Sized(ws)
    ensures Holds(ws, PutAll(buf, ws)) <==> LastAgrees(ws)
  {
    hide PutAll, LastOver, HoldsWrite;
    var record := PutAll(buf, ws);
    if Holds(ws, record) {
      forall i, b | 0 <= i < |ws| && ws[i].at <= b < ws[i].at + |ws[i].data| && !ws[i].leaf.kind.Pad?
        ensures LastOver(ws, b) == Some(ws[i].data[b - ws[i].at])
      {
        HeldAgrees(buf, ws, i, b);
      }
    }
    if LastAgrees(ws) {
      forall i | 0 <= i < |ws|
        ensures HoldsWrite(ws[i], record)
      {
        WriteHeld(buf, ws, i);
      }
    }
  }

  lemma WriteHeld(buf: seq<Byte>, ws: seq<Write>, i: nat)
    requires Sized(ws) && LastAgrees(ws) && i < |ws|
    ensures HoldsWrite(ws[i], PutAll(buf, ws))
  {
    hide PutAll, LastOver;
    var record, w := PutAll(buf, ws), ws[i];
    WriteInside(buf, ws, i);
    if !w.leaf.kind.Pad? {
      forall b | w.at <= b < w.at + |w.data|
        ensures record[b] == w.data[b - w.at]
      {
        PutAllAt(buf, ws, b);
      }
      SliceIs(record, w.at, w.data);
    }
  }

  lemma SliceIs(record: seq<Byte>, at: nat, data: seq<Byte>)
    requires at + |data| <= |record| && forall b :: at <= b < at + |data| ==> record[b] == data[b - at]
    ensures record[at..at + |data|] == data
  {
  }

  lemma {:induction false} WriteInside(buf: seq<Byte>, ws: seq<Write>, i: nat)
    requires i < |ws|
    ensures ws[i].at + |ws[i].data| <= |PutAll(buf, ws)|
    decreases |ws|
  {
    var now := Put(buf, ws[0].at, ws[0].data);
    if i > 0 { WriteInside(now, ws[1..], i - 1); }
  }

  /** Writes of fields that share a byte put the same there. */
  ghost predicate Agree(ws: seq<Write>) {
    forall i, j, b: nat :: 0 <= i < j < |ws| && Covers(ws[i], b) && Covers(ws[j], b) ==>
      !ws[i].leaf.kind.Pad? && !ws[j].leaf.kind.Pad? ==> ws[i].data[b - ws[i].at] == ws[j].data[b - ws[j].at]
  }

  /** No filler shares a byte with a field. */
  ghost predicate FillersApart(ws: seq<Write>) {
    forall i, j, b: nat :: 0 <= i < |ws| && 0 <= j < |ws| && Covers(ws[i], b) && Covers(ws[j], b) ==>
      ws[i].leaf.kind.Pad? == ws[j].leaf.kind.Pad?
  }

  lemma {:induction false} LastOrigin(ws: seq<Write>, b: nat) returns (j: nat)
    requires LastOver(ws, b).Some?
    ensures j < |ws| && Covers(ws[j], b) && LastOver(ws, b).value == ws[j].data[b - ws[j].at]
    decreases |ws|
  {
    if LastOver(ws[1..], b).Some? {
      j := LastOrigin(ws[1..], b);
      j := j + 1;
    } else {
      j := 0;
    }
  }

  /** Without fillers in the way that is when the fields agree pairwise on the bytes they share. */
  lemma AgreementIsPairwise(ws: seq<Write>)
    requires FillersApart(ws)
    ensures LastAgrees(ws) <==> Agree(ws)
  {
    if Agree(ws) {
      forall i, b | 0 <= i < |ws| && ws[i].at <= b < ws[i].at + |ws[i].data| && !ws[i].leaf.kind.Pad?
        ensures LastOver(ws, b) == Some(ws[i].data[b - ws[i].at])
      {
        CoveredHasLast(ws, i, b);
        var j := LastOrigin(ws, b);
        assert Covers(ws[i], b) && Covers(ws[j], b);
      }
    }
    if LastAgrees(ws) {
      forall i, j, b: nat | 0 <= i < j < |ws| && Covers(ws[i], b) && Covers(ws[j], b) &&
                            !ws[i].leaf.kind.Pad? && !ws[j].leaf.kind.Pad?
        ensures ws[i].data[b - ws[i].at] == ws[j].data[b - ws[j].at]
      {
        assert LastOver(ws, b) == Some(ws[i].data[b - ws[i].at]) == Some(ws[j].data[b - ws[j].at]);
      }
    }
  }

  /** The bytes the last writes leave where a write went. */
  function LeftOf(ws: seq<Write>, w: Write): (bs: seq<Byte>)
    ensures |bs| == |w.data|
  {
    seq<Byte>(|w.data|, k requires 0 <= k < |w.data| => LeftAt(ws, w.at + k))
  }

  function LeftAt(ws: seq<Write>, b: nat): Byte {
    var last := LastOver(ws, b);
    if last.Some? then last.value else 0
  }

  /** Every field of a plan reads from what is left of it as it would from its own bytes. */
  predicate ReadsBack(ws: seq<Write>, enc: Encoding) {
    forall i :: 0 <= i < |ws| ==>
      !ws[i].leaf.kind.Group? &&
      Leaf.DecodeLeaf(ws[i].leaf, LeftOf(ws, ws[i]), enc) == Leaf.DecodeLeaf(ws[i].leaf, ws[i].data, enc)
  }

  /** What is left of a write is what the finished record has where it went. */
  lemma LeftIsSlice(buf: seq<Byte>, ws: seq<Write>, i: nat)
    requires Sized(ws) && i < |ws|
    ensures var w, record := ws[i], PutAll(buf, ws);
            w.at + w.leaf.width <= |record| && LeftOf(ws, w) == record[w.at..w.at + w.leaf.width]
  {
    hide PutAll, LastOver;
    var w, record := ws[i], PutAll(buf, ws);
    WriteInside(buf, ws, i);
    forall k | 0 <= k < |w.data|
      ensures LeftOf(ws, w)[k] == record[w.at + k]
    {
      CoveredHasLast(ws, i, w.at + k);
      PutAllAt(buf, ws, w.at + k);
      assert LeftOf(ws, w)[k] == LeftAt(ws, w.at + k);
    }
  }

  lemma AlikeExactly(buf: seq<Byte>, ws: seq<Write>, enc: Encoding)
    requires Sized(ws)
    ensures AllAlike(ws, PutAll(buf, ws), enc) <==> ReadsBack(ws, enc)
    ensures LastAgrees(ws) ==> ReadsBack(ws, enc)
  {
    hide PutAll, LastOver, LeftOf, Leaf.DecodeLeaf;
    var record := PutAll(buf, ws);
    forall i | 0 <= i < |ws|
      ensures ReadsAlike(ws[i], record, enc)
         <==> Leaf.DecodeLeaf(ws[i].leaf, LeftOf(ws, ws[i]), enc) == Leaf.DecodeLeaf(ws[i].leaf, ws[i].data, enc)
    {
      LeftIsSlice(buf, ws, i);
    }
    if AllAlike(ws, record, enc) {
      forall i | 0 <= i < |ws|
        ensures Leaf.DecodeLeaf(ws[i].leaf, LeftOf(ws, ws[i]), enc) == Leaf.DecodeLeaf(ws[i].leaf, ws[i].data, enc)
      {
        assert ReadsAlike(ws[i], record, enc);
      }
    }
    HeldExactly(buf, ws);
    if LastAgrees(ws) { HeldIsAlike(ws, record, enc); }
  }

  /**
   The round trip for any layout, overlays included: a row in the domain always encodes, and decodes to
   its normal form exactly when every field reads from what the last writes leave of it as from its own
   bytes. That is so in particular when the last writes agree with the field byte for byte, which is
   when the record holds every field.
   */
  lemma OverlayRoundTrip(layout: Layout, values: Pairs, enc: Encoding)
    requires Supplied(layout.fields, values) && InSeq(layout.fields, values, map[])
    ensures PlanSeq(layout.fields, 0, 0, 0, values, enc).Ok? && EncodeRecord(layout, values, enc).Ok?
    ensures var ws := PlanSeq(layout.fields, 0, 0, 0, values, enc).value.writes;
            var record := EncodeRecord(layout, values, enc).value;
            (DecodeRecord(layout, record, enc) == Ok(NormSeq(layout.fields, values, map[]).pairs)
             <==> ReadsBack(ws, enc)) &&
            (Holds(ws, record) <==> LastAgrees(ws)) && (LastAgrees(ws) ==> ReadsBack(ws, enc))
  {
    hide PlanSeq, InSeq, NormSeq, Supplied, Holds, PutAll, LastAgrees, ReadsBack, AllAlike, DecodeRecord;
    PlansSeq(layout.fields, 0, 0, 0, values, enc, map[]);
    var ws := PlanSeq(layout.fields, 0, 0, 0, values, enc).value.writes;
    var blank := Repeat<Byte>(0, layout.recordLen);
    HeldExactly(blank, ws);
    AlikeExactly(blank, ws, enc);
    DecodeAlike(layout, values, enc, PutAll(blank, ws));
  }

  /** An ordered layout's writes never share a byte. */
  lemma OrderedAgrees(layout: Layout, values: Pairs, enc: Encoding)
    requires Ordered(layout.fields) && InSeq(layout.fields, values, map[])
    ensures var p := PlanSeq(layout.fields, 0, 0, 0, values, enc);
            p.Ok? && LastAgrees(p.value.writes) && ReadsBack(p.value.writes, enc)
  {
    hide PlanSeq, InSeq, Ordered, Holds, PutAll, LastAgrees, ReadsBack;
    PlansSeq(layout.fields, 0, 0, 0, values, enc, map[]);
    var p := PlanSeq(layout.fields, 0, 0, 0, values, enc).value;
    OrderedSeq(layout.fields, 0, 0, 0, 0, values, enc);
    PutAllHolds([], p.writes, 0, p.end);
    HeldExactly([], p.writes);
    AlikeExactly([], p.writes, enc);
  }

  lemma {:induction false} ExactSupplied(fields: seq<Field>, pairs: Pairs)
    requires ExactSeq(fields, pairs)
    ensures Supplied(fields, pairs)
    decreases |fields|
  {
    if fields != [] {
      var rest := if fields[0].kind.Pad? then pairs else pairs[1..];
      ExactSupplied(fields[1..], rest);
      forall i | 0 <= i < |fields| && !fields[i].kind.Pad?
        ensures exists j :: 0 <= j < |pairs| && Strings.SameName(pairs[j].0, fields[i].name)
      {
        if i == 0 {
          assert Strings.SameName(pairs[0].0, fields[0].name);
        } else {
          assert fields[1..][i - 1] == fields[i];
          var j :| 0 <= j < |rest| && Strings.SameName(rest[j].0, fields[i].name);
          var k := if fields[0].kind.Pad? then j else j + 1;
          assert pairs[k] == rest[j];
        }
      }
    }
  }

  /** Values already in normal form come back unchanged. */
  lemma RoundTripExact(layout: Layout, values: Pairs, enc: Encoding)
    requires Ordered(layout.fields) && DistinctSeq(layout.fields)
    requires ExactSeq(layout.fields, values) && InSeq(layout.fields, values, map[])
    ensures EncodeRecord(layout, values, enc).Ok?
    ensures DecodeRecord(layout, EncodeRecord(layout, values, enc).value, enc) == Ok(values)
  {
    ExactSupplied(layout.fields, values);
    RoundTrip(layout, values, enc);
    ExactNormSeq(layout.fields, [], values, map[]);
    assert [] + values == values;
  }
}
