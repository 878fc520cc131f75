/**
 Encoding what was decoded, for every layout including REDEFINES overlays: all variants of an
 overlay rewrite the bytes they were read from, so the last write changes nothing.
 */
module Overlay {
  import opened Prelude
  import opened Layouts
  import opened Decode
  import opened Encode
  import opened Normal
  import opened RoundTrip
  import opened Ebcdic
  import Leaf
  import Strings

  /** A leaf the encoder can serve: text, or well shaped, and no element of a filler table of dynamic length. */
  predicate Served(r: Read) {
    !r.leaf.kind.Group? && (r.leaf.kind.Text? || Leaf.Shaped(r.leaf)) &&
    (r.leaf.kind.Pad? ==> r.leaf.dependingOn.None?)
  }

  predicate AllServed(trace: seq<Read>) {
    forall i :: 0 <= i < |trace| ==> Served(trace[i])
  }

  /**
   Every leaf read is in the form the encoder itself would store. An element of a filler table of
   dynamic length is not: a filler has no value, so the encoder writes none of its elements.
   */
  predicate CanonicalTrace(trace: seq<Read>, bytes: seq<Byte>, enc: Encoding) {
    forall i :: 0 <= i < |trace| ==> CanonicalRead(trace[i], bytes, enc)
  }

  predicate CanonicalRead(r: Read, bytes: seq<Byte>, enc: Encoding) {
    Served(r) && r.at + r.leaf.width <= |bytes| &&
    Leaf.Canonical(r.leaf, bytes[r.at..r.at + r.leaf.width], enc)
  }

  /** The leaf's bytes decode, and what they decode to can be encoded again. */
  predicate Recodable(r: Read, bytes: seq<Byte>, enc: Encoding) {
    !r.leaf.kind.Group? && r.at + r.leaf.width <= |bytes| &&
    Leaf.Recode(r.leaf, bytes[r.at..r.at + r.leaf.width], enc).Ok?
  }

  predicate AllRecodable(trace: seq<Read>, bytes: seq<Byte>, enc: Encoding) {
    forall i :: 0 <= i < |trace| ==> Recodable(trace[i], bytes, enc)
  }

  lemma TraceParts(a: seq<Read>, b: seq<Read>, bytes: seq<Byte>, enc: Encoding)
    ensures AllServed(a + b) <==> AllServed(a) && AllServed(b)
    ensures AllRecodable(a + b, bytes, enc) <==> AllRecodable(a, bytes, enc) && AllRecodable(b, bytes, enc)
  {
    hide Served, Recodable;
    assert forall i :: 0 <= i < |a| ==> (a + b)[i] == a[i];
    assert forall i :: 0 <= i < |b| ==> (a + b)[|a| + i] == b[i];
  }

  /** A write of what the bytes at its address decode to. */
  predicate Recoded(w: Write, bytes: seq<Byte>, enc: Encoding) {
    !w.leaf.kind.Group? && w.at + w.leaf.width <= |bytes| && |w.data| == w.leaf.width &&
    Leaf.Recode(w.leaf, bytes[w.at..w.at + w.leaf.width], enc) == Ok(w.data)
  }

  predicate AllRecoded(ws: seq<Write>, bytes: seq<Byte>, enc: Encoding) {
    forall i :: 0 <= i < |ws| ==> Recoded(ws[i], bytes, enc)
  }

  lemma RecodedConcat(a: seq<Write>, b: seq<Write>, bytes: seq<Byte>, enc: Encoding)
    requires AllRecoded(a, bytes, enc) && AllRecoded(b, bytes, enc)
    ensures AllRecoded(a + b, bytes, enc)
  {
    hide Recoded;
  }

  /** A write of the very bytes that already stand at its address. */
  predicate CopiesWrite(w: Write, bytes: seq<Byte>) {
    |w.data| == w.leaf.width && w.at + w.leaf.width <= |bytes| && w.data == bytes[w.at..w.at + w.leaf.width]
  }

  predicate Copies(ws: seq<Write>, bytes: seq<Byte>) {
    forall i :: 0 <= i < |ws| ==> CopiesWrite(ws[i], bytes)
  }

  // ---------------------------------------------------------------- values found by name

  /** Siblings of one name carry one value, at every level. */
  predicate Agreeing(v: Value) {
    match v
    case StructV(pairs) => NamesAgree(pairs) && forall i :: 0 <= i < |pairs| ==> Agreeing(pairs[i].1)
    case ListV(items) => forall i :: 0 <= i < |items| ==> Agreeing(items[i])
    case _ => true
  }

  predicate NamesAgree(pairs: Pairs) {
    forall i, j :: 0 <= i < j < |pairs| && Strings.SameName(pairs[i].0, pairs[j].0) ==> pairs[i].1 == pairs[j].1
  }

  predicate AllAgreeing(pairs: Pairs) {
    forall i :: 0 <= i < |pairs| ==> Agreeing(pairs[i].1)
  }

  /** Every pair's value is what its name finds. */
  predicate Finds(values: Pairs, pairs: Pairs) {
    forall i :: 0 <= i < |pairs| ==> Lookup(values, pairs[i].0) == pairs[i].1
  }

  predicate Table(f: Field) {
    f.occurs.Some? || f.dependingOn.Some?
  }

  /** No field has the name of a filler table among its siblings, at any level. */
  predicate PadTablesApart(fields: seq<Field>) {
    (forall i, j :: 0 <= i < |fields| && 0 <= j < |fields| && fields[i].kind.Pad? && Table(fields[i]) ==>
       fields[j].kind.Pad? || !Strings.SameName(fields[i].name, fields[j].name)) &&
    forall i :: 0 <= i < |fields| && fields[i].kind.Group? ==> PadTablesApart(fields[i].kind.children)
  }

  predicate PadTablesUnfound(fields: seq<Field>, values: Pairs) {
    forall i :: 0 <= i < |fields| && fields[i].kind.Pad? && Table(fields[i]) ==> Lookup(values, fields[i].name) == Null
  }

  predicate GroupsApart(fields: seq<Field>) {
    forall i :: 0 <= i < |fields| && fields[i].kind.Group? ==> PadTablesApart(fields[i].kind.children)
  }

  lemma {:induction false} LookupAgreed(pairs: Pairs, i: nat)
    requires NamesAgree(pairs) && i < |pairs|
    ensures Lookup(pairs, pairs[i].0) == pairs[i].1
  {
    if !Strings.SameName(pairs[0].0, pairs[i].0) {
      assert pairs[1..][i - 1] == pairs[i];
      LookupAgreed(pairs[1..], i - 1);
    }
  }

  lemma AgreedFinds(pairs: Pairs)
    requires NamesAgree(pairs)
    ensures Finds(pairs, pairs)
  {
    forall i | 0 <= i < |pairs|
      ensures Lookup(pairs, pairs[i].0) == pairs[i].1
    {
      LookupAgreed(pairs, i);
    }
  }

  /** The pairs of a decoded list carry names of its own fields. */
  lemma {:induction false} DecodedNames(
    fields: seq<Field>, base: nat, shift: nat, end: nat, bytes: seq<Byte>, enc: Encoding, scope: Scope, name: string
  )
    requires DecodeSeq(fields, base, shift, end, bytes, enc, scope).Ok?
    requires forall i :: 0 <= i < |fields| ==> fields[i].kind.Pad? || !Strings.SameName(fields[i].name, name)
    ensures Fresh(DecodeSeq(fields, base, shift, end, bytes, enc, scope).value.pairs, name)
    decreases |fields|
  {
    hide DecodeSeq, DecodeField;
    if fields == [] {
      DecodeSeqNone(base, shift, end, bytes, enc, scope);
    } else {
      DecodeSeqCons(fields, base, shift, end, bytes, enc, scope);
      var f := fields[0];
      var at := base + f.offset + shift;
      var one := DecodeField(f, at, bytes, enc, scope).value;
      DecodedNames(fields[1..], base, shift + Excess(f, one.size), Max(end, at + one.size), bytes, enc,
                   Remember(f, one.value, one.scope), name);
    }
  }

  lemma {:induction false} LookupFresh(values: Pairs, name: string)
    requires Fresh(values, name)
    ensures Lookup(values, name) == Null
  {
    if values != [] { LookupFresh(values[1..], name); }
  }

  /** A list's own decoded pairs find nothing for its filler tables. */
  lemma FillersUnfound(
    fields: seq<Field>, base: nat, shift: nat, end: nat, bytes: seq<Byte>, enc: Encoding, scope: Scope
  )
    requires PadTablesApart(fields) && DecodeSeq(fields, base, shift, end, bytes, enc, scope).Ok?
    ensures PadTablesUnfound(fields, DecodeSeq(fields, base, shift, end, bytes, enc, scope).value.pairs)
    ensures GroupsApart(fields)
  {
    hide DecodeSeq;
    var pairs := DecodeSeq(fields, base, shift, end, bytes, enc, scope).value.pairs;
    forall i | 0 <= i < |fields| && fields[i].kind.Pad? && Table(fields[i])
      ensures Lookup(pairs, fields[i].name) == Null
    {
      forall j | 0 <= j < |fields|
        ensures fields[j].kind.Pad? || !Strings.SameName(fields[j].name, fields[i].name)
      {
        assert fields[j].kind.Pad? || !Strings.SameName(fields[i].name, fields[j].name);
      }
      DecodedNames(fields, base, shift, end, bytes, enc, scope, fields[i].name);
      LookupFresh(pairs, fields[i].name);
    }
  }

  // ---------------------------------------------------------------- the induction

  /** A plan is made exactly when every leaf is recodable, and then recodes each where it was read. */
  predicate Rewrites(p: Result<Plan>, end: nat, trace: seq<Read>, bytes: seq<Byte>, enc: Encoding) {
    (p.Ok? <==> AllRecodable(trace, bytes, enc)) &&
    (p.Ok? ==>
       p.value.end == end && TraceOf(p.value.writes) == trace && AllRecoded(p.value.writes, bytes, enc))
  }

  lemma RewritesConcat(
    a: Result<Plan>, b: Result<Plan>, mid: nat, end: nat, s: seq<Read>, t: seq<Read>, bytes: seq<Byte>, enc: Encoding
  )
    requires Rewrites(a, mid, s, bytes, enc) && (a.Ok? ==> Rewrites(b, end, t, bytes, enc))
    ensures Rewrites(if a.Err? || b.Err? then Err else Ok(Plan(a.value.writes + b.value.writes, b.value.end)),
                     end, s + t, bytes, enc)
  {
    hide AllRecodable, AllRecoded, TraceOf;
    TraceParts(s, t, bytes, enc);
    if a.Ok? && b.Ok? {
      TraceConcat(a.value.writes, b.value.writes);
      RecodedConcat(a.value.writes, b.value.writes, bytes, enc);
    }
  }

  lemma RewritesNothing(end: nat, bytes: seq<Byte>, enc: Encoding)
    ensures Rewrites(Ok(Plan([], end)), end, [], bytes, enc)
  {
    assert TraceOf([]) == [];
  }

  /** The value a decoded field is planned from: its own, which a filler does not need. */
  predicate OwnValue(f: Field, decoded: Value, v: Value) {
    if f.kind.Pad? then Table(f) ==> v == Null else v == decoded
  }

  /** Encoding what was decoded plans for every leaf, where it was read, the encoding of what was read. */
  lemma {:induction false} RewriteSeq(
    fields: seq<Field>, base: nat, shift: nat, end: nat, bytes: seq<Byte>, enc: Encoding, scope: Scope, values: Pairs
  )
    requires DecodeSeq(fields, base, shift, end, bytes, enc, scope).Ok?
    requires var s := DecodeSeq(fields, base, shift, end, bytes, enc, scope).value;
             Finds(values, s.pairs) && AllAgreeing(s.pairs) && AllServed(s.trace)
    requires PadTablesUnfound(fields, values) && GroupsApart(fields)
    ensures var s := DecodeSeq(fields, base, shift, end, bytes, enc, scope).value;
            Rewrites(PlanSeq(fields, base, shift, end, values, enc), s.end, s.trace, bytes, enc)
    decreases fields, 0
  {
    hide PlanSeq, PlanField, DecodeSeq, DecodeField, AllServed, Lookup, Remember, Excess, Rewrites, Agreeing;
    hide PadTablesApart;
    if fields == [] {
      DecodeSeqNone(base, shift, end, bytes, enc, scope);
      PlanSeqEmpty(base, shift, end, values, enc);
      RewritesNothing(end, bytes, enc);
    } else {
      DecodeSeqCons(fields, base, shift, end, bytes, enc, scope);
      PlanSeqCons(fields, base, shift, end, values, enc);
      var f := fields[0];
      var at := base + f.offset + shift;
      var one := DecodeField(f, at, bytes, enc, scope).value;
      var shift', end' := shift + Excess(f, one.size), Max(end, at + one.size);
      var scope' := Remember(f, one.value, one.scope);
      var rest := DecodeSeq(fields[1..], base, shift', end', bytes, enc, scope').value;
      TraceParts(one.trace, rest.trace, bytes, enc);
      FoundFirst(f, one.value, rest.pairs, values);
      var v := Lookup(values, f.name);
      RewriteField(f, at, v, bytes, enc, scope);
      RewriteSeq(fields[1..], base, shift', end', bytes, enc, scope', values);
      var p := PlanField(f, at, v, enc);
      if p.Ok? { RewritesEnd(p, at + one.size, one.trace, bytes, enc); }
      RewritesConcat(p, PlanSeq(fields[1..], base, shift', end', values, enc), at + one.size, rest.end,
                     one.trace, rest.trace, bytes, enc);
    }
  }

  lemma RewritesEnd(p: Result<Plan>, end: nat, trace: seq<Read>, bytes: seq<Byte>, enc: Encoding)
    requires p.Ok? && Rewrites(p, end, trace, bytes, enc)
    ensures p.value.end == end
  {
  }

  /** The first of the shown pairs finds its own value, and so do the others. */
  lemma FoundFirst(f: Field, v: Value, rest: Pairs, values: Pairs)
    requires Finds(values, Shown(f, v) + rest) && AllAgreeing(Shown(f, v) + rest)
    ensures Finds(values, rest) && AllAgreeing(rest)
    ensures !f.kind.Pad? ==> Lookup(values, f.name) == v && Agreeing(v)
  {
    hide Lookup, Agreeing;
    var all := Shown(f, v) + rest;
    assert forall i :: 0 <= i < |rest| ==> all[|Shown(f, v)| + i] == rest[i];
    if !f.kind.Pad? { assert all[0] == (f.name, v); }
  }

  lemma {:induction false} RewriteField(
    f: Field, at: nat, v: Value, bytes: seq<Byte>, enc: Encoding, scope: Scope
  )
    requires DecodeField(f, at, bytes, enc, scope).Ok?
    requires var one := DecodeField(f, at, bytes, enc, scope).value;
             OwnValue(f, one.value, v) && (f.kind.Pad? || Agreeing(one.value)) && AllServed(one.trace)
    requires f.kind.Group? ==> PadTablesApart(f.kind.children)
    ensures var one := DecodeField(f, at, bytes, enc, scope).value;
            Rewrites(PlanField(f, at, v, enc), at + one.size, one.trace, bytes, enc)
    decreases f, 3
  {
    hide PlanOne, PlanItems, DecodeOne, DecodeItems, AllServed, Rewrites, PadTablesApart;
    match CountFor(f, scope).value {
      case None => RewriteOne(f, at, v, bytes, enc, scope);
      case Some(n) =>
        var items := DecodeItems(f, n, at, bytes, enc, scope).value;
        var again := if f.kind.Pad? then Repeat(Null, n) else items.values;
        if f.kind.Pad? && f.dependingOn.Some? { NoFillerTable(f, n, at, bytes, enc, scope); }
        assert f.kind.Pad? && f.dependingOn.None? ==> Fit([], n) == again;
        assert items.values[..|items.values|] == items.values;
        RewriteItems(f, n, at, again, bytes, enc, scope);
    }
  }

  /** A filler table of dynamic length has no elements in a trace the encoder can serve. */
  lemma NoFillerTable(f: Field, n: nat, at: nat, bytes: seq<Byte>, enc: Encoding, scope: Scope)
    requires f.kind.Pad? && f.dependingOn.Some?
    requires DecodeItems(f, n, at, bytes, enc, scope).Ok?
    ensures n > 0 ==> !AllServed(DecodeItems(f, n, at, bytes, enc, scope).value.trace)
  {
    hide Leaf.DecodeLeaf, Leaf.Shaped;
    if n > 0 {
      var trace := DecodeItems(f, n, at, bytes, enc, scope).value.trace;
      assert trace[0].leaf == f;
      assert !Served(trace[0]);
    }
  }

  lemma {:induction false} RewriteItems(
    f: Field, n: nat, at: nat, again: seq<Value>, bytes: seq<Byte>, enc: Encoding, scope: Scope
  )
    requires DecodeItems(f, n, at, bytes, enc, scope).Ok? && |again| == n
    requires var items := DecodeItems(f, n, at, bytes, enc, scope).value;
             (f.kind.Pad? || (again == items.values && forall i :: 0 <= i < n ==> Agreeing(again[i]))) &&
             AllServed(items.trace)
    requires f.kind.Group? ==> PadTablesApart(f.kind.children)
    ensures var items := DecodeItems(f, n, at, bytes, enc, scope).value;
            Rewrites(PlanItems(f, again, at, enc), items.end, items.trace, bytes, enc)
    decreases f, 2, n
  {
    hide PlanOne, DecodeOne, AllServed, Rewrites, Agreeing, PlanItems, DecodeItems, PadTablesApart;
    if n == 0 {
      NoItems(f, at, enc, scope, bytes);
      RewritesNothing(at, bytes, enc);
    } else {
      DecodeItemsCons(f, n, at, enc, scope, bytes);
      PlanItemsStep(f, again, at, enc);
      var one := DecodeOne(f, at, bytes, enc, scope).value;
      var rest := DecodeItems(f, n - 1, at + one.size, bytes, enc, one.scope).value;
      TraceParts(one.trace, rest.trace, bytes, enc);
      assert f.kind.Pad? || (again[0] == one.value && again[1..] == rest.values);
      RewriteOne(f, at, again[0], bytes, enc, scope);
      RewriteItems(f, n - 1, at + one.size, again[1..], bytes, enc, one.scope);
      var p := PlanOne(f, at, again[0], enc);
      if p.Ok? { RewritesEnd(p, at + one.size, one.trace, bytes, enc); }
      RewritesConcat(p, PlanItems(f, again[1..], at + one.size, enc), at + one.size, rest.end,
                     one.trace, rest.trace, bytes, enc);
    }
  }

  lemma PlanItemsStep(f: Field, items: seq<Value>, at: nat, enc: Encoding)
    requires items != []
    ensures var one := PlanOne(f, at, items[0], enc);
            PlanItems(f, items, at, enc) ==
            if one.Err? then Err
            else
              var rest := PlanItems(f, items[1..], one.value.end, enc);
              if rest.Err? then Err else Ok(Plan(one.value.writes + rest.value.writes, rest.value.end))
  {
    hide PlanOne;
  }

  lemma {:induction false} RewriteOne(
    f: Field, at: nat, v: Value, bytes: seq<Byte>, enc: Encoding, scope: Scope
  )
    requires DecodeOne(f, at, bytes, enc, scope).Ok?
    requires var one := DecodeOne(f, at, bytes, enc, scope).value;
             (f.kind.Pad? || (v == one.value && Agreeing(v))) && AllServed(one.trace)
    requires f.kind.Group? ==> PadTablesApart(f.kind.children)
    ensures var one := DecodeOne(f, at, bytes, enc, scope).value;
            Rewrites(PlanOne(f, at, v, enc), at + one.size, one.trace, bytes, enc)
    decreases f, 1
  {
    hide PlanSeq, DecodeSeq, AllServed, Rewrites, PadTablesApart;
    if f.kind.Group? {
      var children := f.kind.children;
      var s := DecodeSeq(children, at, 0, at, bytes, enc, scope).value;
      AgreedFinds(s.pairs);
      FillersUnfound(children, at, 0, at, bytes, enc, scope);
      RewriteSeq(children, at, 0, at, bytes, enc, scope, s.pairs);
    } else {
      RewriteLeaf(f, at, v, bytes, enc, scope);
    }
  }

  lemma RewriteLeaf(f: Field, at: nat, v: Value, bytes: seq<Byte>, enc: Encoding, scope: Scope)
    requires !f.kind.Group? && DecodeOne(f, at, bytes, enc, scope).Ok?
    requires var one := DecodeOne(f, at, bytes, enc, scope).value;
             (f.kind.Pad? || v == one.value) && AllServed(one.trace)
    ensures var one := DecodeOne(f, at, bytes, enc, scope).value;
            Rewrites(PlanOne(f, at, v, enc), at + one.size, one.trace, bytes, enc)
  {
    hide Leaf.EncodeLeaf, Leaf.DecodeLeaf, Leaf.Shaped;
    var one, slice := DecodeOne(f, at, bytes, enc, scope).value, bytes[at..at + f.width];
    assert one.trace == [Read(at, f)] && Served(one.trace[0]);
    if f.kind.Pad? {
      Leaf.PadIgnoresValue(f, v, slice, enc);
      Leaf.SamePad(f, v, one.value, enc);
    }
    var again := Leaf.EncodeLeaf(f, v, enc);
    assert AllRecodable(one.trace, bytes, enc) <==> again.Ok? by {
      assert Recodable(one.trace[0], bytes, enc) <==> again.Ok?;
    }
    if again.Ok? {
      Leaf.WidthKept(f, v, enc);
      var w := Write(at, again.value, f);
      assert Recoded(w, bytes, enc) && TraceOf([w]) == [Read(at, f)];
    }
  }

  // ---------------------------------------------------------------- the buffer

  /** Byte `i` belongs to some leaf of the trace. */
  predicate Covered(trace: seq<Read>, i: nat) {
    exists k :: 0 <= k < |trace| && trace[k].at <= i < trace[k].at + trace[k].leaf.width
  }

  /** The furthest end of a leaf of the trace. */
  function Reach(trace: seq<Read>): nat {
    if trace == [] then 0 else Max(trace[0].at + trace[0].leaf.width, Reach(trace[1..]))
  }

  lemma CoveredCons(r: Read, rest: seq<Read>, i: nat)
    ensures Covered([r] + rest, i) <==> r.at <= i < r.at + r.leaf.width || Covered(rest, i)
  {
    if r.at <= i < r.at + r.leaf.width { assert ([r] + rest)[0] == r; }
    if Covered(rest, i) {
      var k :| 0 <= k < |rest| && rest[k].at <= i < rest[k].at + rest[k].leaf.width;
      assert ([r] + rest)[k + 1] == rest[k];
    }
  }

  lemma NotCovered()
    ensures forall i :: !Covered([], i)
  {
  }

  /** Writing bytes back in any order, with overlaps, restores every covered byte and touches no other. */
  lemma {:induction false} PutAllCopies(buf: seq<Byte>, ws: seq<Write>, bytes: seq<Byte>)
    requires Copies(ws, bytes)
    ensures |PutAll(buf, ws)| == Max(|buf|, Reach(TraceOf(ws)))
    ensures Reach(TraceOf(ws)) <= |bytes|
    ensures forall i :: 0 <= i < |PutAll(buf, ws)| ==>
      PutAll(buf, ws)[i] ==
      if Covered(TraceOf(ws), i) && i < |bytes| then bytes[i] else if i < |buf| then buf[i] else 0
    decreases |ws|
  {
    hide Covered, Put;
    if ws == [] {
      assert TraceOf(ws) == [];
      NotCovered();
    } else {
      var w, now := ws[0], Put(buf, ws[0].at, ws[0].data);
      assert CopiesWrite(w, bytes);
      PutAllCopies(now, ws[1..], bytes);
      var t := TraceOf(ws[1..]);
      assert TraceOf(ws) == [Read(w.at, w.leaf)] + t;
      assert ([Read(w.at, w.leaf)] + t)[1..] == t;
      forall i | 0 <= i < |PutAll(buf, ws)|
        ensures PutAll(buf, ws)[i] ==
          if Covered(TraceOf(ws), i) && i < |bytes| then bytes[i] else if i < |buf| then buf[i] else 0
      {
        CoveredCons(Read(w.at, w.leaf), t, i);
      }
    }
  }

  // ---------------------------------------------------------------- the theorem

  function TraceIn(layout: Layout, bytes: seq<Byte>, enc: Encoding): seq<Read>
    requires DecodeRecord(layout, bytes, enc).Ok?
  {
    DecodeSeq(layout.fields, 0, 0, 0, bytes, enc, map[]).value.trace
  }

  /** No bytes past the record, and zero in every byte no leaf covers. */
  predicate ZeroSlack(layout: Layout, bytes: seq<Byte>, trace: seq<Read>) {
    |bytes| == Max(layout.recordLen, Reach(trace)) &&
    forall i :: 0 <= i < |bytes| && !Covered(trace, i) ==> bytes[i] == 0
  }

  lemma {:induction false} DecodedSupplied(
    fields: seq<Field>, base: nat, shift: nat, end: nat, bytes: seq<Byte>, enc: Encoding, scope: Scope
  )
    requires DecodeSeq(fields, base, shift, end, bytes, enc, scope).Ok?
    ensures Supplied(fields, DecodeSeq(fields, base, shift, end, bytes, enc, scope).value.pairs)
    decreases |fields|
  {
    hide DecodeSeq, DecodeField, Remember, Excess;
    if fields != [] {
      DecodeSeqCons(fields, base, shift, end, bytes, enc, scope);
      var f := fields[0];
      var at := base + f.offset + shift;
      var one := DecodeField(f, at, bytes, enc, scope).value;
      var shift', end' := shift + Excess(f, one.size), Max(end, at + one.size);
      var scope' := Remember(f, one.value, one.scope);
      DecodedSupplied(fields[1..], base, shift', end', bytes, enc, scope');
      SuppliedCons(fields, one.value, DecodeSeq(fields[1..], base, shift', end', bytes, enc, scope').value.pairs);
    }
  }

  lemma SuppliedCons(fields: seq<Field>, v: Value, rest: Pairs)
    requires fields != [] && Supplied(fields[1..], rest)
    ensures Supplied(fields, Shown(fields[0], v) + rest)
  {
    var all := Shown(fields[0], v) + rest;
    forall i | 0 <= i < |fields| && !fields[i].kind.Pad?
      ensures exists j :: 0 <= j < |all| && Strings.SameName(all[j].0, fields[i].name)
    {
      if i == 0 {
        assert Strings.SameName(all[0].0, fields[0].name);
      } else {
        assert fields[1..][i - 1] == fields[i];
        var j :| 0 <= j < |rest| && Strings.SameName(rest[j].0, fields[i].name);
        assert all[|Shown(fields[0], v)| + j] == rest[j];
      }
    }
  }

  /** Re-encoding a decoded record plans the recoding of every leaf read. */
  lemma Replanned(layout: Layout, bytes: seq<Byte>, enc: Encoding)
    requires PadTablesApart(layout.fields) && DecodeRecord(layout, bytes, enc).Ok?
    requires Agreeing(StructV(DecodeRecord(layout, bytes, enc).value))
    requires AllServed(TraceIn(layout, bytes, enc))
    ensures var p := PlanSeq(layout.fields, 0, 0, 0, DecodeRecord(layout, bytes, enc).value, enc);
            var r := EncodeRecord(layout, DecodeRecord(layout, bytes, enc).value, enc);
            Rewrites(p, DecodeSeq(layout.fields, 0, 0, 0, bytes, enc, map[]).value.end, TraceIn(layout, bytes, enc),
                     bytes, enc) &&
            r == if p.Err? then Err else Ok(PutAll(Repeat<Byte>(0, layout.recordLen), p.value.writes))
  {
    hide PlanSeq, DecodeSeq, AllServed, PadTablesApart, Rewrites, Supplied;
    var s := DecodeSeq(layout.fields, 0, 0, 0, bytes, enc, map[]).value;
    AgreedFinds(s.pairs);
    FillersUnfound(layout.fields, 0, 0, 0, bytes, enc, map[]);
    RewriteSeq(layout.fields, 0, 0, 0, bytes, enc, map[], s.pairs);
    DecodedSupplied(layout.fields, 0, 0, 0, bytes, enc, map[]);
  }

  lemma CanonicalRecodes(r: Read, bytes: seq<Byte>, enc: Encoding)
    requires CanonicalRead(r, bytes, enc)
    ensures Served(r) && Leaf.Survives(r.leaf, bytes[r.at..r.at + r.leaf.width], enc)
  {
    hide Leaf.Canonical, Leaf.Recode, Leaf.Shaped;
    Leaf.CanonicalRoundTrip(r.leaf, bytes[r.at..r.at + r.leaf.width], enc);
  }

  /** Canonical leaves are served and recodable. */
  lemma CanonicalParts(trace: seq<Read>, bytes: seq<Byte>, enc: Encoding)
    requires CanonicalTrace(trace, bytes, enc)
    ensures AllServed(trace) && AllRecodable(trace, bytes, enc)
  {
    hide Recodable, Leaf.Survives, Leaf.Canonical, Leaf.Shaped;
    forall i | 0 <= i < |trace|
      ensures Served(trace[i]) && Recodable(trace[i], bytes, enc)
    {
      CanonicalRecodes(trace[i], bytes, enc);
      SurvivorRecodable(trace[i], bytes, enc);
    }
  }

  lemma SurvivorRecodable(r: Read, bytes: seq<Byte>, enc: Encoding)
    requires !r.leaf.kind.Group? && r.at + r.leaf.width <= |bytes|
    requires Leaf.Survives(r.leaf, bytes[r.at..r.at + r.leaf.width], enc)
    ensures Recodable(r, bytes, enc)
  {
    hide Leaf.Recode;
  }

  /** Recoding canonical leaves copies their bytes. */
  lemma CanonicalCopies(ws: seq<Write>, bytes: seq<Byte>, enc: Encoding)
    requires CanonicalTrace(TraceOf(ws), bytes, enc) && AllRecoded(ws, bytes, enc)
    ensures Copies(ws, bytes)
  {
    hide Leaf.Canonical, Leaf.Recode, Leaf.Shaped;
    forall i | 0 <= i < |ws|
      ensures CopiesWrite(ws[i], bytes)
    {
      assert CanonicalRead(TraceOf(ws)[i], bytes, enc) && Recoded(ws[i], bytes, enc);
      CanonicalRecodes(TraceOf(ws)[i], bytes, enc);
    }
  }

  /**
   Bytes to values to bytes, for every layout, overlays included: when siblings of one name carry one
   value and every leaf read is canonical, encoding succeeds, restores every byte a leaf covers and
   leaves zeros elsewhere; so it restores the record exactly when the slack is zero and nothing trails.
   */
  lemma BytesRoundTrip(layout: Layout, bytes: seq<Byte>, enc: Encoding)
    requires PadTablesApart(layout.fields) && DecodeRecord(layout, bytes, enc).Ok?
    requires Agreeing(StructV(DecodeRecord(layout, bytes, enc).value))
    requires CanonicalTrace(TraceIn(layout, bytes, enc), bytes, enc)
    ensures var r := EncodeRecord(layout, DecodeRecord(layout, bytes, enc).value, enc);
            r.Ok? && (r.value == bytes <==> ZeroSlack(layout, bytes, TraceIn(layout, bytes, enc)))
  {
    hide PlanSeq, DecodeRecord, CanonicalTrace, Copies, PadTablesApart, TraceOf, AllServed, AllRecodable, AllRecoded;
    hide TraceIn, Agreeing, Reach, Covered, EncodeRecord;
    var trace := TraceIn(layout, bytes, enc);
    CanonicalParts(trace, bytes, enc);
    Replanned(layout, bytes, enc);
    var ws := PlanSeq(layout.fields, 0, 0, 0, DecodeRecord(layout, bytes, enc).value, enc).value.writes;
    CanonicalCopies(ws, bytes, enc);
    PutAllCopies(Repeat<Byte>(0, layout.recordLen), ws, bytes);
    var r := PutAll(Repeat<Byte>(0, layout.recordLen), ws);
    if ZeroSlack(layout, bytes, trace) {
      assert r == bytes;
    }
    if r == bytes {
      assert forall i :: 0 <= i < |bytes| && !Covered(trace, i) ==> r[i] == 0;
    }
  }

  /** A leaf whose recoding the record already has is canonical. */
  lemma StoredIsCanonical(ws: seq<Write>, bytes: seq<Byte>, enc: Encoding)
    requires AllRecoded(ws, bytes, enc) && AllServed(TraceOf(ws))
    requires forall i :: 0 <= i < |ws| ==> Leaf.Shaped(ws[i].leaf) && Stores(ws[i], bytes)
    ensures CanonicalTrace(TraceOf(ws), bytes, enc)
  {
    hide Leaf.Canonical, Leaf.Recode, Leaf.Shaped;
    forall i | 0 <= i < |ws|
      ensures CanonicalRead(TraceOf(ws)[i], bytes, enc)
    {
      var w := ws[i];
      assert Recoded(w, bytes, enc) && Stores(w, bytes) && Served(TraceOf(ws)[i]);
      Leaf.CanonicalExact(w.leaf, bytes[w.at..w.at + w.leaf.width], enc);
    }
  }

  /** Every leaf read is of a well-shaped field. */
  predicate AllShaped(trace: seq<Read>) {
    forall i :: 0 <= i < |trace| ==> !trace[i].leaf.kind.Group? && Leaf.Shaped(trace[i].leaf)
  }

  /**
   In an ordered layout the condition is exact: with well-shaped leaves a decoded record is restored
   exactly when every leaf read is canonical, the slack is zero and nothing trails.
   */
  lemma OrderedBytesRoundTrip(layout: Layout, bytes: seq<Byte>, enc: Encoding)
    requires Ordered(layout.fields) && PadTablesApart(layout.fields) && DecodeRecord(layout, bytes, enc).Ok?
    requires Agreeing(StructV(DecodeRecord(layout, bytes, enc).value))
    requires AllServed(TraceIn(layout, bytes, enc)) && AllShaped(TraceIn(layout, bytes, enc))
    ensures EncodeRecord(layout, DecodeRecord(layout, bytes, enc).value, enc) == Ok(bytes)
       <==> CanonicalTrace(TraceIn(layout, bytes, enc), bytes, enc) &&
            ZeroSlack(layout, bytes, TraceIn(layout, bytes, enc))
  {
    hide PlanSeq, DecodeRecord, CanonicalTrace, PadTablesApart, TraceOf, AllServed, AllRecodable, AllRecoded;
    hide TraceIn, Agreeing, ZeroSlack, EncodeRecord, Ordered, PutAll, Within, Leaf.Shaped;
    var values, trace := DecodeRecord(layout, bytes, enc).value, TraceIn(layout, bytes, enc);
    if CanonicalTrace(trace, bytes, enc) { BytesRoundTrip(layout, bytes, enc); }
    if EncodeRecord(layout, values, enc) == Ok(bytes) {
      Replanned(layout, bytes, enc);
      var p := PlanSeq(layout.fields, 0, 0, 0, values, enc).value;
      RecodedSized(p.writes, bytes, enc);
      OrderedSeq(layout.fields, 0, 0, 0, 0, values, enc);
      PutAllStores(Repeat<Byte>(0, layout.recordLen), p.writes, 0, p.end);
      ShapedWrites(p.writes);
      StoredIsCanonical(p.writes, bytes, enc);
      BytesRoundTrip(layout, bytes, enc);
    }
  }

  lemma RecodedSized(ws: seq<Write>, bytes: seq<Byte>, enc: Encoding)
    requires AllRecoded(ws, bytes, enc)
    ensures Sized(ws)
  {
    forall i | 0 <= i < |ws|
      ensures !ws[i].leaf.kind.Group? && |ws[i].data| == ws[i].leaf.width
    {
      assert Recoded(ws[i], bytes, enc);
    }
  }

  lemma ShapedWrites(ws: seq<Write>)
    requires AllShaped(TraceOf(ws))
    ensures forall i :: 0 <= i < |ws| ==> !ws[i].leaf.kind.Group? && Leaf.Shaped(ws[i].leaf)
  {
    hide Leaf.Shaped;
    forall i | 0 <= i < |ws|
      ensures !ws[i].leaf.kind.Group? && Leaf.Shaped(ws[i].leaf)
    {
      assert TraceOf(ws)[i].leaf == ws[i].leaf;
    }
  }

  // ---------------------------------------------------------------- distinct names

  lemma {:induction false} DistinctTablesApart(fields: seq<Field>)
    requires DistinctSeq(fields)
    ensures PadTablesApart(fields)
    decreases fields
  {
    forall i | 0 <= i < |fields| && fields[i].kind.Group?
      ensures PadTablesApart(fields[i].kind.children)
    {
      DistinctTablesApart(fields[i].kind.children);
    }
    forall i, j | 0 <= i < |fields| && 0 <= j < |fields| && fields[i].kind.Pad? && Table(fields[i])
      ensures fields[j].kind.Pad? || !Strings.SameName(fields[i].name, fields[j].name)
    {
      if i != j { assert !Strings.SameName(fields[Min(i, j)].name, fields[Max(i, j)].name); }
    }
  }

  /** With distinct names siblings of one name never disagree. */
  lemma {:induction false} DistinctAgrees(
    fields: seq<Field>, base: nat, shift: nat, end: nat, bytes: seq<Byte>, enc: Encoding, scope: Scope
  )
    requires DistinctSeq(fields) && DecodeSeq(fields, base, shift, end, bytes, enc, scope).Ok?
    ensures var pairs := DecodeSeq(fields, base, shift, end, bytes, enc, scope).value.pairs;
            NamesAgree(pairs) && AllAgreeing(pairs)
    decreases fields, 0
  {
    hide DecodeSeq, DecodeField, Remember, Excess, Agreeing, DistinctSeq;
    if fields == [] {
      DecodeSeqNone(base, shift, end, bytes, enc, scope);
    } else {
      DecodeSeqCons(fields, base, shift, end, bytes, enc, scope);
      var f := fields[0];
      var at := base + f.offset + shift;
      var one := DecodeField(f, at, bytes, enc, scope).value;
      var shift', end' := shift + Excess(f, one.size), Max(end, at + one.size);
      var scope' := Remember(f, one.value, one.scope);
      DistinctRest(fields);
      DecodedNames(fields[1..], base, shift', end', bytes, enc, scope', f.name);
      if !f.kind.Pad? { DistinctAgreesField(f, at, bytes, enc, scope); }
      DistinctAgrees(fields[1..], base, shift', end', bytes, enc, scope');
      AgreeingCons(f, one.value, DecodeSeq(fields[1..], base, shift', end', bytes, enc, scope').value.pairs);
    }
  }

  lemma DistinctRest(fields: seq<Field>)
    requires fields != [] && DistinctSeq(fields)
    ensures DistinctSeq(fields[1..]) && (fields[0].kind.Group? ==> DistinctSeq(fields[0].kind.children))
    ensures forall i :: 0 <= i < |fields[1..]| ==> !Strings.SameName(fields[1..][i].name, fields[0].name)
  {
    forall i | 0 <= i < |fields[1..]|
      ensures !Strings.SameName(fields[1..][i].name, fields[0].name)
    {
      assert fields[1..][i] == fields[i + 1];
    }
  }

  lemma AgreeingCons(f: Field, v: Value, rest: Pairs)
    requires NamesAgree(rest) && AllAgreeing(rest) && Fresh(rest, f.name) && (f.kind.Pad? || Agreeing(v))
    ensures NamesAgree(Shown(f, v) + rest) && AllAgreeing(Shown(f, v) + rest)
  {
    hide Agreeing;
    if f.kind.Pad? {
      assert Shown(f, v) + rest == rest;
    } else {
      var all := Shown(f, v) + rest;
      assert forall i :: 0 < i < |all| ==> all[i] == rest[i - 1];
    }
  }

  lemma {:induction false} DistinctAgreesField(f: Field, at: nat, bytes: seq<Byte>, enc: Encoding, scope: Scope)
    requires (f.kind.Group? ==> DistinctSeq(f.kind.children)) && DecodeField(f, at, bytes, enc, scope).Ok?
    ensures Agreeing(DecodeField(f, at, bytes, enc, scope).value.value)
    decreases f, 3
  {
    hide DecodeOne, DecodeItems;
    match CountFor(f, scope).value {
      case None => DistinctAgreesOne(f, at, bytes, enc, scope);
      case Some(n) => DistinctAgreesItems(f, n, at, bytes, enc, scope);
    }
  }

  lemma {:induction false} DistinctAgreesItems(
    f: Field, n: nat, at: nat, bytes: seq<Byte>, enc: Encoding, scope: Scope
  )
    requires (f.kind.Group? ==> DistinctSeq(f.kind.children)) && DecodeItems(f, n, at, bytes, enc, scope).Ok?
    ensures var items := DecodeItems(f, n, at, bytes, enc, scope).value.values;
            forall i :: 0 <= i < |items| ==> Agreeing(items[i])
    decreases f, 2, n
  {
    hide DecodeOne, Agreeing;
    if n > 0 {
      var one := DecodeOne(f, at, bytes, enc, scope).value;
      DistinctAgreesOne(f, at, bytes, enc, scope);
      DistinctAgreesItems(f, n - 1, at + one.size, bytes, enc, one.scope);
    }
  }

  lemma {:induction false} DistinctAgreesOne(f: Field, at: nat, bytes: seq<Byte>, enc: Encoding, scope: Scope)
    requires (f.kind.Group? ==> DistinctSeq(f.kind.children)) && DecodeOne(f, at, bytes, enc, scope).Ok?
    ensures Agreeing(DecodeOne(f, at, bytes, enc, scope).value.value)
    decreases f, 1
  {
    hide DecodeSeq, Leaf.DecodeLeaf, DistinctSeq;
    if f.kind.Group? {
      DistinctAgrees(f.kind.children, at, 0, at, bytes, enc, scope);
    } else {
      LeafAgrees(f, bytes[at..at + f.width], enc);
    }
  }

  lemma LeafAgrees(f: Field, bs: seq<Byte>, enc: Encoding)
    requires !f.kind.Group? && Leaf.DecodeLeaf(f, bs, enc).Ok?
    ensures Agreeing(Leaf.DecodeLeaf(f, bs, enc).value)
  {
  }

  /** Distinct names at every level meet both conditions on names. */
  lemma DistinctMeets(layout: Layout, bytes: seq<Byte>, enc: Encoding)
    requires DistinctSeq(layout.fields) && DecodeRecord(layout, bytes, enc).Ok?
    ensures PadTablesApart(layout.fields) && Agreeing(StructV(DecodeRecord(layout, bytes, enc).value))
  {
    hide DecodeSeq;
    DistinctTablesApart(layout.fields);
    DistinctAgrees(layout.fields, 0, 0, 0, bytes, enc, map[]);
  }
}
