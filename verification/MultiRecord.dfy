/**
 Files of several record types, told apart by a discriminator: writing stamps the tag over the
 encoded record, reading selects the layout by the tag found there.
 */
module MultiRecord {
  import opened Prelude
  import opened Layouts
  import opened Decode
  import opened Encode
  import opened Normal
  import opened RoundTrip
  import opened Describe
  import opened Ebcdic
  import Leaf
  import Strings
  import Utf8

  datatype RecordType = RecordType(tag: string, layout: Layout)

  /** The discriminator's place, one layout per tag, and the record type for unknown tags. */
  datatype MultiLayout = MultiLayout(offset: nat, width: nat, variants: seq<RecordType>, fallback: Option<nat>) {
    predicate Valid() {
      fallback.Some? ==> fallback.value < |variants|
    }
  }

  /** The first record type with a tag; the number of types when there is none. */
  function Find(variants: seq<RecordType>, tag: string): (k: nat)
    ensures k <= |variants|
    ensures k < |variants| ==> variants[k].tag == tag
    ensures forall j :: 0 <= j < k ==> variants[j].tag != tag
  {
    if variants == [] || variants[0].tag == tag then 0
    else
      var k := Find(variants[1..], tag);
      assert forall j :: 0 < j < k + 1 ==> variants[j] == variants[1..][j - 1];
      k + 1
  }

  /** The tag's bytes, cut or padded with blanks to the discriminator's width. */
  function TagBytes(tag: string, width: nat): (bs: seq<Byte>)
    ensures |bs| == width
    ensures forall i :: 0 <= i < width ==> bs[i] == if i < |Utf8.Encode(tag)| then Utf8.Encode(tag)[i] else 32
  {
    var src := Utf8.Encode(tag);
    if |src| <= width then src + Repeat<Byte>(32, width - |src|) else src[..width]
  }

  /** In ASCII a stretch holds the tag's bytes from its start, and blanks behind them. */
  predicate HoldsTag(ascii: seq<Byte>, tag: string) {
    forall i :: 0 <= i < |ascii| ==> ascii[i] == if i < |Utf8.Encode(tag)| then Utf8.Encode(tag)[i] else 32
  }

  /** `encode_discriminator`: blanks, then the tag copied over them. */
  method EncodeDiscriminator(ml: MultiLayout, tag: string, enc: Encoding) returns (bs: seq<Byte>)
    ensures |bs| == ml.width && HoldsTag(ToAscii(bs, enc), tag)
    ensures bs == FromAscii(TagBytes(tag, ml.width), enc)
  {
    var field := new Byte[ml.width](_ => 32);
    var src := Utf8.Encode(tag);
    var n := Min(|src|, ml.width);
    for i := 0 to n
      invariant forall k :: 0 <= k < ml.width ==> field[k] == if k < i then src[k] else 32
    {
      field[i] := src[i];
    }
    assert field[..] == TagBytes(tag, ml.width);
    TranscodeRoundTrip(field[..], enc);
    return FromAscii(field[..], enc);
  }

  /** The tag found in a record. */
  function TagIn(ml: MultiLayout, record: seq<Byte>, enc: Encoding): string
    requires ml.offset + ml.width <= |record|
  {
    Strings.Trim(Utf8.Lossy(ToAscii(record[ml.offset..ml.offset + ml.width], enc)))
  }

  function Select(ml: MultiLayout, record: seq<Byte>, enc: Encoding): (r: Result<nat>)
    requires ml.Valid()
    ensures r.Ok? ==> r.value < |ml.variants|
  {
    if |record| < ml.offset + ml.width then Err
    else
      var k := Find(ml.variants, TagIn(ml, record, enc));
      if k < |ml.variants| then Ok(k)
      else if ml.fallback.Some? then Ok(ml.fallback.value)
      else Err
  }

  /** One record of a union row: encoded by its variant's layout, then stamped with its tag. */
  function EncodeTagged(ml: MultiLayout, tag: string, fields: Pairs, enc: Encoding): Result<seq<Byte>> {
    var k := Find(ml.variants, tag);
    if k == |ml.variants| then Err
    else
      var rec :- EncodeRecord(ml.variants[k].layout, fields, enc);
      Ok(Put(rec, ml.offset, FromAscii(TagBytes(tag, ml.width), enc)))
  }

  lemma StampHolds(rec: seq<Byte>, at: nat, tag: string, width: nat, enc: Encoding)
    ensures var out := Put(rec, at, FromAscii(TagBytes(tag, width), enc));
            |out| == Max(|rec|, at + width) && HoldsTag(ToAscii(out[at..at + width], enc), tag) &&
            forall i :: 0 <= i < |out| && !(at <= i < at + width) ==> out[i] == if i < |rec| then rec[i] else 0
  {
    hide FromAscii, ToAscii, Utf8.Encode;
    var disc := FromAscii(TagBytes(tag, width), enc);
    TranscodeRoundTrip(TagBytes(tag, width), enc);
    assert Put(rec, at, disc)[at..at + width] == disc;
  }

  /**
   A stamped record byte by byte: in the discriminator's place the tag from its first byte and blanks
   behind it, everywhere else the encoded record, with zeros where it had to grow.
   */
  lemma TaggedBytes(ml: MultiLayout, tag: string, fields: Pairs, enc: Encoding)
    requires EncodeTagged(ml, tag, fields, enc).Ok?
    ensures var k, out := Find(ml.variants, tag), EncodeTagged(ml, tag, fields, enc).value;
            k < |ml.variants| && EncodeRecord(ml.variants[k].layout, fields, enc).Ok? &&
            var rec := EncodeRecord(ml.variants[k].layout, fields, enc).value;
            |out| == Max(|rec|, ml.offset + ml.width) &&
            HoldsTag(ToAscii(out[ml.offset..ml.offset + ml.width], enc), tag) &&
            forall i :: 0 <= i < |out| && !(ml.offset <= i < ml.offset + ml.width) ==>
              out[i] == if i < |rec| then rec[i] else 0
  {
    hide EncodeRecord, Put, TagBytes, FromAscii, ToAscii, HoldsTag;
    var k := Find(ml.variants, tag);
    StampHolds(EncodeRecord(ml.variants[k].layout, fields, enc).value, ml.offset, tag, ml.width, enc);
  }

  function DecodeTagged(ml: MultiLayout, record: seq<Byte>, enc: Encoding): Result<(nat, Pairs)>
    requires ml.Valid()
  {
    var k :- Select(ml, record, enc);
    var pairs :- DecodeRecord(ml.variants[k].layout, record, enc);
    Ok((k, pairs))
  }

  lemma StampIsPut(rec: seq<Byte>, grown: seq<Byte>, at: nat, disc: seq<Byte>)
    requires grown == if |rec| < at + |disc| then rec + Repeat<Byte>(0, at + |disc| - |rec|) else rec
    ensures grown[..at] + disc + grown[at + |disc|..] == Put(rec, at, disc)
  {
  }

  /** `encode_multi_batch`: the rows' records, or an error at the first row that has none. */
  method EncodeMultiBatch(ml: MultiLayout, rows: seq<(string, Pairs)>, enc: Encoding)
    returns (r: Result<seq<seq<Byte>>>)
    ensures r.Ok? <==> forall i :: 0 <= i < |rows| ==> EncodeTagged(ml, rows[i].0, rows[i].1, enc).Ok?
    ensures r.Ok? ==>
      |r.value| == |rows| &&
      forall i :: 0 <= i < |rows| ==> EncodeTagged(ml, rows[i].0, rows[i].1, enc) == Ok(r.value[i])
  {
    hide EncodeRecord, TagBytes, Put, FromAscii;
    var out: seq<seq<Byte>> := [];
    for i := 0 to |rows|
      invariant |out| == i
      invariant forall k :: 0 <= k < i ==> EncodeTagged(ml, rows[k].0, rows[k].1, enc) == Ok(out[k])
    {
      var (tag, fields) := rows[i];
      var k := Find(ml.variants, tag);
      if k == |ml.variants| {
        return Err;
      }
      var encoded := EncodeRecord(ml.variants[k].layout, fields, enc);
      if encoded.Err? {
        return Err;
      }
      var rec := encoded.value;
      var disc := EncodeDiscriminator(ml, tag, enc);
      if |rec| < ml.offset + ml.width {
        rec := rec + Repeat<Byte>(0, ml.offset + ml.width - |rec|);
      }
      StampIsPut(encoded.value, rec, ml.offset, disc);
      rec := rec[..ml.offset] + disc + rec[ml.offset + ml.width..];
      out := out + [rec];
    }
    return Ok(out);
  }

  // ---------------------------------------------------------------- the tag comes back

  predicate DistinctTags(variants: seq<RecordType>) {
    forall i, j :: 0 <= i < j < |variants| ==> variants[i].tag != variants[j].tag
  }

  /** The tag found in a record just stamped. */
  lemma StampedTag(ml: MultiLayout, rec: seq<Byte>, tag: string, enc: Encoding)
    ensures var stamped := Put(rec, ml.offset, FromAscii(TagBytes(tag, ml.width), enc));
            |stamped| >= ml.offset + ml.width &&
            TagIn(ml, stamped, enc) == Strings.Trim(Utf8.Lossy(TagBytes(tag, ml.width)))
  {
    hide TagBytes, Utf8.Lossy, Strings.Trim, FromAscii, ToAscii;
    var disc := FromAscii(TagBytes(tag, ml.width), enc);
    var stamped := Put(rec, ml.offset, disc);
    assert stamped[ml.offset..ml.offset + ml.width] == disc;
    TranscodeRoundTrip(TagBytes(tag, ml.width), enc);
  }

  lemma {:induction false} LossyBlanks(k: nat)
    ensures Utf8.Lossy(Repeat<Byte>(32, k)) == Repeat(' ', k)
  {
    Utf8.LossyAscii(Repeat<Byte>(32, k));
  }

  /** What the stamp of a tag reads as. */
  function ShownTag(tag: string, width: nat): string {
    Strings.Trim(Utf8.Lossy(TagBytes(tag, width)))
  }

  /** The tag's bytes fit, or only a final replacement character is cut, which reads as itself. */
  predicate TagFits(tag: string, width: nat) {
    || |Utf8.Encode(tag)| <= width
    || (tag != [] && tag[|tag| - 1] == Utf8.REPLACEMENT && |Utf8.Encode(tag[..|tag| - 1])| < width)
  }

  lemma {:induction false} TrimStartKeepsEnd(s: string)
    ensures var t := Strings.TrimStart(s); t == [] || t[|t| - 1] == s[|s| - 1]
  {
    if s != [] && Strings.IsWhitespace(s[0]) {
      TrimStartKeepsEnd(s[1..]);
    }
  }

  lemma TrimIsTrimmed(s: string)
    ensures Strings.Trimmed(Strings.Trim(s)) && |Strings.Trim(s)| <= |s|
    ensures |Strings.Trim(s)| == |s| ==> Strings.Trim(s) == s
  {
    TrimStartKeepsEnd(Strings.TrimEnd(s));
  }

  /** Trimming the blanks behind a tag trims the tag. */
  lemma TrimPadded(tag: string, k: nat)
    ensures Strings.Trim(tag + Repeat(' ', k)) == Strings.Trim(tag)
  {
    Strings.TrimEndBlanks(tag, k);
  }

  lemma CutTag(tag: string, width: nat)
    requires width < |Utf8.Encode(tag)|
    ensures ShownTag(tag, width) == tag <==> Strings.Trimmed(tag) && TagFits(tag, width)
  {
    hide Utf8.Lossy, Utf8.Encode, Strings.Trim, Strings.Trimmed;
    var p := Utf8.LossyOfCut(tag, width);
    var shown := Utf8.Lossy(TagBytes(tag, width));
    TrimIsTrimmed(shown);
    TrimOf(tag);
    var last := |tag| - 1;
    assert tag == tag[..last] + [tag[last]];
    Utf8.EncodePrefix(tag, p + 1, |tag|);
    if p < last {
      Utf8.EncodePrefix(tag, p + 1, last);
    }
  }

  lemma TrimOf(tag: string)
    ensures Strings.Trimmed(tag) ==> Strings.Trim(tag) == tag
  {
    if Strings.Trimmed(tag) { Strings.TrimOfTrimmed(tag); }
  }

  /** A tag's stamp reads as the tag exactly when the tag is trimmed and fits. */
  lemma ShownTagExact(tag: string, width: nat)
    ensures ShownTag(tag, width) == tag <==> Strings.Trimmed(tag) && TagFits(tag, width)
  {
    hide Utf8.Lossy, Utf8.Encode, Strings.Trim, Strings.Trimmed;
    if width < |Utf8.Encode(tag)| {
      CutTag(tag, width);
    } else {
      var k := width - |Utf8.Encode(tag)|;
      Utf8.LossyEncode(tag, Repeat<Byte>(32, k));
      LossyBlanks(k);
      TrimPadded(tag, k);
      TrimIsTrimmed(tag);
      TrimOf(tag);
    }
  }

  /**
   With distinct tags a stamped record is selected as its own type exactly when its tag reads back,
   or when its type is the fallback and what the stamp reads as is no type's tag.
   */
  lemma SelectStamped(ml: MultiLayout, k: nat, rec: seq<Byte>, enc: Encoding)
    requires ml.Valid() && k < |ml.variants| && DistinctTags(ml.variants)
    ensures var tag := ml.variants[k].tag;
            var stamped := Put(rec, ml.offset, FromAscii(TagBytes(tag, ml.width), enc));
            Select(ml, stamped, enc) == Ok(k) <==>
              || (Strings.Trimmed(tag) && TagFits(tag, ml.width))
              || (ml.fallback == Some(k) &&
                  forall j :: 0 <= j < |ml.variants| ==> ml.variants[j].tag != ShownTag(tag, ml.width))
  {
    hide TagBytes, Utf8.Lossy, Strings.Trim, Strings.Trimmed, TagIn, Put, TagFits;
    var tag := ml.variants[k].tag;
    StampedTag(ml, rec, tag, enc);
    ShownTagExact(tag, ml.width);
  }

  /** A tag longer than the discriminator is cut, and its records are not recognised. */
  lemma LongTagLost(layout: Layout, rec: seq<Byte>)
    ensures var ml := MultiLayout(0, 1, [RecordType("HD", layout)], None);
            Select(ml, Put(rec, 0, TagBytes("HD", 1)), Ascii) == Err
  {
    var ml := MultiLayout(0, 1, [RecordType("HD", layout)], None);
    assert FromAscii(TagBytes("HD", 1), Ascii) == TagBytes("HD", 1);
    HeaderTag("HD");
    SelectStamped(ml, 0, rec, Ascii);
    assert Select(ml, Put(rec, 0, TagBytes("HD", 1)), Ascii) != Ok(0);
  }

  lemma HeaderTag(tag: string)
    requires tag == "HD"
    ensures !TagFits(tag, 1)
  {
    var bs: seq<Byte> := [72, 68];
    assert Utf8.Chars(bs) == tag;
    Utf8.EncodeAscii(bs);
  }

  // ---------------------------------------------------------------- the fields come back

  /** Nothing but fillers is written between two addresses. */
  predicate Clear(ws: seq<Write>, lo: nat, hi: nat) {
    forall k :: 0 <= k < |ws| ==> ws[k].leaf.kind.Pad? || !Touches(ws[k], lo, hi)
  }

  predicate Touches(w: Write, lo: nat, hi: nat) {
    w.at < hi && lo < w.at + |w.data| && lo < hi && |w.data| > 0
  }

  /** Stamping over fillers leaves every field reading as it did. */
  lemma StampKeeps(ws: seq<Write>, rec: seq<Byte>, at: nat, disc: seq<Byte>, enc: Encoding)
    requires Sized(ws) && Clear(ws, at, at + |disc|)
    requires forall i :: 0 <= i < |ws| ==> ws[i].at + ws[i].leaf.width <= |rec|
    ensures AllAlike(ws, Put(rec, at, disc), enc) <==> AllAlike(ws, rec, enc)
  {
    hide Leaf.DecodeLeaf;
    var stamped := Put(rec, at, disc);
    forall i | 0 <= i < |ws|
      ensures ReadsAlike(ws[i], stamped, enc) <==> ReadsAlike(ws[i], rec, enc)
    {
      var w := ws[i];
      var before, after := rec[w.at..w.at + w.leaf.width], stamped[w.at..w.at + w.leaf.width];
      if w.leaf.kind.Pad? {
        Leaf.PadIgnoresValue(w.leaf, Null, before, enc);
        Leaf.PadIgnoresValue(w.leaf, Null, after, enc);
      } else {
        assert !Touches(w, at, at + |disc|);
        assert before == after;
      }
    }
    hide ReadsAlike;
  }

  lemma WritesInside(buf: seq<Byte>, ws: seq<Write>)
    requires Sized(ws)
    ensures forall i :: 0 <= i < |ws| ==> ws[i].at + ws[i].leaf.width <= |PutAll(buf, ws)|
  {
    forall i | 0 <= i < |ws|
      ensures ws[i].at + ws[i].leaf.width <= |PutAll(buf, ws)|
    {
      WriteInside(buf, ws, i);
    }
  }

  /**
   The multi-record round trip: with distinct trimmed tags that fit the discriminator, and nothing but
   fillers written under it, a stamped record is selected as its own type, and decodes to the normal
   form of its fields exactly when the fields read back from what overlays leave of them; in an
   ordered layout they always do.
   */
  lemma MultiRoundTrip(ml: MultiLayout, k: nat, values: Pairs, enc: Encoding)
    requires ml.Valid() && k < |ml.variants| && DistinctTags(ml.variants)
    requires Strings.Trimmed(ml.variants[k].tag) && TagFits(ml.variants[k].tag, ml.width)
    requires var fields := ml.variants[k].layout.fields;
             Supplied(fields, values) && InSeq(fields, values, map[]) &&
             (PlanSeq(fields, 0, 0, 0, values, enc).Ok? ==>
                Clear(PlanSeq(fields, 0, 0, 0, values, enc).value.writes, ml.offset, ml.offset + ml.width))
    ensures EncodeTagged(ml, ml.variants[k].tag, values, enc).Ok?
    ensures var fields := ml.variants[k].layout.fields;
            PlanSeq(fields, 0, 0, 0, values, enc).Ok? &&
            var ws := PlanSeq(fields, 0, 0, 0, values, enc).value.writes;
            (ReadsBack(ws, enc) <==>
               DecodeTagged(ml, EncodeTagged(ml, ml.variants[k].tag, values, enc).value, enc)
               == Ok((k, NormSeq(fields, values, map[]).pairs))) &&
            (Ordered(fields) ==> ReadsBack(ws, enc))
  {
    hide PlanSeq, InSeq, NormSeq, Ordered, Supplied, PutAll, Clear, TagBytes, TagIn, ReadsBack, AllAlike;
    hide Strings.Trim, Strings.Trimmed, TagFits, Utf8.Lossy, DecodeRecord, Sized;
    var layout, tag := ml.variants[k].layout, ml.variants[k].tag;
    PlansSeq(layout.fields, 0, 0, 0, values, enc, map[]);
    var ws := PlanSeq(layout.fields, 0, 0, 0, values, enc).value.writes;
    if Ordered(layout.fields) { OrderedAgrees(layout, values, enc); }
    var blank := Repeat<Byte>(0, layout.recordLen);
    var rec := PutAll(blank, ws);
    var disc := FromAscii(TagBytes(tag, ml.width), enc);
    WritesInside(blank, ws);
    StampKeeps(ws, rec, ml.offset, disc, enc);
    AlikeExactly(blank, ws, enc);
    DecodeAlike(layout, values, enc, Put(rec, ml.offset, disc));
    StampedTag(ml, rec, tag, enc);
    ShownTagExact(tag, ml.width);
    assert Find(ml.variants, tag) == k;
  }

  // ---------------------------------------------------------------- fillers at static addresses

  lemma {:induction false} StaticSizeSeq(fields: seq<Field>, end: nat, values: Pairs, scope: Scope)
    requires Static(fields) && InSeq(fields, values, scope)
    ensures SizeSeq(fields, 0, end, values) == Max(end, StaticEnd(fields))
    decreases fields, 0
  {
    hide SizeSeq, SizeField, InSeq, InField, NormField, Lookup, Remember;
    if fields == [] {
      SizeNothing(end, values);
    } else {
      InSeqCons(fields, values, scope);
      SizeSeqCons(fields, 0, end, values);
      var f := fields[0];
      var v := Lookup(values, f.name);
      StaticSizeField(f, v, scope);
      var one := NormField(f, v, scope);
      StaticSizeSeq(fields[1..], Max(end, f.offset + SizeField(f, v)), values, Remember(f, one.value, one.scope));
    }
  }

  lemma SizeNothing(end: nat, values: Pairs)
    ensures SizeSeq([], 0, end, values) == end
  {
  }

  /** A static field stores exactly what it reserves. */
  lemma {:induction false} StaticSizeField(f: Field, v: Value, scope: Scope)
    requires StaticField(f) && InField(f, v, scope)
    ensures SizeField(f, v) == f.ReservedWidth()
    decreases f, 3
  {
    hide SizeOne, SizeItems, InOne, InItems;
    match Elements(f, v) {
      case Ok(None) => StaticSizeOne(f, v, scope);
      case Ok(Some(items)) => StaticSizeItems(f, items, scope);
    }
  }

  lemma {:induction false} StaticSizeItems(f: Field, items: seq<Value>, scope: Scope)
    requires StaticField(f) && InItems(f, items, scope)
    ensures SizeItems(f, items) == f.width * |items|
    decreases f, 2, |items|
  {
    hide SizeOne, InOne, NormOne;
    if items != [] {
      StaticSizeOne(f, items[0], scope);
      StaticSizeItems(f, items[1..], NormOne(f, items[0], scope).scope);
      assert f.width * |items| == f.width + f.width * (|items| - 1);
    }
  }

  lemma {:induction false} StaticSizeOne(f: Field, v: Value, scope: Scope)
    requires StaticField(f) && InOne(f, v, scope)
    ensures SizeOne(f, v) == f.width
    decreases f, 1
  {
    hide SizeSeq, InSeq;
    if f.kind.Group? { StaticSizeSeq(f.kind.children, 0, MembersOf(v), scope); }
  }

  /** A plain filler behind static siblings only: its address does not depend on the record. */
  predicate FillerAt(fields: seq<Field>, k: nat)
    requires k < |fields|
  {
    fields[k].kind.Pad? && fields[k].occurs == None && fields[k].dependingOn == None && Static(fields[..k])
  }

  lemma FillerPlan(f: Field, v: Value, enc: Encoding)
    requires f.kind.Pad? && f.occurs == None && f.dependingOn == None && PlanField(f, f.offset, v, enc).Ok?
    ensures var p := PlanField(f, f.offset, v, enc).value;
            |p.writes| == 1 && p.writes[0].leaf == f && p.end == f.offset + f.width
  {
  }

  /** Every byte between two addresses belongs to a filler at a static address. */
  predicate FillersCover(fields: seq<Field>, lo: nat, hi: nat) {
    forall i :: lo <= i < hi ==> CoveredAt(fields, i)
  }

  predicate CoveredAt(fields: seq<Field>, i: nat) {
    exists k :: 0 <= k < |fields| && FillerAt(fields, k) && fields[k].offset <= i < fields[k].offset + fields[k].width
  }

  /** Writes between two addresses. */
  predicate Inside(ws: seq<Write>, lo: nat, hi: nat) {
    forall i :: 0 <= i < |ws| ==> lo <= ws[i].at && ws[i].at + |ws[i].data| <= hi
  }

  lemma InsideConcat(a: seq<Write>, b: seq<Write>, lo: nat, mid: nat, start: nat, hi: nat)
    requires Inside(a, lo, mid) && Inside(b, start, hi) && lo <= start && mid <= hi
    ensures Inside(a + b, lo, hi)
  {
  }

  /** Whatever their order and overlaps, siblings are written between their base and their end. */
  lemma {:induction false} InsideSeq(
    fields: seq<Field>, base: nat, shift: nat, end: nat, values: Pairs, enc: Encoding
  )
    requires PlanSeq(fields, base, shift, end, values, enc).Ok?
    requires Sized(PlanSeq(fields, base, shift, end, values, enc).value.writes)
    ensures var p := PlanSeq(fields, base, shift, end, values, enc).value; Inside(p.writes, base, p.end)
    decreases fields, 0
  {
    hide PlanSeq, PlanField, Sized, Lookup, Inside;
    if fields == [] {
      PlanSeqEmpty(base, shift, end, values, enc);
      InsideNone(base, end);
    } else {
      PlanSeqCons(fields, base, shift, end, values, enc);
      var f := fields[0];
      var v, at := Lookup(values, f.name), base + f.offset + shift;
      var one := PlanField(f, at, v, enc).value;
      var shift', end' := shift + Excess(f, one.end - at), Max(end, one.end);
      var rest := PlanSeq(fields[1..], base, shift', end', values, enc).value;
      SizedConcat(one.writes, rest.writes);
      InsideField(f, at, v, enc);
      InsideSeq(fields[1..], base, shift', end', values, enc);
      InsideWider(one.writes, base, at, one.end);
      InsideConcat(one.writes, rest.writes, base, one.end, base, rest.end);
    }
  }

  lemma InsideNone(lo: nat, hi: nat)
    ensures Inside([], lo, hi)
  {
  }

  lemma InsideWider(ws: seq<Write>, lo: nat, start: nat, hi: nat)
    requires Inside(ws, start, hi) && lo <= start
    ensures Inside(ws, lo, hi)
  {
  }

  lemma {:induction false} InsideField(f: Field, at: nat, v: Value, enc: Encoding)
    requires PlanField(f, at, v, enc).Ok? && Sized(PlanField(f, at, v, enc).value.writes)
    ensures var p := PlanField(f, at, v, enc).value; Inside(p.writes, at, p.end)
    decreases f, 3
  {
    hide PlanOne, PlanItems, Sized, Inside;
    match Elements(f, v) {
      case Ok(None) => InsideOne(f, at, v, enc);
      case Ok(Some(items)) => InsideItems(f, items, at, enc);
    }
  }

  lemma {:induction false} InsideItems(f: Field, items: seq<Value>, at: nat, enc: Encoding)
    requires PlanItems(f, items, at, enc).Ok? && Sized(PlanItems(f, items, at, enc).value.writes)
    ensures var p := PlanItems(f, items, at, enc).value; Inside(p.writes, at, p.end)
    decreases f, 2, |items|
  {
    hide PlanOne, Sized, Inside;
    if items == [] {
      InsideNone(at, at);
    } else {
      var one := PlanOne(f, at, items[0], enc).value;
      var rest := PlanItems(f, items[1..], one.end, enc).value;
      SizedConcat(one.writes, rest.writes);
      InsideOne(f, at, items[0], enc);
      InsideItems(f, items[1..], one.end, enc);
      InsideConcat(one.writes, rest.writes, at, one.end, one.end, rest.end);
    }
  }

  lemma {:induction false} InsideOne(f: Field, at: nat, v: Value, enc: Encoding)
    requires PlanOne(f, at, v, enc).Ok? && Sized(PlanOne(f, at, v, enc).value.writes)
    ensures var p := PlanOne(f, at, v, enc).value; Inside(p.writes, at, p.end)
    decreases f, 1
  {
    hide PlanSeq, Leaf.EncodeLeaf;
    if f.kind.Group? { InsideSeq(f.kind.children, at, 0, at, Members(v).value, enc); }
  }

  /** Siblings in order among themselves; what their own members do does not matter. */
  predicate SiblingsOrdered(fields: seq<Field>) {
    |fields| <= 1 ||
    (fields[1].offset >= fields[0].offset + fields[0].ReservedWidth() && SiblingsOrdered(fields[1..]))
  }

  lemma {:induction false} OffsetsGrow(fields: seq<Field>, k: nat)
    requires SiblingsOrdered(fields) && 0 < k < |fields|
    ensures fields[k].offset >= fields[0].offset + fields[0].ReservedWidth()
  {
    if k > 1 { OffsetsGrow(fields[1..], k - 1); }
  }

  /** Ordered siblings are written no earlier than their first. */
  lemma {:induction false} WrittenAfter(
    fields: seq<Field>, base: nat, shift: nat, end: nat, lo: nat, values: Pairs, enc: Encoding
  )
    requires SiblingsOrdered(fields) && PlanSeq(fields, base, shift, end, values, enc).Ok?
    requires Sized(PlanSeq(fields, base, shift, end, values, enc).value.writes)
    requires fields != [] ==> lo <= base + fields[0].offset + shift
    ensures var p := PlanSeq(fields, base, shift, end, values, enc).value; Inside(p.writes, lo, p.end)
    decreases |fields|
  {
    hide PlanSeq, PlanField, Sized, Lookup, Inside;
    if fields == [] {
      PlanSeqEmpty(base, shift, end, values, enc);
      InsideNone(lo, end);
    } else {
      PlanSeqCons(fields, base, shift, end, values, enc);
      var f := fields[0];
      var v, at := Lookup(values, f.name), base + f.offset + shift;
      var one := PlanField(f, at, v, enc).value;
      var shift', end' := shift + Excess(f, one.end - at), Max(end, one.end);
      var rest := PlanSeq(fields[1..], base, shift', end', values, enc).value;
      SizedConcat(one.writes, rest.writes);
      InsideField(f, at, v, enc);
      if |fields| > 1 { assert fields[1..][0] == fields[1]; }
      WrittenAfter(fields[1..], base, shift', end', lo, values, enc);
      InsideWider(one.writes, lo, at, one.end);
      InsideConcat(one.writes, rest.writes, lo, one.end, lo, rest.end);
    }
  }

  lemma FrontTail(fields: seq<Field>, k: nat)
    requires 0 < k <= |fields|
    ensures fields[..k][0] == fields[0] && fields[..k][1..] == fields[1..][..k - 1]
  {
  }

  /** A field among ordered siblings stays off a filler at a static address. */
  lemma {:induction false} ClearOfFiller(
    fields: seq<Field>, end: nat, values: Pairs, enc: Encoding, scope: Scope, k: nat, j: nat
  )
    requires SiblingsOrdered(fields) && k < |fields| && FillerAt(fields, k) && InSeq(fields, values, scope)
    requires PlanSeq(fields, 0, 0, end, values, enc).Ok?
    requires var ws := PlanSeq(fields, 0, 0, end, values, enc).value.writes;
             j < |ws| && !ws[j].leaf.kind.Pad?
    ensures var w := PlanSeq(fields, 0, 0, end, values, enc).value.writes[j];
            w.at + |w.data| <= fields[k].offset || fields[k].offset + fields[k].width <= w.at
    decreases k
  {
    hide PlanSeq, PlanField, InSeq, InField, NormField, Lookup, Remember, StaticField, SizeField, Sized, SizeSeq;
    PlanSeqCons(fields, 0, 0, end, values, enc);
    InSeqCons(fields, values, scope);
    PlansSeq(fields, 0, 0, end, values, enc, scope);
    var f := fields[0];
    var v := Lookup(values, f.name);
    var one := PlanField(f, f.offset, v, enc).value;
    var shift', end' := Excess(f, one.end - f.offset), Max(end, one.end);
    var rest := PlanSeq(fields[1..], 0, shift', end', values, enc).value;
    SizedConcat(one.writes, rest.writes);
    InsideField(f, f.offset, v, enc);
    if k == 0 {
      FillerPlan(f, v, enc);
      if |fields| > 1 { assert fields[1..][0] == fields[1]; }
      WrittenAfter(fields[1..], 0, shift', end', one.end, values, enc);
      assert (one.writes + rest.writes)[j] == rest.writes[j - 1];
    } else {
      FrontTail(fields, k);
      StaticSizeField(f, v, scope);
      PlansField(f, f.offset, v, enc, scope);
      OffsetsGrow(fields, k);
      if j >= |one.writes| {
        var n := NormField(f, v, scope);
        ClearOfFiller(fields[1..], end', values, enc, Remember(f, n.value, n.scope), k - 1, j - |one.writes|);
      }
    }
  }

  /** Fillers that cover a stretch among ordered siblings keep every other field off it. */
  lemma CoveredIsClear(fields: seq<Field>, values: Pairs, enc: Encoding, lo: nat, hi: nat)
    requires SiblingsOrdered(fields) && InSeq(fields, values, map[]) && FillersCover(fields, lo, hi)
    requires PlanSeq(fields, 0, 0, 0, values, enc).Ok?
    ensures Clear(PlanSeq(fields, 0, 0, 0, values, enc).value.writes, lo, hi)
  {
    hide PlanSeq, InSeq, SiblingsOrdered, FillerAt;
    var ws := PlanSeq(fields, 0, 0, 0, values, enc).value.writes;
    forall j | 0 <= j < |ws| && !ws[j].leaf.kind.Pad?
      ensures !Touches(ws[j], lo, hi)
    {
      if Touches(ws[j], lo, hi) {
        var b: nat := Max(lo, ws[j].at);
        assert CoveredAt(fields, b);
        var k :| 0 <= k < |fields| && FillerAt(fields, k) && fields[k].offset <= b < fields[k].offset + fields[k].width;
        ClearOfFiller(fields, 0, values, enc, map[], k, j);
      }
    }
  }

  /** The round trip for variants whose discriminator lies on fillers at static addresses. */
  lemma TaggedRoundTrip(ml: MultiLayout, k: nat, values: Pairs, enc: Encoding)
    requires ml.Valid() && k < |ml.variants| && DistinctTags(ml.variants)
    requires Strings.Trimmed(ml.variants[k].tag) && TagFits(ml.variants[k].tag, ml.width)
    requires var fields := ml.variants[k].layout.fields;
             SiblingsOrdered(fields) && Supplied(fields, values) && InSeq(fields, values, map[]) &&
             FillersCover(fields, ml.offset, ml.offset + ml.width)
    ensures EncodeTagged(ml, ml.variants[k].tag, values, enc).Ok?
    ensures var fields := ml.variants[k].layout.fields;
            PlanSeq(fields, 0, 0, 0, values, enc).Ok? &&
            var ws := PlanSeq(fields, 0, 0, 0, values, enc).value.writes;
            (ReadsBack(ws, enc) <==>
               DecodeTagged(ml, EncodeTagged(ml, ml.variants[k].tag, values, enc).value, enc)
               == Ok((k, NormSeq(fields, values, map[]).pairs))) &&
            (Ordered(fields) ==> ReadsBack(ws, enc))
  {
    hide PlanSeq, InSeq, NormSeq, Ordered, Supplied, FillersCover, EncodeTagged, DecodeTagged, Clear, ReadsBack;
    PlansSeq(ml.variants[k].layout.fields, 0, 0, 0, values, enc, map[]);
    CoveredIsClear(ml.variants[k].layout.fields, values, enc, ml.offset, ml.offset + ml.width);
    MultiRoundTrip(ml, k, values, enc);
  }
}
