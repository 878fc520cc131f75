/** Copybooks and rows that show where the round trips over overlays and repeated names stop. */
module OverlayLimits {
  import opened Prelude
  import opened Layouts
  import opened DisplayNumber
  import opened LevelTree
  import opened Picture
  import opened Families
  import opened Copybook
  import opened CopybookLimits
  import opened Encode
  import opened Ebcdic
  import Decode
  import LF = Leaf
  import Normal
  import PK = Packed
  import Radix
  import RoundTrip
  import Strings
  import Utf8

  /** A character that one byte of text stores exactly. */
  predicate Printable(c: char) {
    ' ' < c < '\U{7F}'
  }

  /** The field of `PIC X`. */
  function OneText(name: string, at: nat, redefines: Option<string>): Field {
    Field(name, at, 1, Text(Left, true, 32), None, None, redefines)
  }

  function Letter(c: char): Value {
    StrV([c])
  }

  lemma OneByte(c: char)
    requires Printable(c)
    ensures Utf8.Encode([c]) == [c as int]
  {
    var bs: seq<Byte> := [c as int];
    assert Utf8.Chars(bs) == [c];
    Utf8.EncodeAscii(bs);
  }

  /** A printable character is stored in one byte and read back, by any field of `PIC X`. */
  lemma LetterKept(f: Field, c: char, enc: Encoding)
    requires f.kind == Text(Left, true, 32) && f.width == 1 && Printable(c)
    ensures LF.Shaped(f) && LF.Exact(f, Letter(c)) && LF.Storable(f, Letter(c))
    ensures LF.NormLeaf(f, Letter(c)) == Letter(c)
    ensures LF.EncodeLeaf(f, Letter(c), enc) == Ok(FromAscii([c as int], enc))
    ensures LF.DecodeLeaf(f, FromAscii([c as int], enc), enc) == Ok(Letter(c))
  {
    OneByte(c);
    assert LF.Exact(f, Letter(c));
    assert LF.JustifyPad([c as int], 1, Left, 32) == Ok([c as int]) by {
      assert [c as int] + Repeat<Byte>(32, 0) == [c as int];
    }
    hide LF.DecodeText, LF.Coerced;
    LF.ExactCoerced(f, Letter(c));
    LF.TextRoundTrip(f, Letter(c), enc);
  }

  // ---------------------------------------------------------------- two items

  /** Two statements of one level are two trees. */
  lemma TwoTrees(a: Item, b: Item)
    requires a.level == b.level && a.children == [] && b.children == []
    ensures Forest([a, b]) == [a, b] && RecordItems([a, b]) == [a, b]
  {
    hide Forest;
    var stmts := [a, b];
    TreeFirst(stmts);
    TreeFirst([b]);
    NoTrees();
    assert stmts[1..] == [b] && [b][1..] == [];
    assert [b] + [] == [b] && [a] + [b] == stmts;
  }

  /** A statement that no deeper one follows is a tree of its own. */
  lemma TreeFirst(stmts: seq<Item>)
    requires stmts != [] && stmts[0].children == [] && (|stmts| == 1 || stmts[1].level <= stmts[0].level)
    ensures Forest(stmts) == [stmts[0]] + Forest(stmts[1..])
  {
    assert RunLength(stmts[1..], stmts[0].level) == 0;
    NoTrees();
    assert stmts[1..1] == [] && stmts[0].(children := []) == stmts[0];
  }

  lemma {:induction false} PlaceTwo(a: Item, b: Item)
    requires StorageOf(a, 0).Ok? && StorageOf(b, 0).Ok?
    ensures var p1 := PlaceOne(START, a.clauses, StorageOf(a, 0).value);
            var p2 := if p1.Ok? then PlaceOne(p1.value, b.clauses, StorageOf(b, 0).value) else Err;
            PlaceAll([a, b], 0, START) == p2
  {
    hide PlaceAll, StorageOf, PlaceOne;
    PlaceAllCons([a, b], 0, START);
    assert [a, b][1..] == [b] && [b][1..] == [];
    if StorageOf(a, 0).value.kind.Binary? { StorageWidth(a, 0); }
    if StorageOf(b, 0).value.kind.Binary? { StorageWidth(b, 0); }
    var p1 := PlaceOne(START, a.clauses, StorageOf(a, 0).value);
    if p1.Ok? {
      PlaceAllCons([b], 0, p1.value);
      var p2 := PlaceOne(p1.value, b.clauses, StorageOf(b, 0).value);
      if p2.Ok? { PlaceNothing([], 0, p2.value); }
    }
  }

  /** Two one-byte texts, the second behind the first or redefining it. */
  lemma TwoTexts(a: Item, b: Item)
    requires a == Item(a.clauses.name, None) && b == Item(b.clauses.name, b.clauses.redefines)
    requires b.clauses.redefines.Some? ==> b.clauses.redefines == Some(a.clauses.name)
    ensures PlaceAll([a, b], 0, START).Ok?
    ensures Unfolded([a, b], 0) ==
            [OneText(a.clauses.name, 0, None),
             OneText(b.clauses.name, if b.clauses.redefines.Some? then 0 else 1, b.clauses.redefines)]
  {
    hide ParsePic, StorageOf, PlaceAll, PlaceOne, Strings.Upper;
    var s := Storage(Text(Left, true, 32), 1);
    PlainText();
    LeafStorage(a, s);
    LeafStorage(b, s);
    PlaceTwo(a, b);
    PlaceBehind(START, a.clauses, s);
    var p1 := PlaceOne(START, a.clauses, s).value;
    if b.clauses.redefines.Some? {
      PlaceAgain(p1, b.clauses, s);
    } else {
      PlaceBehind(p1, b.clauses, s);
    }
    assert [] + [p1.fields[0]] == [p1.fields[0]];
  }

  /** `name PIC X`, redefining or not. */
  function Item(name: string, redefines: Option<string>): Copybook.Item {
    CopybookLimits.Leaf(name, "X", redefines)
  }

  // ---------------------------------------------------------------- an overlay that loses a value

  /** The group made of `a` and of `b` redefining it. */
  function Pair(a: string, b: string): Field {
    Field(a, 0, 1, Group([OneText(a, 0, None), OneText(b, 0, None)]), None, None, None)
  }

  lemma PairLowered(a: string, b: string)
    requires !Strings.SameName(a, b)
    ensures Lower([Item(a, None), Item(b, Some(a))]).Ok?
    ensures Lower([Item(a, None), Item(b, Some(a))]).value.fields == [Pair(a, b)]
    ensures LevelTree.Bare([Item(a, None), Item(b, Some(a))])
  {
    hide PlaceAll, ParsePic, Strings.Upper, Forest, FoldAll;
    var x, y := Item(a, None), Item(b, Some(a));
    TwoTrees(x, y);
    TwoTexts(x, y);
    var fa, fb := OneText(a, 0, None), OneText(b, 0, Some(a));
    FoldPair(fa, fb);
    PairFolded(a, b);
    assert Unfolded([x, y], 0) == [fa, fb];
  }

  lemma PairFolded(a: string, b: string)
    ensures var fa, fb := OneText(a, 0, None), OneText(b, 0, Some(a));
            var r := FoldStep(Folding([fa], map[Strings.Upper(a) := 0]), fb);
            r.Ok? && r.value.out == [Pair(a, b)]
  {
    hide Strings.Upper, Widest;
    var fa, fb := OneText(a, 0, None), OneText(b, 0, Some(a));
    var members := [OneText(a, 0, None), OneText(b, 0, None)];
    assert Rebase(fa, fa.offset) == members[0] && Rebase(fb, fa.offset) == members[1];
    assert [Rebase(fa, fa.offset)] + [Rebase(fb, fa.offset)] == members;
    assert !SyntheticUnion(fa) && [fa][0] == fa;
    WidestOfTwo(members[0], members[1]);
    var s := Folding([fa], map[Strings.Upper(a) := 0]);
    assert FoldStep(s, fb) == Ok(Folding(s.out[0 := Holder(fa, members)], s.index));
    assert Holder(fa, members) == Pair(a, b);
    assert [fa][0 := Pair(a, b)] == [Pair(a, b)];
  }

  lemma WidestOfTwo(a: Field, b: Field)
    ensures Widest([a, b]) == Max(a.TotalWidth(), b.TotalWidth())
  {
    assert [a, b][1..] == [b] && [b][1..] == [];
    assert Widest([b]) == Max(b.TotalWidth(), Widest([]));
  }

  /** The row that gives the two overlaid items a character each. */
  function PairRow(a: string, b: string, x: char, y: char): Pairs {
    [(a, StructV([(a, Letter(x)), (b, Letter(y))]))]
  }

  /** What is planned for the row: both characters, at the same byte. */
  lemma PairPlanned(a: string, b: string, x: char, y: char, enc: Encoding)
    requires !Strings.SameName(a, b) && Printable(x) && Printable(y)
    ensures var fields, row := [Pair(a, b)], PairRow(a, b, x, y);
            var fa, fb := OneText(a, 0, None), OneText(b, 0, None);
            Supplied(fields, row) && Normal.InSeq(fields, row, map[]) &&
            Normal.NormSeq(fields, row, map[]).pairs == row &&
            PlanSeq(fields, 0, 0, 0, row, enc).Ok? &&
            PlanSeq(fields, 0, 0, 0, row, enc).value.writes
            == [Write(0, FromAscii([x as int], enc), fa), Write(0, FromAscii([y as int], enc), fb)]
  {
    hide LF.EncodeLeaf, LF.DecodeLeaf, LF.Storable, LF.Exact, LF.Shaped, Lookup;
    hide Normal.NormSeq, Normal.InSeq, PlanSeq;
    var pair, inner := Pair(a, b), [(a, Letter(x)), (b, Letter(y))];
    var row := PairRow(a, b, x, y);
    PairInside(a, b, x, y, enc);
    Finds(a, StructV(inner), []);
    assert row == [(a, StructV(inner))] + [];
    assert [pair][1..] == [] && row[0].0 == pair.name;
    Normal.NormSeqCons([pair], row, map[]);
    Normal.NormNone(row, map[]);
    Normal.InSeqCons([pair], row, map[]);
    NoneIn(row);
    PlanSeqCons([pair], 0, 0, 0, row, enc);
    PlanSeqEmpty(0, 0, 1, row, enc);
    assert [(a, StructV(inner))] + [] == row;
    var ws := PlanSeq(pair.kind.children, 0, 0, 0, inner, enc).value.writes;
    assert ws + [] == ws;
  }

  lemma Finds(name: string, v: Value, rest: Pairs)
    ensures Lookup([(name, v)] + rest, name) == v
  {
  }

  lemma FindsSecond(name: string, other: string, v: Value, w: Value)
    requires !Strings.SameName(name, other)
    ensures Lookup([(name, v), (other, w)], other) == w
  {
    assert [(name, v), (other, w)][1..] == [(other, w)];
  }

  lemma NoneIn(values: Pairs)
    ensures Normal.InSeq([], values, map[])
  {
  }

  /** The members of the group, each with its character. */
  lemma PairInside(a: string, b: string, x: char, y: char, enc: Encoding)
    requires !Strings.SameName(a, b) && Printable(x) && Printable(y)
    ensures var both, inner := [OneText(a, 0, None), OneText(b, 0, None)], [(a, Letter(x)), (b, Letter(y))];
            Normal.NormSeq(both, inner, map[]) == Normal.NormedSeq(inner, map[]) &&
            Normal.InSeq(both, inner, map[]) &&
            PlanSeq(both, 0, 0, 0, inner, enc)
            == Ok(Plan([Write(0, FromAscii([x as int], enc), both[0]),
                        Write(0, FromAscii([y as int], enc), both[1])], 1))
  {
    hide LF.EncodeLeaf, LF.DecodeLeaf, LF.Storable, LF.Exact, LF.Shaped, LF.NormLeaf, Lookup;
    hide Normal.NormSeq, Normal.InSeq, PlanSeq;
    var fa, fb := OneText(a, 0, None), OneText(b, 0, None);
    var both, inner: Pairs := [fa, fb], [(a, Letter(x)), (b, Letter(y))];
    LetterKept(fa, x, enc);
    LetterKept(fb, y, enc);
    Finds(a, Letter(x), [(b, Letter(y))]);
    assert inner == [(a, Letter(x))] + [(b, Letter(y))];
    FindsSecond(a, b, Letter(x), Letter(y));
    assert both[1..] == [fb] && [fb][1..] == [];
    Normal.NormSeqCons(both, inner, map[]);
    Normal.NormSeqCons([fb], inner, map[]);
    Normal.NormNone(inner, map[]);
    Normal.InSeqCons(both, inner, map[]);
    Normal.InSeqCons([fb], inner, map[]);
    NoneIn(inner);
    PlanSeqCons(both, 0, 0, 0, inner, enc);
    PlanSeqCons([fb], 0, 0, 1, inner, enc);
    PlanSeqEmpty(0, 0, 1, inner, enc);
    assert [(a, Letter(x))] + ([(b, Letter(y))] + []) == inner;
    var wx, wy := Write(0, FromAscii([x as int], enc), fa), Write(0, FromAscii([y as int], enc), fb);
    assert [wx] + ([wy] + []) == [wx, wy];
  }

  /** Both items read back what the second one wrote. */
  lemma PairReads(ws: seq<Write>, x: char, y: char, enc: Encoding)
    requires |ws| == 2 && Printable(x) && Printable(y)
    requires forall i :: 0 <= i < 2 ==>
      ws[i].at == 0 && ws[i].leaf.kind == Text(Left, true, 32) && ws[i].leaf.width == 1
    requires ws[0].data == FromAscii([x as int], enc) && ws[1].data == FromAscii([y as int], enc)
    ensures RoundTrip.ReadsBack(ws, enc) <==> x == y
  {
    hide LF.DecodeLeaf, LF.EncodeLeaf, LF.Exact, LF.Shaped, LF.Storable, FromAscii;
    LastWins(ws, ws[1].data);
    LetterKept(ws[0].leaf, x, enc);
    LetterKept(ws[0].leaf, y, enc);
    LetterKept(ws[1].leaf, y, enc);
    if RoundTrip.ReadsBack(ws, enc) {
      assert Letter(x).s[0] == x && Letter(y).s[0] == y;
      assert LF.DecodeLeaf(ws[0].leaf, RoundTrip.LeftOf(ws, ws[0]), enc) == LF.DecodeLeaf(ws[0].leaf, ws[0].data, enc);
    }
  }

  /**
   `A PIC X`, `B REDEFINES A PIC X`: a row that gives A and B a character each is stored and comes back
   exactly when the two characters are the same; otherwise A is lost.
   */
  lemma OverlayRowLost(a: string, b: string, x: char, y: char, enc: Encoding)
    requires !Strings.SameName(a, b) && Printable(x) && Printable(y)
    ensures var lowered, row := Lower([Item(a, None), Item(b, Some(a))]), PairRow(a, b, x, y);
            lowered.Ok? && EncodeRecord(lowered.value, row, enc).Ok? &&
            (x == y <==>
               Decode.DecodeRecord(lowered.value, EncodeRecord(lowered.value, row, enc).value, enc) == Ok(row))
  {
    hide Lower, Normal.NormSeq, Normal.InSeq, PlanSeq, Supplied, EncodeRecord, Decode.DecodeRecord;
    hide RoundTrip.ReadsBack, FromAscii;
    var stmts, row := [Item(a, None), Item(b, Some(a))], PairRow(a, b, x, y);
    PairLowered(a, b);
    PairPlanned(a, b, x, y, enc);
    PairReads(PlanSeq([Pair(a, b)], 0, 0, 0, row, enc).value.writes, x, y, enc);
    CopybookRoundTrip(stmts, row, enc);
  }

  // ---------------------------------------------------------------- an overlay that disagrees harmlessly

  /** `P PIC S9(3) COMP-3` and `Q REDEFINES P PIC X(2)` holding the same number with another plus sign. */
  lemma DisagreementSurvives(p: Field, q: Field)
    requires p.kind == Decimal(3, 0, NumRepr.Comp3, Embedded) && p.width == 2
    requires q.kind == Text(Left, true, 32) && q.width == 2
    ensures var ws := [Write(0, [0x12, 0x3C], p), Write(0, [0x12, 0x3F], q)];
            LF.EncodeLeaf(p, DecV(123, 0), Ascii) == Ok(ws[0].data) &&
            !RoundTrip.LastAgrees(ws) && RoundTrip.ReadsBack(ws, Ascii)
  {
    hide PK.Decode, PK.Encode, LF.DecodeText, RoundTrip.LastOver, RoundTrip.LeftOf;
    var c, f: seq<Byte> := [0x12, 0x3C], [0x12, 0x3F];
    var ws := [Write(0, c, p), Write(0, f, q)];
    SignsAlike();
    LastWins(ws, f);
    assert RoundTrip.LastOver(ws, 1) == Some(0x3F) && ws[0].data[1] == 0x3C;
    assert LF.DecodeLeaf(p, c, Ascii) == LF.DecodeLeaf(p, f, Ascii);
  }

  /** Of two writes to the same bytes the second is what is left. */
  lemma LastWins(ws: seq<Write>, data: seq<Byte>)
    requires |ws| == 2 && ws[0].at == ws[1].at == 0 && |ws[0].data| == |data| && ws[1].data == data
    ensures forall b: nat :: b < |data| ==> RoundTrip.LastOver(ws, b) == Some(data[b])
    ensures forall i :: 0 <= i < 2 ==> RoundTrip.LeftOf(ws, ws[i]) == data
  {
    assert ws[1..] == [ws[1]] && [ws[1]][1..] == [];
    forall b: nat | b < |data|
      ensures RoundTrip.LastOver(ws, b) == Some(data[b])
    {
      assert RoundTrip.LastOver([ws[1]], b) == Some(data[b]);
    }
    hide RoundTrip.LastOver;
    forall i, k: nat | 0 <= i < 2 && k < |data|
      ensures RoundTrip.LeftOf(ws, ws[i])[k] == data[k]
    {
      assert RoundTrip.LeftOf(ws, ws[i])[k] == RoundTrip.LeftAt(ws, k);
    }
  }

  lemma SignsAlike()
    ensures PK.Decode([0x12, 0x3C]) == Ok(123) && PK.Decode([0x12, 0x3F]) == Ok(123)
    ensures PK.Encode(123, 2, true) == Ok([0x12, 0x3C])
  {
    ThreeDigits(0xC);
    ThreeDigits(0xF);
    PK.BytesRoundTrip([0x12, 0x3C], true);
  }

  lemma ThreeDigits(sign: nat)
    requires sign == 0xC || sign == 0xF
    ensures PK.Decode([0x12, 0x30 + sign]) == Ok(123) && PK.SignNibble([0x12, 0x30 + sign]) == sign
  {
    var bs, digits: seq<nat> := [0x12, 0x30 + sign], [1, 2, 3];
    assert PK.DigitNibbles(bs) == digits && PK.SignNibble(bs) == sign;
    Radix.ValueSingle(10, 1);
    Radix.ValueSnoc(10, [1], 2);
    Radix.ValueSnoc(10, [1, 2], 3);
    assert [1 as nat] + [2] == [1, 2] && [1 as nat, 2] + [3] == digits;
    hide Radix.Value;
  }

  // ---------------------------------------------------------------- two fields of one name

  lemma TwoFillersLowered(name: string)
    ensures Lower([Item(name, None), Item(name, None)])
         == Ok(Layout(2, [OneText(name, 0, None), OneText(name, 1, None)], false))
  {
    hide PlaceAll, ParsePic, Strings.Upper, Forest, FoldAll;
    var item := Item(name, None);
    TwoTrees(item, item);
    TwoTexts(item, item);
    var f, g := OneText(name, 0, None), OneText(name, 1, None);
    FoldPlain([f, g]);
    EndOfTwo(f, g);
    assert forall i :: 0 <= i < 2 ==> !HasDependingOn([f, g][i]);
  }

  lemma EndOfTwo(a: Field, b: Field)
    ensures StaticEnd([a, b]) == Max(Families.Reach(a), Families.Reach(b))
  {
    StaticEndSnoc([], a);
    StaticEndSnoc([a], b);
    assert [] + [a] == [a] && [a] + [b] == [a, b];
  }

  lemma TwoFillersDecoded(name: string, x: char, y: char)
    requires Printable(x) && Printable(y)
    ensures var layout := Layout(2, [OneText(name, 0, None), OneText(name, 1, None)], false);
            Decode.DecodeRecord(layout, [x as int, y as int], Ascii) == Ok([(name, Letter(x)), (name, Letter(y))])
  {
    hide Decode.DecodeSeq, LF.DecodeLeaf, LF.EncodeLeaf, LF.Exact, LF.Shaped, LF.Storable;
    var f, g := OneText(name, 0, None), OneText(name, 1, None);
    var bytes: seq<Byte> := [x as int, y as int];
    LetterKept(f, x, Ascii);
    LetterKept(g, y, Ascii);
    assert bytes[0..1] == [x as int] && bytes[1..2] == [y as int];
    Decode.DecodeSeqCons([f, g], 0, 0, 0, bytes, Ascii, map[]);
    Decode.DecodeSeqCons([g], 0, 0, 1, bytes, Ascii, map[]);
    Decode.DecodeSeqNone(0, 0, 2, bytes, Ascii, map[]);
    assert [f, g][1..] == [g] && [g][1..] == [];
    assert [(name, Letter(x))] + ([(name, Letter(y))] + []) == [(name, Letter(x)), (name, Letter(y))];
  }

  lemma TwoFillersPlanned(name: string, x: char, y: char)
    requires Printable(x) && Printable(y)
    ensures var fields, row := [OneText(name, 0, None), OneText(name, 1, None)], [(name, Letter(x)), (name, Letter(y))];
            Supplied(fields, row) &&
            PlanSeq(fields, 0, 0, 0, row, Ascii)
            == Ok(Plan([Write(0, [x as int], fields[0]), Write(1, [x as int], fields[1])], 2))
  {
    hide LF.DecodeLeaf, LF.EncodeLeaf, LF.Exact, LF.Shaped, LF.Storable, PlanSeq, Lookup;
    var f, g := OneText(name, 0, None), OneText(name, 1, None);
    var row: Pairs := [(name, Letter(x)), (name, Letter(y))];
    LetterKept(f, x, Ascii);
    LetterKept(g, x, Ascii);
    assert row == [(name, Letter(x))] + [(name, Letter(y))];
    Finds(name, Letter(x), [(name, Letter(y))]);
    PlanSeqCons([f, g], 0, 0, 0, row, Ascii);
    PlanSeqCons([g], 0, 0, 1, row, Ascii);
    PlanSeqEmpty(0, 0, 2, row, Ascii);
    assert [f, g][1..] == [g] && [g][1..] == [];
    var wx, wy := Write(0, [x as int], f), Write(1, [x as int], g);
    assert [wx] + ([wy] + []) == [wx, wy];
    assert Strings.SameName(row[0].0, name);
  }

  lemma TwoFillersEncoded(name: string, x: char, y: char)
    requires Printable(x) && Printable(y)
    ensures var layout := Layout(2, [OneText(name, 0, None), OneText(name, 1, None)], false);
            EncodeRecord(layout, [(name, Letter(x)), (name, Letter(y))], Ascii) == Ok([x as int, x as int])
  {
    hide PlanSeq, PutAll, Supplied;
    var f, g := OneText(name, 0, None), OneText(name, 1, None);
    TwoFillersPlanned(name, x, y);
    TwoPut(Write(0, [x as int], f), Write(1, [x as int], g));
    assert [x as int] + [x as int] == [x as int, x as int];
  }

  lemma TwoPut(a: Write, b: Write)
    requires a.at == 0 && b.at == 1 && |a.data| == |b.data| == 1
    ensures PutAll(Repeat<Byte>(0, 2), [a, b]) == a.data + b.data
  {
    var blank := Repeat<Byte>(0, 2);
    assert [a, b][1..] == [b] && [b][1..] == [];
    assert PutAll(Put(blank, 0, a.data), [b]) == PutAll(Put(Put(blank, 0, a.data), 1, b.data), []);
    hide PutAll;
    assert Put(Put(blank, 0, a.data), 1, b.data) == a.data + b.data;
  }

  /**
   Two items of one name, such as two FILLERs of `PIC X`: the record is decoded into both, but encoding
   finds the first value for either, so the record is restored exactly when both held the same byte.
   */
  lemma RepeatedNameLost(name: string, x: char, y: char)
    requires Printable(x) && Printable(y)
    ensures var lowered, bytes := Lower([Item(name, None), Item(name, None)]), [x as int, y as int];
            lowered.Ok? && Decode.DecodeRecord(lowered.value, bytes, Ascii).Ok? &&
            (EncodeRecord(lowered.value, Decode.DecodeRecord(lowered.value, bytes, Ascii).value, Ascii) == Ok(bytes)
             <==> x == y)
  {
    hide Lower, Decode.DecodeRecord, EncodeRecord;
    TwoFillersLowered(name);
    TwoFillersDecoded(name, x, y);
    TwoFillersEncoded(name, x, y);
  }
}
