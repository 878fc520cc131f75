/** Two copybooks the source accepts and lays out in a way their author would not expect. */
module CopybookLimits {
  import opened Prelude
  import opened Layouts
  import opened DisplayNumber
  import opened LevelTree
  import opened Picture
  import opened Families
  import opened Copybook
  import Radix
  import Strings

  /** An elementary DISPLAY item. */
  function Leaf(name: string, pic: string, redefines: Option<string>): Item {
    Node(5, Clauses(name, Some(pic), Picture.Display, None, None, None, redefines, false), [])
  }

  // ---------------------------------------------------------------- the pictures

  const ONE_X: Tally := NOTHING.(text := true, chars := 1, mask := ['X'])

  lemma TallyX(rest: string, afterPoint: bool)
    ensures var r := TallyOf(rest, afterPoint);
            TallyOf(['X'] + rest, afterPoint) == if r.Err? then Err else Ok(Add(ONE_X, r.value))
    ensures TallyOf([], afterPoint) == Ok(NOTHING)
  {
    assert (['X'] + rest)[1..] == rest;
  }

  function TextTally(n: nat): Tally {
    NOTHING.(text := n > 0, chars := n, mask := Repeat('X', n))
  }

  lemma AddX(n: nat)
    ensures Add(ONE_X, TextTally(n)) == TextTally(n + 1)
    ensures TextTally(0) == NOTHING
  {
    assert ['X'] + Repeat('X', n) == Repeat('X', n + 1);
  }

  lemma {:induction false} TallyXs(n: nat, afterPoint: bool)
    ensures TallyOf(Repeat('X', n), afterPoint) == Ok(TextTally(n))
  {
    hide TallyOf, Add, TextTally;
    if n == 0 {
      TallyX([], afterPoint);
      assert Repeat('X', 0) == [];
      AddX(0);
    } else {
      TallyXs(n - 1, afterPoint);
      TallyX(Repeat('X', n - 1), afterPoint);
      AddX(n - 1);
      assert ['X'] + Repeat('X', n - 1) == Repeat('X', n);
    }
  }

  lemma OneDigit(d: char)
    requires Strings.IsDigit(d)
    ensures Picture.ParseCount([d]) == Some(Strings.DigitOf(d)) && Strings.Trim([d]) == [d]
  {
    Strings.TrimOfTrimmed([d]);
    assert [d][1..] == [];
    assert Strings.DigitsIn([d]) == [Strings.DigitOf(d)];
    Radix.ValueSingle(10, Strings.DigitOf(d));
  }

  /** `X(d)` is text of `d` bytes. */
  lemma CountedText(d: char)
    requires '1' <= d <= '9'
    ensures ParsePic(['X', '(', d, ')'], Picture.Display, None) == Ok(Storage(Text(Left, true, 32), Strings.DigitOf(d)))
  {
    var pic := ['X', '(', d, ')'];
    Strings.TrimOfTrimmed(pic);
    assert Strings.Upper(pic) == pic;
    OneDigit(d);
    assert pic[2..3] == [d] && pic[4..] == [];
    assert IndexFrom(pic, ')', 1) == 3;
    var n := Strings.DigitOf(d);
    assert NextSymbol(pic) == Ok(Repeated('X', n, 4));
    assert Expand([]) == Ok([]);
    assert Repeat('X', n) + [] == Repeat('X', n);
    ExpandCons(pic);
    TallyXs(n, false);
  }

  lemma PlainText()
    ensures ParsePic("X", Picture.Display, None) == Ok(Storage(Text(Left, true, 32), 1))
  {
    Strings.TrimOfTrimmed("X");
    assert Strings.Upper("X") == "X" && "X"[1..] == "";
    assert Expand("X") == Ok("X") by {
      assert NextSymbol("X") == Ok(Repeated('X', 1, 1));
      assert Repeat('X', 1) + [] == "X";
    }
    TallyXs(1, false);
    assert Repeat('X', 1) == "X";
  }

  const ONE_NINE: Tally := NOTHING.(ints := 1, mask := ['9'])

  lemma SymbolNine()
    ensures Symbol('9', false) == Some(ONE_NINE)
  {
  }

  lemma TallyNine()
    ensures TallyOf(['9'], false) == Ok(ONE_NINE)
  {
    hide Symbol, Add;
    SymbolNine();
    assert ['9'][1..] == [];
    AddsNothing(ONE_NINE);
  }

  lemma ExpandNine()
    ensures Expand(['9']) == Ok(['9']) && Strings.Upper(Strings.Trim(['9'])) == ['9']
  {
    hide Expand;
    Strings.TrimOfTrimmed(['9']);
    ExpandCons(['9']);
    ExpandCons([]);
    assert ['9'][1..] == [];
    assert Repeat('9', 1) + [] == ['9'];
  }

  lemma OneNine()
    ensures ParsePic(['9'], Picture.Display, None) == Ok(Storage(Int(false, Unsigned), 1))
  {
    hide Expand, TallyOf, Strings.Trim;
    ExpandNine();
    TallyNine();
    assert ShapeOf(['9']) == Ok(Shape(ONE_NINE, 1));
  }

  // ---------------------------------------------------------------- placing three items

  lemma {:induction false} PlaceThree(a: Item, b: Item, c: Item)
    ensures var items := [a, b, c];
            var p1 := if StorageOf(a, 0).Ok? then PlaceOne(START, a.clauses, StorageOf(a, 0).value) else Err;
            var p2 := if p1.Ok? && StorageOf(b, 0).Ok? then PlaceOne(p1.value, b.clauses, StorageOf(b, 0).value) else Err;
            var p3 := if p2.Ok? && StorageOf(c, 0).Ok? then PlaceOne(p2.value, c.clauses, StorageOf(c, 0).value) else Err;
            PlaceAll(items, 0, START) == p3
  {
    hide PlaceAll, StorageOf, PlaceOne;
    var items := [a, b, c];
    PlaceAllCons(items, 0, START);
    assert items[1..] == [b, c] && [b, c][1..] == [c] && [c][1..] == [];
    if StorageOf(a, 0).Ok? {
      if StorageOf(a, 0).value.kind.Binary? { StorageWidth(a, 0); }
      var p1 := PlaceOne(START, a.clauses, StorageOf(a, 0).value);
      if p1.Ok? {
        PlaceAllCons([b, c], 0, p1.value);
        if StorageOf(b, 0).Ok? {
          if StorageOf(b, 0).value.kind.Binary? { StorageWidth(b, 0); }
          var p2 := PlaceOne(p1.value, b.clauses, StorageOf(b, 0).value);
          if p2.Ok? {
            PlaceAllCons([c], 0, p2.value);
            if StorageOf(c, 0).Ok? {
              if StorageOf(c, 0).value.kind.Binary? { StorageWidth(c, 0); }
              var p3 := PlaceOne(p2.value, c.clauses, StorageOf(c, 0).value);
              if p3.Ok? { PlaceNothing([], 0, p3.value); }
            }
          }
        }
      }
    }
  }

  /** An item behind the one before it. */
  lemma PlaceBehind(p: Placing, c: Clauses, s: Storage)
    requires c.redefines.None? && !s.kind.Binary?
    ensures var f := Field(c.name, p.at, s.width, s.kind, c.occurs, c.dependingOn, None);
            PlaceOne(p, c, s) == Ok(Placing(p.fields + [f], p.starts[Strings.Upper(c.name) := p.at],
                                            Families.Reach(f), Max(p.end, Families.Reach(f))))
  {
  }

  /** A redefinition at its target. */
  lemma PlaceAgain(p: Placing, c: Clauses, s: Storage)
    requires c.redefines.Some? && !s.kind.Binary? && Strings.Upper(c.redefines.value) in p.starts
    ensures var at := p.starts[Strings.Upper(c.redefines.value)];
            var f := Field(c.name, at, s.width, s.kind, c.occurs, c.dependingOn, c.redefines);
            PlaceOne(p, c, s) == Ok(Placing(p.fields + [f], p.starts[Strings.Upper(c.name) := at],
                                            p.at, Max(p.end, Families.Reach(f))))
  {
  }

  /** `a`, then `b` redefining it, then `c`. */
  lemma OverhangPlaced(a: Item, b: Item, c: Item, sa: Storage, sb: Storage, sc: Storage)
    requires a.clauses.redefines.None? && b.clauses.redefines == Some(a.clauses.name) && c.clauses.redefines.None?
    requires StorageOf(a, 0) == Ok(sa) && StorageOf(b, 0) == Ok(sb) && StorageOf(c, 0) == Ok(sc)
    requires !sa.kind.Binary? && !sb.kind.Binary? && !sc.kind.Binary?
    ensures var fa := Field(a.clauses.name, 0, sa.width, sa.kind, a.clauses.occurs, a.clauses.dependingOn, None);
            var fb := Field(b.clauses.name, 0, sb.width, sb.kind,
                            b.clauses.occurs, b.clauses.dependingOn, b.clauses.redefines);
            var fc := Field(c.clauses.name, fa.ReservedWidth(), sc.width, sc.kind,
                            c.clauses.occurs, c.clauses.dependingOn, None);
            PlaceAll([a, b, c], 0, START).Ok? && Unfolded([a, b, c], 0) == [fa, fb, fc]
  {
    hide StorageOf, PlaceAll, PlaceOne, Strings.Upper;
    PlaceThree(a, b, c);
    PlaceBehind(START, a.clauses, sa);
    var p1 := PlaceOne(START, a.clauses, sa).value;
    PlaceAgain(p1, b.clauses, sb);
    var p2 := PlaceOne(p1, b.clauses, sb).value;
    PlaceBehind(p2, c.clauses, sc);
    assert Unfolded([a, b, c], 0) == ([] + [p2.fields[0]]) + [p2.fields[1]] + [PlaceOne(p2, c.clauses, sc).value.fields[2]];
  }

  /** `n`, then `t`, then `v` redefining `t`. */
  lemma WidenPlaced(n: Item, t: Item, v: Item, sn: Storage, st: Storage, sv: Storage)
    requires n.clauses.redefines.None? && t.clauses.redefines.None? && v.clauses.redefines == Some(t.clauses.name)
    requires StorageOf(n, 0) == Ok(sn) && StorageOf(t, 0) == Ok(st) && StorageOf(v, 0) == Ok(sv)
    requires !sn.kind.Binary? && !st.kind.Binary? && !sv.kind.Binary?
    ensures var fn := Field(n.clauses.name, 0, sn.width, sn.kind, n.clauses.occurs, n.clauses.dependingOn, None);
            var at := fn.ReservedWidth();
            var ft := Field(t.clauses.name, at, st.width, st.kind, t.clauses.occurs, t.clauses.dependingOn, None);
            var fv := Field(v.clauses.name, at, sv.width, sv.kind,
                            v.clauses.occurs, v.clauses.dependingOn, v.clauses.redefines);
            PlaceAll([n, t, v], 0, START).Ok? && Unfolded([n, t, v], 0) == [fn, ft, fv]
  {
    hide StorageOf, PlaceAll, PlaceOne, Strings.Upper;
    PlaceThree(n, t, v);
    PlaceBehind(START, n.clauses, sn);
    var p1 := PlaceOne(START, n.clauses, sn).value;
    PlaceBehind(p1, t.clauses, st);
    var p2 := PlaceOne(p1, t.clauses, st).value;
    PlaceAgain(p2, v.clauses, sv);
    assert Unfolded([n, t, v], 0) == ([] + [p2.fields[0]]) + [p2.fields[1]] + [PlaceOne(p2, v.clauses, sv).value.fields[2]];
  }

  lemma LeafStorage(node: Item, s: Storage)
    requires node.children == [] && node.clauses.pic.Some?
    requires ParsePic(node.clauses.pic.value, node.clauses.usage, node.clauses.sign) == Ok(s)
    ensures StorageOf(node, 0) == Ok(s)
  {
    hide ParsePic;
  }

  // ---------------------------------------------------------------- an overhanging redefinition

  /** Three distinct names, the second or the third redefining the one before it. */
  lemma ThreeNamed(a: Field, b: Field, c: Field)
    requires !a.kind.Group? && !b.kind.Group? && !c.kind.Group? && a.redefines.None?
    requires !Strings.SameName(a.name, b.name) && !Strings.SameName(b.name, c.name) && !Strings.SameName(a.name, c.name)
    requires (b.redefines == Some(a.name) && c.redefines.None?) || (b.redefines.None? && c.redefines == Some(b.name))
    ensures FamiliesNamed([a, b, c])
  {
    hide Strings.Upper, Head;
    var fields := [a, b, c];
    assert fields[0] == a && fields[1] == b && fields[2] == c;
    assert forall k :: 0 <= k < 3 ==> !fields[k].kind.Group?;
    var t := if b.redefines.Some? then 0 else 1;
    forall k, i | 0 <= k < 3 && 0 <= i < 3 && Redefines(fields[k], fields[i].name)
      ensures i == t
    {
    }
  }

  lemma OverhangFields(a: Field, b: Field, c: Field)
    requires a.redefines.None? && b.redefines == Some(a.name) && c.redefines.None?
    requires a.dependingOn.None? && b.dependingOn.None? && c.dependingOn.None? && FullEnd(b) > c.offset
    ensures !NoOverhang([a, b, c]) && DynamicFits([a, b, c])
  {
    hide Strings.Upper;
    var fields := [a, b, c];
    assert fields[0] == a && fields[1] == b && fields[2] == c;
    assert Head(fields, 0) && Head(fields, 2) && InFamily(fields, 0, 1);
    assert !FamilyWithin(fields, 0, fields[2].offset);
  }

  /**
   `A PIC X(2)`, `B REDEFINES A PIC X(5)`, `C PIC X`: the cursor stays behind A, so C starts inside
   the group made of A and B, and the siblings are not in order.
   */
  lemma OverhangAccepted()
    ensures var items := [Leaf("A", "X(2)", None), Leaf("B", "X(5)", Some("A")), Leaf("C", "X", None)];
            Named(items, 0) && !NothingOverhangs(items, 0) && !SiblingsInOrder(items, 0) && WidthIsEnd(items, 0)
  {
    hide ParsePic, PlaceAll, LayoutNodes, StorageOf, FamiliesNamed, NoOverhang, DynamicFits, InOrder, StaticEnd;
    hide SpreadAll, FoldsTo, BasesApart, Unlinked;
    var a, b, c := Leaf("A", "X(2)", None), Leaf("B", "X(5)", Some("A")), Leaf("C", "X", None);
    CountedText('2');
    CountedText('5');
    PlainText();
    Uppers();
    LeafStorage(a, Storage(Text(Left, true, 32), 2));
    LeafStorage(b, Storage(Text(Left, true, 32), 5));
    LeafStorage(c, Storage(Text(Left, true, 32), 1));
    OverhangPlaced(a, b, c, Storage(Text(Left, true, 32), 2), Storage(Text(Left, true, 32), 5),
                   Storage(Text(Left, true, 32), 1));
    var fields := Unfolded([a, b, c], 0);
    ThreeNamed(fields[0], fields[1], fields[2]);
    OverhangFields(fields[0], fields[1], fields[2]);
    RedefinesLowered([a, b, c], 0);
  }

  lemma Uppers()
    ensures Strings.Upper("A") == "A" && Strings.Upper("B") == "B" && Strings.Upper("C") == "C"
    ensures Strings.Upper("N") == "N" && Strings.Upper("T") == "T" && Strings.Upper("V") == "V"
  {
  }

  // ---------------------------------------------------------------- a redefined dynamic table

  lemma EndOfThree(a: Field, b: Field, c: Field)
    ensures StaticEnd([a, b, c]) == Max(Families.Reach(a), Max(Families.Reach(b), Families.Reach(c)))
  {
    StaticEndSnoc([], a);
    StaticEndSnoc([a], b);
    StaticEndSnoc([a, b], c);
    assert [] + [a] == [a] && [a] + [b] == [a, b] && [a, b] + [c] == [a, b, c];
  }

  lemma LayoutIs(items: seq<Item>)
    requires PlaceAll(items, 0, START).Ok? && LayoutNodes(items, 0).Ok?
    ensures LayoutNodes(items, 0).value.1 == PlaceAll(items, 0, START).value.end
    ensures FoldAll(Unfolded(items, 0)).Ok? && LayoutNodes(items, 0).value.0 == FoldAll(Unfolded(items, 0)).value.out
  {
  }

  /** Nothing overhangs, but the table does not fit: the siblings end with its redefinition. */
  lemma WidenFields(n: Field, t: Field, v: Field)
    requires n.redefines.None? && t.redefines.None? && v.redefines == Some(t.name)
    requires !Strings.SameName(n.name, t.name)
    requires n.dependingOn.None? && t.dependingOn.Some? && v.dependingOn.None?
    requires t.offset == v.offset >= Families.Reach(n) && FullEnd(t) > FullEnd(v)
    ensures NoOverhang([n, t, v]) && !DynamicFits([n, t, v]) && StaticEnd([n, t, v]) == FullEnd(v)
  {
    hide Strings.Upper, StaticEnd;
    var fields := [n, t, v];
    assert fields[0] == n && fields[1] == t && fields[2] == v;
    EndOfThree(n, t, v);
    assert Redefines(fields[2], fields[1].name) && Redefined(fields, 1);
    forall k | 0 <= k < |fields|
      ensures !InFamily(fields, 0, k)
    {
      NotInFamily(n, t, v, k);
    }
  }

  lemma NotInFamily(n: Field, t: Field, v: Field, k: nat)
    requires k < 3 && n.redefines.None? && t.redefines.None? && v.redefines == Some(t.name)
    requires !Strings.SameName(n.name, t.name)
    ensures !InFamily([n, t, v], 0, k)
  {
    hide Strings.Upper;
    var fields := [n, t, v];
    assert fields[0] == n && fields[1] == t && fields[2] == v;
    assert forall j :: 0 <= j < 3 ==> !Redefines(fields[j], n.name);
  }

  /** The table's group reaches as far as the full table. */
  lemma WidenFolded(n: Field, t: Field, v: Field)
    requires Tidy([n, t, v]) && n.redefines.None? && t.redefines.None? && v.redefines == Some(t.name)
    requires !Strings.SameName(n.name, t.name) && Families.Reach(n) <= t.offset == v.offset && FullEnd(t) > FullEnd(v)
    ensures FoldAll([n, t, v]).Ok? && StaticEnd(FoldAll([n, t, v]).value.out) == FullEnd(t)
  {
    hide Strings.Upper, FoldAll, FoldsTo, Indexes, Tidy, StaticEnd;
    var fields, end: nat := [n, t, v], FullEnd(t);
    assert fields[0] == n && fields[1] == t && fields[2] == v;
    FoldGroups(fields);
    var out := FoldAll(fields).value.out;
    FoldedAtMost(fields, out, end);
    FoldedAtMost(fields, out, end - 1);
    assert Redefines(fields[2], fields[1].name) && Redefined(fields, 1) && InFamily(fields, 1, 1);
    assert Families.Reach(t) <= end;
    forall b, k | 0 <= b < |fields| && 0 <= k < |fields| && InFamily(fields, b, k)
      ensures FullEnd(fields[k]) <= end
    {
      NotInFamily(n, t, v, k);
    }
  }

  lemma WidenTidy(n: Field, t: Field, v: Field)
    requires FamiliesNamed([n, t, v]) && n.redefines.None? && t.redefines.None? && v.redefines == Some(t.name)
    requires t.offset == v.offset
    ensures Tidy([n, t, v])
  {
    hide Strings.Upper;
    var fields := [n, t, v];
    assert fields[1] == t && fields[2] == v && Redefines(fields[2], fields[1].name);
  }

  /**
   `N PIC 9`, `T PIC X(2) OCCURS 1 TO 5 DEPENDING ON N`, `V REDEFINES T PIC X(3)`: the siblings are
   reported 4 bytes wide, but the group made of T and V reserves the table full, up to byte 11.
   */
  lemma DynamicUnionWidens()
    ensures var table := Node(5, Clauses("T", Some("X(2)"), Picture.Display, None, Some(5), Some("N"), None, false), []);
            var items := [Leaf("N", "9", None), table, Leaf("V", "X(3)", Some("T"))];
            Named(items, 0) && !TablesFit(items, 0) && SiblingsInOrder(items, 0) &&
            LayoutNodes(items, 0).Ok? && LayoutNodes(items, 0).value.1 == 4 &&
            StaticEnd(LayoutNodes(items, 0).value.0) == 11
  {
    hide ParsePic, PlaceAll, LayoutNodes, StorageOf, FamiliesNamed, NoOverhang;
    hide DynamicFits, InOrder, StaticEnd, FoldAll;
    hide SpreadAll, FoldsTo, BasesApart, Unlinked, PlacedAt, Stored;
    var n, v := Leaf("N", "9", None), Leaf("V", "X(3)", Some("T"));
    var t := Node(5, Clauses("T", Some("X(2)"), Picture.Display, None, Some(5), Some("N"), None, false), []);
    var items: seq<Item> := [n, t, v];
    OneNine();
    CountedText('2');
    CountedText('3');
    Uppers();
    LeafStorage(n, Storage(Int(false, Unsigned), 1));
    LeafStorage(t, Storage(Text(Left, true, 32), 2));
    LeafStorage(v, Storage(Text(Left, true, 32), 3));
    WidenPlaced(n, t, v, Storage(Int(false, Unsigned), 1), Storage(Text(Left, true, 32), 2),
                Storage(Text(Left, true, 32), 3));
    var fields := Unfolded(items, 0);
    ThreeNamed(fields[0], fields[1], fields[2]);
    WidenFields(fields[0], fields[1], fields[2]);
    WidenTidy(fields[0], fields[1], fields[2]);
    WidenFolded(fields[0], fields[1], fields[2]);
    RedefinesLowered(items, 0);
    Placement(items, 0);
    LayoutIs(items);
  }
}
