/**
 Lowering a copybook's statement tree to fields: every item behind the one before it, SYNC binary
 items on a multiple of their width, REDEFINES at their target, dynamic tables reserving nothing.
 */
module Copybook {
  import opened Prelude
  import opened Layouts
  import opened LevelTree
  import opened DisplayNumber
  import opened Picture
  import opened Families
  import opened Ebcdic
  import Decode
  import Encode
  import Normal
  import Overlay
  import RoundTrip
  import Strings

  /** The clauses of one statement. */
  datatype Clauses = Clauses(
    name: string,
    pic: Option<string>,
    usage: Usage,
    sign: Option<SignKind>,
    occurs: Option<nat>,
    dependingOn: Option<string>,
    redefines: Option<string>,
    synchronized: bool
  )

  type Item = Node<Clauses>

  /** An elementary item's storage; it needs a picture. */
  function Elementary(c: Clauses): Result<Storage> {
    if c.pic.None? then Err else ParsePic(c.pic.value, c.usage, c.sign)
  }

  lemma ElementaryWidth(c: Clauses)
    ensures Elementary(c).Ok? && Elementary(c).value.kind.Binary? ==> Elementary(c).value.width > 0
  {
    hide ParsePic;
    if c.pic.Some? { PictureLeaf(c.pic.value, c.usage, c.sign); }
  }

  /** The siblings laid out so far, where each name starts, where the next item goes, and the furthest end. */
  datatype Placing = Placing(fields: seq<Field>, starts: map<string, nat>, at: nat, end: nat)

  const START: Placing := Placing([], map[], 0, 0)

  /** The next multiple of the boundary. */
  function Align(at: nat, boundary: nat): (r: nat)
    requires boundary > 0
    ensures at <= r < at + boundary && r % boundary == 0
  {
    AlignStep(at, boundary);
    at + (boundary - at % boundary) % boundary
  }

  lemma AlignStep(at: nat, boundary: nat)
    requires boundary > 0
    ensures (at + (boundary - at % boundary) % boundary) % boundary == 0
  {
    var q, r := at / boundary, at % boundary;
    assert at == boundary * q + r;
    if r == 0 {
      assert (boundary - r) % boundary == 0;
    } else {
      assert (boundary - r) % boundary == boundary - r;
      assert at + (boundary - r) == boundary * (q + 1);
      MultipleMod(q + 1, boundary);
    }
  }

  function PlaceOne(p: Placing, c: Clauses, s: Storage): Result<Placing>
    requires s.kind.Binary? ==> s.width > 0
  {
    var at := if c.synchronized && c.redefines.None? && s.kind.Binary? then Align(p.at, s.width) else p.at;
    if c.redefines.Some? && Strings.Upper(c.redefines.value) !in p.starts then Err
    else
      var offset := if c.redefines.Some? then p.starts[Strings.Upper(c.redefines.value)] else at;
      var f := Field(c.name, offset, s.width, s.kind, c.occurs, c.dependingOn, c.redefines);
      Ok(Placing(p.fields + [f], p.starts[Strings.Upper(c.name) := offset],
                 if c.redefines.None? then Families.Reach(f) else at, Max(p.end, Families.Reach(f))))
  }

  function StorageOf(node: Item, depth: nat): (r: Result<Storage>)
    ensures r.Ok? && r.value.kind.Binary? ==> r.value.width > 0
    decreases node, 0
  {
    if node.children == [] then
      ElementaryWidth(node.clauses);
      Elementary(node.clauses)
    else
      var inner :- LayoutNodes(node.children, depth + 1);
      Ok(Storage(Group(inner.0), inner.1))
  }

  function PlaceAll(nodes: seq<Item>, depth: nat, p: Placing): Result<Placing>
    decreases nodes, 0
  {
    if nodes == [] then Ok(p)
    else
      var s :- StorageOf(nodes[0], depth);
      var next :- PlaceOne(p, nodes[0].clauses, s);
      PlaceAll(nodes[1..], depth, next)
  }

  /** The fields of a sibling list and the bytes they reserve. */
  function LayoutNodes(nodes: seq<Item>, depth: nat): Result<(seq<Field>, nat)>
    decreases nodes, 1
  {
    if depth > MAX_NESTING_DEPTH then Err
    else
      var p :- PlaceAll(nodes, depth, START);
      var folded :- FoldAll(p.fields);
      Ok((folded.out, p.end))
  }

  lemma PlaceAllCons(nodes: seq<Item>, depth: nat, p: Placing)
    requires nodes != []
    ensures var s := StorageOf(nodes[0], depth);
            PlaceAll(nodes, depth, p) ==
            if s.Err? then Err
            else
              var next := PlaceOne(p, nodes[0].clauses, s.value);
              if next.Err? then Err else PlaceAll(nodes[1..], depth, next.value)
  {
  }

  /** `layout_nodes`, with its running cursor, furthest end and table of starts. */
  method LayoutLoop(nodes: seq<Item>, depth: nat) returns (r: Result<(seq<Field>, nat)>)
    ensures r == LayoutNodes(nodes, depth)
    decreases nodes, 1
  {
    hide PlaceAll, StorageOf, Families.FoldAll;
    if depth > MAX_NESTING_DEPTH {
      return Err;
    }
    var fields: seq<Field>, starts: map<string, nat>, cursor: nat, maxEnd: nat := [], map[], 0, 0;
    ghost var whole := PlaceAll(nodes, depth, START);
    assert nodes[0..] == nodes;
    for n := 0 to |nodes|
      invariant whole == PlaceAll(nodes[n..], depth, Placing(fields, starts, cursor, maxEnd))
    {
      var node := nodes[n];
      PlaceAllCons(nodes[n..], depth, Placing(fields, starts, cursor, maxEnd));
      assert nodes[n..][0] == node && nodes[n..][1..] == nodes[n + 1..];
      var stored := StorageLoop(node, depth);
      if stored.Err? {
        return Err;
      }
      var s := stored.value;
      if s.kind.Binary? { StorageWidth(node, depth); }
      if node.clauses.synchronized && node.clauses.redefines.None? && s.kind.Binary? {
        cursor := cursor + (s.width - cursor % s.width) % s.width;
      }
      var offset := cursor;
      if node.clauses.redefines.Some? {
        var target := Strings.Upper(node.clauses.redefines.value);
        if target !in starts {
          return Err;
        }
        offset := starts[target];
      }
      starts := starts[Strings.Upper(node.clauses.name) := offset];
      var f := Field(node.clauses.name, offset, s.width, s.kind, node.clauses.occurs,
                     node.clauses.dependingOn, node.clauses.redefines);
      fields := fields + [f];
      if node.clauses.redefines.None? {
        cursor := offset + f.ReservedWidth();
      }
      maxEnd := Max(maxEnd, offset + f.ReservedWidth());
    }
    PlaceNothing(nodes[|nodes|..], depth, Placing(fields, starts, cursor, maxEnd));
    var folded := FoldRedefines(fields);
    return if folded.Err? then Err else Ok((folded.value, maxEnd));
  }

  lemma PlaceNothing(nodes: seq<Item>, depth: nat, p: Placing)
    requires nodes == []
    ensures PlaceAll(nodes, depth, p) == Ok(p)
  {
  }

  lemma StorageWidth(node: Item, depth: nat)
    requires StorageOf(node, depth).Ok? && StorageOf(node, depth).value.kind.Binary?
    ensures StorageOf(node, depth).value.width > 0
  {
  }

  method StorageLoop(node: Item, depth: nat) returns (r: Result<Storage>)
    ensures r == StorageOf(node, depth)
    decreases node, 0
  {
    if node.children == [] {
      return Elementary(node.clauses);
    }
    var inner := LayoutLoop(node.children, depth + 1);
    return if inner.Err? then Err else Ok(Storage(Group(inner.value.0), inner.value.1));
  }

  // ---------------------------------------------------------------- nesting

  /** How deep groups nest. */
  function Nesting(nodes: seq<Item>): nat
    decreases nodes
  {
    if nodes == [] then 0
    else Max(if nodes[0].children == [] then 0 else 1 + Nesting(nodes[0].children), Nesting(nodes[1..]))
  }

  lemma {:induction false} PlacedNesting(nodes: seq<Item>, depth: nat, p: Placing)
    requires PlaceAll(nodes, depth, p).Ok? && depth <= 64
    ensures depth + Nesting(nodes) <= 64
    decreases nodes, 0
  {
    hide PlaceOne;
    if nodes != [] {
      if nodes[0].children != [] { LaidNesting(nodes[0].children, depth + 1); }
      PlacedNesting(nodes[1..], depth, PlaceOne(p, nodes[0].clauses, StorageOf(nodes[0], depth).value).value);
    }
  }

  /** Nothing nested more than 64 deep is lowered. */
  lemma {:induction false} LaidNesting(nodes: seq<Item>, depth: nat)
    requires LayoutNodes(nodes, depth).Ok?
    ensures depth + Nesting(nodes) <= 64
    decreases nodes, 1
  {
    hide Families.FoldAll, PlaceAll;
    PlacedNesting(nodes, depth, START);
  }

  // ---------------------------------------------------------------- where items are placed

  /** Where the next item would start: the reserved end of the last item that redefines nothing. */
  function BaseEnd(fields: seq<Field>): nat
    decreases |fields|
  {
    if fields == [] then 0
    else
      var last := fields[|fields| - 1];
      if last.redefines.None? then Families.Reach(last) else BaseEnd(fields[..|fields| - 1])
  }

  /** The start of the last field of a name. */
  function StartOf(fields: seq<Field>, key: string): Option<nat>
    decreases |fields|
  {
    if fields == [] then None
    else
      var last := fields[|fields| - 1];
      if Strings.Upper(last.name) == key then Some(last.offset) else StartOf(fields[..|fields| - 1], key)
  }

  /** A field stands behind the one before it, aligned when that is asked for; a redefinition at its target. */
  predicate PlacedAt(fields: seq<Field>, c: Clauses, k: nat)
    requires k < |fields|
  {
    var f, before := fields[k], fields[..k];
    f.name == c.name && f.occurs == c.occurs && f.dependingOn == c.dependingOn && f.redefines == c.redefines &&
    if f.redefines.Some? then StartOf(before, Strings.Upper(f.redefines.value)) == Some(f.offset)
    else if c.synchronized && f.kind.Binary? then
      0 < f.width && BaseEnd(before) <= f.offset < BaseEnd(before) + f.width && f.offset % f.width == 0
    else f.offset == BaseEnd(before)
  }

  /** A field has the storage of its item. */
  predicate Stored(f: Field, node: Item, depth: nat) {
    StorageOf(node, depth) == Ok(Storage(f.kind, f.width))
  }

  /** The state after the first `n` items. */
  ghost predicate PlacedSoFar(p: Placing, nodes: seq<Item>, depth: nat, n: nat)
    requires n <= |nodes|
  {
    |p.fields| == n && p.at == BaseEnd(p.fields) && p.end == StaticEnd(p.fields) &&
    (forall key :: StartOf(p.fields, key) == if key in p.starts then Some(p.starts[key]) else None) &&
    (forall k :: 0 <= k < n ==> Stored(p.fields[k], nodes[k], depth) && PlacedAt(p.fields, nodes[k].clauses, k))
  }

  lemma PlaceStep(p: Placing, nodes: seq<Item>, depth: nat, n: nat)
    requires n < |nodes| && PlacedSoFar(p, nodes, depth, n) && StorageOf(nodes[n], depth).Ok?
    requires PlaceOne(p, nodes[n].clauses, StorageOf(nodes[n], depth).value).Ok?
    ensures PlacedSoFar(PlaceOne(p, nodes[n].clauses, StorageOf(nodes[n], depth).value).value, nodes, depth, n + 1)
  {
    hide StartOf, BaseEnd, StaticEnd, StorageOf;
    var next := PlaceOne(p, nodes[n].clauses, StorageOf(nodes[n], depth).value).value;
    var f := next.fields[n];
    assert next.fields[..n] == p.fields;
    Snocs(p.fields, f);
    StaticEndSnoc(p.fields, f);
    forall k | 0 <= k <= n
      ensures Stored(next.fields[k], nodes[k], depth) && PlacedAt(next.fields, nodes[k].clauses, k)
    {
      if k < n {
        assert Stored(p.fields[k], nodes[k], depth) && PlacedAt(p.fields, nodes[k].clauses, k);
        assert next.fields[..k] == p.fields[..k];
      }
    }
  }

  lemma Snocs(fields: seq<Field>, f: Field)
    ensures BaseEnd(fields + [f]) == if f.redefines.None? then Families.Reach(f) else BaseEnd(fields)
    ensures forall key :: StartOf(fields + [f], key) ==
              if Strings.Upper(f.name) == key then Some(f.offset) else StartOf(fields, key)
  {
    assert (fields + [f])[..|fields|] == fields;
  }

  lemma {:induction false} PlaceRest(nodes: seq<Item>, depth: nat, n: nat, p: Placing)
    requires n <= |nodes| && PlacedSoFar(p, nodes, depth, n) && PlaceAll(nodes[n..], depth, p).Ok?
    ensures PlacedSoFar(PlaceAll(nodes[n..], depth, p).value, nodes, depth, |nodes|)
    decreases |nodes| - n
  {
    hide PlacedSoFar, PlaceAll, PlaceOne, StorageOf;
    if n == |nodes| {
      PlaceNothing(nodes[n..], depth, p);
    } else {
      PlaceAllCons(nodes[n..], depth, p);
      assert nodes[n..][0] == nodes[n] && nodes[n..][1..] == nodes[n + 1..];
      var s := StorageOf(nodes[n], depth).value;
      if s.kind.Binary? { StorageWidth(nodes[n], depth); }
      PlaceStep(p, nodes, depth, n);
      PlaceRest(nodes, depth, n + 1, PlaceOne(p, nodes[n].clauses, s).value);
    }
  }

  /** The unfolded fields of a sibling list. */
  function Unfolded(nodes: seq<Item>, depth: nat): seq<Field>
    requires PlaceAll(nodes, depth, START).Ok?
  {
    PlaceAll(nodes, depth, START).value.fields
  }

  /** Every item is placed by its clauses with its storage, and the width returned is the static end of the items. */
  lemma Placement(nodes: seq<Item>, depth: nat)
    requires PlaceAll(nodes, depth, START).Ok?
    ensures |Unfolded(nodes, depth)| == |nodes|
    ensures forall k :: 0 <= k < |nodes| ==>
      Stored(Unfolded(nodes, depth)[k], nodes[k], depth) && PlacedAt(Unfolded(nodes, depth), nodes[k].clauses, k)
    ensures PlaceAll(nodes, depth, START).value.end == StaticEnd(Unfolded(nodes, depth))
  {
    assert nodes[0..] == nodes;
    assert PlacedSoFar(START, nodes, depth, 0);
    hide PlaceAll;
    PlaceRest(nodes, depth, 0, START);
  }

  // ---------------------------------------------------------------- with REDEFINES

  /**
   What a program must keep to for its REDEFINES to fold cleanly: a redefined name is unique among its
   siblings, and a group that heads a family has no member of its own name. Other names, such as FILLER,
   may repeat, and a redefinition may itself be redefined.
   */
  predicate FamiliesNamed(fields: seq<Field>) {
    TargetsUnique(fields) && HeadsPlain(fields)
  }

  lemma {:induction false} StartFound(fields: seq<Field>, key: string) returns (j: nat)
    requires StartOf(fields, key).Some?
    ensures j < |fields| && Strings.Upper(fields[j].name) == key && StartOf(fields, key) == Some(fields[j].offset)
    decreases |fields|
  {
    if Strings.Upper(fields[|fields| - 1].name) == key {
      j := |fields| - 1;
    } else {
      j := StartFound(fields[..|fields| - 1], key);
    }
  }

  lemma PlacedTidy(fields: seq<Field>, nodes: seq<Item>)
    requires |fields| == |nodes| && FamiliesNamed(fields)
    requires forall k :: 0 <= k < |nodes| ==> PlacedAt(fields, nodes[k].clauses, k)
    ensures Tidy(fields)
  {
    hide StartOf, BaseEnd, HeadsPlain;
    forall k | 0 <= k < |fields|
      ensures Anchored(fields, k)
    {
      if fields[k].redefines.Some? {
        assert PlacedAt(fields, nodes[k].clauses, k);
        var j := StartFound(fields[..k], Strings.Upper(fields[k].redefines.value));
        assert fields[..k][j] == fields[j] && Redefines(fields[k], fields[j].name);
      }
    }
  }

  lemma {:induction false} BaseEndBounds(fields: seq<Field>, nodes: seq<Item>, n: nat)
    requires |fields| == |nodes| && n <= |fields|
    requires forall k :: 0 <= k < |nodes| ==> PlacedAt(fields, nodes[k].clauses, k)
    ensures forall b :: 0 <= b < n && fields[b].redefines.None? ==> Families.Reach(fields[b]) <= BaseEnd(fields[..n])
    decreases n
  {
    hide StartOf, BaseEnd;
    if n > 0 {
      BaseEndBounds(fields, nodes, n - 1);
      assert fields[..n] == fields[..n - 1] + [fields[n - 1]];
      Snocs(fields[..n - 1], fields[n - 1]);
      assert PlacedAt(fields, nodes[n - 1].clauses, n - 1);
    }
  }

  lemma PlacedApart(fields: seq<Field>, nodes: seq<Item>)
    requires |fields| == |nodes|
    requires forall k :: 0 <= k < |nodes| ==> PlacedAt(fields, nodes[k].clauses, k)
    ensures BasesApart(fields)
  {
    hide StartOf, BaseEnd, Families.Reach;
    forall b, c | 0 <= b < c < |fields| && fields[b].redefines.None? && fields[c].redefines.None?
      ensures Families.Reach(fields[b]) <= fields[c].offset
    {
      BaseEndBounds(fields, nodes, c);
      assert PlacedAt(fields, nodes[c].clauses, c);
    }
  }

  /**
   REDEFINES lowered, chains included: the items survive folding one for one at their own offsets, the
   items that redefine nothing follow one another without overlap, the width reported is the static end
   of the folded fields exactly when the dynamic tables of families fit in it, and the folded fields are
   in order exactly when no family reaches past the head of a later one.
   */
  lemma RedefinesLowered(nodes: seq<Item>, depth: nat)
    requires depth <= MAX_NESTING_DEPTH && PlaceAll(nodes, depth, START).Ok?
    requires FamiliesNamed(Unfolded(nodes, depth))
    ensures LayoutNodes(nodes, depth).Ok?
    ensures multiset(SpreadAll(LayoutNodes(nodes, depth).value.0)) == multiset(Unlinked(Unfolded(nodes, depth)))
    ensures FoldsTo(Unfolded(nodes, depth), LayoutNodes(nodes, depth).value.0) && BasesApart(Unfolded(nodes, depth))
    ensures LayoutNodes(nodes, depth).value.1 == StaticEnd(LayoutNodes(nodes, depth).value.0)
       <==> DynamicFits(Unfolded(nodes, depth))
    ensures InOrder(LayoutNodes(nodes, depth).value.0) <==> NoOverhang(Unfolded(nodes, depth))
  {
    hide PlaceAll, Tidy, DynamicFits, NoOverhang, InOrder, BasesApart, Families.FoldAll, SpreadAll, HeadsPlain;
    hide FoldsTo, StaticEnd, PlacedAt, Stored, Unlinked, TargetsUnique;
    var fields := Unfolded(nodes, depth);
    Placement(nodes, depth);
    PlacedTidy(fields, nodes);
    PlacedApart(fields, nodes);
    FoldGroups(fields);
    FoldLosesNothing(fields);
    FoldKeepsEnd(fields);
    FoldKeepsOrder(fields);
  }

  /**
   Whatever is redefined, chains of REDEFINES included: a sibling list that lowers at all loses no item,
   unless a group that heads a family has a member of its own name.
   */
  lemma LayoutLosesNothing(nodes: seq<Item>, depth: nat)
    requires LayoutNodes(nodes, depth).Ok? && HeadsPlain(Unfolded(nodes, depth))
    ensures multiset(SpreadAll(LayoutNodes(nodes, depth).value.0)) == multiset(Unlinked(Unfolded(nodes, depth)))
    ensures |Unfolded(nodes, depth)| == |nodes|
  {
    hide PlaceAll, Families.FoldAll, SpreadAll, HeadsPlain;
    Placement(nodes, depth);
    FoldLosesNothing(Unfolded(nodes, depth));
  }

  // ---------------------------------------------------------------- every level of a copybook

  /** A property of a sibling list and of every sibling list below it. */
  ghost predicate EveryLevel(nodes: seq<Item>, depth: nat, p: (seq<Item>, nat) -> bool)
    decreases nodes
  {
    p(nodes, depth) &&
    forall i :: 0 <= i < |nodes| && nodes[i].children != [] ==> EveryLevel(nodes[i].children, depth + 1, p)
  }

  /** The siblings can be laid out and their families fold cleanly. */
  predicate Named(nodes: seq<Item>, depth: nat) {
    depth <= MAX_NESTING_DEPTH && PlaceAll(nodes, depth, START).Ok? && FamiliesNamed(Unfolded(nodes, depth))
  }

  /** The width reported for the siblings is the static end of their fields. */
  predicate WidthIsEnd(nodes: seq<Item>, depth: nat) {
    var r := LayoutNodes(nodes, depth);
    r.Ok? && r.value.1 == StaticEnd(r.value.0)
  }

  predicate SiblingsInOrder(nodes: seq<Item>, depth: nat) {
    var r := LayoutNodes(nodes, depth);
    r.Ok? && InOrder(r.value.0)
  }

  predicate TablesFit(nodes: seq<Item>, depth: nat) {
    PlaceAll(nodes, depth, START).Ok? ==> DynamicFits(Unfolded(nodes, depth))
  }

  predicate NothingOverhangs(nodes: seq<Item>, depth: nat) {
    PlaceAll(nodes, depth, START).Ok? ==> NoOverhang(Unfolded(nodes, depth))
  }

  predicate NamesDistinct(nodes: seq<Item>, depth: nat) {
    PlaceAll(nodes, depth, START).Ok? ==> DistinctNames(Unfolded(nodes, depth))
  }

  /**
   At every level of a copybook, nested REDEFINES included: the widths are static ends exactly when the
   dynamic tables of families fit at every level, and the siblings are in order exactly when nothing
   overhangs at any level.
   */
  lemma {:induction false} LevelsLowered(nodes: seq<Item>, depth: nat)
    requires EveryLevel(nodes, depth, Named)
    ensures EveryLevel(nodes, depth, WidthIsEnd) <==> EveryLevel(nodes, depth, TablesFit)
    ensures EveryLevel(nodes, depth, SiblingsInOrder) <==> EveryLevel(nodes, depth, NothingOverhangs)
    decreases nodes
  {
    hide PlaceAll, LayoutNodes, FamiliesNamed, DynamicFits, NoOverhang, InOrder;
    hide StaticEnd, FoldsTo, BasesApart, SpreadAll;
    RedefinesLowered(nodes, depth);
    forall i | 0 <= i < |nodes| && nodes[i].children != []
      ensures EveryLevel(nodes[i].children, depth + 1, WidthIsEnd)
         <==> EveryLevel(nodes[i].children, depth + 1, TablesFit)
      ensures EveryLevel(nodes[i].children, depth + 1, SiblingsInOrder)
         <==> EveryLevel(nodes[i].children, depth + 1, NothingOverhangs)
    {
      LevelsLowered(nodes[i].children, depth + 1);
    }
  }

  // ---------------------------------------------------------------- widths, family groups included

  /** A group, and every group in it, is as wide as the static end of its members. */
  predicate Wide(f: Field) {
    f.kind.Group? ==> f.width == StaticEnd(f.kind.children) && AllWide(f.kind.children)
  }

  predicate AllWide(fields: seq<Field>) {
    forall i :: 0 <= i < |fields| ==> Wide(fields[i])
  }

  /** In every family the dynamic tables are no wider, when full, than some member that is none. */
  predicate FamiliesFit(nodes: seq<Item>, depth: nat) {
    PlaceAll(nodes, depth, START).Ok? ==>
      var fields := Unfolded(nodes, depth);
      forall b :: 0 <= b < |fields| && Head(fields, b) ==> FamilyFits(fields, b)
  }

  predicate FamilyFits(fields: seq<Field>, b: nat)
    requires b < |fields|
  {
    Followers(fields, fields[b]) != [] ==> MembersFit([fields[b]] + Followers(fields, fields[b]))
  }

  lemma WideRebased(f: Field, origin: nat)
    requires f.offset >= origin
    ensures Wide(Rebase(f, origin)) <==> Wide(f)
  {
  }

  lemma WideHolder(base: Field, members: seq<Field>)
    ensures Wide(Holder(base, members)) <==>
            Holder(base, members).width == StaticEnd(members) && AllWide(members)
  {
  }

  /** A family is wide exactly when its tables fit and its members are wide. */
  lemma FamilyWide(fields: seq<Field>, b: nat, g: Field)
    requires b < |fields| && Head(fields, b) && FamilyOf(fields, fields[b], g)
    ensures Wide(g) <==> FamilyFits(fields, b) && Wide(fields[b]) && AllWide(Followers(fields, fields[b]))
  {
    hide Wide, MembersFit, Head, Variants;
    var base, followers := fields[b], Followers(fields, fields[b]);
    if followers != [] {
      var members := [base] + followers;
      var rebased := Rebased(members, base.offset);
      RebasedFit(members, base.offset);
      HolderWidth(base, rebased);
      WideHolder(base, rebased);
      forall i | 0 <= i < |members|
        ensures Wide(rebased[i]) <==> Wide(members[i])
      {
        WideRebased(members[i], base.offset);
      }
      assert AllWide(rebased) <==> AllWide(members) by {
        if AllWide(rebased) { assert forall i :: 0 <= i < |members| ==> Wide(rebased[i]); }
        if AllWide(members) { assert forall i :: 0 <= i < |members| ==> Wide(members[i]); }
      }
      assert AllWide(members) <==> Wide(base) && AllWide(followers) by {
        if AllWide(members) {
          assert Wide(members[0]);
          assert forall i :: 0 <= i < |followers| ==> followers[i] == members[i + 1];
        }
      }
    }
  }

  /** The folded siblings are wide exactly when all families fit and all siblings are wide. */
  lemma FoldedWide(fields: seq<Field>, out: seq<Field>)
    requires Tidy(fields) && FoldsTo(fields, out)
    ensures AllWide(out) <==>
              (forall b :: 0 <= b < |fields| && Head(fields, b) ==> FamilyFits(fields, b)) && AllWide(fields)
  {
    hide Wide, Tidy, Head, FamilyOf, FamilyFits, Heads, Followers;
    if AllWide(out) {
      forall b | 0 <= b < |fields| && Head(fields, b)
        ensures FamilyFits(fields, b) && Wide(fields[b]) && AllWide(Followers(fields, fields[b]))
      {
        var i := HeadFound(fields, b);
        assert FamilyOf(fields, Heads(fields)[i], out[i]) && Wide(out[i]);
        FamilyWide(fields, b, out[i]);
      }
      forall k | 0 <= k < |fields|
        ensures Wide(fields[k])
      {
        if !Head(fields, k) {
          var b := FamilyFound(fields, k);
          var i := FollowerFound(fields, b, k);
          assert Wide(Followers(fields, fields[b])[i]);
        }
      }
    }
    if (forall b :: 0 <= b < |fields| && Head(fields, b) ==> FamilyFits(fields, b)) && AllWide(fields) {
      forall i | 0 <= i < |out|
        ensures Wide(out[i])
      {
        var b := HeadsOrigin(fields, i);
        assert FamilyOf(fields, Heads(fields)[i], out[i]);
        forall j | 0 <= j < |Followers(fields, fields[b])|
          ensures Wide(Followers(fields, fields[b])[j])
        {
          var k := FollowerOrigin(fields, b, j);
        }
        FamilyWide(fields, b, out[i]);
      }
    }
  }

  lemma FollowerFound(fields: seq<Field>, b: nat, k: nat) returns (i: nat)
    requires b < |fields| && k < |fields| && k != b && InFamily(fields, b, k)
    ensures i < |Followers(fields, fields[b])| && Followers(fields, fields[b])[i] == fields[k]
  {
    i := VariantFound(fields, fields[b].name, k);
  }

  lemma FollowerOrigin(fields: seq<Field>, b: nat, j: nat) returns (k: nat)
    requires b < |fields| && j < |Followers(fields, fields[b])|
    ensures k < |fields| && fields[k] == Followers(fields, fields[b])[j]
  {
    k := VariantOrigin(fields, fields[b].name, j);
  }

  /**
   At every level, the groups made of families included: the width reported for the siblings and the
   width of every group are static ends exactly when the dynamic tables of families fit among the
   siblings and in their own families, at every level.
   */
  lemma {:induction false} LevelsWide(nodes: seq<Item>, depth: nat)
    requires EveryLevel(nodes, depth, Named)
    ensures LayoutNodes(nodes, depth).Ok?
    ensures WidthIsEnd(nodes, depth) && AllWide(LayoutNodes(nodes, depth).value.0)
       <==> EveryLevel(nodes, depth, TablesFit) && EveryLevel(nodes, depth, FamiliesFit)
    decreases nodes, 1
  {
    hide PlaceAll, LayoutNodes, FamiliesNamed, DynamicFits, NoOverhang, StaticEnd, FoldsTo, BasesApart, SpreadAll;
    hide Wide, PlacedAt, Head, FamilyFits, Tidy;
    RedefinesLowered(nodes, depth);
    Placement(nodes, depth);
    var fields := Unfolded(nodes, depth);
    PlacedTidy(fields, nodes);
    FoldedWide(fields, LayoutNodes(nodes, depth).value.0);
    forall k | 0 <= k < |nodes|
      ensures Wide(fields[k]) <==>
                (nodes[k].children != [] ==>
                   EveryLevel(nodes[k].children, depth + 1, TablesFit) &&
                   EveryLevel(nodes[k].children, depth + 1, FamiliesFit))
    {
      assert Stored(fields[k], nodes[k], depth);
      StorageWide(nodes[k], depth, fields[k]);
    }
  }

  lemma {:induction false} StorageWide(node: Item, depth: nat, f: Field)
    requires Stored(f, node, depth)
    requires node.children != [] ==> EveryLevel(node.children, depth + 1, Named)
    ensures Wide(f) <==>
              (node.children != [] ==>
                 EveryLevel(node.children, depth + 1, TablesFit) && EveryLevel(node.children, depth + 1, FamiliesFit))
    decreases node, 0
  {
    hide LayoutNodes, EveryLevel, Elementary, StaticEnd;
    if node.children != [] {
      LevelsWide(node.children, depth + 1);
    } else {
      ElementaryIsField(node.clauses);
    }
  }

  // ---------------------------------------------------------------- distinct names

  /** A leaf, or a group whose members have distinct names all the way down. */
  predicate WellNamedInside(f: Field) {
    f.kind.Group? ==> Normal.DistinctSeq(f.kind.children)
  }

  lemma WellNamedOf(fields: seq<Field>)
    requires DistinctNames(fields) && forall i :: 0 <= i < |fields| ==> WellNamedInside(fields[i])
    ensures Normal.DistinctSeq(fields)
  {
  }

  lemma {:induction false} VariantsDistinct(fields: seq<Field>, b: nat)
    requires DistinctNames(fields) && b < |fields| && fields[b].redefines.None?
    requires forall i :: 0 <= i < |fields| ==> WellNamedInside(fields[i])
    ensures var members := [fields[b]] + Variants(fields, fields[b].name);
            DistinctNames(members) && forall i :: 0 <= i < |members| ==> WellNamedInside(members[i])
  {
    hide WellNamedInside;
    var members := [fields[b]] + Variants(fields, fields[b].name);
    var name := fields[b].name;
    forall i | 0 <= i < |members|
      ensures WellNamedInside(members[i])
    {
      if i > 0 { var k := VariantOrigin(fields, name, i - 1); }
    }
    forall i, j | 0 <= i < j < |members|
      ensures !Strings.SameName(members[i].name, members[j].name)
    {
      if i == 0 {
        var k := VariantOrigin(fields, name, j - 1);
        assert k != b;
        assert !Strings.SameName(fields[Min(b, k)].name, fields[Max(b, k)].name);
      } else {
        var k, l := VariantsInOrder(fields, name, i - 1, j - 1);
      }
    }
  }

  lemma {:induction false} VariantsInOrder(fields: seq<Field>, name: string, i: nat, j: nat) returns (k: nat, l: nat)
    requires i < j < |Variants(fields, name)|
    ensures k < l < |fields| && fields[k] == Variants(fields, name)[i] && fields[l] == Variants(fields, name)[j]
    decreases |fields|
  {
    var front := fields[..|fields| - 1];
    if j < |Variants(front, name)| {
      k, l := VariantsInOrder(front, name, i, j);
    } else {
      k := VariantOrigin(front, name, i);
      l := |fields| - 1;
    }
  }

  /** A folded family of well-named members is well named. */
  lemma FamilyWellNamed(fields: seq<Field>, b: nat, g: Field)
    requires DistinctNames(fields) && b < |fields| && FamilyOf(fields, fields[b], g)
    requires forall i :: 0 <= i < |fields| ==> WellNamedInside(fields[i])
    ensures WellNamedInside(g)
  {
    hide Variants, Normal.DistinctSeq, WellNamedInside;
    var base := fields[b];
    if base.redefines.None? && Variants(fields, base.name) != [] {
      VariantsDistinct(fields, b);
      var members := [base] + Variants(fields, base.name);
      var rebased := Rebased(members, base.offset);
      forall i | 0 <= i < |rebased|
        ensures WellNamedInside(rebased[i]) && rebased[i].name == members[i].name
      {
        RebasedInside(members[i], base.offset);
      }
      WellNamedOf(rebased);
      HolderInside(base, rebased);
    }
  }

  lemma RebasedInside(f: Field, origin: nat)
    requires WellNamedInside(f) && f.offset >= origin
    ensures WellNamedInside(Rebase(f, origin)) && Rebase(f, origin).name == f.name
  {
  }

  lemma HolderInside(base: Field, members: seq<Field>)
    requires Normal.DistinctSeq(members)
    ensures WellNamedInside(Holder(base, members))
  {
  }

  /**
   With distinct names among all siblings a copybook's fields have distinct names at every level,
   families included.
   */
  lemma {:induction false} LevelsWellNamed(nodes: seq<Item>, depth: nat)
    requires EveryLevel(nodes, depth, Named) && EveryLevel(nodes, depth, NamesDistinct)
    ensures LayoutNodes(nodes, depth).Ok? && Normal.DistinctSeq(LayoutNodes(nodes, depth).value.0)
    decreases nodes, 1
  {
    hide PlaceAll, LayoutNodes, FamiliesNamed, Normal.DistinctSeq, WellNamedInside, FamilyOf;
    hide Heads, SpreadAll, InOrder, DynamicFits;
    hide NoOverhang, BasesApart, PlacedAt;
    RedefinesLowered(nodes, depth);
    Placement(nodes, depth);
    var fields, out := Unfolded(nodes, depth), LayoutNodes(nodes, depth).value.0;
    forall k | 0 <= k < |fields|
      ensures WellNamedInside(fields[k])
    {
      assert Stored(fields[k], nodes[k], depth);
      StorageWellNamed(nodes[k], depth, fields[k]);
    }
    forall i | 0 <= i < |out|
      ensures WellNamedInside(out[i]) && out[i].name == Heads(fields)[i].name
    {
      var b := HeadsOrigin(fields, i);
      FamilyWellNamed(fields, b, out[i]);
      FamilyStarts(fields, fields[b], out[i]);
    }
    forall i, j | 0 <= i < j < |out|
      ensures !Strings.SameName(out[i].name, out[j].name)
    {
      var a, b := HeadsInOrder(fields, i, j);
    }
    WellNamedOf(out);
  }

  lemma {:induction false} StorageWellNamed(node: Item, depth: nat, f: Field)
    requires Stored(f, node, depth)
    requires node.children != [] ==>
      EveryLevel(node.children, depth + 1, Named) && EveryLevel(node.children, depth + 1, NamesDistinct)
    ensures WellNamedInside(f)
    decreases node, 0
  {
    hide LayoutNodes, Normal.DistinctSeq, EveryLevel, Elementary;
    if node.children != [] {
      LevelsWellNamed(node.children, depth + 1);
    } else {
      ElementaryIsField(node.clauses);
    }
  }

  lemma ElementaryIsField(c: Clauses)
    ensures Elementary(c).Ok? ==> !Elementary(c).value.kind.Group? && !Elementary(c).value.kind.Pad?
  {
    hide ParsePic;
    if c.pic.Some? { PictureLeaf(c.pic.value, c.usage, c.sign); }
  }

  // ---------------------------------------------------------------- without REDEFINES

  predicate NoRedefines(nodes: seq<Item>)
    decreases nodes
  {
    nodes == [] ||
    (nodes[0].clauses.redefines.None? && NoRedefines(nodes[0].children) && NoRedefines(nodes[1..]))
  }

  lemma {:induction false} FoldPlain(fields: seq<Field>)
    requires forall k :: 0 <= k < |fields| ==> fields[k].redefines.None?
    ensures FoldAll(fields).Ok? && FoldAll(fields).value.out == fields
    decreases |fields|
  {
    hide FoldAll, FoldStep;
    FoldNothing();
    if fields != [] {
      FoldPlain(fields[..|fields| - 1]);
      FoldAllSnoc(fields);
      FoldBase(FoldAll(fields[..|fields| - 1]).value, fields[|fields| - 1]);
      assert fields == fields[..|fields| - 1] + [fields[|fields| - 1]];
    }
  }

  /** Siblings in order, at every level, and every group as wide as its members reach. */
  predicate WellLaid(fields: seq<Field>)
    decreases fields
  {
    fields == [] ||
    (fields[0].redefines.None? &&
     (fields[0].kind.Group? ==>
        WellLaid(fields[0].kind.children) && fields[0].width == StaticEnd(fields[0].kind.children)) &&
     (|fields| > 1 ==> fields[1].offset >= Families.Reach(fields[0])) &&
     WellLaid(fields[1..]))
  }

  lemma {:induction false} WellLaidOrdered(fields: seq<Field>)
    requires WellLaid(fields)
    ensures RoundTrip.Ordered(fields)
    decreases fields
  {
    if fields != [] {
      if fields[0].kind.Group? { WellLaidOrdered(fields[0].kind.children); }
      WellLaidOrdered(fields[1..]);
    }
  }

  lemma {:induction false} WellLaidPlain(fields: seq<Field>)
    requires WellLaid(fields)
    ensures forall k :: 0 <= k < |fields| ==> fields[k].redefines.None?
    decreases |fields|
  {
    if fields != [] {
      WellLaidPlain(fields[1..]);
      assert forall k :: 0 < k < |fields| ==> fields[k] == fields[1..][k - 1];
    }
  }

  lemma {:induction false} PlaceAllLaid(nodes: seq<Item>, depth: nat, p: Placing)
    requires NoRedefines(nodes) && PlaceAll(nodes, depth, p).Ok?
    ensures var r := PlaceAll(nodes, depth, p).value;
            p.fields <= r.fields &&
            (var added := r.fields[|p.fields|..];
             WellLaid(added) && (added != [] ==> added[0].offset >= p.at))
    decreases nodes, 0
  {
    hide PlaceAll, StorageOf, WellLaid, Align;
    if nodes == [] {
      PlaceNothing(nodes, depth, p);
      NothingLaid();
      assert p.fields[|p.fields|..] == [];
    } else {
      PlaceAllCons(nodes, depth, p);
      var s := StorageOf(nodes[0], depth).value;
      var next := PlaceOne(p, nodes[0].clauses, s).value;
      StorageLaid(nodes[0], depth);
      PlaceAllLaid(nodes[1..], depth, next);
      var r := PlaceAll(nodes, depth, p).value;
      var f := next.fields[|p.fields|];
      var added, rest := r.fields[|p.fields|..], r.fields[|next.fields|..];
      assert r.fields[..|next.fields|] == next.fields;
      assert added == [f] + rest;
      AlignBound(p.at, s);
      WellLaidCons(f, rest);
    }
  }

  lemma AlignBound(at: nat, s: Storage)
    ensures s.width > 0 ==> Align(at, s.width) >= at
  {
  }

  lemma NothingLaid()
    ensures WellLaid([])
  {
  }

  lemma WellLaidCons(f: Field, rest: seq<Field>)
    requires f.redefines.None? && WellLaid(rest)
    requires f.kind.Group? ==> WellLaid(f.kind.children) && f.width == StaticEnd(f.kind.children)
    requires rest != [] ==> rest[0].offset >= Families.Reach(f)
    ensures WellLaid([f] + rest)
  {
    assert ([f] + rest)[1..] == rest;
  }

  lemma {:induction false} StorageLaid(node: Item, depth: nat)
    requires NoRedefines([node]) && StorageOf(node, depth).Ok?
    ensures var s := StorageOf(node, depth).value;
            s.kind.Group? ==> WellLaid(s.kind.children) && s.width == StaticEnd(s.kind.children)
    decreases node, 0
  {
    hide PlaceAll, WellLaid, LayoutNodes;
    if node.children != [] { LayoutLaid(node.children, depth + 1); }
  }

  /** Without REDEFINES the layout is in order at every level and as wide as reported. */
  lemma {:induction false} LayoutLaid(nodes: seq<Item>, depth: nat)
    requires NoRedefines(nodes) && LayoutNodes(nodes, depth).Ok?
    ensures var r := LayoutNodes(nodes, depth).value;
            WellLaid(r.0) && r.1 == StaticEnd(r.0) && r.0 == Unfolded(nodes, depth)
    decreases nodes, 1
  {
    hide PlaceAll, WellLaid, Families.FoldAll, PlacedAt, StaticEnd, NoRedefines;
    PlaceAllLaid(nodes, depth, START);
    Placement(nodes, depth);
    var p := PlaceAll(nodes, depth, START).value;
    assert p.fields[0..] == p.fields;
    WellLaidPlain(p.fields);
    FoldPlain(p.fields);
  }

  // ---------------------------------------------------------------- whole copybooks

  /** A single group's members are the record's fields; otherwise the roots are. */
  function RecordItems(roots: seq<Item>): seq<Item> {
    if |roots| == 1 && roots[0].children != [] then roots[0].children else roots
  }

  /** One statement with only deeper ones behind it is the record itself, and its members are the fields. */
  lemma SingleRecord(stmts: seq<Item>)
    requires |stmts| > 1 && stmts[0].children == [] && forall i :: 0 < i < |stmts| ==> stmts[i].level > stmts[0].level
    ensures RecordItems(Forest(stmts)) == Forest(stmts[1..])
  {
    hide RunLength, Forest;
    var rest := stmts[1..];
    assert forall i :: 0 <= i < |rest| ==> rest[i] == stmts[i + 1];
    WholeRun(rest, stmts[0].level);
    ForestOnce(stmts);
    assert stmts[1..|rest| + 1] == rest && stmts[|rest| + 1..] == [];
    NoTrees();
  }

  /** A lone statement, or statements of which a later one is no deeper than the first, are all fields of the record. */
  lemma SeveralRecords(stmts: seq<Item>, k: nat)
    requires stmts != [] && stmts[0].children == []
    requires |stmts| == 1 || (0 < k < |stmts| && stmts[k].level <= stmts[0].level)
    ensures RecordItems(Forest(stmts)) == Forest(stmts)
  {
    hide Forest;
    var n := RunLength(stmts[1..], stmts[0].level);
    ForestOnce(stmts);
    NoTrees();
    if |stmts| == 1 {
      assert stmts[1..1] == [] && stmts[n + 1..] == [];
    } else {
      assert stmts[1..][k - 1] == stmts[k] && n < k;
      ForestOnce(stmts[n + 1..]);
    }
  }

  lemma ForestOnce(stmts: seq<Item>)
    requires stmts != []
    ensures var n := RunLength(stmts[1..], stmts[0].level);
            Forest(stmts) == [stmts[0].(children := Forest(stmts[1..n + 1]))] + Forest(stmts[n + 1..])
  {
    hide RunLength;
  }

  lemma NoTrees()
    ensures Forest<Clauses>([]) == []
  {
  }

  lemma {:induction false} WholeRun(rest: seq<Item>, level: nat)
    requires forall i :: 0 <= i < |rest| ==> rest[i].level > level
    ensures RunLength(rest, level) == |rest|
    ensures rest != [] ==> Forest(rest) != []
  {
    if rest != [] { WholeRun(rest[1..], level); }
  }

  function Lower(stmts: seq<Item>): Result<Layout> {
    var laid :- LayoutNodes(RecordItems(Forest(stmts)), 0);
    Ok(FromFields(laid.0))
  }

  method LowerLoop(stmts: seq<Item>) returns (r: Result<Layout>)
    requires Bare(stmts)
    ensures r == Lower(stmts)
  {
    var roots := BuildTree(stmts);
    var laid := LayoutLoop(RecordItems(roots), 0);
    return if laid.Err? then Err else Ok(FromFields(laid.value.0));
  }

  lemma {:induction false} PreorderPlain(forest: seq<Item>)
    requires forall i :: 0 <= i < |Preorder(forest)| ==> Preorder(forest)[i].clauses.redefines.None?
    ensures NoRedefines(forest)
    decreases forest
  {
    if forest != [] {
      var below, rest := Preorder(forest[0].children), Preorder(forest[1..]);
      var all := Preorder(forest);
      assert all == [forest[0].(children := [])] + below + rest;
      assert all[0].clauses == forest[0].clauses;
      assert forall i :: 0 <= i < |below| ==> below[i] == all[1 + i];
      assert forall i :: 0 <= i < |rest| ==> rest[i] == all[1 + |below| + i];
      PreorderPlain(forest[0].children);
      PreorderPlain(forest[1..]);
    }
  }

  lemma NoRedefinesInside(roots: seq<Item>)
    requires NoRedefines(roots)
    ensures NoRedefines(RecordItems(roots))
  {
  }

  /** A copybook without REDEFINES lowers to a layout in order at every level, names repeated or not. */
  lemma CopybookOrdered(stmts: seq<Item>)
    requires Bare(stmts) && Lower(stmts).Ok?
    requires forall i :: 0 <= i < |stmts| ==> stmts[i].clauses.redefines.None?
    ensures WellLaid(Lower(stmts).value.fields) && RoundTrip.Ordered(Lower(stmts).value.fields)
    ensures Lower(stmts).value.recordLen == LayoutNodes(RecordItems(Forest(stmts)), 0).value.1
  {
    hide LayoutNodes, Forest, WellLaid, RoundTrip.Ordered;
    ForestPreorder(stmts);
    PreorderPlain(Forest(stmts));
    NoRedefinesInside(Forest(stmts));
    LayoutLaid(RecordItems(Forest(stmts)), 0);
    WellLaidOrdered(Lower(stmts).value.fields);
  }

  /**
   Whole copybooks, REDEFINES at any depth included: every group's width, those of family groups too, and
   the record length are static ends exactly when the dynamic tables of families fit everywhere, and
   siblings are in order everywhere exactly when no family reaches past the head of a later one.
   */
  lemma CopybookLaid(stmts: seq<Item>)
    requires Lower(stmts).Ok? && EveryLevel(RecordItems(Forest(stmts)), 0, Named)
    ensures var items, layout := RecordItems(Forest(stmts)), Lower(stmts).value;
            (layout.recordLen == LayoutNodes(items, 0).value.1 && AllWide(layout.fields) <==>
               EveryLevel(items, 0, TablesFit) && EveryLevel(items, 0, FamiliesFit)) &&
            (layout.recordLen == LayoutNodes(items, 0).value.1 <==> TablesFit(items, 0)) &&
            (EveryLevel(items, 0, SiblingsInOrder) <==> EveryLevel(items, 0, NothingOverhangs))
  {
    hide LayoutNodes, Forest, FamiliesNamed, DynamicFits, InOrder, NoOverhang, SpreadAll, FoldsTo, BasesApart;
    hide StaticEnd, EveryLevel, AllWide;
    var items := RecordItems(Forest(stmts));
    LevelsLowered(items, 0);
    LevelsWide(items, 0);
    EveryLevelHere(items, 0, Named);
    RedefinesLowered(items, 0);
  }

  lemma EveryLevelHere(nodes: seq<Item>, depth: nat, p: (seq<Item>, nat) -> bool)
    requires EveryLevel(nodes, depth, p)
    ensures p(nodes, depth)
  {
  }

  /**
   Values to bytes to values for every copybook the source accepts: a row in the domain always encodes,
   and decodes to its normal form exactly when every field reads from what overlays leave of it as from
   its own bytes, which is always so without REDEFINES.
   */
  lemma CopybookRoundTrip(stmts: seq<Item>, values: Pairs, enc: Encoding)
    requires Bare(stmts) && Lower(stmts).Ok?
    requires var fields := Lower(stmts).value.fields;
             Encode.Supplied(fields, values) && Normal.InSeq(fields, values, map[])
    ensures var layout := Lower(stmts).value;
            var plan := Encode.PlanSeq(layout.fields, 0, 0, 0, values, enc);
            var record := Encode.EncodeRecord(layout, values, enc);
            plan.Ok? && record.Ok? &&
            (RoundTrip.ReadsBack(plan.value.writes, enc) <==>
               Decode.DecodeRecord(layout, record.value, enc)
               == Ok(Normal.NormSeq(layout.fields, values, map[]).pairs)) &&
            ((forall i :: 0 <= i < |stmts| ==> stmts[i].clauses.redefines.None?) ==>
               RoundTrip.ReadsBack(plan.value.writes, enc))
  {
    hide Lower, Encode.Supplied, Normal.InSeq, Normal.NormSeq, WellLaid, Encode.PlanSeq, RoundTrip.LastAgrees;
    hide Decode.DecodeRecord, Encode.EncodeRecord, RoundTrip.Ordered, RoundTrip.ReadsBack, RoundTrip.Holds;
    RoundTrip.OverlayRoundTrip(Lower(stmts).value, values, enc);
    if forall i :: 0 <= i < |stmts| ==> stmts[i].clauses.redefines.None? {
      CopybookOrdered(stmts);
      RoundTrip.OrderedAgrees(Lower(stmts).value, values, enc);
    }
  }

  // ---------------------------------------------------------------- bytes to values to bytes

  /** No filler anywhere inside: an unnamed item is a field of the name FILLER. */
  predicate Padless(f: Field) {
    !f.kind.Pad? && (f.kind.Group? ==> AllPadless(f.kind.children))
  }

  predicate AllPadless(fields: seq<Field>) {
    forall i :: 0 <= i < |fields| ==> Padless(fields[i])
  }

  lemma RebasePadless(f: Field, origin: nat)
    requires Padless(f) && f.offset >= origin
    ensures Padless(Rebase(f, origin))
  {
  }

  lemma HolderPadless(base: Field, members: seq<Field>)
    requires AllPadless(members)
    ensures Padless(Holder(base, members))
  {
  }

  lemma FoldStepPadless(s: Folding, f: Field)
    requires forall k :: k in s.index ==> s.index[k] < |s.out|
    requires AllPadless(s.out) && Padless(f)
    ensures FoldStep(s, f).Ok? ==> AllPadless(FoldStep(s, f).value.out)
  {
    if f.redefines.Some? && Strings.Upper(f.redefines.value) in s.index {
      var base := s.out[s.index[Strings.Upper(f.redefines.value)]];
      assert Padless(base);
      if f.offset >= base.offset {
        RebasePadless(base, base.offset);
        RebasePadless(f, base.offset);
        var members := if SyntheticUnion(base) then base.kind.children else [Rebase(base, base.offset)];
        assert AllPadless(members);
        hide Padless;
        HolderPadless(base, members + [Rebase(f, base.offset)]);
      }
    }
  }

  lemma {:induction false} FoldPadless(fields: seq<Field>)
    requires AllPadless(fields) && FoldAll(fields).Ok?
    ensures AllPadless(FoldAll(fields).value.out)
    decreases |fields|
  {
    hide FoldStep, Padless;
    if fields != [] {
      FoldPadless(fields[..|fields| - 1]);
      FoldStepPadless(FoldAll(fields[..|fields| - 1]).value, fields[|fields| - 1]);
    }
  }

  lemma {:induction false} LayoutPadless(nodes: seq<Item>, depth: nat)
    requires LayoutNodes(nodes, depth).Ok?
    ensures AllPadless(LayoutNodes(nodes, depth).value.0)
    decreases nodes, 1
  {
    hide PlaceAll, PlacedAt, FoldAll;
    Placement(nodes, depth);
    var fields := Unfolded(nodes, depth);
    forall k | 0 <= k < |fields|
      ensures Padless(fields[k])
    {
      assert Stored(fields[k], nodes[k], depth);
      StoragePadless(nodes[k], depth, fields[k]);
    }
    FoldPadless(fields);
  }

  lemma {:induction false} StoragePadless(node: Item, depth: nat, f: Field)
    requires Stored(f, node, depth)
    ensures Padless(f)
    decreases node, 0
  {
    hide LayoutNodes, Elementary;
    if node.children != [] {
      LayoutPadless(node.children, depth + 1);
    } else {
      ElementaryIsField(node.clauses);
    }
  }

  lemma {:induction false} PadlessApart(fields: seq<Field>)
    requires AllPadless(fields)
    ensures Overlay.PadTablesApart(fields)
    decreases fields
  {
    forall i | 0 <= i < |fields| && fields[i].kind.Group?
      ensures Overlay.PadTablesApart(fields[i].kind.children)
    {
      assert Padless(fields[i]);
      PadlessApart(fields[i].kind.children);
    }
    assert forall i :: 0 <= i < |fields| ==> Padless(fields[i]);
  }

  /**
   Bytes to values to bytes for every accepted copybook, REDEFINES at any depth and repeated names such
   as FILLER included: when siblings of one name carry one value, a decoded record of canonical leaves is
   restored exactly when its slack is zero. Distinct names at every level never disagree.
   */
  lemma CopybookBytesRoundTrip(stmts: seq<Item>, bytes: seq<Byte>, enc: Encoding)
    requires Lower(stmts).Ok? && Decode.DecodeRecord(Lower(stmts).value, bytes, enc).Ok?
    requires Overlay.CanonicalTrace(Overlay.TraceIn(Lower(stmts).value, bytes, enc), bytes, enc)
    ensures var layout, items := Lower(stmts).value, RecordItems(Forest(stmts));
            var values := Decode.DecodeRecord(layout, bytes, enc).value;
            (Overlay.Agreeing(StructV(values)) ==>
               var r := Encode.EncodeRecord(layout, values, enc);
               r.Ok? &&
               (r.value == bytes <==> Overlay.ZeroSlack(layout, bytes, Overlay.TraceIn(layout, bytes, enc)))) &&
            (EveryLevel(items, 0, Named) && EveryLevel(items, 0, NamesDistinct) ==>
               Overlay.Agreeing(StructV(values)))
  {
    hide LayoutNodes, Forest, EveryLevel, Decode.DecodeRecord, Encode.EncodeRecord, Overlay.CanonicalTrace;
    hide Overlay.TraceIn, Overlay.ZeroSlack, Normal.DistinctSeq, Overlay.Agreeing, Overlay.PadTablesApart, AllPadless;
    var layout, items := Lower(stmts).value, RecordItems(Forest(stmts));
    LayoutPadless(items, 0);
    PadlessApart(layout.fields);
    if Overlay.Agreeing(StructV(Decode.DecodeRecord(layout, bytes, enc).value)) {
      Overlay.BytesRoundTrip(layout, bytes, enc);
    }
    if EveryLevel(items, 0, Named) && EveryLevel(items, 0, NamesDistinct) {
      LevelsWellNamed(items, 0);
      Overlay.DistinctMeets(layout, bytes, enc);
    }
  }
}
