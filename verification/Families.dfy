/**
 Folding REDEFINES: a field and the fields that redefine it become one group, every member at its
 distance from the group's start. Nothing is lost, and the group is as wide as its widest member.
 */
module Families {
  import opened Prelude
  import opened Layouts
  import Strings

  // ---------------------------------------------------------------- folding REDEFINES

  /** The fields produced so far, and where the last base field of each name stands. */
  datatype Folding = Folding(out: seq<Field>, index: map<string, nat>)

  function Rebase(f: Field, origin: nat): Field
    requires f.offset >= origin
  {
    f.(offset := f.offset - origin, redefines := None)
  }

  /** A group made only to hold the variants has a child of its own name. */
  predicate SyntheticUnion(f: Field) {
    f.kind.Group? && exists i :: 0 <= i < |f.kind.children| && f.kind.children[i].name == f.name
  }

  function Widest(members: seq<Field>): nat {
    if members == [] then 0 else Max(members[0].TotalWidth(), Widest(members[1..]))
  }

  function Holder(base: Field, members: seq<Field>): Field {
    Field(base.name, base.offset, Widest(members), Group(members), None, None, None)
  }

  /** The group a folded field becomes when `f` joins it. */
  function Grown(g: Field, f: Field): Field
    requires f.offset >= g.offset
  {
    var members := if SyntheticUnion(g) then g.kind.children else [Rebase(g, g.offset)];
    Holder(g, members + [Rebase(f, g.offset)])
  }

  /** One field joins: a base stands for itself, a redefinition joins its target's group. */
  function FoldStep(s: Folding, f: Field): Result<Folding>
    requires forall k :: k in s.index ==> s.index[k] < |s.out|
  {
    match f.redefines
    case None => Ok(Folding(s.out + [f], s.index[Strings.Upper(f.name) := |s.out|]))
    case Some(target) =>
      var key := Strings.Upper(target);
      if key !in s.index then Ok(Folding(s.out + [f], s.index))
      else
        var i := s.index[key];
        var base := s.out[i];
        if f.offset < base.offset then Err
        else
          Ok(Folding(s.out[i := Grown(base, f)], s.index))
  }

  function FoldAll(fields: seq<Field>): (r: Result<Folding>)
    ensures r.Ok? ==> forall k :: k in r.value.index ==> r.value.index[k] < |r.value.out|
    decreases |fields|
  {
    if fields == [] then Ok(Folding([], map[]))
    else
      var s :- FoldAll(fields[..|fields| - 1]);
      FoldStep(s, fields[|fields| - 1])
  }

  /** `fold_redefines`; an offset before its group's start would underflow. */
  method FoldRedefines(fields: seq<Field>) returns (r: Result<seq<Field>>)
    ensures r == (if FoldAll(fields).Err? then Err else Ok(FoldAll(fields).value.out))
  {
    var out: seq<Field>, index: map<string, nat> := [], map[];
    for n := 0 to |fields|
      invariant FoldAll(fields[..n]) == Ok(Folding(out, index))
    {
      var f := fields[n];
      assert fields[..n + 1][..n] == fields[..n];
      match f.redefines {
        case None =>
          index := index[Strings.Upper(f.name) := |out|];
          out := out + [f];
        case Some(target) =>
          var key := Strings.Upper(target);
          if key in index {
            var i := index[key];
            var base := out[i];
            if f.offset < base.offset {
              FoldErr(fields, n + 1);
              return Err;
            }
            var members := if SyntheticUnion(base) then base.kind.children else [Rebase(base, base.offset)];
            members := members + [Rebase(f, base.offset)];
            out := out[i := Holder(base, members)];
          } else {
            out := out + [f];
          }
      }
    }
    assert fields[..|fields|] == fields;
    return Ok(out);
  }

  lemma {:induction false} FoldErr(fields: seq<Field>, n: nat)
    requires n <= |fields| && FoldAll(fields[..n]).Err?
    ensures FoldAll(fields).Err?
    decreases |fields| - n
  {
    if n < |fields| {
      assert fields[..n + 1][..n] == fields[..n];
      FoldErr(fields, n + 1);
    } else {
      assert fields[..n] == fields;
    }
  }

  // ---------------------------------------------------------------- what folding means

  predicate Redefines(f: Field, name: string) {
    f.redefines.Some? && Strings.SameName(f.redefines.value, name)
  }

  /** Field `k` joins no earlier family: it redefines nothing, or nothing that an earlier base is called. */
  predicate Head(fields: seq<Field>, k: nat)
    requires k < |fields|
  {
    fields[k].redefines.None? ||
    forall j :: 0 <= j < k && fields[j].redefines.None? ==> !Redefines(fields[k], fields[j].name)
  }

  /** Heading a family is settled by the fields up to it. */
  lemma HeadPrefix(fields: seq<Field>)
    requires fields != []
    ensures forall k :: 0 <= k < |fields| - 1 ==> (Head(fields[..|fields| - 1], k) <==> Head(fields, k))
  {
    var front := fields[..|fields| - 1];
    assert forall j :: 0 <= j < |front| ==> front[j] == fields[j];
  }

  /** The fields that head a family: the bases, and what redefines none of them. */
  function Heads(fields: seq<Field>): seq<Field>
    decreases |fields|
  {
    if fields == [] then []
    else
      var n := |fields| - 1;
      Heads(fields[..n]) + (if Head(fields, n) then [fields[n]] else [])
  }


  /** The fields that redefine a name, in order. */
  function Variants(fields: seq<Field>, name: string): seq<Field>
    decreases |fields|
  {
    if fields == [] then []
    else
      var f := fields[|fields| - 1];
      Variants(fields[..|fields| - 1], name) + (if Redefines(f, name) then [f] else [])
  }

  /** Base and variants as the members of a group, each at its distance from the group's start. */
  function Rebased(fields: seq<Field>, origin: nat): (out: seq<Field>)
    requires forall i :: 0 <= i < |fields| ==> fields[i].offset >= origin
    ensures |out| == |fields|
  {
    seq(|fields|, i requires 0 <= i < |fields| => Rebase(fields[i], origin))
  }

  function Union(base: Field, variants: seq<Field>): Field
    requires forall i :: 0 <= i < |variants| ==> variants[i].offset >= base.offset
  {
    if variants == [] then base
    else Holder(base, Rebased([base] + variants, base.offset))
  }

  /** A name that some field redefines belongs to one field only. */
  predicate TargetsUnique(fields: seq<Field>) {
    forall k, i, j :: 0 <= k < |fields| && 0 <= i < |fields| && 0 <= j < |fields| ==>
      Redefines(fields[k], fields[i].name) && Redefines(fields[k], fields[j].name) ==> i == j
  }

  /** Field `k` redefines an earlier base and starts where it starts, or redefines no base at all. */
  predicate Anchored(fields: seq<Field>, k: nat)
    requires k < |fields|
  {
    fields[k].redefines.Some? ==>
      (exists j :: 0 <= j < k && fields[j].redefines.None? && Redefines(fields[k], fields[j].name) &&
         fields[k].offset == fields[j].offset) ||
      (forall j :: 0 <= j < |fields| && fields[j].redefines.None? ==> !Redefines(fields[k], fields[j].name))
  }

  /**
   Redefined names are unique, a redefinition of a base starts where the base starts, and no head of a
   family is a group with a child of its own name. Other names, such as FILLER, may repeat, and a
   redefinition may itself be redefined.
   */
  predicate Tidy(fields: seq<Field>) {
    TargetsUnique(fields) &&
    (forall k :: 0 <= k < |fields| ==> Anchored(fields, k)) && HeadsPlain(fields)
  }

  /** No head of a family is a group with a child of its own name. */
  predicate HeadsPlain(fields: seq<Field>) {
    forall k :: 0 <= k < |fields| && Head(fields, k) ==> !SyntheticUnion(fields[k])
  }

  lemma TidyPrefix(fields: seq<Field>)
    requires fields != [] && Tidy(fields)
    ensures Tidy(fields[..|fields| - 1])
  {
    hide Head, SyntheticUnion;
    var front := fields[..|fields| - 1];
    HeadPrefix(fields);
    assert forall k :: 0 <= k < |front| ==> front[k] == fields[k];
    forall k | 0 <= k < |front|
      ensures Anchored(front, k)
    {
      assert Anchored(fields, k);
      if j :| 0 <= j < k && fields[j].redefines.None? && Redefines(fields[k], fields[j].name) &&
              fields[k].offset == fields[j].offset {
        assert front[j] == fields[j] && front[k] == fields[k];
      }
    }
  }

  lemma {:induction false} HeadsOrigin(fields: seq<Field>, i: nat) returns (j: nat)
    requires i < |Heads(fields)|
    ensures j < |fields| && fields[j] == Heads(fields)[i] && Head(fields, j)
    decreases |fields|
  {
    hide Head;
    var front := fields[..|fields| - 1];
    HeadPrefix(fields);
    if i < |Heads(front)| {
      j := HeadsOrigin(front, i);
    } else {
      j := |fields| - 1;
    }
  }

  lemma {:induction false} HeadFound(fields: seq<Field>, j: nat) returns (i: nat)
    requires j < |fields| && Head(fields, j)
    ensures i < |Heads(fields)| && Heads(fields)[i] == fields[j]
    decreases |fields|
  {
    hide Head;
    var front := fields[..|fields| - 1];
    HeadPrefix(fields);
    if j < |front| {
      i := HeadFound(front, j);
    } else {
      i := |Heads(front)|;
    }
  }

  /** Heads stand in the order of their fields. */
  lemma {:induction false} HeadsInOrder(fields: seq<Field>, i: nat, k: nat) returns (a: nat, b: nat)
    requires i < k < |Heads(fields)|
    ensures a < b < |fields| && fields[a] == Heads(fields)[i] && fields[b] == Heads(fields)[k]
    ensures Head(fields, a) && Head(fields, b)
    decreases |fields|
  {
    hide Head;
    var front := fields[..|fields| - 1];
    HeadPrefix(fields);
    if k < |Heads(front)| {
      a, b := HeadsInOrder(front, i, k);
    } else {
      a := HeadsOrigin(front, i);
      b := |fields| - 1;
    }
  }

  lemma {:induction false} HeadsKeepOrder(fields: seq<Field>, a: nat, b: nat) returns (i: nat, k: nat)
    requires a < b < |fields| && Head(fields, a) && Head(fields, b)
    ensures i < k < |Heads(fields)| && Heads(fields)[i] == fields[a] && Heads(fields)[k] == fields[b]
    decreases |fields|
  {
    hide Head;
    var front := fields[..|fields| - 1];
    HeadPrefix(fields);
    if b < |front| {
      i, k := HeadsKeepOrder(front, a, b);
    } else {
      i := HeadFound(front, a);
      k := |Heads(front)|;
    }
  }

  lemma {:induction false} VariantOrigin(fields: seq<Field>, name: string, i: nat) returns (j: nat)
    requires i < |Variants(fields, name)|
    ensures j < |fields| && fields[j] == Variants(fields, name)[i] && Redefines(fields[j], name)
    decreases |fields|
  {
    var front := fields[..|fields| - 1];
    if i < |Variants(front, name)| {
      j := VariantOrigin(front, name, i);
    } else {
      j := |fields| - 1;
    }
  }

  lemma {:induction false} VariantFound(fields: seq<Field>, name: string, j: nat) returns (i: nat)
    requires j < |fields| && Redefines(fields[j], name)
    ensures i < |Variants(fields, name)| && Variants(fields, name)[i] == fields[j]
    decreases |fields|
  {
    var front := fields[..|fields| - 1];
    if j < |front| {
      i := VariantFound(front, name, j);
    } else {
      i := |Variants(front, name)|;
    }
  }

  /** The group, or plain field, each head becomes. */
  predicate FoldsTo(fields: seq<Field>, out: seq<Field>) {
    var heads := Heads(fields);
    |out| == |heads| &&
    forall i :: 0 <= i < |heads| ==> FamilyOf(fields, heads[i], out[i])
  }

  /** What joins a head: the redefinitions of a base, in order; nothing joins any other head. */
  function Followers(fields: seq<Field>, head: Field): seq<Field> {
    if head.redefines.Some? then [] else Variants(fields, head.name)
  }

  /** `g` is the head's whole family: the head first, then every redefinition of it in order. */
  predicate FamilyOf(fields: seq<Field>, head: Field, g: Field) {
    var followers := Followers(fields, head);
    (forall i :: 0 <= i < |followers| ==> followers[i].offset == head.offset) && g == Union(head, followers)
  }

  predicate Indexes(fields: seq<Field>, index: map<string, nat>) {
    var heads := Heads(fields);
    (forall k :: k in index ==>
       index[k] < |heads| && heads[index[k]].redefines.None? && k == Strings.Upper(heads[index[k]].name)) &&
    (forall i :: 0 <= i < |heads| && heads[i].redefines.None? ==> Strings.Upper(heads[i].name) in index)
  }

  lemma HeadsSnoc(fields: seq<Field>)
    requires fields != []
    ensures var n := |fields| - 1;
            Heads(fields) == Heads(fields[..n]) + (if Head(fields, n) then [fields[n]] else [])
    ensures forall name ::
              var f := fields[|fields| - 1];
              Variants(fields, name)
              == Variants(fields[..|fields| - 1], name) + (if Redefines(f, name) then [f] else [])
  {
    hide Head;
  }

  /** No field redefines a base that comes after it. */
  lemma NotRedefinedYet(fields: seq<Field>, k: nat, n: nat)
    requires Tidy(fields) && k < n < |fields| && fields[n].redefines.None?
    ensures !Redefines(fields[k], fields[n].name)
  {
    hide HeadsPlain;
    assert Anchored(fields, k);
  }

  lemma NoVariantsYet(fields: seq<Field>, n: nat)
    requires Tidy(fields) && n < |fields| && fields[n].redefines.None?
    ensures Variants(fields[..n], fields[n].name) == []
  {
    hide Tidy;
    var name := fields[n].name;
    forall k | 0 <= k < n
      ensures !Redefines(fields[..n][k], name)
    {
      NotRedefinedYet(fields, k, n);
    }
    if Variants(fields[..n], name) != [] { var k := VariantOrigin(fields[..n], name, 0); }
  }

  lemma SyntheticHolder(base: Field, variants: seq<Field>)
    requires forall i :: 0 <= i < |variants| ==> variants[i].offset >= base.offset
    requires !SyntheticUnion(base)
    ensures SyntheticUnion(Union(base, variants)) <==> variants != []
    ensures var u := Union(base, variants);
            u.name == base.name && u.offset == base.offset &&
            (if SyntheticUnion(u) then u.kind.children else [Rebase(u, u.offset)])
            == (if variants == [] then [Rebase(base, base.offset)] else Rebased([base] + variants, base.offset))
  {
    if variants != [] {
      assert Union(base, variants).kind.children[0].name == base.name;
    }
  }

  /** Adding one more variant to a family. */
  lemma UnionSnoc(base: Field, variants: seq<Field>, f: Field)
    requires forall i :: 0 <= i < |variants| ==> variants[i].offset >= base.offset
    requires f.offset >= base.offset && !SyntheticUnion(base)
    ensures Grown(Union(base, variants), f) == Union(base, variants + [f])
  {
    SyntheticHolder(base, variants);
    var all := [base] + (variants + [f]);
    assert all == ([base] + variants) + [f];
    if variants == [] {
      assert Rebased(all, base.offset) == [Rebase(base, base.offset)] + [Rebase(f, base.offset)];
    } else {
      assert Rebased(all, base.offset) == Rebased([base] + variants, base.offset) + [Rebase(f, base.offset)];
    }
  }

  /** Folding tidy fields gives, for each head in order, its family as one field. */
  lemma {:induction false} FoldGroups(fields: seq<Field>)
    requires Tidy(fields)
    ensures FoldAll(fields).Ok?
    ensures FoldsTo(fields, FoldAll(fields).value.out) && Indexes(fields, FoldAll(fields).value.index)
    decreases |fields|
  {
    hide Tidy, Head, FoldsTo, Indexes, FoldStep;
    if fields == [] {
      NothingFolds();
    } else {
      var n := |fields| - 1;
      var front, f := fields[..n], fields[n];
      TidyPrefix(fields);
      FoldGroups(front);
      var s := FoldAll(front).value;
      if Head(fields, n) {
        HeadJoins(fields, s);
      } else {
        VariantJoins(fields, s);
      }
    }
  }

  lemma NothingFolds()
    ensures FoldsTo([], []) && Indexes([], map[])
  {
  }

  /** An index finds nothing for what redefines no base. */
  lemma NoTarget(fields: seq<Field>, s: Folding)
    requires fields != [] && Head(fields, |fields| - 1) && Indexes(fields[..|fields| - 1], s.index)
    ensures var f := fields[|fields| - 1];
            f.redefines.Some? ==> Strings.Upper(f.redefines.value) !in s.index
  {
    hide Heads;
    var n := |fields| - 1;
    var front, f := fields[..n], fields[n];
    forall key | key in s.index
      ensures exists j :: 0 <= j < n && fields[j].redefines.None? && Strings.Upper(fields[j].name) == key
    {
      var j := HeadsOrigin(front, s.index[key]);
      assert fields[j] == front[j];
    }
  }

  lemma HeadJoins(fields: seq<Field>, s: Folding)
    requires fields != [] && Head(fields, |fields| - 1) && Tidy(fields)
    requires FoldsTo(fields[..|fields| - 1], s.out) && Indexes(fields[..|fields| - 1], s.index)
    ensures var r := FoldStep(s, fields[|fields| - 1]);
            r.Ok? && FoldsTo(fields, r.value.out) && Indexes(fields, r.value.index)
  {
    hide Tidy, Head, Heads, FamilyOf;
    NoTarget(fields, s);
    HeadFolds(fields, s.out);
    HeadsSnoc(fields);
  }

  lemma HeadFolds(fields: seq<Field>, out: seq<Field>)
    requires fields != [] && Head(fields, |fields| - 1) && Tidy(fields) && FoldsTo(fields[..|fields| - 1], out)
    ensures FoldsTo(fields, out + [fields[|fields| - 1]])
  {
    hide Heads, Tidy, Head, FamilyOf;
    var n := |fields| - 1;
    var front, f := fields[..n], fields[n];
    HeadsSnoc(fields);
    var all, heads := out + [f], Heads(fields);
    forall i | 0 <= i < |heads|
      ensures FamilyOf(fields, heads[i], all[i])
    {
      if i < |Heads(front)| {
        assert FamilyOf(front, Heads(front)[i], out[i]);
        assert heads[i] == Heads(front)[i];
        NotJoined(fields, i);
        OtherFamily(fields, heads[i], out[i]);
      } else {
        NewFamily(fields);
      }
    }
  }

  /** A head redefines no earlier base. */
  lemma NotJoined(fields: seq<Field>, i: nat)
    requires fields != [] && Head(fields, |fields| - 1) && i < |Heads(fields[..|fields| - 1])|
    ensures var head := Heads(fields[..|fields| - 1])[i];
            head.redefines.None? ==> !Redefines(fields[|fields| - 1], head.name)
  {
    hide Heads;
    var front := fields[..|fields| - 1];
    var j := HeadsOrigin(front, i);
    assert fields[j] == front[j];
  }

  lemma NewFamily(fields: seq<Field>)
    requires fields != [] && Tidy(fields)
    ensures FamilyOf(fields, fields[|fields| - 1], fields[|fields| - 1])
  {
    hide Tidy, Heads;
    var n := |fields| - 1;
    var f := fields[n];
    if f.redefines.None? {
      NoVariantsYet(fields, n);
      HeadsSnoc(fields);
      assert Variants(fields, f.name) == [] + [];
    }
  }

  lemma OtherFamily(fields: seq<Field>, head: Field, g: Field)
    requires fields != [] && FamilyOf(fields[..|fields| - 1], head, g)
    requires head.redefines.Some? || !Redefines(fields[|fields| - 1], head.name)
    ensures FamilyOf(fields, head, g)
  {
    hide Heads;
    HeadsSnoc(fields);
    var before := Variants(fields[..|fields| - 1], head.name);
    assert before + [] == before;
  }

  lemma GrownFamily(fields: seq<Field>, base: Field, g: Field)
    requires fields != [] && FamilyOf(fields[..|fields| - 1], base, g) && !SyntheticUnion(base)
    requires base.redefines.None?
    requires Redefines(fields[|fields| - 1], base.name) && fields[|fields| - 1].offset == base.offset
    ensures g.offset == base.offset
    ensures FamilyOf(fields, base, Grown(g, fields[|fields| - 1]))
  {
    hide SyntheticUnion, Holder, Union, Heads;
    HeadsSnoc(fields);
    var before := Variants(fields[..|fields| - 1], base.name);
    SyntheticHolder(base, before);
    UnionSnoc(base, before, fields[|fields| - 1]);
  }

  /** Where the last field's target stands among the heads before it. */
  lemma TargetPlace(fields: seq<Field>, s: Folding) returns (i: nat)
    requires fields != [] && !Head(fields, |fields| - 1) && Tidy(fields)
    requires Indexes(fields[..|fields| - 1], s.index)
    ensures var heads, f := Heads(fields[..|fields| - 1]), fields[|fields| - 1];
            f.redefines.Some? &&
            var key := Strings.Upper(f.redefines.value);
            key in s.index && s.index[key] == i < |heads| &&
            heads[i].offset == f.offset && !SyntheticUnion(heads[i]) && heads[i].redefines.None? &&
            forall k :: 0 <= k < |heads| ==> (Redefines(f, heads[k].name) <==> k == i)
  {
    hide Heads, SyntheticUnion;
    var n := |fields| - 1;
    var front, f := fields[..n], fields[n];
    assert Anchored(fields, n);
    var j :| 0 <= j < n && fields[j].redefines.None? && Redefines(f, fields[j].name) && f.offset == fields[j].offset;
    assert front[j] == fields[j] && Head(front, j) && Head(fields, j);
    i := HeadFound(front, j);
    var heads := Heads(front);
    forall k | 0 <= k < |heads| && k != i
      ensures !Redefines(f, heads[k].name)
    {
      var a, b := HeadsInOrder(front, if k < i then k else i, if k < i then i else k);
      assert fields[a] == front[a] && fields[b] == front[b];
    }
  }

  lemma VariantJoins(fields: seq<Field>, s: Folding)
    requires fields != [] && !Head(fields, |fields| - 1) && Tidy(fields)
    requires FoldsTo(fields[..|fields| - 1], s.out) && Indexes(fields[..|fields| - 1], s.index)
    ensures var r := FoldStep(s, fields[|fields| - 1]);
            r.Ok? && FoldsTo(fields, r.value.out) && Indexes(fields, r.value.index)
  {
    hide FoldsTo, Tidy, Head, Heads, Grown, Indexes;
    var i := TargetPlace(fields, s);
    VariantFolds(fields, s.out, i);
    IndexesKept(fields, s.index);
  }

  lemma IndexesKept(fields: seq<Field>, index: map<string, nat>)
    requires fields != [] && !Head(fields, |fields| - 1) && Indexes(fields[..|fields| - 1], index)
    ensures Indexes(fields, index)
  {
    hide Head, Heads;
    HeadsSnoc(fields);
    assert Heads(fields) == Heads(fields[..|fields| - 1]) + [] == Heads(fields[..|fields| - 1]);
  }

  lemma VariantFolds(fields: seq<Field>, out: seq<Field>, i: nat)
    requires fields != [] && !Head(fields, |fields| - 1) && FoldsTo(fields[..|fields| - 1], out)
    requires var heads, f := Heads(fields[..|fields| - 1]), fields[|fields| - 1];
             i < |heads| && heads[i].offset == f.offset && !SyntheticUnion(heads[i]) && heads[i].redefines.None? &&
             forall k :: 0 <= k < |heads| ==> (Redefines(f, heads[k].name) <==> k == i)
    ensures out[i].offset == fields[|fields| - 1].offset
    ensures FoldsTo(fields, out[i := Grown(out[i], fields[|fields| - 1])])
  {
    hide Heads, SyntheticUnion, Holder, FamilyOf, Head;
    var n := |fields| - 1;
    var front, f := fields[..n], fields[n];
    var heads := Heads(front);
    HeadsSnoc(fields);
    assert heads + [] == heads;
    assert FamilyOf(front, heads[i], out[i]);
    GrownFamily(fields, heads[i], out[i]);
    var now := out[i := Grown(out[i], f)];
    forall k | 0 <= k < |heads|
      ensures FamilyOf(fields, heads[k], now[k])
    {
      assert FamilyOf(front, heads[k], out[k]);
      if k != i { OtherFamily(fields, heads[k], out[k]); }
    }
  }

  // ---------------------------------------------------------------- nothing is lost

  function Unlink(f: Field): Field {
    f.(redefines := None)
  }

  function Unlinked(fields: seq<Field>): (out: seq<Field>)
    ensures |out| == |fields|
  {
    seq(|fields|, i requires 0 <= i < |fields| => Unlink(fields[i]))
  }

  /** The fields a folded field stands for, back at their places among the siblings. */
  function Spread(g: Field): seq<Field> {
    if SyntheticUnion(g) then
      seq(|g.kind.children|, i requires 0 <= i < |g.kind.children| =>
        g.kind.children[i].(offset := g.offset + g.kind.children[i].offset))
    else [Unlink(g)]
  }

  function SpreadAll(out: seq<Field>): seq<Field> {
    if out == [] then [] else Spread(out[0]) + SpreadAll(out[1..])
  }

  lemma {:induction false} SpreadSnoc(out: seq<Field>, f: Field)
    ensures SpreadAll(out + [f]) == SpreadAll(out) + Spread(f)
  {
    if out == [] {
      assert SpreadAll([f]) == Spread(f) + SpreadAll([]);
    } else {
      assert (out + [f])[1..] == out[1..] + [f];
      SpreadSnoc(out[1..], f);
    }
  }

  /** Replacing one folded field by one that stands for one field more. */
  lemma {:induction false} SpreadUpdate(out: seq<Field>, i: nat, g: Field, x: Field)
    requires i < |out| && multiset(Spread(g)) == multiset(Spread(out[i])) + multiset{x}
    ensures multiset(SpreadAll(out[i := g])) == multiset(SpreadAll(out)) + multiset{x}
  {
    hide Spread;
    var now := out[i := g];
    if i == 0 {
      assert now[1..] == out[1..];
    } else {
      assert now[1..] == out[1..][i - 1 := g];
      SpreadUpdate(out[1..], i - 1, g, x);
    }
  }

  lemma UnlinkedSnoc(fields: seq<Field>)
    requires fields != []
    ensures Unlinked(fields) == Unlinked(fields[..|fields| - 1]) + [Unlink(fields[|fields| - 1])]
  {
  }

  /** The index has the names of the bases so far, and what it points at is a base or its group. */
  ghost predicate IndexOk(fields: seq<Field>, s: Folding)
    requires forall k :: k in s.index ==> s.index[k] < |s.out|
  {
    (forall key :: key in s.index <==>
       exists j :: 0 <= j < |fields| && fields[j].redefines.None? && Strings.Upper(fields[j].name) == key) &&
    (forall key :: key in s.index ==> s.out[s.index[key]].redefines.None?)
  }

  lemma {:induction false} FoldIndex(fields: seq<Field>)
    requires FoldAll(fields).Ok?
    ensures IndexOk(fields, FoldAll(fields).value)
    decreases |fields|
  {
    hide FoldStep, IndexOk;
    if fields == [] {
      NothingIndexed();
    } else {
      FoldIndex(fields[..|fields| - 1]);
      StepIndex(fields, FoldAll(fields[..|fields| - 1]).value);
    }
  }

  lemma NothingIndexed()
    ensures IndexOk([], Folding([], map[]))
  {
  }

  lemma StepIndex(fields: seq<Field>, s: Folding)
    requires fields != [] && forall k :: k in s.index ==> s.index[k] < |s.out|
    requires IndexOk(fields[..|fields| - 1], s) && FoldStep(s, fields[|fields| - 1]).Ok?
    ensures IndexOk(fields, FoldStep(s, fields[|fields| - 1]).value)
  {
    hide SyntheticUnion, Rebase;
    var n := |fields| - 1;
    var front, f := fields[..n], fields[n];
    var t := FoldStep(s, f).value;
    assert forall j :: 0 <= j < n ==> front[j] == fields[j];
    forall key
      ensures key in t.index <==>
              exists j :: 0 <= j < |fields| && fields[j].redefines.None? && Strings.Upper(fields[j].name) == key
    {
      if j :| 0 <= j < n && front[j].redefines.None? && Strings.Upper(front[j].name) == key {
        assert fields[j] == front[j];
      }
    }
  }

  /** A group that grows by a member stands for one field more. */
  lemma SpreadGrown(base: Field, f: Field)
    requires base.redefines.None? && f.offset >= base.offset
    ensures Spread(Grown(base, f)) == Spread(base) + [Unlink(f)]
  {
    var members := if SyntheticUnion(base) then base.kind.children else [Rebase(base, base.offset)];
    var all := members + [Rebase(f, base.offset)];
    var g := Holder(base, all);
    assert SyntheticUnion(g) by {
      if SyntheticUnion(base) {
        var i :| 0 <= i < |base.kind.children| && base.kind.children[i].name == base.name;
        assert all[i] == base.kind.children[i];
      } else {
        assert all[0].name == g.name;
      }
    }
    assert |Spread(g)| == |members| + 1 == |Spread(base)| + 1;
  }

  /**
   Folding loses nothing: whenever it succeeds and no field that heads a family has a child of its own
   name, every input field comes back exactly once, at its own offset, when the groups are spread out.
   */
  lemma {:induction false} FoldLosesNothing(fields: seq<Field>)
    requires FoldAll(fields).Ok? && HeadsPlain(fields)
    ensures multiset(SpreadAll(FoldAll(fields).value.out)) == multiset(Unlinked(fields))
    decreases |fields|
  {
    hide SyntheticUnion, Spread, SpreadAll, Holder, IndexOk;
    if fields != [] {
      var n := |fields| - 1;
      var front, f := fields[..n], fields[n];
      var s := FoldAll(front).value;
      HeadPrefix(fields);
      FoldLosesNothing(front);
      FoldIndex(front);
      UnlinkedSnoc(fields);
      StepLosesNothing(fields, s);
    } else {
      SpreadNothing();
    }
  }

  lemma SpreadNothing()
    ensures SpreadAll([]) == []
  {
  }

  lemma StepLosesNothing(fields: seq<Field>, s: Folding)
    requires fields != [] && (Head(fields, |fields| - 1) ==> !SyntheticUnion(fields[|fields| - 1]))
    requires (forall k :: k in s.index ==> s.index[k] < |s.out|) && IndexOk(fields[..|fields| - 1], s)
    requires FoldStep(s, fields[|fields| - 1]).Ok?
    ensures var f := fields[|fields| - 1];
            multiset(SpreadAll(FoldStep(s, f).value.out)) == multiset(SpreadAll(s.out)) + multiset{Unlink(f)}
  {
    hide SpreadAll, Holder;
    var n := |fields| - 1;
    var front, f := fields[..n], fields[n];
    if f.redefines.Some? && Strings.Upper(f.redefines.value) in s.index {
      hide Spread;
      var i := s.index[Strings.Upper(f.redefines.value)];
      var base := s.out[i];
      SpreadGrown(base, f);
      SpreadUpdate(s.out, i, Grown(base, f), Unlink(f));
    } else {
      SpreadSnoc(s.out, f);
      assert forall j :: 0 <= j < n ==> front[j] == fields[j];
      assert Head(fields, n);
    }
  }

  // ---------------------------------------------------------------- the static end

  function Reach(f: Field): nat {
    f.offset + f.ReservedWidth()
  }

  lemma {:induction false} StaticEndSnoc(fields: seq<Field>, f: Field)
    ensures StaticEnd(fields + [f]) == Max(StaticEnd(fields), Reach(f))
  {
    if fields == [] {
      assert StaticEnd([f]) == Max(Reach(f), StaticEnd([]));
    } else {
      assert (fields + [f])[1..] == fields[1..] + [f];
      StaticEndSnoc(fields[1..], f);
    }
  }

  /** The static end is the least bound of what the fields reach. */
  lemma {:induction false} StaticEndAtMost(fields: seq<Field>, m: nat)
    ensures StaticEnd(fields) <= m <==> forall i :: 0 <= i < |fields| ==> Reach(fields[i]) <= m
  {
    if fields != [] {
      StaticEndAtMost(fields[1..], m);
      assert fields[0] == [fields[0]][0];
      assert forall i :: 0 < i < |fields| ==> fields[i] == fields[1..][i - 1];
      assert forall i :: 0 <= i < |fields[1..]| ==> fields[1..][i] == fields[i + 1];
    }
  }

  lemma {:induction false} WidestAtMost(members: seq<Field>, m: nat)
    ensures Widest(members) <= m <==> forall i :: 0 <= i < |members| ==> members[i].TotalWidth() <= m
  {
    if members != [] {
      WidestAtMost(members[1..], m);
      assert forall i :: 0 < i < |members| ==> members[i] == members[1..][i - 1];
      assert forall i :: 0 <= i < |members[1..]| ==> members[1..][i] == members[i + 1];
    }
  }

  /** Where a field ends when all its declared elements are there. */
  function FullEnd(f: Field): nat {
    f.offset + f.TotalWidth()
  }

  /** A base that some field redefines. */
  predicate Redefined(fields: seq<Field>, b: nat)
    requires b < |fields|
  {
    fields[b].redefines.None? && exists k :: 0 <= k < |fields| && Redefines(fields[k], fields[b].name)
  }

  /** Field `k` is a member of the group that base `b` becomes. */
  predicate InFamily(fields: seq<Field>, b: nat, k: nat)
    requires b < |fields| && k < |fields|
  {
    fields[b].redefines.None? && (Redefines(fields[k], fields[b].name) || (k == b && Redefined(fields, b)))
  }

  /** A group reaches as far as the full end of its furthest member; a lone head as far as it did. */
  lemma FamilyReach(fields: seq<Field>, b: nat, g: Field, m: nat)
    requires b < |fields| && FamilyOf(fields, fields[b], g)
    ensures Reach(g) <= m <==>
      Reach(fields[b]) <= m && forall k :: 0 <= k < |fields| && InFamily(fields, b, k) ==> FullEnd(fields[k]) <= m
  {
    hide Variants, Widest;
    var base := fields[b];
    var variants := Followers(fields, base);
    if variants == [] {
      forall k | 0 <= k < |fields|
        ensures !InFamily(fields, b, k)
      {
        forall j | 0 <= j < |fields| && base.redefines.None?
          ensures !Redefines(fields[j], base.name)
        {
          if Redefines(fields[j], base.name) { var i := VariantFound(fields, base.name, j); }
        }
      }
    } else {
      var first := VariantOrigin(fields, base.name, 0);
      assert InFamily(fields, b, b);
      var members := Rebased([base] + variants, base.offset);
      if m >= base.offset { WidestAtMost(members, m - base.offset); }
      forall i | 0 <= i < |variants|
        ensures exists k :: 0 <= k < |fields| && InFamily(fields, b, k) && fields[k] == variants[i]
      {
        var k := VariantOrigin(fields, base.name, i);
        assert InFamily(fields, b, k);
      }
      forall k | 0 <= k < |fields| && InFamily(fields, b, k)
        ensures fields[k].offset == base.offset &&
                exists i :: 0 <= i < |members| && members[i].TotalWidth() == fields[k].TotalWidth()
      {
        MemberFound(fields, b, k, members);
      }
      assert FullEnd(base) >= Reach(base);
    }
  }

  lemma MemberFound(fields: seq<Field>, b: nat, k: nat, members: seq<Field>)
    requires b < |fields| && k < |fields| && InFamily(fields, b, k)
    requires forall i :: 0 <= i < |Variants(fields, fields[b].name)| ==>
      Variants(fields, fields[b].name)[i].offset == fields[b].offset
    requires members == Rebased([fields[b]] + Variants(fields, fields[b].name), fields[b].offset)
    ensures fields[k].offset == fields[b].offset
    ensures exists i :: 0 <= i < |members| && members[i].TotalWidth() == fields[k].TotalWidth()
  {
    if Redefines(fields[k], fields[b].name) {
      var i := VariantFound(fields, fields[b].name, k);
      assert members[i + 1].TotalWidth() == fields[k].TotalWidth();
    } else {
      assert members[0].TotalWidth() == fields[k].TotalWidth();
    }
  }

  /** How far the folded siblings reach. */
  lemma FoldedAtMost(fields: seq<Field>, out: seq<Field>, m: nat)
    requires FoldsTo(fields, out)
    ensures StaticEnd(out) <= m <==>
      forall b :: 0 <= b < |fields| && Head(fields, b) ==>
        Reach(fields[b]) <= m && forall k :: 0 <= k < |fields| && InFamily(fields, b, k) ==> FullEnd(fields[k]) <= m
  {
    hide Heads, Head, FamilyOf, Reach, FullEnd, InFamily, StaticEnd;
    StaticEndAtMost(out, m);
    if StaticEnd(out) <= m {
      forall b | 0 <= b < |fields| && Head(fields, b)
        ensures Reach(fields[b]) <= m
        ensures forall k :: 0 <= k < |fields| && InFamily(fields, b, k) ==> FullEnd(fields[k]) <= m
      {
        var i := HeadFound(fields, b);
        assert FamilyOf(fields, Heads(fields)[i], out[i]);
        FamilyReach(fields, b, out[i], m);
      }
    }
    if forall b :: 0 <= b < |fields| && Head(fields, b) ==>
        Reach(fields[b]) <= m && forall k :: 0 <= k < |fields| && InFamily(fields, b, k) ==> FullEnd(fields[k]) <= m {
      forall i | 0 <= i < |out|
        ensures Reach(out[i]) <= m
      {
        var b := HeadsOrigin(fields, i);
        assert FamilyOf(fields, Heads(fields)[i], out[i]);
        FamilyReach(fields, b, out[i], m);
      }
    }
  }

  /** Every table of dynamic length in a family ends, when full, within the siblings' static end. */
  predicate DynamicFits(fields: seq<Field>) {
    forall k :: 0 <= k < |fields| && fields[k].dependingOn.Some? ==>
      !Head(fields, k) || Redefined(fields, k) ==> FullEnd(fields[k]) <= StaticEnd(fields)
  }

  /** A redefinition that is no head is in the family of an earlier base. */
  lemma FamilyFound(fields: seq<Field>, k: nat) returns (b: nat)
    requires k < |fields| && !Head(fields, k)
    ensures b < k && fields[b].redefines.None? && Head(fields, b) && InFamily(fields, b, k)
  {
    b :| 0 <= b < k && fields[b].redefines.None? && Redefines(fields[k], fields[b].name);
  }

  /** A member of a family is no head, or the redefined base itself. */
  lemma FamilyMember(fields: seq<Field>, b: nat, k: nat)
    requires Tidy(fields) && b < |fields| && k < |fields| && InFamily(fields, b, k)
    ensures !Head(fields, k) || Redefined(fields, k)
    ensures Head(fields, b) && Redefined(fields, b)
  {
    hide HeadsPlain;
    assert Anchored(fields, k);
    if Redefines(fields[k], fields[b].name) {
      var j :| 0 <= j < k && fields[j].redefines.None? && Redefines(fields[k], fields[j].name);
    }
  }

  /**
   Folding never lowers the static end of the siblings, and keeps it exactly when every dynamic table
   of a family fits in it: a dynamic table reserves nothing, but the group it joins reserves it full.
   */
  lemma FoldKeepsEnd(fields: seq<Field>)
    requires Tidy(fields)
    ensures FoldAll(fields).Ok? && StaticEnd(FoldAll(fields).value.out) >= StaticEnd(fields)
    ensures StaticEnd(FoldAll(fields).value.out) == StaticEnd(fields) <==> DynamicFits(fields)
  {
    hide FoldAll, FoldsTo, Indexes, Redefined, StaticEnd, Tidy, Head, InFamily;
    FoldGroups(fields);
    var out, end := FoldAll(fields).value.out, StaticEnd(fields);
    StaticEndAtMost(fields, end);
    StaticEndAtMost(fields, StaticEnd(out));
    FoldedAtMost(fields, out, StaticEnd(out));
    FoldedAtMost(fields, out, end);
    forall k | 0 <= k < |fields|
      ensures Reach(fields[k]) <= StaticEnd(out)
    {
      assert FullEnd(fields[k]) >= Reach(fields[k]);
      if !Head(fields, k) { var b := FamilyFound(fields, k); }
    }
    if DynamicFits(fields) {
      forall b, k | 0 <= b < |fields| && 0 <= k < |fields| && InFamily(fields, b, k)
        ensures FullEnd(fields[k]) <= end
      {
        FamilyMember(fields, b, k);
        if fields[k].dependingOn.None? { assert FullEnd(fields[k]) == Reach(fields[k]); }
      }
    }
    if StaticEnd(out) == end {
      forall k | 0 <= k < |fields| && fields[k].dependingOn.Some? && (!Head(fields, k) || Redefined(fields, k))
        ensures FullEnd(fields[k]) <= end
      {
        if Head(fields, k) {
          RedefinedIn(fields, k);
        } else {
          var b := FamilyFound(fields, k);
        }
      }
    }
  }

  lemma RedefinedIn(fields: seq<Field>, k: nat)
    requires k < |fields| && Redefined(fields, k)
    ensures InFamily(fields, k, k)
  {
  }

  // ---------------------------------------------------------------- the width of a group

  /** Every table of dynamic length among the members is, when full, no wider than some member that is none. */
  predicate MembersFit(members: seq<Field>) {
    forall i :: 0 <= i < |members| && members[i].dependingOn.Some? ==>
      members[i].TotalWidth() == 0 || CoveredBy(members, members[i].TotalWidth())
  }

  predicate CoveredBy(members: seq<Field>, n: nat) {
    exists j :: 0 <= j < |members| && members[j].dependingOn.None? && n <= members[j].TotalWidth()
  }

  lemma {:induction false} StaticEndFrom(fields: seq<Field>, n: nat)
    requires 0 < n <= StaticEnd(fields)
    ensures exists j :: 0 <= j < |fields| && n <= Reach(fields[j])
  {
    if n <= Reach(fields[0]) {
    } else {
      StaticEndFrom(fields[1..], n);
      var j :| 0 <= j < |fields[1..]| && n <= Reach(fields[1..][j]);
      assert fields[j + 1] == fields[1..][j];
    }
  }

  /**
   A group made of members that all start with it is never narrower than their static end, and exactly
   as wide when its dynamic tables fit.
   */
  lemma HolderWidth(base: Field, members: seq<Field>)
    requires forall i :: 0 <= i < |members| ==> members[i].offset == 0
    ensures Holder(base, members).width >= StaticEnd(members)
    ensures Holder(base, members).width == StaticEnd(members) <==> MembersFit(members)
  {
    hide StaticEnd, Widest;
    var width, end := Widest(members), StaticEnd(members);
    WidestAtMost(members, width);
    WidestAtMost(members, end);
    StaticEndAtMost(members, width);
    StaticEndAtMost(members, end);
    if MembersFit(members) {
      forall i | 0 <= i < |members|
        ensures members[i].TotalWidth() <= end
      {
        if members[i].dependingOn.Some? && members[i].TotalWidth() > 0 {
          assert CoveredBy(members, members[i].TotalWidth());
          var j :| 0 <= j < |members| && members[j].dependingOn.None? &&
                   members[i].TotalWidth() <= members[j].TotalWidth();
          assert Reach(members[j]) <= end;
        } else {
          assert Reach(members[i]) <= end;
        }
      }
    }
    if width == end {
      forall i | 0 <= i < |members| && members[i].dependingOn.Some? && members[i].TotalWidth() > 0
        ensures CoveredBy(members, members[i].TotalWidth())
      {
        StaticEndFrom(members, members[i].TotalWidth());
        var j :| 0 <= j < |members| && members[i].TotalWidth() <= Reach(members[j]);
        assert members[j].dependingOn.None?;
      }
    }
  }

  /** Moving a family's members to their group's start changes none of their widths. */
  lemma RebasedFit(members: seq<Field>, origin: nat)
    requires forall i :: 0 <= i < |members| ==> members[i].offset == origin
    ensures forall i :: 0 <= i < |members| ==> Rebased(members, origin)[i].offset == 0
    ensures MembersFit(Rebased(members, origin)) <==> MembersFit(members)
  {
    var out := Rebased(members, origin);
    assert forall i :: 0 <= i < |members| ==>
      out[i].TotalWidth() == members[i].TotalWidth() && out[i].dependingOn == members[i].dependingOn;
    forall n: nat
      ensures CoveredBy(out, n) <==> CoveredBy(members, n)
    {
      if j :| 0 <= j < |members| && members[j].dependingOn.None? && n <= members[j].TotalWidth() {
        assert out[j].dependingOn.None?;
      }
      if j :| 0 <= j < |out| && out[j].dependingOn.None? && n <= out[j].TotalWidth() {
        assert members[j].dependingOn.None?;
      }
    }
  }

  // ---------------------------------------------------------------- the order of the siblings

  /** No field starts before the reserved end of an earlier one. */
  predicate InOrder(fields: seq<Field>) {
    forall i, k :: 0 <= i < k < |fields| ==> Reach(fields[i]) <= fields[k].offset
  }

  /** The fields that redefine nothing follow one another without overlap. */
  predicate BasesApart(fields: seq<Field>) {
    forall b, c :: 0 <= b < c < |fields| && fields[b].redefines.None? && fields[c].redefines.None? ==>
      Reach(fields[b]) <= fields[c].offset
  }

  /** No head, and no member of its family, reaches past the start of a head that comes after it. */
  predicate NoOverhang(fields: seq<Field>) {
    forall b, c :: 0 <= b < c < |fields| && Head(fields, b) && Head(fields, c) ==>
      FamilyWithin(fields, b, fields[c].offset)
  }

  /** A head ends within a bound, and so does every member of its family when full. */
  predicate FamilyWithin(fields: seq<Field>, b: nat, m: nat)
    requires b < |fields|
  {
    Reach(fields[b]) <= m && forall k :: 0 <= k < |fields| && InFamily(fields, b, k) ==> FullEnd(fields[k]) <= m
  }

  /** The folded siblings are in order exactly when no family reaches past the head of a later one. */
  lemma FoldKeepsOrder(fields: seq<Field>)
    requires Tidy(fields)
    ensures FoldAll(fields).Ok? && (InOrder(FoldAll(fields).value.out) <==> NoOverhang(fields))
  {
    hide FoldAll, Heads, Head, FamilyOf, InFamily, Reach, FullEnd, Tidy, Indexes, Union;
    FoldGroups(fields);
    var out, heads := FoldAll(fields).value.out, Heads(fields);
    forall i | 0 <= i < |out|
      ensures FamilyOf(fields, heads[i], out[i]) && out[i].offset == heads[i].offset
    {
      FamilyStarts(fields, heads[i], out[i]);
    }
    if InOrder(out) {
      forall b, c | 0 <= b < c < |fields| && Head(fields, b) && Head(fields, c)
        ensures FamilyWithin(fields, b, fields[c].offset)
      {
        var i, j := HeadsKeepOrder(fields, b, c);
        FamilyReach(fields, b, out[i], out[j].offset);
      }
    }
    if NoOverhang(fields) {
      forall i, j | 0 <= i < j < |out|
        ensures Reach(out[i]) <= out[j].offset
      {
        var b, c := HeadsInOrder(fields, i, j);
        FamilyReach(fields, b, out[i], out[j].offset);
      }
    }
  }

  lemma FamilyStarts(fields: seq<Field>, base: Field, g: Field)
    requires FamilyOf(fields, base, g)
    ensures g.offset == base.offset && g.name == base.name
  {
    hide Variants;
  }

  // ---------------------------------------------------------------- single steps

  lemma FoldNothing()
    ensures FoldAll([]) == Ok(Folding([], map[])) && StaticEnd([]) == 0
  {
  }

  lemma FoldAllSnoc(fields: seq<Field>)
    requires fields != []
    ensures var s := FoldAll(fields[..|fields| - 1]);
            FoldAll(fields) == if s.Err? then Err else FoldStep(s.value, fields[|fields| - 1])
  {
  }

  lemma FoldBase(s: Folding, f: Field)
    requires f.redefines.None? && forall k :: k in s.index ==> s.index[k] < |s.out|
    ensures FoldStep(s, f).Ok? && FoldStep(s, f).value.out == s.out + [f]
  {
  }

  // ---------------------------------------------------------------- names the folding does not serve

  /** A redefinition of a redefinition finds no group to join: it stays a sibling, over the bytes of the family. */
  lemma ChainStaysApart(a: Field, b: Field, c: Field)
    requires a.redefines.None? && Redefines(b, a.name) && Redefines(c, b.name) && b.offset >= a.offset
    requires !Strings.SameName(a.name, b.name)
    ensures FoldAll([a, b, c]).Ok? && |FoldAll([a, b, c]).value.out| == 2 && FoldAll([a, b, c]).value.out[1] == c
  {
    FoldPair(a, b);
    assert [a, b, c][..2] == [a, b];
  }

  /** A redefined group with a child of its own name is taken for a family: the redefinition joins its children. */
  lemma NamesakeAbsorbs(g: Field, v: Field)
    requires g.redefines.None? && SyntheticUnion(g) && Redefines(v, g.name) && v.offset >= g.offset
    ensures FoldAll([g, v]).Ok?
    ensures FoldAll([g, v]).value.out == [Holder(g, g.kind.children + [Rebase(v, g.offset)])]
  {
    FoldPair(g, v);
  }

  lemma FoldPair(a: Field, b: Field)
    requires a.redefines.None? && Redefines(b, a.name) && b.offset >= a.offset
    ensures FoldAll([a, b]) == FoldStep(Folding([a], map[Strings.Upper(a.name) := 0]), b)
    ensures FoldAll([a, b]).Ok? && FoldAll([a, b]).value.index == map[Strings.Upper(a.name) := 0]
    ensures |FoldAll([a, b]).value.out| == 1
  {
    FoldNothing();
    assert [a, b][..1] == [a] && [a][..0] == [];
    assert [] + [a] == [a];
  }
}
