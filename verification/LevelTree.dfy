/**
 Assembling a copybook's flat statement list into a tree by level numbers. The source keeps the path
 to the last statement on a stack; the tree it builds is the only one with that preorder in which
 levels grow downwards and never grow between siblings.
 */
module LevelTree {

  /** A statement: its level number, its clauses, and the statements subordinate to it. */
  datatype Node<T> = Node(level: nat, clauses: T, children: seq<Node<T>>)

  predicate Bare<T>(stmts: seq<Node<T>>) {
    forall i :: 0 <= i < |stmts| ==> stmts[i].children == []
  }

  // ---------------------------------------------------------------- the reference forest

  /** How many statements from the start are deeper than a level. */
  function RunLength<T>(stmts: seq<Node<T>>, level: nat): (n: nat)
    ensures n <= |stmts|
    ensures forall i :: 0 <= i < n ==> stmts[i].level > level
    ensures n < |stmts| ==> stmts[n].level <= level
  {
    if stmts == [] || stmts[0].level <= level then 0 else 1 + RunLength(stmts[1..], level)
  }

  /** The first statement owns the longest run of deeper statements after it; the rest follow as siblings. */
  function Forest<T>(stmts: seq<Node<T>>): seq<Node<T>>
    decreases |stmts|
  {
    if stmts == [] then []
    else
      var n := RunLength(stmts[1..], stmts[0].level);
      [stmts[0].(children := Forest(stmts[1..n + 1]))] + Forest(stmts[n + 1..])
  }

  /** The statements in reading order, each without its subordinates. */
  function Preorder<T>(forest: seq<Node<T>>): (out: seq<Node<T>>)
    ensures forest != [] ==> out != [] && out[0].level == forest[0].level
    decreases forest
  {
    if forest == [] then []
    else [forest[0].(children := [])] + Preorder(forest[0].children) + Preorder(forest[1..])
  }

  /** Children are deeper than their parent, and siblings never get deeper from one to the next. */
  predicate Leveled<T>(forest: seq<Node<T>>, above: int)
    decreases forest
  {
    forest == [] ||
    (forest[0].level > above && Leveled(forest[0].children, forest[0].level) &&
     (|forest| > 1 ==> forest[1].level <= forest[0].level) && Leveled(forest[1..], above))
  }

  lemma {:induction false} ForestPreorder<T>(stmts: seq<Node<T>>)
    requires Bare(stmts)
    ensures Preorder(Forest(stmts)) == stmts
    decreases |stmts|
  {
    hide Forest, Preorder;
    if stmts == [] {
      NoStatements<T>();
    } else {
      var n := RunLength(stmts[1..], stmts[0].level);
      ForestPreorder(stmts[1..n + 1]);
      ForestPreorder(stmts[n + 1..]);
      assert stmts == [stmts[0]] + stmts[1..n + 1] + stmts[n + 1..];
      assert stmts[0].(children := []) == stmts[0];
      ForestCons(stmts);
      PreorderCons(Forest(stmts));
    }
  }

  lemma NoStatements<T>()
    ensures Forest<T>([]) == [] && Preorder<T>([]) == [] && Spine<T>([]) == [] && SpineLevels<T>([]) == []
    ensures forall above: int :: Leveled<T>([], above)
  {
  }

  lemma PreorderCons<T>(forest: seq<Node<T>>)
    requires forest != []
    ensures Preorder(forest)
         == [forest[0].(children := [])] + Preorder(forest[0].children) + Preorder(forest[1..])
  {
  }

  lemma LeveledCons<T>(forest: seq<Node<T>>, above: int)
    requires forest != []
    ensures Leveled(forest, above) <==>
              forest[0].level > above && Leveled(forest[0].children, forest[0].level) &&
              (|forest| > 1 ==> forest[1].level <= forest[0].level) && Leveled(forest[1..], above)
  {
  }

  lemma ForestCons<T>(stmts: seq<Node<T>>)
    requires stmts != []
    ensures var n := RunLength(stmts[1..], stmts[0].level);
            var f := Forest(stmts);
            f != [] && f[0] == stmts[0].(children := Forest(stmts[1..n + 1])) && f[1..] == Forest(stmts[n + 1..])
  {
  }

  lemma {:induction false} ForestLeveled<T>(stmts: seq<Node<T>>, above: int)
    requires forall i :: 0 <= i < |stmts| ==> stmts[i].level > above
    ensures Leveled(Forest(stmts), above)
    decreases |stmts|
  {
    hide Forest, Leveled;
    NoStatements<T>();
    if stmts != [] {
      var n := RunLength(stmts[1..], stmts[0].level);
      ForestCons(stmts);
      LeveledCons(Forest(stmts), above);
      assert forall i :: 0 <= i < n ==> stmts[1..n + 1][i] == stmts[1..][i];
      ForestLeveled(stmts[1..n + 1], stmts[0].level);
      ForestLeveled(stmts[n + 1..], above);
      if n + 1 < |stmts| {
        ForestCons(stmts[n + 1..]);
        assert stmts[n + 1..][0] == stmts[1..][n];
      }
    }
  }

  lemma {:induction false} LeveledPreorder<T>(forest: seq<Node<T>>, above: int)
    requires Leveled(forest, above)
    ensures forall i :: 0 <= i < |Preorder(forest)| ==> Preorder(forest)[i].level > above
    ensures Bare(Preorder(forest))
    decreases forest
  {
    if forest != [] {
      LeveledPreorder(forest[0].children, forest[0].level);
      LeveledPreorder(forest[1..], above);
    }
  }

  lemma {:induction false} RunIs<T>(a: seq<Node<T>>, b: seq<Node<T>>, level: nat)
    requires forall i :: 0 <= i < |a| ==> a[i].level > level
    requires b != [] ==> b[0].level <= level
    ensures RunLength(a + b, level) == |a|
  {
    if a == [] {
      assert a + b == b;
    } else {
      assert (a + b)[1..] == a[1..] + b;
      RunIs(a[1..], b, level);
    }
  }

  /** No other forest has the same statements in reading order and leveled like that. */
  lemma {:induction false} ForestUnique<T>(forest: seq<Node<T>>, above: int)
    requires Leveled(forest, above)
    ensures Forest(Preorder(forest)) == forest
    decreases forest
  {
    hide Forest, Preorder, Leveled;
    if forest == [] {
      NoStatements<T>();
    } else {
      LeveledCons(forest, above);
      PreorderCons(forest);
      var head, below, rest := forest[0].(children := []), Preorder(forest[0].children), Preorder(forest[1..]);
      LeveledPreorder(forest[0].children, forest[0].level);
      ForestUnique(forest[0].children, forest[0].level);
      ForestUnique(forest[1..], above);
      if |forest| > 1 {
        PreorderCons(forest[1..]);
        assert rest[0].level == forest[1].level;
      } else {
        assert forest[1..] == [];
        NoStatements<T>();
      }
      RunIs(below, rest, head.level);
      var all := [head] + below + rest;
      assert all[1..] == below + rest && all[1..|below| + 1] == below && all[|below| + 1..] == rest;
      ForestCons(all);
      assert head.(children := forest[0].children) == forest[0];
    }
  }

  // ---------------------------------------------------------------- parents

  /** The nearest earlier statement of a smaller level; -1 when there is none. */
  function NearestAbove<T>(stmts: seq<Node<T>>, level: nat): (j: int)
    ensures -1 <= j < |stmts|
    ensures j >= 0 ==> stmts[j].level < level
    ensures forall k :: j < k < |stmts| ==> stmts[k].level >= level
  {
    if stmts == [] then -1
    else if stmts[|stmts| - 1].level < level then |stmts| - 1
    else NearestAbove(stmts[..|stmts| - 1], level)
  }

  /** The reading-order positions of all nodes' parents; `up` for the roots. */
  function Parents<T>(forest: seq<Node<T>>, up: int, from: nat): (out: seq<int>)
    ensures |out| == |Preorder(forest)|
    decreases forest
  {
    if forest == [] then []
    else
      var below := Parents(forest[0].children, from, from + 1);
      [up] + below + Parents(forest[1..], up, from + 1 + |below|)
  }

  /** The reading-order position of the parent a statement should have. */
  function ParentOf<T>(stmts: seq<Node<T>>, i: nat, up: int, from: nat): int
    requires i < |stmts|
  {
    var j := NearestAbove(stmts[..i], stmts[i].level);
    if j < 0 then up else from + j
  }

  lemma ParentInRun<T>(stmts: seq<Node<T>>, n: nat, i: nat, up: int, from: nat)
    requires 0 < i <= n < |stmts|
    requires forall k :: 1 <= k <= n ==> stmts[k].level > stmts[0].level
    ensures ParentOf(stmts, i, up, from) == ParentOf(stmts[1..n + 1], i - 1, from, from + 1)
  {
    var run := stmts[1..n + 1];
    var level := stmts[i].level;
    assert run[i - 1] == stmts[i];
    var j, k := NearestAbove(stmts[..i], level), NearestAbove(run[..i - 1], level);
    assert run[..i - 1] == stmts[..i][1..];
    assert stmts[..i][0].level < level;
    if j > 0 { assert run[..i - 1][j - 1] == stmts[..i][j]; }
    if k >= 0 { assert stmts[..i][k + 1] == run[..i - 1][k]; }
  }

  lemma ParentInRest<T>(stmts: seq<Node<T>>, n: nat, i: nat, up: int, from: nat)
    requires n < i < |stmts|
    requires forall k :: 1 <= k <= n ==> stmts[k].level > stmts[0].level
    requires stmts[n + 1].level <= stmts[0].level
    ensures ParentOf(stmts, i, up, from) == ParentOf(stmts[n + 1..], i - n - 1, up, from + 1 + n)
  {
    var rest := stmts[n + 1..];
    var level := stmts[i].level;
    assert rest[i - n - 1] == stmts[i];
    var j, k := NearestAbove(stmts[..i], level), NearestAbove(rest[..i - n - 1], level);
    assert rest[..i - n - 1] == stmts[..i][n + 1..];
    if k >= 0 {
      assert stmts[..i][k + n + 1] == rest[..i - n - 1][k];
    } else {
      assert level <= stmts[n + 1].level by {
        if i > n + 1 { assert rest[..i - n - 1][0] == stmts[n + 1]; }
      }
    }
    if j > n { assert rest[..i - n - 1][j - n - 1] == stmts[..i][j]; }
  }

  /** In the reference forest every statement's parent is the nearest earlier one of a smaller level. */
  lemma {:induction false} ForestParents<T>(stmts: seq<Node<T>>, up: int, from: nat)
    requires Bare(stmts)
    ensures |Parents(Forest(stmts), up, from)| == |stmts|
    ensures forall i :: 0 <= i < |stmts| ==> Parents(Forest(stmts), up, from)[i] == ParentOf(stmts, i, up, from)
    decreases |stmts|
  {
    hide Forest, ParentOf, Preorder, Parents;
    ForestPreorder(stmts);
    if stmts != [] {
      var n := RunLength(stmts[1..], stmts[0].level);
      var run, rest := stmts[1..n + 1], stmts[n + 1..];
      ForestCons(stmts);
      ForestPreorder(run);
      ForestParents(run, from, from + 1);
      ForestParents(rest, up, from + 1 + n);
      ParentsCons(Forest(stmts), up, from);
      assert forall k :: 1 <= k <= n ==> stmts[k] == stmts[1..][k - 1];
      if n + 1 < |stmts| { assert stmts[n + 1] == stmts[1..][n]; }
      forall i | 0 <= i < |stmts|
        ensures Parents(Forest(stmts), up, from)[i] == ParentOf(stmts, i, up, from)
      {
        if i == 0 {
          FirstParent(stmts, up, from);
        } else if i <= n {
          ParentInRun(stmts, n, i, up, from);
        } else {
          ParentInRest(stmts, n, i, up, from);
        }
      }
    }
  }

  lemma ParentsCons<T>(forest: seq<Node<T>>, up: int, from: nat)
    requires forest != []
    ensures var below := Parents(forest[0].children, from, from + 1);
            Parents(forest, up, from) == [up] + below + Parents(forest[1..], up, from + 1 + |below|)
  {
  }

  lemma FirstParent<T>(stmts: seq<Node<T>>, up: int, from: nat)
    requires stmts != []
    ensures ParentOf(stmts, 0, up, from) == up
  {
  }

  // ---------------------------------------------------------------- the source's stacks

  /** The index path to the last statement of a forest. */
  function Spine<T>(forest: seq<Node<T>>): (path: seq<nat>)
    decreases forest
  {
    if forest == [] then [] else [|forest| - 1] + Spine(forest[|forest| - 1].children)
  }

  function SpineLevels<T>(forest: seq<Node<T>>): (levels: seq<nat>)
    ensures |levels| == |Spine(forest)|
    decreases forest
  {
    if forest == [] then []
    else [forest[|forest| - 1].level] + SpineLevels(forest[|forest| - 1].children)
  }

  predicate InBounds<T>(forest: seq<Node<T>>, path: seq<nat>)
    decreases |path|
  {
    path == [] || (path[0] < |forest| && InBounds(forest[path[0]].children, path[1..]))
  }

  /** The sibling list a path leads into: the children of the node it names, or the roots. */
  function SiblingsAt<T>(forest: seq<Node<T>>, path: seq<nat>): seq<Node<T>>
    requires InBounds(forest, path)
    decreases |path|
  {
    if path == [] then forest else SiblingsAt(forest[path[0]].children, path[1..])
  }

  /** Appends a node to the sibling list at a path. */
  function PushAt<T>(forest: seq<Node<T>>, path: seq<nat>, node: Node<T>): seq<Node<T>>
    requires InBounds(forest, path)
    decreases |path|
  {
    if path == [] then forest + [node]
    else
      var at := path[0];
      forest[at := forest[at].(children := PushAt(forest[at].children, path[1..], node))]
  }

  /** A statement joins a forest under the deepest last node of a smaller level. */
  function Insert<T>(forest: seq<Node<T>>, node: Node<T>): seq<Node<T>>
    decreases forest
  {
    if forest == [] then [node]
    else
      var last := forest[|forest| - 1];
      if last.level >= node.level then forest + [node]
      else forest[|forest| - 1 := last.(children := Insert(last.children, node))]
  }

  /** Reading one more statement inserts it. */
  lemma {:induction false} ForestSnoc<T>(stmts: seq<Node<T>>, node: Node<T>)
    requires node.children == []
    ensures Forest(stmts + [node]) == Insert(Forest(stmts), node)
    decreases |stmts|
  {
    hide Forest, Insert;
    NoStatements<T>();
    if stmts == [] {
      ForestSplit(node, [], []);
      InsertFirst(node);
      assert stmts + [node] == [node] + [] + [];
    } else {
      var h, n := stmts[0], RunLength(stmts[1..], stmts[0].level);
      var run, rest := stmts[1..n + 1], stmts[n + 1..];
      assert stmts == [h] + run + rest;
      assert forall i :: 0 <= i < n ==> run[i] == stmts[1..][i];
      if rest != [] { assert rest[0] == stmts[1..][n]; }
      if rest == [] && node.level > h.level {
        ForestSnoc(run, node);
        SnocBelow(h, run, node);
        assert stmts + [node] == [h] + (run + [node]) + [];
      } else {
        ForestSnoc(rest, node);
        SnocAfter(h, run, rest, node);
        assert stmts + [node] == [h] + run + (rest + [node]);
      }
    }
  }

  predicate Deeper<T>(run: seq<Node<T>>, level: nat) {
    forall i :: 0 <= i < |run| ==> run[i].level > level
  }

  lemma ForestSplit<T>(h: Node<T>, run: seq<Node<T>>, rest: seq<Node<T>>)
    requires Deeper(run, h.level) && (rest != [] ==> rest[0].level <= h.level)
    ensures Forest([h] + run + rest) == [h.(children := Forest(run))] + Forest(rest)
  {
    var all := [h] + run + rest;
    assert all[1..] == run + rest;
    RunIs(run, rest, h.level);
    assert all[1..|run| + 1] == run && all[|run| + 1..] == rest;
  }

  /** The new statement joins the first statement's run. */
  lemma SnocBelow<T>(h: Node<T>, run: seq<Node<T>>, node: Node<T>)
    requires Deeper(run, h.level) && node.level > h.level && Forest(run + [node]) == Insert(Forest(run), node)
    ensures Forest([h] + (run + [node]) + []) == Insert(Forest([h] + run + []), node)
  {
    hide Forest, Insert;
    NoStatements<T>();
    ForestSplit(h, run, []);
    ForestSplit(h, run + [node], []);
    InsertBelow(h.(children := Forest(run)), node);
    assert forall x: Node<T> :: [x] + [] == [x];
  }

  /** The first statement's run is over; the new statement joins what follows. */
  lemma SnocAfter<T>(h: Node<T>, run: seq<Node<T>>, rest: seq<Node<T>>, node: Node<T>)
    requires Deeper(run, h.level) && (if rest == [] then node.level <= h.level else rest[0].level <= h.level)
    requires Forest(rest + [node]) == Insert(Forest(rest), node)
    ensures Forest([h] + run + (rest + [node])) == Insert(Forest([h] + run + rest), node)
  {
    hide Forest, Insert;
    NoStatements<T>();
    ForestSplit(h, run, rest);
    ForestSplit(h, run, rest + [node]);
    if rest != [] { ForestCons(rest); }
    InsertAfter(h.(children := Forest(run)), Forest(rest), node);
  }

  lemma InsertFirst<T>(node: Node<T>)
    ensures Insert([], node) == [node]
  {
  }

  lemma InsertBelow<T>(last: Node<T>, node: Node<T>)
    requires last.level < node.level
    ensures Insert([last], node) == [last.(children := Insert(last.children, node))]
  {
  }

  lemma InsertAfter<T>(first: Node<T>, rest: seq<Node<T>>, node: Node<T>)
    requires rest == [] ==> node.level <= first.level
    ensures Insert([first] + rest, node) == [first] + Insert(rest, node)
  {
  }

  predicate Increasing(levels: seq<nat>) {
    forall i, j :: 0 <= i < j < |levels| ==> levels[i] < levels[j]
  }

  /** In a leveled forest the levels along the path to the last statement grow strictly. */
  lemma {:induction false} SpineIncreasing<T>(forest: seq<Node<T>>, above: int)
    requires Leveled(forest, above)
    ensures Increasing(SpineLevels(forest))
    ensures forall i :: 0 <= i < |SpineLevels(forest)| ==> SpineLevels(forest)[i] > above
    decreases forest
  {
    hide Spine, SpineLevels, Leveled;
    if forest == [] {
      NoStatements<T>();
    } else {
      LeveledLast(forest, above);
      SpineSnoc(forest);
      var last := forest[|forest| - 1];
      SpineIncreasing(last.children, last.level);
    }
  }

  lemma SpineSnoc<T>(forest: seq<Node<T>>)
    requires forest != []
    ensures Spine(forest) == [|forest| - 1] + Spine(forest[|forest| - 1].children)
    ensures SpineLevels(forest) == [forest[|forest| - 1].level] + SpineLevels(forest[|forest| - 1].children)
  {
  }

  lemma {:induction false} LeveledLast<T>(forest: seq<Node<T>>, above: int)
    requires Leveled(forest, above) && forest != []
    ensures var last := forest[|forest| - 1]; last.level > above && Leveled(last.children, last.level)
    decreases |forest|
  {
    if |forest| > 1 { LeveledLast(forest[1..], above); }
  }

  /** The first `d` nodes of the path are the ones to insert below. */
  predicate CutAt<T>(forest: seq<Node<T>>, level: nat, d: nat) {
    var levels := SpineLevels(forest);
    d <= |levels| && (forall i :: 0 <= i < d ==> levels[i] < level) && (d < |levels| ==> levels[d] >= level)
  }

  /** Pushing at the cut path is inserting, and the path to the new last statement follows. */
  lemma {:induction false} PushIsInsert<T>(forest: seq<Node<T>>, node: Node<T>, d: nat)
    requires node.children == [] && CutAt(forest, node.level, d)
    ensures InBounds(forest, Spine(forest)[..d])
    ensures PushAt(forest, Spine(forest)[..d], node) == Insert(forest, node)
    ensures var grown := Insert(forest, node);
            Spine(grown) == Spine(forest)[..d] + [|SiblingsAt(forest, Spine(forest)[..d])|] &&
            SpineLevels(grown) == SpineLevels(forest)[..d] + [node.level]
    decreases d
  {
    hide Spine, SpineLevels, Insert, PushAt, InBounds, SiblingsAt;
    var path, levels := Spine(forest), SpineLevels(forest);
    if d == 0 {
      PushRoot(forest, node);
    } else {
      if forest == [] { NoStatements<T>(); }
      SpineSnoc(forest);
      var last := forest[|forest| - 1];
      assert levels[0] == last.level;
      assert levels[1..] == SpineLevels(last.children) && path[1..] == Spine(last.children);
      assert forall i :: 0 <= i < |levels| - 1 ==> levels[1..][i] == levels[i + 1];
      PushIsInsert(last.children, node, d - 1);
      assert path[..d][1..] == path[1..][..d - 1] && path[..d] == [path[0]] + path[1..][..d - 1];
      assert levels[..d] == [levels[0]] + levels[1..][..d - 1];
      PushDeeper(forest, path[..d], node);
      SpineSnoc(Insert(forest, node));
    }
  }

  lemma PushRoot<T>(forest: seq<Node<T>>, node: Node<T>)
    requires node.children == [] && CutAt(forest, node.level, 0)
    ensures InBounds(forest, Spine(forest)[..0])
    ensures PushAt(forest, Spine(forest)[..0], node) == Insert(forest, node) == forest + [node]
    ensures SiblingsAt(forest, Spine(forest)[..0]) == forest
    ensures Spine(forest + [node]) == Spine(forest)[..0] + [|forest|]
    ensures SpineLevels(forest + [node]) == SpineLevels(forest)[..0] + [node.level]
  {
    if forest != [] { SpineSnoc(forest); }
    SpineSnoc(forest + [node]);
  }

  lemma PushDeeper<T>(forest: seq<Node<T>>, path: seq<nat>, node: Node<T>)
    requires forest != [] && path != [] && path[0] == |forest| - 1
    requires InBounds(forest[|forest| - 1].children, path[1..]) && forest[|forest| - 1].level < node.level
    requires PushAt(forest[|forest| - 1].children, path[1..], node) == Insert(forest[|forest| - 1].children, node)
    ensures InBounds(forest, path) && PushAt(forest, path, node) == Insert(forest, node)
    ensures SiblingsAt(forest, path) == SiblingsAt(forest[|forest| - 1].children, path[1..])
    ensures var grown, last := Insert(forest, node), forest[|forest| - 1];
            |grown| == |forest| && grown[|forest| - 1] == last.(children := Insert(last.children, node))
  {
  }

  /** `build_tree`, with its stack of ancestor indices and their levels. */
  method BuildTree<T>(stmts: seq<Node<T>>) returns (roots: seq<Node<T>>)
    requires Bare(stmts)
    ensures roots == Forest(stmts)
  {
    hide Forest, Spine, SpineLevels, Insert, PushAt, InBounds;
    roots := [];
    var path: seq<nat>, levels: seq<nat> := [], [];
    NoStatements<T>();
    assert stmts[..0] == [];
    for n := 0 to |stmts|
      invariant roots == Forest(stmts[..n])
      invariant path == Spine(roots) && levels == SpineLevels(roots)
    {
      var stmt := stmts[n];
      ForestLeveled(stmts[..n], -1);
      SpineIncreasing(roots, -1);
      while levels != [] && levels[|levels| - 1] >= stmt.level
        invariant |levels| == |path| <= |SpineLevels(roots)|
        invariant path == Spine(roots)[..|path|] && levels == SpineLevels(roots)[..|levels|]
        invariant |levels| < |SpineLevels(roots)| ==> SpineLevels(roots)[|levels|] >= stmt.level
      {
        path, levels := path[..|path| - 1], levels[..|levels| - 1];
      }
      PushIsInsert(roots, stmt, |levels|);
      ForestSnoc(stmts[..n], stmt);
      assert stmts[..n + 1] == stmts[..n] + [stmt];
      var child := |SiblingsAt(roots, path)|;
      roots := PushAt(roots, path, stmt);
      path, levels := path + [child], levels + [stmt.level];
    }
    assert stmts[..|stmts|] == stmts;
  }

  /**
   The tree of a statement list: its reading order is the list, every parent is the nearest earlier
   statement of a smaller level, and no other leveled forest has that reading order.
   */
  lemma TreeOfStatements<T(!new)>(stmts: seq<Node<T>>)
    requires Bare(stmts)
    ensures Preorder(Forest(stmts)) == stmts && Leveled(Forest(stmts), -1)
    ensures |Parents(Forest(stmts), -1, 0)| == |stmts|
    ensures forall i :: 0 <= i < |stmts| ==>
      Parents(Forest(stmts), -1, 0)[i] == NearestAbove(stmts[..i], stmts[i].level)
    ensures forall f: seq<Node<T>> :: Leveled(f, -1) && Preorder(f) == stmts ==> f == Forest(stmts)
  {
    ForestPreorder(stmts);
    ForestLeveled(stmts, -1);
    ForestParents(stmts, -1, 0);
    forall i | 0 <= i < |stmts|
      ensures Parents(Forest(stmts), -1, 0)[i] == NearestAbove(stmts[..i], stmts[i].level)
    {
      assert Parents(Forest(stmts), -1, 0)[i] == ParentOf(stmts, i, -1, 0);
    }
    forall f: seq<Node<T>> | Leveled(f, -1) && Preorder(f) == stmts
      ensures f == Forest(stmts)
    {
      ForestUnique(f, -1);
    }
  }
}
