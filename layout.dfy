/** The layout of `createSitemap` (code.js:214-238): `layoutTree` walks the forest in
    pre-order with a horizontal cursor, writing each node's position into a shared map;
    the root loop starts every tree a fixed 2 x 250 to the right of the previous one. */
module TreeLayout {
  import opened Outline
  import opened Forest

  const HorizontalSpacing := 250
  const VerticalSpacing := 200

  /** The number of forest ancestors of record i. */
  function Level(ds: seq<nat>, i: nat): nat
    requires i < |ds|
    decreases i
  {
    var p := ParentOf(ds, i);
    if p == -1 then 0 else Level(ds, p) + 1
  }

  /** Where record i is meant to go across: the k-th root at 2 x 250 x k, the j-th child of
      a node at that node's x plus 250 x j. */
  function X(ds: seq<nat>, i: nat): int
    requires i < |ds|
    decreases i
  {
    var p := ParentOf(ds, i);
    if p == -1 then 2 * HorizontalSpacing * |ChildrenBefore(ds, -1, i)|
    else X(ds, p) + HorizontalSpacing * |ChildrenBefore(ds, p, i)|
  }

  /** Where record i is meant to go down: one row of 200 per forest ancestor. */
  function Y(ds: seq<nat>, i: nat): int
    requires i < |ds|
  {
    VerticalSpacing * Level(ds, i)
  }

  /** The position the specification assigns to record i. */
  function Spot(ds: seq<nat>, i: nat): Pos
    requires i < |ds|
  {
    Pos(X(ds, i), Y(ds, i))
  }

  /** The k-th root (0-based) sits at (500 k, 0). */
  lemma RootPosition(ds: seq<nat>, k: nat)
    requires k < |ForestOf(ds).roots|
    ensures Spot(ds, ForestOf(ds).roots[k]) == Pos(2 * HorizontalSpacing * k, 0)
  {
    KidsRank(ds, -1, 0, |ds|, k);
  }

  /** The j-th child (0-based) of a node at (x, y) sits at (x + 250 j, y + 200). */
  lemma ChildPosition(ds: seq<nat>, p: nat, j: nat)
    requires p < |ds| && j < |Children(ds, p)|
    ensures Spot(ds, Children(ds, p)[j]) ==
            Pos(X(ds, p) + HorizontalSpacing * j, Y(ds, p) + VerticalSpacing)
  {
    KidsRank(ds, p, p + 1, |ds|, j);
  }

  /** A node is never placed lower than its depth says: its ancestors are at most its depth. */
  lemma {:induction false} LevelAtMostDepth(ds: seq<nat>, i: nat)
    requires i < |ds|
    ensures Level(ds, i) <= ds[i]
    decreases i
  {
    var p := ParentOf(ds, i);
    if p >= 0 {
      LevelAtMostDepth(ds, p);
    }
  }

  /** In a well-formed outline the number of ancestors is the depth, so y = 200 x depth. */
  lemma {:induction false} LevelIsDepth(ds: seq<nat>, i: nat)
    requires WellFormed(ds) && i < |ds|
    ensures Level(ds, i) == ds[i]
    ensures Y(ds, i) == VerticalSpacing * ds[i]
    decreases i
  {
    WellFormedParent(ds, i);
    var p := ParentOf(ds, i);
    if p >= 0 {
      LevelIsDepth(ds, p);
    }
  }

  // ---------------------------------------------------------------------------------
  // Subtrees as index blocks

  /** The records of the subtree rooted at n: n and the block of deeper lines after it. */
  function Span(ds: seq<nat>, n: nat): (s: set<nat>)
    requires n < |ds|
    ensures forall j :: j in s ==> j < |ds|
  {
    Interval(n, End(ds, n))
  }

  /** The records of the subtrees rooted at the given nodes. */
  function Subtrees(ds: seq<nat>, nodes: seq<nat>): (s: set<nat>)
    requires forall k :: 0 <= k < |nodes| ==> nodes[k] < |ds|
    ensures forall j :: j in s ==> j < |ds|
  {
    if nodes == [] then {} else Span(ds, nodes[0]) + Subtrees(ds, nodes[1..])
  }

  lemma {:induction false} SubtreesSnoc(ds: seq<nat>, nodes: seq<nat>, n: nat)
    requires forall k :: 0 <= k < |nodes| ==> nodes[k] < |ds|
    requires n < |ds|
    ensures Subtrees(ds, nodes + [n]) == Subtrees(ds, nodes) + Span(ds, n)
  {
    if nodes != [] {
      assert (nodes + [n])[1..] == nodes[1..] + [n];
      SubtreesSnoc(ds, nodes[1..], n);
    } else {
      assert ([n])[1..] == [];
    }
  }

  /** The subtrees of p's children from a on cover exactly [a, End(p)). */
  lemma {:induction false} SiblingsCover(ds: seq<nat>, p: int, a: nat)
    requires -1 <= p < |ds| && p < a <= End(ds, p)
    requires a == End(ds, p) || ParentOf(ds, a) == p
    ensures Subtrees(ds, Kids(ds, p, a, |ds|)) == Interval(a, End(ds, p))
    decreases |ds| - a
  {
    SiblingsTile(ds, p, a);
    if a < End(ds, p) {
      var rest := Kids(ds, p, End(ds, a), |ds|);
      assert ([a] + rest)[0] == a && ([a] + rest)[1..] == rest;
      SiblingsCover(ds, p, End(ds, a));
      IntervalJoin(a, End(ds, a), End(ds, p));
    }
  }

  /** A subtree is its root plus the subtrees of the root's children. */
  lemma SpanSplit(ds: seq<nat>, n: nat)
    requires n < |ds|
    ensures Span(ds, n) == {n} + Subtrees(ds, Children(ds, n))
  {
    if n + 1 < End(ds, n) {
      FirstChild(ds, n);
    }
    SiblingsCover(ds, n, n + 1);
  }

  /** Every record lies in the subtree of exactly the roots' blocks. */
  lemma RootsCoverAll(ds: seq<nat>)
    ensures Subtrees(ds, ForestOf(ds).roots) == Interval(0, |ds|)
  {
    if 0 < |ds| {
      assert ParentOf(ds, 0) == -1;
    }
    SiblingsCover(ds, -1, 0);
  }

  /** The positions the sitemap is meant to have: every record at its spot. */
  function Positions(ds: seq<nat>): (m: map<nat, Pos>)
    ensures m.Keys == Interval(0, |ds|)
    ensures forall j :: j in m ==> m[j] == Spot(ds, j)
  {
    map j | j in Interval(0, |ds|) :: Spot(ds, j)
  }

  /** The entries of m whose keys are in s. */
  function Restrict<K, V>(m: map<K, V>, s: set<K>): (r: map<K, V>)
    ensures r.Keys == m.Keys * s
    ensures forall j :: j in r ==> r[j] == m[j]
  {
    map j | j in m.Keys * s :: m[j]
  }

  /** The specified positions of the records in s. */
  function Placed(ds: seq<nat>, s: set<nat>): map<nat, Pos>
  {
    Restrict(Positions(ds), s)
  }

  /** nodes are siblings under p (-1 for roots), specified to sit 250 apart from (x, y). */
  ghost predicate Row(ds: seq<nat>, nodes: seq<nat>, p: int, x: int, y: int)
  {
    -1 <= p < |ds| &&
    forall k :: 0 <= k < |nodes| ==>
      nodes[k] < |ds| && ParentOf(ds, nodes[k]) == p &&
      Spot(ds, nodes[k]) == Pos(x + 250 * k, y)
  }

  // ---------------------------------------------------------------------------------
  // The imperative layout

  /** The environment of `layoutTree`: the forest it reads and the `positions` map it
      writes. */
  class Layout {
    const depths: seq<nat>
    const children: seq<seq<nat>>
    var positions: map<nat, Pos>

    ghost predicate Valid()
    {
      |children| == |depths| &&
      forall p :: 0 <= p < |depths| ==> children[p] == Children(depths, p)
    }

    constructor (ds: seq<nat>, f: Forest)
      requires f == ForestOf(ds)
      ensures depths == ds && children == f.kids && positions == map[]
      ensures Valid()
    {
      depths := ds;
      children := f.kids;
      positions := map[];
    }

    /** `layoutTree(nodeList, startX, startY)`: the siblings in nodeList sit 250 apart from
        startX at height startY, each one's children one row below from its own x. The ghost
        parameter p is the siblings' common parent. Afterwards every record of their
        subtrees is at its specified spot, and nothing else has moved. */
    method LayoutTree(nodeList: seq<nat>, startX: int, startY: int, ghost p: int)
      requires Valid()
      requires Row(depths, nodeList, p, startX, startY)
      modifies this
      ensures positions == old(positions) + Placed(depths, Subtrees(depths, nodeList))
      decreases |depths| - p, 1
    {
      var currentX := startX;
      ghost var start := positions;
      NothingPlaced(Positions(depths), depths, nodeList[..0], start);
      for k := 0 to |nodeList|
        invariant currentX == startX + 250 * k
        invariant positions == start + Placed(depths, Subtrees(depths, nodeList[..k]))
      {
        PlaceNode(nodeList, k, currentX, startX, startY, p, start);
        currentX := currentX + HorizontalSpacing;
      }
      assert nodeList[..|nodeList|] == nodeList;
    }

    /** One pass of `layoutTree`'s loop: node k of the row goes to (currentX, startY), and
        its children, if any, are laid out one row below from currentX. */
    method PlaceNode(nodeList: seq<nat>, k: nat, currentX: int, startX: int, startY: int,
                     ghost p: int, ghost start: map<nat, Pos>)
      requires Valid()
      requires Row(depths, nodeList, p, startX, startY) && k < |nodeList|
      requires currentX == startX + 250 * k
      requires positions == start + Placed(depths, Subtrees(depths, nodeList[..k]))
      modifies this
      ensures positions == start + Placed(depths, Subtrees(depths, nodeList[..k + 1]))
      decreases |depths| - p, 0
    {
      var node := nodeList[k];
      ghost var before := positions;
      assert children[node] == Children(depths, node);
      NodeSpot(depths, nodeList, p, startX, startY, k);
      positions := positions[node := Pos(currentX, startY)];
      if |children[node]| > 0 {
        ChildSpots(depths, node, currentX, startY);
        LayoutTree(children[node], currentX, startY + VerticalSpacing, node);
      } else {
        NothingPlaced(Positions(depths), depths, children[node], positions);
      }
      LoopStep(Positions(depths), depths, start, before, nodeList, k, positions);
    }

    /** The root loop: tree k is laid out from x = 500 k. Afterwards every record is at its
        specified spot. */
    method LayoutForest(tree: seq<nat>)
      requires Valid() && tree == ForestOf(depths).roots
      modifies this
      ensures positions == old(positions) + Positions(depths)
    {
      var treeStartX := 0;
      ghost var start := positions;
      var k := 0;
      NothingPlaced(Positions(depths), depths, tree[..0], start);
      while k < |tree|
        invariant k <= |tree|
        invariant treeStartX == 500 * k
        invariant positions == start + Placed(depths, Subtrees(depths, tree[..k]))
      {
        LayoutRoot(tree, k, treeStartX, start);
        treeStartX := treeStartX + 2 * HorizontalSpacing;
        k := k + 1;
      }
      assert tree[..|tree|] == tree;
      AllPlaced(depths);
    }

    /** One pass of the root loop: `layoutTree([root], treeStartX, 0)` for the k-th root. */
    method LayoutRoot(tree: seq<nat>, k: nat, treeStartX: int, ghost start: map<nat, Pos>)
      requires Valid() && tree == ForestOf(depths).roots && k < |tree|
      requires treeStartX == 500 * k
      requires positions == start + Placed(depths, Subtrees(depths, tree[..k]))
      modifies this
      ensures positions == start + Placed(depths, Subtrees(depths, tree[..k + 1]))
    {
      ghost var before := positions;
      RootArgs(depths, k);
      LayoutTree([tree[k]], treeStartX, 0, -1);
      RootStep(Positions(depths), depths, start, before, tree, k, positions);
    }
  }

  /** Subtrees are not kept apart: for depths 0, 1, 2, 2, 1, 2 the second child of
      record 1 and the only child of record 4 both go to (250, 400). */
  lemma OverlapExample(ds: seq<nat>)
    requires |ds| == 6 && ds[0] == 0 && ds[1] == 1 && ds[2] == 2 && ds[3] == 2 && ds[4] == 1 && ds[5] == 2
    ensures Spot(ds, 3) == Spot(ds, 5) == Pos(250, 400)
  {
    ParentOfIs(ds, 0, -1);
    ParentOfIs(ds, 1, 0);
    ParentOfIs(ds, 2, 1);
    ParentOfIs(ds, 3, 1);
    ParentOfIs(ds, 4, 0);
    ParentOfIs(ds, 5, 4);
    assert ChildrenBefore(ds, -1, 0) == [];
    assert Kids(ds, 0, 4, 4) == [] && Kids(ds, 0, 3, 4) == [] && Kids(ds, 0, 2, 4) == [];
    assert ChildrenBefore(ds, 0, 4) == [1];
    assert ChildrenBefore(ds, 0, 1) == [];
    assert Kids(ds, 1, 3, 3) == [] && ChildrenBefore(ds, 1, 3) == [2];
    assert ChildrenBefore(ds, 4, 5) == [];
    assert X(ds, 0) == 0 && X(ds, 1) == 0 && X(ds, 4) == 250;
    assert Level(ds, 0) == 0 && Level(ds, 1) == 1 && Level(ds, 4) == 1;
  }

  /** Root trees start 500 apart whatever their width: for depths 0, 1, 1, 1, 0, 1 the
      third child of the first root and the child of the second root both go to (500, 200). */
  lemma RootOverlapExample(ds: seq<nat>)
    requires |ds| == 6 && ds[0] == 0 && ds[1] == 1 && ds[2] == 1 && ds[3] == 1 && ds[4] == 0 && ds[5] == 1
    ensures Spot(ds, 3) == Spot(ds, 5) == Pos(500, 200)
  {
    ParentOfIs(ds, 0, -1);
    ParentOfIs(ds, 1, 0);
    ParentOfIs(ds, 2, 0);
    ParentOfIs(ds, 3, 0);
    ParentOfIs(ds, 4, -1);
    ParentOfIs(ds, 5, 4);
    assert ChildrenBefore(ds, -1, 0) == [];
    assert Kids(ds, -1, 4, 4) == [] && Kids(ds, -1, 3, 4) == [] && Kids(ds, -1, 2, 4) == [];
    assert Kids(ds, -1, 1, 4) == [] && ChildrenBefore(ds, -1, 4) == [0];
    assert Kids(ds, 0, 3, 3) == [] && Kids(ds, 0, 2, 3) == [2] && ChildrenBefore(ds, 0, 3) == [1, 2];
    assert ChildrenBefore(ds, 4, 5) == [];
    assert X(ds, 0) == 0 && X(ds, 4) == 500;
    assert Level(ds, 0) == 0 && Level(ds, 4) == 0;
  }

  /** The k-th root, alone, is a row at (500 k, 0). */
  lemma RootArgs(ds: seq<nat>, k: nat)
    requires k < |ForestOf(ds).roots|
    ensures Row(ds, [ForestOf(ds).roots[k]], -1, 500 * k, 0)
  {
    RootPosition(ds, k);
  }

  /** The k-th node of a row sits at the row's k-th slot. */
  lemma NodeSpot(ds: seq<nat>, nodes: seq<nat>, p: int, x: int, y: int, k: nat)
    requires Row(ds, nodes, p, x, y) && k < |nodes|
    ensures nodes[k] in Positions(ds)
    ensures Positions(ds)[nodes[k]] == Pos(x + 250 * k, y)
  {
  }

  /** The children of a node at (x, y) form the row one level down from x. */
  lemma ChildSpots(ds: seq<nat>, node: nat, x: int, y: int)
    requires node < |ds| && Spot(ds, node) == Pos(x, y)
    ensures Row(ds, Children(ds, node), node, x, y + VerticalSpacing)
  {
    forall j | 0 <= j < |Children(ds, node)|
      ensures Spot(ds, Children(ds, node)[j]) == Pos(x + 250 * j, y + VerticalSpacing)
    {
      ChildPosition(ds, node, j);
    }
  }

  /** An empty list of siblings places nothing. */
  lemma NothingPlaced<V>(t: map<nat, V>, ds: seq<nat>, nodes: seq<nat>, m: map<nat, V>)
    requires nodes == []
    ensures m == m + Restrict(t, Subtrees(ds, nodes))
  {
    assert Subtrees(ds, nodes) == {};
    assert Restrict(t, {}) == map[];
  }

  /** Laying out all roots' subtrees places every record. */
  lemma AllPlaced(ds: seq<nat>)
    ensures Placed(ds, Subtrees(ds, ForestOf(ds).roots)) == Positions(ds)
  {
    RootsCoverAll(ds);
  }

  lemma SliceSnoc<T>(s: seq<T>, k: nat)
    requires k < |s|
    ensures s[..k + 1] == s[..k] + [s[k]]
  {
  }

  /** One step of `layoutTree`'s loop: placing a node and then its children's subtrees
      extends the placed region by the node's whole subtree. */
  lemma LoopStep<V>(t: map<nat, V>, ds: seq<nat>, start: map<nat, V>, before: map<nat, V>,
                    nodes: seq<nat>, k: nat, after: map<nat, V>)
    requires k < |nodes| && forall i :: 0 <= i < |nodes| ==> nodes[i] < |ds|
    requires nodes[k] in t
    requires before == start + Restrict(t, Subtrees(ds, nodes[..k]))
    requires after == before[nodes[k] := t[nodes[k]]] +
                      Restrict(t, Subtrees(ds, Children(ds, nodes[k])))
    ensures after == start + Restrict(t, Subtrees(ds, nodes[..k + 1]))
  {
    SliceSnoc(nodes, k);
    StepSets(ds, nodes[..k], nodes[k]);
    RestrictStep(t, start, before, after, Subtrees(ds, nodes[..k]),
                 Subtrees(ds, Children(ds, nodes[k])), nodes[k]);
  }

  lemma StepSets(ds: seq<nat>, done: seq<nat>, node: nat)
    requires node < |ds| && forall i :: 0 <= i < |done| ==> done[i] < |ds|
    ensures Subtrees(ds, done + [node]) ==
            Subtrees(ds, done) + {node} + Subtrees(ds, Children(ds, node))
  {
    SpanSplit(ds, node);
    SubtreesSnoc(ds, done, node);
  }

  /** One step of the root loop: tree k's subtree joins the placed region. */
  lemma RootStep<V>(t: map<nat, V>, ds: seq<nat>, start: map<nat, V>, before: map<nat, V>,
                    tree: seq<nat>, k: nat, after: map<nat, V>)
    requires k < |tree| && forall i :: 0 <= i < |tree| ==> tree[i] < |ds|
    requires before == start + Restrict(t, Subtrees(ds, tree[..k]))
    requires after == before + Restrict(t, Subtrees(ds, [tree[k]]))
    ensures after == start + Restrict(t, Subtrees(ds, tree[..k + 1]))
  {
    RootSets(ds, tree, k);
    RestrictUnion(t, start, before, after, Subtrees(ds, tree[..k]), Subtrees(ds, [tree[k]]));
  }

  lemma RootSets(ds: seq<nat>, tree: seq<nat>, k: nat)
    requires k < |tree| && forall i :: 0 <= i < |tree| ==> tree[i] < |ds|
    ensures Subtrees(ds, tree[..k + 1]) == Subtrees(ds, tree[..k]) + Subtrees(ds, [tree[k]])
  {
    SliceSnoc(tree, k);
    SubtreesSnoc(ds, tree[..k], tree[k]);
    assert [tree[k]][1..] == [];
  }

  lemma RestrictUnion<K, V>(m: map<K, V>, start: map<K, V>, before: map<K, V>,
                            after: map<K, V>, s1: set<K>, s2: set<K>)
    requires before == start + Restrict(m, s1) && after == before + Restrict(m, s2)
    ensures after == start + Restrict(m, s1 + s2)
  {
    var goal := start + Restrict(m, s1 + s2);
    assert after.Keys == goal.Keys;
    forall j | j in after.Keys ensures after[j] == goal[j] {
      if j in Restrict(m, s2) {
      } else if j in Restrict(m, s1) {
      } else {
        assert j !in Restrict(m, s1 + s2);
      }
    }
  }

  lemma RestrictStep<K, V>(m: map<K, V>, start: map<K, V>, before: map<K, V>,
                           after: map<K, V>, s1: set<K>, s2: set<K>, k: K)
    requires k in m
    requires before == start + Restrict(m, s1) && after == before[k := m[k]] + Restrict(m, s2)
    ensures after == start + Restrict(m, s1 + {k} + s2)
  {
    var goal := start + Restrict(m, s1 + {k} + s2);
    assert after.Keys == goal.Keys;
    forall j | j in after.Keys ensures after[j] == goal[j] {
      if j in Restrict(m, s2) {
      } else if j == k {
      } else if j in Restrict(m, s1) {
      } else {
        assert j !in Restrict(m, s1 + {k} + s2);
      }
    }
  }
}
