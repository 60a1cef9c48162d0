/** The connector loop of `createSitemap` (code.js:296-331). It does not consult the
    forest: a table `depthStack` remembers, for every depth, the last record seen at that
    depth, and a record at depth d > 0 is connected to the entry for depth d - 1, if there
    is one. The table is never cut back when the outline returns to a shallower depth, so
    on outlines that skip levels the connectors and the forest disagree. */
module Edges {
  import opened Outline
  import opened Forest
  import opened TreeLayout

  /** A connector from the parent's box (bottom magnet) to the child's box (top magnet). */
  datatype Edge = Edge(parent: nat, child: nat)

  /** The last index j < k with ds[j] == d, or -1: the entry `depthStack[d]` once records
      0 .. k-1 have been seen. */
  function LastAt(ds: seq<nat>, d: nat, k: nat): (r: int)
    requires k <= |ds|
    ensures -1 <= r < k
    ensures r >= 0 ==> ds[r] == d
  {
    if k == 0 then -1 else if ds[k - 1] == d then k - 1 else LastAt(ds, d, k - 1)
  }

  /** No record between LastAt and k has depth d. */
  lemma {:induction false} LastAtIsLast(ds: seq<nat>, d: nat, k: nat)
    requires k <= |ds|
    ensures forall j :: LastAt(ds, d, k) < j < k && j >= 0 ==> ds[j] != d
  {
    if k > 0 && ds[k - 1] != d {
      LastAtIsLast(ds, d, k - 1);
    }
  }

  /** LastAt is the largest earlier index of depth d, and -1 exactly when there is none. */
  lemma LastAtIff(ds: seq<nat>, d: nat, k: nat, p: int)
    requires k <= |ds| && -1 <= p < k
    ensures LastAt(ds, d, k) == p <==>
      (p >= 0 ==> ds[p] == d) && forall j :: p < j < k && j >= 0 ==> ds[j] != d
  {
    LastAtIsLast(ds, d, k);
  }

  /** The connector drawn into record i, if any: its parent is the depthStack entry one
      level up, read after record i has been entered at its own depth. */
  function EdgeInto(ds: seq<nat>, i: nat): Option<Edge>
    requires i < |ds|
  {
    if ds[i] > 0 && LastAt(ds, ds[i] - 1, i) >= 0 then Some(Edge(LastAt(ds, ds[i] - 1, i), i))
    else None
  }

  /** The connectors drawn for records 0 .. n-1, in the order they are created. */
  function Connectors(ds: seq<nat>, n: nat): (es: seq<Edge>)
    requires n <= |ds|
    ensures forall k :: 0 <= k < |es| ==> es[k].child < n
  {
    if n == 0 then []
    else Connectors(ds, n - 1) + (match EdgeInto(ds, n - 1) case None => [] case Some(e) => [e])
  }

  /** An edge is drawn for records 0 .. n-1 exactly when it is the connector into its
      child and that child is among them. */
  lemma {:induction false} ConnectorsHas(ds: seq<nat>, n: nat, e: Edge)
    requires n <= |ds|
    ensures e in Connectors(ds, n) <==> e.child < n && EdgeInto(ds, e.child) == Some(e)
  {
    if n > 0 {
      ConnectorsHas(ds, n - 1, e);
      var tail := match EdgeInto(ds, n - 1) case None => [] case Some(x) => [x];
      assert Connectors(ds, n) == Connectors(ds, n - 1) + tail;
      assert e in Connectors(ds, n) <==> e in Connectors(ds, n - 1) || e in tail;
    }
  }

  ghost predicate ChildOrdered(es: seq<Edge>)
  {
    forall k, m :: 0 <= k < m < |es| ==> es[k].child < es[m].child
  }

  /** Connectors come in increasing order of their child, so no record has more than one
      incoming connector. */
  lemma {:induction false} ConnectorsOrdered(ds: seq<nat>, n: nat)
    requires n <= |ds|
    ensures ChildOrdered(Connectors(ds, n))
  {
    if n > 0 {
      ConnectorsOrdered(ds, n - 1);
      var front := Connectors(ds, n - 1);
      var tail := match EdgeInto(ds, n - 1) case None => [] case Some(x) => [x];
      var es := front + tail;
      assert Connectors(ds, n) == es;
      forall k, m | 0 <= k < m < |es| ensures es[k].child < es[m].child {
        assert es[k] == front[k];
        if m >= |front| {
          assert es[m] == tail[0] && tail[0].child == n - 1;
        } else {
          assert es[m] == front[m];
        }
      }
    }
  }

  /** `parent -> child` is drawn exactly when the child has depth d > 0 and the parent is
      the last earlier record of depth d - 1. Hence parent < child, the parent is one level
      up, and depth-0 records get no connector. */
  lemma EdgeIff(ds: seq<nat>, e: Edge)
    ensures e in Connectors(ds, |ds|) <==>
      e.child < |ds| && ds[e.child] > 0 && e.parent < e.child && ds[e.parent] + 1 == ds[e.child] &&
      forall j :: e.parent < j < e.child ==> ds[j] + 1 != ds[e.child]
  {
    ConnectorsHas(ds, |ds|, e);
    if e.child < |ds| && ds[e.child] > 0 && e.parent < e.child {
      LastAtIff(ds, ds[e.child] - 1, e.child, e.parent);
    }
  }

  /** A record gets no connector exactly when it is at depth 0 or no earlier record is one
      level up. */
  lemma NoEdgeIff(ds: seq<nat>, c: nat)
    requires c < |ds|
    ensures EdgeInto(ds, c) == None <==>
      ds[c] == 0 || forall j :: 0 <= j < c ==> ds[j] + 1 != ds[c]
  {
    if ds[c] > 0 {
      LastAtIff(ds, ds[c] - 1, c, -1);
    }
  }

  /** `depthStack` after records 0 .. i-1: each record in turn written at its depth. */
  ghost function StackAt(ds: seq<nat>, i: nat): map<nat, nat>
    requires i <= |ds|
  {
    if i == 0 then map[] else StackAt(ds, i - 1)[ds[i - 1] := i - 1]
  }

  /** `depthStack[d]` is defined exactly when some record before i has depth d, and is the
      last such record. */
  lemma {:induction false} StackAtIs(ds: seq<nat>, i: nat, d: nat)
    requires i <= |ds|
    ensures d in StackAt(ds, i) <==> LastAt(ds, d, i) >= 0
    ensures d in StackAt(ds, i) ==> StackAt(ds, i)[d] == LastAt(ds, d, i)
  {
    if i > 0 {
      StackAtIs(ds, i - 1, d);
    }
  }

  /** One more record adds the connector into it, if any, read off the stack after the
      record is entered. */
  lemma ConnectorsStep(ds: seq<nat>, i: nat)
    requires i < |ds|
    ensures ds[i] == 0 ==> Connectors(ds, i + 1) == Connectors(ds, i)
    ensures ds[i] > 0 && LastAt(ds, ds[i] - 1, i + 1) < 0 ==> Connectors(ds, i + 1) == Connectors(ds, i)
    ensures ds[i] > 0 && LastAt(ds, ds[i] - 1, i + 1) >= 0 ==>
      Connectors(ds, i + 1) == Connectors(ds, i) + [Edge(LastAt(ds, ds[i] - 1, i + 1), i)]
  {
  }

  /** The loop of code.js:297-331: `depthStack[d] = i`, then a connector from
      `depthStack[d - 1]` when d > 0 and that entry is defined. */
  method DeriveEdges(nodes: seq<Record>) returns (edges: seq<Edge>)
    ensures edges == Connectors(Depths(nodes), |nodes|)
  {
    ghost var ds := Depths(nodes);
    var depthStack: map<nat, nat> := map[];
    edges := [];
    for i := 0 to |nodes|
      invariant depthStack == StackAt(ds, i)
      invariant edges == Connectors(ds, i)
    {
      var currentDepth := nodes[i].depth;
      depthStack := depthStack[currentDepth := i];
      ConnectorsStep(ds, i);
      if currentDepth > 0 {
        StackAtIs(ds, i + 1, currentDepth - 1);
        if currentDepth - 1 in depthStack {
          var parentIndex := depthStack[currentDepth - 1];
          edges := edges + [Edge(parentIndex, i)];
        }
      }
    }
  }

  // ---------------------------------------------------------------------------------
  // Agreement with the forest

  /** On a well-formed outline the connector into each record comes from its forest
      parent, and roots get none. */
  lemma WellFormedEdgeInto(ds: seq<nat>, c: nat)
    requires WellFormed(ds) && c < |ds|
    ensures EdgeInto(ds, c) == if ParentOf(ds, c) == -1 then None else Some(Edge(ParentOf(ds, c), c))
  {
    WellFormedParent(ds, c);
    ParentOfSpec(ds, c);
    var p := ParentOf(ds, c);
    if p >= 0 {
      LastAtIff(ds, ds[c] - 1, c, p);
    }
  }

  /** On a well-formed outline the connectors are exactly the forest's parent-child pairs. */
  lemma EdgesAreForest(ds: seq<nat>, p: nat, c: nat)
    requires WellFormed(ds) && p < |ds| && c < |ds|
    ensures Edge(p, c) in Connectors(ds, |ds|) <==> c in ForestOf(ds).kids[p]
  {
    ConnectorsHas(ds, |ds|, Edge(p, c));
    WellFormedEdgeInto(ds, c);
    ParentOfSpec(ds, c);
    ChildIff(ds, p, c);
  }

  /** On a well-formed outline a record is a root exactly when no connector enters it. */
  lemma RootsHaveNoEdge(ds: seq<nat>, c: nat)
    requires WellFormed(ds) && c < |ds|
    ensures c in ForestOf(ds).roots <==> EdgeInto(ds, c) == None
  {
    WellFormedEdgeInto(ds, c);
    ParentOfSpec(ds, c);
    RootIff(ds, c);
  }

  // ---------------------------------------------------------------------------------
  // Worked outlines

  /** Depths 0, 1, 1, 2 give the connectors 0->1, 0->2 and 2->3. */
  lemma SiblingsExample()
    ensures Connectors([0, 1, 1, 2], 4) == [Edge(0, 1), Edge(0, 2), Edge(2, 3)]
  {
    var ds: seq<nat> := [0, 1, 1, 2];
    assert LastAt(ds, 0, 1) == 0 && LastAt(ds, 0, 2) == 0 && LastAt(ds, 1, 3) == 2;
  }

  /** Depths 0, 1, 2, 0, 2: the stale entry for depth 1 links record 4 to record 1, while
      the forest makes 4 a child of record 3. */
  lemma StaleEntryExample()
    ensures Connectors([0, 1, 2, 0, 2], 5) == [Edge(0, 1), Edge(1, 2), Edge(1, 4)]
    ensures ParentOf([0, 1, 2, 0, 2], 4) == 3
  {
    var ds: seq<nat> := [0, 1, 2, 0, 2];
    assert LastAt(ds, 0, 1) == 0 && LastAt(ds, 1, 2) == 1 && LastAt(ds, 1, 4) == 1;
    ParentOfIs(ds, 4, 3);
  }

  /** Depths 0, 2: record 1 gets no connector, yet the forest makes it a child of record 0
      and the layout places it one row below it. */
  lemma SkippedLevelExample()
    ensures Connectors([0, 2], 2) == []
    ensures ParentOf([0, 2], 1) == 0
    ensures Spot([0, 2], 1) == Pos(0, 200)
  {
    var ds: seq<nat> := [0, 2];
    assert LastAt(ds, 1, 1) == -1;
    ParentOfIs(ds, 1, 0);
    ParentOfIs(ds, 0, -1);
    assert Kids(ds, 0, 1, 1) == [];
  }
}
