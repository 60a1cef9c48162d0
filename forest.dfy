/** The forest builder of `createSitemap` (code.js:193-212): a depth stack turns the flat
    outline into roots and ordered child lists. Nodes are named by their record index, so
    the forest is a list of roots plus, for every index, the list of its children. */
module Forest {
  import opened Outline

  /** `tree` (the roots) and every node's `children`, indexed by record index. */
  datatype Forest = Forest(roots: seq<nat>, kids: seq<seq<nat>>)

  /** The largest j < k with ds[j] < d, or -1 when there is none. */
  function NearestSmaller(ds: seq<nat>, d: nat, k: nat): (r: int)
    requires k <= |ds|
    ensures -1 <= r < k
  {
    if k == 0 then -1 else if ds[k - 1] < d then k - 1 else NearestSmaller(ds, d, k - 1)
  }

  lemma {:induction false} NearestSmallerIs(ds: seq<nat>, d: nat, k: nat)
    requires k <= |ds|
    ensures var r := NearestSmaller(ds, d, k);
      (r >= 0 ==> ds[r] < d && forall j :: r < j < k ==> ds[j] >= d) &&
      (r == -1 ==> forall j :: 0 <= j < k ==> ds[j] >= d)
  {
    if k > 0 && ds[k - 1] >= d {
      NearestSmallerIs(ds, d, k - 1);
    }
  }

  /** The parent the depth stack assigns to record i: the nearest earlier record whose
      depth is strictly smaller, or -1 when i becomes a root. */
  function ParentOf(ds: seq<nat>, i: nat): (p: int)
    requires i < |ds|
    ensures -1 <= p < i
    ensures p >= 0 ==> ds[p] < ds[i]
  {
    NearestSmallerIs(ds, ds[i], i);
    NearestSmaller(ds, ds[i], i)
  }

  /** Every record strictly between i's parent (or the start) and i is at least as deep
      as i. */
  lemma ParentOfSpec(ds: seq<nat>, i: nat)
    requires i < |ds|
    ensures forall j :: ParentOf(ds, i) < j < i && j >= 0 ==> ds[j] >= ds[i]
  {
    NearestSmallerIs(ds, ds[i], i);
  }

  /** The characterisation in ParentOf's contract determines the parent. */
  lemma ParentOfIs(ds: seq<nat>, i: nat, p: int)
    requires i < |ds| && -1 <= p < i
    requires p >= 0 ==> ds[p] < ds[i]
    requires forall j :: p < j < i && j >= 0 ==> ds[j] >= ds[i]
    ensures ParentOf(ds, i) == p
  {
    ParentOfSpec(ds, i);
  }

  /** The records c in [lo, hi) whose parent is p, in increasing order. */
  function Kids(ds: seq<nat>, p: int, lo: nat, hi: nat): (r: seq<nat>)
    requires hi <= |ds|
    ensures forall k :: 0 <= k < |r| ==> lo <= r[k] < hi && ParentOf(ds, r[k]) == p
    decreases hi - lo
  {
    if lo >= hi then []
    else (if ParentOf(ds, lo) == p then [lo] else []) + Kids(ds, p, lo + 1, hi)
  }

  /** The children of node p among records 0 .. i-1; p == -1 gives the roots. */
  function ChildrenBefore(ds: seq<nat>, p: int, i: nat): seq<nat>
    requires -1 <= p && i <= |ds|
  {
    Kids(ds, p, p + 1, i)
  }

  /** The children of node p in index order; p == -1 gives the roots. */
  function Children(ds: seq<nat>, p: int): seq<nat>
    requires -1 <= p < |ds|
  {
    ChildrenBefore(ds, p, |ds|)
  }

  /** The forest the builder is meant to produce. */
  function ForestOf(ds: seq<nat>): Forest
  {
    Forest(Children(ds, -1), seq(|ds|, p requires 0 <= p < |ds| => Children(ds, p)))
  }

  /** The first index after p whose depth is at most ds[p] (the end of p's block of
      deeper lines), or |ds|; for p == -1, |ds|. */
  function End(ds: seq<nat>, p: int): (e: nat)
    requires -1 <= p < |ds|
    ensures p < e <= |ds|
    ensures p >= 0 && e < |ds| ==> ds[e] <= ds[p]
  {
    if p == -1 then |ds| else EndFromIs(ds, p, p + 1); EndFrom(ds, p, p + 1)
  }

  /** Every line strictly inside p's block is deeper than p. */
  lemma EndSpec(ds: seq<nat>, p: nat)
    requires p < |ds|
    ensures forall j :: p < j < End(ds, p) ==> ds[j] > ds[p]
  {
    EndFromIs(ds, p, p + 1);
  }

  function EndFrom(ds: seq<nat>, p: nat, k: nat): (e: nat)
    requires p < k <= |ds|
    ensures k <= e <= |ds|
    decreases |ds| - k
  {
    if k == |ds| || ds[k] <= ds[p] then k else EndFrom(ds, p, k + 1)
  }

  lemma {:induction false} EndFromIs(ds: seq<nat>, p: nat, k: nat)
    requires p < k <= |ds|
    ensures var e := EndFrom(ds, p, k);
      (forall j :: k <= j < e ==> ds[j] > ds[p]) && (e < |ds| ==> ds[e] <= ds[p])
    decreases |ds| - k
  {
    if k < |ds| && ds[k] > ds[p] {
      EndFromIs(ds, p, k + 1);
    }
  }

  // ---------------------------------------------------------------------------------
  // Facts about Kids

  lemma {:induction false} KidsSnoc(ds: seq<nat>, p: int, lo: nat, hi: nat)
    requires lo <= hi < |ds|
    ensures Kids(ds, p, lo, hi + 1) == Kids(ds, p, lo, hi) + (if ParentOf(ds, hi) == p then [hi] else [])
    decreases hi - lo
  {
    if lo < hi {
      KidsSnoc(ds, p, lo + 1, hi);
    }
  }

  lemma {:induction false} KidsHas(ds: seq<nat>, p: int, lo: nat, hi: nat, c: nat)
    requires hi <= |ds| && lo <= c < hi && ParentOf(ds, c) == p
    ensures c in Kids(ds, p, lo, hi)
    decreases hi - lo
  {
    var head: seq<nat> := if ParentOf(ds, lo) == p then [lo] else [];
    var rest := Kids(ds, p, lo + 1, hi);
    assert Kids(ds, p, lo, hi) == head + rest;
    if lo < c {
      KidsHas(ds, p, lo + 1, hi, c);
      assert c in rest;
    } else {
      assert head == [c];
    }
  }

  /** Kids is unchanged by dropping a prefix of the range that holds no child of p. */
  lemma {:induction false} KidsSkip(ds: seq<nat>, p: int, lo: nat, m: nat, hi: nat)
    requires lo <= m <= hi <= |ds|
    requires forall c :: lo <= c < m ==> ParentOf(ds, c) != p
    ensures Kids(ds, p, lo, hi) == Kids(ds, p, m, hi)
    decreases m - lo
  {
    if lo < m {
      KidsSkip(ds, p, lo + 1, m, hi);
    }
  }

  ghost predicate Increasing(s: seq<nat>)
  {
    forall k, m :: 0 <= k < m < |s| ==> s[k] < s[m]
  }

  /** Child lists are in strictly increasing index order. */
  lemma {:induction false} KidsIncreasing(ds: seq<nat>, p: int, lo: nat, hi: nat)
    requires hi <= |ds|
    ensures Increasing(Kids(ds, p, lo, hi))
    decreases hi - lo
  {
    if lo < hi {
      var head: seq<nat> := if ParentOf(ds, lo) == p then [lo] else [];
      var rest := Kids(ds, p, lo + 1, hi);
      assert Kids(ds, p, lo, hi) == head + rest;
      KidsIncreasing(ds, p, lo + 1, hi);
      if head == [lo] {
        ConsIncreasing(lo, rest);
      } else {
        assert head + rest == rest;
      }
    }
  }

  lemma ConsIncreasing(x: nat, s: seq<nat>)
    requires Increasing(s)
    requires forall k :: 0 <= k < |s| ==> x < s[k]
    ensures Increasing([x] + s)
  {
    var r := [x] + s;
    forall k, m | 0 <= k < m < |r| ensures r[k] < r[m] {
      assert r[m] == s[m - 1];
      if k > 0 { assert r[k] == s[k - 1]; }
    }
  }

  /** The k-th child in a Kids list has exactly k earlier siblings in the range. */
  lemma {:induction false} KidsRank(ds: seq<nat>, p: int, lo: nat, hi: nat, k: nat)
    requires hi <= |ds| && k < |Kids(ds, p, lo, hi)|
    ensures Kids(ds, p, lo, hi)[k] <= hi
    ensures |Kids(ds, p, lo, Kids(ds, p, lo, hi)[k])| == k
    decreases hi - lo
  {
    var head: seq<nat> := if ParentOf(ds, lo) == p then [lo] else [];
    var rest := Kids(ds, p, lo + 1, hi);
    var r := Kids(ds, p, lo, hi);
    assert r == head + rest;
    var c := r[k];
    if k < |head| {
      assert c == lo;
    } else {
      KidsRank(ds, p, lo + 1, hi, k - |head|);
      assert rest[k - |head|] == c;
      assert Kids(ds, p, lo, c) == head + Kids(ds, p, lo + 1, c);
    }
  }

  // ---------------------------------------------------------------------------------
  // The block structure of the forest

  /** A child lies inside its parent's block. */
  lemma ChildInBlock(ds: seq<nat>, c: nat)
    requires c < |ds| && ParentOf(ds, c) >= 0
    ensures ParentOf(ds, c) < c < End(ds, ParentOf(ds, c))
  {
    ParentOfSpec(ds, c);
  }

  /** A node's block ends no later than its parent's. */
  lemma BlockNested(ds: seq<nat>, c: nat)
    requires c < |ds|
    ensures End(ds, c) <= End(ds, ParentOf(ds, c))
  {
    var p := ParentOf(ds, c);
    if p >= 0 {
      ChildInBlock(ds, c);
      EndSpec(ds, c);
    }
  }

  /** The record right after a node is its first child, unless the node's block is empty. */
  lemma FirstChild(ds: seq<nat>, a: nat)
    requires a < |ds| && a + 1 < End(ds, a)
    ensures ParentOf(ds, a + 1) == a
  {
    ParentOfIs(ds, a + 1, a);
  }

  /** The record that ends a child's block, if still inside the parent's block, is the
      next sibling. */
  lemma NextSibling(ds: seq<nat>, a: nat)
    requires a < |ds| && End(ds, a) < End(ds, ParentOf(ds, a))
    ensures ParentOf(ds, End(ds, a)) == ParentOf(ds, a)
  {
    var p, q := ParentOf(ds, a), End(ds, a);
    ParentOfSpec(ds, a);
    EndSpec(ds, a);
    if p >= 0 {
      ChildInBlock(ds, a);
      EndSpec(ds, p);
    }
    forall j | p < j < q && j >= 0 ensures ds[j] >= ds[q] {
      if j < a {
        assert ds[j] >= ds[a];
      } else if j > a {
        assert ds[j] > ds[a];
      }
    }
    ParentOfIs(ds, q, p);
  }

  /** No child of a's parent lies strictly inside a's block. */
  lemma NoSiblingInBlock(ds: seq<nat>, a: nat, c: nat)
    requires a < |ds| && a < c < End(ds, a)
    ensures ParentOf(ds, c) >= a
  {
    ParentOfSpec(ds, c);
    EndSpec(ds, a);
    assert ds[a] < ds[c];
  }

  /** The children of p from a on, in order, have blocks that tile [a, End(p)). */
  lemma {:induction false} SiblingsTile(ds: seq<nat>, p: int, a: nat)
    requires -1 <= p < |ds| && p < a <= End(ds, p)
    requires a == End(ds, p) || ParentOf(ds, a) == p
    ensures a < End(ds, p) ==> Kids(ds, p, a, |ds|) == [a] + Kids(ds, p, End(ds, a), |ds|)
    ensures a < End(ds, p) ==> End(ds, a) <= End(ds, p)
    ensures a < End(ds, p) ==> End(ds, a) == End(ds, p) || ParentOf(ds, End(ds, a)) == p
    ensures a == End(ds, p) ==> Kids(ds, p, a, |ds|) == []
  {
    var n := |ds|;
    if a == End(ds, p) {
      var r := Kids(ds, p, a, n);
      if r != [] {
        assert ParentOf(ds, r[0]) == p && p >= 0;
        ChildInBlock(ds, r[0]);
      }
    } else {
      assert Kids(ds, p, a, n) == [a] + Kids(ds, p, a + 1, n);
      forall c | a + 1 <= c < End(ds, a) ensures ParentOf(ds, c) != p {
        NoSiblingInBlock(ds, a, c);
      }
      KidsSkip(ds, p, a + 1, End(ds, a), n);
      BlockNested(ds, a);
      if End(ds, a) < End(ds, p) {
        NextSibling(ds, a);
      }
    }
  }

  // ---------------------------------------------------------------------------------
  // Pre-order walk

  /** The pre-order walk of a list of siblings (all children of p) and their subtrees. */
  function PreOrder(ds: seq<nat>, nodes: seq<nat>, p: int): seq<nat>
    requires -1 <= p
    requires forall k :: 0 <= k < |nodes| ==> nodes[k] < |ds| && ParentOf(ds, nodes[k]) == p
    decreases |ds| - p, |nodes|
  {
    if nodes == [] then []
    else
      var n := nodes[0];
      assert n < |ds|;
      assert ParentOf(ds, n) == p;
      assert p < n;
      [n] + PreOrder(ds, Children(ds, n), n) + PreOrder(ds, nodes[1..], p)
  }

  /** Walking p's children from a on visits exactly the indices a .. End(p)-1 in order. */
  lemma {:induction false} WalkFrom(ds: seq<nat>, p: int, a: nat)
    requires -1 <= p < |ds| && p < a <= End(ds, p)
    requires a == End(ds, p) || ParentOf(ds, a) == p
    ensures PreOrder(ds, Kids(ds, p, a, |ds|), p) == Range(a, End(ds, p))
    decreases |ds| - a
  {
    SiblingsTile(ds, p, a);
    var n, e := |ds|, End(ds, p);
    if a < e {
      var ea := End(ds, a);
      var rest := Kids(ds, p, ea, n);
      if a + 1 < ea {
        FirstChild(ds, a);
      }
      WalkFrom(ds, a, a + 1);
      WalkFrom(ds, p, ea);
      PreOrderCons(ds, a, rest, p);
      RangeCons(a, ea, e);
    }
  }

  lemma PreOrderCons(ds: seq<nat>, a: nat, rest: seq<nat>, p: int)
    requires -1 <= p && a < |ds| && ParentOf(ds, a) == p
    requires forall k :: 0 <= k < |rest| ==> rest[k] < |ds| && ParentOf(ds, rest[k]) == p
    ensures PreOrder(ds, [a] + rest, p) == [a] + PreOrder(ds, Children(ds, a), a) + PreOrder(ds, rest, p)
  {
    assert ([a] + rest)[0] == a && ([a] + rest)[1..] == rest;
  }

  /** A pre-order walk of the built forest visits every record index exactly once, in
      ascending order. */
  lemma PreOrderVisitsAll(ds: seq<nat>)
    ensures PreOrder(ds, ForestOf(ds).roots, -1) == Range(0, |ds|)
  {
    WalkFrom(ds, -1, 0);
  }

  /** A record is in p's child list exactly when p is the nearest earlier record of
      strictly smaller depth. */
  lemma ChildIff(ds: seq<nat>, p: nat, c: nat)
    requires p < |ds| && c < |ds|
    ensures c in ForestOf(ds).kids[p] <==>
      p < c && ds[p] < ds[c] && forall j :: p < j < c ==> ds[j] >= ds[c]
  {
    ParentOfSpec(ds, c);
    if p < c && ds[p] < ds[c] && forall j :: p < j < c ==> ds[j] >= ds[c] {
      ParentOfIs(ds, c, p);
      KidsHas(ds, p, p + 1, |ds|, c);
    }
  }

  /** A record is a root exactly when no earlier record has a smaller depth. */
  lemma RootIff(ds: seq<nat>, c: nat)
    requires c < |ds|
    ensures c in ForestOf(ds).roots <==> forall j :: 0 <= j < c ==> ds[j] >= ds[c]
  {
    ParentOfSpec(ds, c);
    if forall j :: 0 <= j < c ==> ds[j] >= ds[c] {
      ParentOfIs(ds, c, -1);
      KidsHas(ds, -1, 0, |ds|, c);
    }
  }

  /** In a well-formed outline a depth-0 record is a root and any deeper record's parent
      is one level shallower. */
  lemma WellFormedParent(ds: seq<nat>, i: nat)
    requires WellFormed(ds) && i < |ds|
    ensures ds[i] == 0 <==> ParentOf(ds, i) == -1
    ensures ParentOf(ds, i) >= 0 ==> ds[ParentOf(ds, i)] + 1 == ds[i]
  {
    var p := ParentOf(ds, i);
    ParentOfSpec(ds, i);
    if ds[i] > 0 {
      assert 0 < i && ds[0] < ds[i];
      assert p >= 0;
      assert ds[p + 1] <= ds[p] + 1;
      assert ds[p + 1] >= ds[i];
    }
  }

  // ---------------------------------------------------------------------------------
  // The builder

  /** j is still on the depth stack after records 0 .. i-1: every later record so far
      is strictly deeper. */
  ghost predicate OpenAt(ds: seq<nat>, j: nat, i: nat)
    requires j < i <= |ds|
  {
    forall k :: j < k < i ==> ds[k] > ds[j]
  }

  /** The depth stack after records 0 .. i-1: exactly the open records, in index order
      (hence in strictly increasing depth). */
  ghost predicate StackInv(ds: seq<nat>, stack: seq<nat>, i: nat)
    requires i <= |ds|
  {
    (forall k :: 0 <= k < |stack| ==> stack[k] < i) &&
    (forall k, m :: 0 <= k < m < |stack| ==> stack[k] < stack[m] && ds[stack[k]] < ds[stack[m]]) &&
    (forall j :: 0 <= j < i ==> (j in stack <==> OpenAt(ds, j, i)))
  }

  /** After popping every entry at least as deep as record i, the top of the stack is
      i's parent, and pushing i gives the stack for i + 1. */
  lemma PopLeavesParent(ds: seq<nat>, s0: seq<nat>, len: nat, i: nat)
    requires i < |ds| && StackInv(ds, s0, i) && len <= |s0|
    requires forall k :: len <= k < |s0| ==> ds[s0[k]] >= ds[i]
    requires len > 0 ==> ds[s0[len - 1]] < ds[i]
    ensures len > 0 ==> ParentOf(ds, i) == s0[len - 1]
    ensures len == 0 ==> ParentOf(ds, i) == -1
    ensures StackInv(ds, s0[..len] + [i], i + 1)
  {
    var p := ParentOf(ds, i);
    ParentOfSpec(ds, i);
    if p >= 0 {
      assert OpenAt(ds, p, i);
      var m :| 0 <= m < |s0| && s0[m] == p;
      assert m < len;
    }
    PushKeepsStack(ds, s0, len, i);
  }

  lemma PushKeepsStack(ds: seq<nat>, s0: seq<nat>, len: nat, i: nat)
    requires i < |ds| && StackInv(ds, s0, i) && len <= |s0|
    requires forall k :: len <= k < |s0| ==> ds[s0[k]] >= ds[i]
    requires len > 0 ==> ds[s0[len - 1]] < ds[i]
    ensures StackInv(ds, s0[..len] + [i], i + 1)
  {
    var s := s0[..len] + [i];
    forall j | 0 <= j < i ensures j in s <==> OpenAt(ds, j, i + 1) {
      PushOpen(ds, s0, len, i, j);
    }
    PushSorted(ds, s0, len, i);
    assert s[len] == i;
  }

  /** Pushing i keeps the stack in increasing index and depth order. */
  lemma PushSorted(ds: seq<nat>, s0: seq<nat>, len: nat, i: nat)
    requires i < |ds| && StackInv(ds, s0, i) && len <= |s0|
    requires len > 0 ==> ds[s0[len - 1]] < ds[i]
    ensures var s := s0[..len] + [i];
      forall k, m :: 0 <= k < m < |s| ==> s[k] < s[m] && ds[s[k]] < ds[s[m]]
  {
    var s := s0[..len] + [i];
    forall k, m | 0 <= k < m < |s| ensures s[k] < s[m] && ds[s[k]] < ds[s[m]] {
      assert s[k] == s0[k];
      if m < len {
        assert s[m] == s0[m];
      } else {
        assert s[m] == i;
        if k < len - 1 {
          assert ds[s0[k]] < ds[s0[len - 1]];
        }
      }
    }
  }

  /** An earlier record is on the stack after pushing i exactly when it is still open. */
  lemma PushOpen(ds: seq<nat>, s0: seq<nat>, len: nat, i: nat, j: nat)
    requires i < |ds| && StackInv(ds, s0, i) && len <= |s0|
    requires forall k :: len <= k < |s0| ==> ds[s0[k]] >= ds[i]
    requires len > 0 ==> ds[s0[len - 1]] < ds[i]
    requires j < i
    ensures j in s0[..len] + [i] <==> OpenAt(ds, j, i + 1)
  {
    var s := s0[..len] + [i];
    if OpenAt(ds, j, i + 1) {
      assert OpenAt(ds, j, i);
      var m :| 0 <= m < |s0| && s0[m] == j;
      assert m < len;
      assert s[m] == j;
    }
    if j in s {
      var m :| 0 <= m < len && s0[m] == j;
      assert ds[j] <= ds[s0[len - 1]] < ds[i];
      assert OpenAt(ds, j, i);
    }
  }

  /** Record i joins exactly one child list: its parent's. */
  lemma ChildrenBeforeStep(ds: seq<nat>, i: nat)
    requires i < |ds|
    ensures forall p :: -1 <= p < |ds| ==>
      ChildrenBefore(ds, p, i + 1) == ChildrenBefore(ds, p, i) + (if ParentOf(ds, i) == p then [i] else [])
  {
    forall p | -1 <= p < |ds| ensures ChildrenBefore(ds, p, i + 1)
      == ChildrenBefore(ds, p, i) + (if ParentOf(ds, i) == p then [i] else [])
    {
      if p + 1 <= i {
        KidsSnoc(ds, p, p + 1, i);
      }
    }
  }

  /** The pop loop of the builder: drop stack entries at least as deep as `depth`. What is
      left is a prefix of the stack whose top, if any, is strictly shallower. */
  method PopDeeper(nodes: seq<Record>, stack: seq<nat>, depth: nat) returns (s: seq<nat>)
    requires forall k :: 0 <= k < |stack| ==> stack[k] < |nodes|
    ensures |s| <= |stack| && s == stack[..|s|]
    ensures forall k :: |s| <= k < |stack| ==> nodes[stack[k]].depth >= depth
    ensures |s| > 0 ==> nodes[s[|s| - 1]].depth < depth
  {
    s := stack;
    while |s| > 0 && nodes[s[|s| - 1]].depth >= depth
      invariant |s| <= |stack| && s == stack[..|s|]
      invariant forall k :: |s| <= k < |stack| ==> nodes[stack[k]].depth >= depth
    {
      s := s[..|s| - 1];
    }
  }

  /** The forest-building loop of `createSitemap`. */
  method BuildForest(nodes: seq<Record>) returns (f: Forest)
    ensures f == ForestOf(Depths(nodes))
  {
    ghost var ds := Depths(nodes);
    var n := |nodes|;
    var children: seq<seq<nat>> := seq(n, _ => []);
    var tree: seq<nat> := [];
    var stack: seq<nat> := [];
    for index := 0 to n
      invariant tree == ChildrenBefore(ds, -1, index)
      invariant |children| == n
      invariant forall p :: 0 <= p < n ==> children[p] == ChildrenBefore(ds, p, index)
      invariant StackInv(ds, stack, index)
    {
      ghost var s0 := stack;
      stack := PopDeeper(nodes, stack, nodes[index].depth);
      PopLeavesParent(ds, s0, |stack|, index);
      ChildrenBeforeStep(ds, index);
      if |stack| > 0 {
        var top := stack[|stack| - 1];
        children := children[top := children[top] + [index]];
      } else {
        tree := tree + [index];
      }
      stack := stack + [index];
    }
    f := Forest(tree, children);
  }
}
