/** The page-design export and its way back. `exportToFigmaDesign` (code.js:342-548) lays
    one frame per record on the grid, stores the outline text on the container and the
    record's index, name and depth on each frame; `extractSitemapFromDesigns`
    (code.js:41-80) returns the stored text, or, when there is none, rebuilds it from the
    frames, sorted by their stored index. */
module Designs {
  import opened Outline
  import opened Text
  import opened Grid

  /** The plugin data of a page frame, `pageIndex`, `pageName` and `pageDepth`, as numbers
      and text. */
  datatype PageEntry = PageEntry(index: nat, pageName: string, depth: nat)

  /** A child of the design container: whether it is a frame, its layer name, and its page
      data when its `pageDepth` entry is set. */
  datatype SceneChild = SceneChild(isFrame: bool, name: string, page: Option<PageEntry>)

  /** A design container: its `sitemapText` entry ("" when unset) and its children. */
  datatype DesignContainer = DesignContainer(storedText: string, children: seq<SceneChild>)

  /** One `{index, name, depth}` entry of `nodeData`. */
  datatype NodeData = NodeData(index: nat, name: string, depth: nat)

  // ---------------------------------------------------------------------------------
  // Reading frames back

  /** What one child adds to `nodeData` (code.js:57-64): nothing unless it is a page frame;
      its stored page name, or its layer name when that is empty. */
  function EntryOf(c: SceneChild): seq<NodeData>
  {
    if c.isFrame && c.page.Some? then [Recovered(c)] else []
  }

  /** The entry read from a child with page data. */
  function Recovered(c: SceneChild): NodeData
    requires c.page.Some?
  {
    NodeData(c.page.value.index,
             if c.page.value.pageName != "" then c.page.value.pageName else c.name,
             c.page.value.depth)
  }

  /** The `nodeData` list gathered from the children, in child order. */
  function Gathered(cs: seq<SceneChild>): seq<NodeData>
  {
    if |cs| == 0 then [] else Gathered(cs[..|cs| - 1]) + EntryOf(cs[|cs| - 1])
  }

  /** The loop of code.js:56-65. */
  method GatherFrames(children: seq<SceneChild>) returns (nodeData: seq<NodeData>)
    ensures nodeData == Gathered(children)
  {
    nodeData := [];
    for i := 0 to |children|
      invariant nodeData == Gathered(children[..i])
    {
      var child := children[i];
      if child.isFrame && child.page.Some? {
        var depth := child.page.value.depth;
        var name := if child.page.value.pageName != "" then child.page.value.pageName else child.name;
        var index := child.page.value.index;
        nodeData := nodeData + [NodeData(index, name, depth)];
      }
      assert children[..i + 1][..i] == children[..i];
    }
    assert children[..|children|] == children;
  }

  lemma {:induction false} GatheredAppend(x: seq<SceneChild>, y: seq<SceneChild>)
    ensures Gathered(x + y) == Gathered(x) + Gathered(y)
    decreases |y|
  {
    if |y| == 0 {
      assert x + y == x;
    } else {
      var y0 := y[..|y| - 1];
      assert (x + y)[..|x + y| - 1] == x + y0;
      assert (x + y)[|x + y| - 1] == y[|y| - 1];
      GatheredAppend(x, y0);
    }
  }

  lemma MultisetCancel<T>(x: multiset<T>, y: multiset<T>, a: T)
    requires x + multiset{a} == y + multiset{a}
    ensures x == y
  {
    forall e ensures x[e] == y[e] {
      assert (x + multiset{a})[e] == (y + multiset{a})[e];
    }
  }

  /** Where the last element of one ordering sits in another, and what is left. */
  lemma RemoveAt<T>(front: seq<T>, a: T, s2: seq<T>) returns (j: nat)
    requires multiset(front + [a]) == multiset(s2)
    ensures j < |s2| && s2[j] == a
    ensures s2 == s2[..j] + [a] + s2[j + 1..]
    ensures multiset(front) == multiset(s2[..j] + s2[j + 1..])
  {
    assert a in multiset(front + [a]);
    assert a in multiset(s2);
    j :| 0 <= j < |s2| && s2[j] == a;
    var left, right := s2[..j], s2[j + 1..];
    assert s2 == left + [a] + right;
    assert multiset(front + [a]) == multiset(front) + multiset{a};
    assert multiset(s2) == multiset(left + right) + multiset{a};
    MultisetCancel(multiset(front), multiset(left + right), a);
  }

  lemma GatheredMiddle(left: seq<SceneChild>, a: SceneChild, right: seq<SceneChild>)
    ensures Gathered(left + [a] + right) == Gathered(left) + EntryOf(a) + Gathered(right)
    ensures Gathered(left + right) == Gathered(left) + Gathered(right)
  {
    GatheredAppend(left + [a], right);
    GatheredAppend(left, [a]);
    GatheredAppend(left, right);
    assert [a][..0] == [];
  }

  /** Reordering the children reorders the gathered entries and nothing more. */
  lemma {:induction false} GatheredPerm(s1: seq<SceneChild>, s2: seq<SceneChild>)
    requires multiset(s1) == multiset(s2)
    ensures multiset(Gathered(s1)) == multiset(Gathered(s2))
    decreases |s1|
  {
    if |s1| > 0 {
      var a := s1[|s1| - 1];
      var front := s1[..|s1| - 1];
      assert s1 == front + [a];
      var j := RemoveAt(front, a, s2);
      var left, right := s2[..j], s2[j + 1..];
      GatheredPerm(front, left + right);
      GatheredMiddle(left, a, right);
    } else {
      assert |multiset(s2)| == 0;
    }
  }

  // ---------------------------------------------------------------------------------
  // `nodeData.sort((a, b) => a.index - b.index)`

  ghost predicate SortedByIndex(s: seq<NodeData>)
  {
    forall j, k :: 0 <= j < k < |s| ==> s[j].index <= s[k].index
  }

  /** x goes before the first entry whose index is not smaller, so equal indices keep
      their order. */
  function Insert(x: NodeData, s: seq<NodeData>): (r: seq<NodeData>)
    ensures multiset(r) == multiset(s) + multiset{x}
  {
    if |s| == 0 then [x]
    else if x.index <= s[0].index then [x] + s
    else
      assert s == [s[0]] + s[1..];
      [s[0]] + Insert(x, s[1..])
  }

  /** Inserting keeps a common lower bound on the indices. */
  lemma {:induction false} InsertBound(x: NodeData, s: seq<NodeData>, b: int)
    requires b <= x.index && forall k :: 0 <= k < |s| ==> b <= s[k].index
    ensures forall k :: 0 <= k < |Insert(x, s)| ==> b <= Insert(x, s)[k].index
  {
    if |s| > 0 && x.index > s[0].index {
      InsertBound(x, s[1..], b);
      var t := Insert(x, s[1..]);
      assert forall k :: 0 < k < |t| + 1 ==> ([s[0]] + t)[k] == t[k - 1];
    }
  }

  /** An entry no later than any entry of a sorted list can go in front of it. */
  lemma ConsSorted(a: NodeData, t: seq<NodeData>)
    requires SortedByIndex(t) && forall k :: 0 <= k < |t| ==> a.index <= t[k].index
    ensures SortedByIndex([a] + t)
  {
    var r := [a] + t;
    forall j, k | 0 <= j < k < |r| ensures r[j].index <= r[k].index {
      assert r[k] == t[k - 1];
      if j > 0 {
        assert r[j] == t[j - 1];
      }
    }
  }

  lemma {:induction false} InsertSorted(x: NodeData, s: seq<NodeData>)
    requires SortedByIndex(s)
    ensures SortedByIndex(Insert(x, s))
  {
    if |s| > 0 {
      if x.index > s[0].index {
        var tail := s[1..];
        InsertSorted(x, tail);
        InsertBound(x, tail, s[0].index);
        ConsSorted(s[0], Insert(x, tail));
      } else {
        ConsSorted(x, s);
      }
    }
  }

  /** An insertion sort by stored index. */
  function SortByIndex(s: seq<NodeData>): (r: seq<NodeData>)
    ensures multiset(r) == multiset(s)
    ensures SortedByIndex(r)
  {
    if |s| == 0 then []
    else
      assert s == [s[0]] + s[1..];
      InsertSorted(s[0], SortByIndex(s[1..]));
      Insert(s[0], SortByIndex(s[1..]))
  }

  /** The last entry of such a sorted list is t's last entry. */
  lemma SortedLast(a: seq<NodeData>, t: seq<NodeData>)
    requires forall i :: 0 <= i < |t| ==> t[i].index == i
    requires multiset(a) == multiset(t) && SortedByIndex(a) && |t| > 0
    ensures |a| == |t| && a[|t| - 1] == t[|t| - 1]
  {
    assert |a| == |multiset(a)| == |multiset(t)| == |t|;
    var n := |t| - 1;
    assert a[n] in multiset(t);
    var i :| 0 <= i < |t| && t[i] == a[n];
    assert t[n] in multiset(a);
    var j :| 0 <= j < |a| && a[j] == t[n];
    assert a[j].index <= a[n].index;
  }

  /** A sorted list holding exactly the entries of t, where t's entry i has index i, is t. */
  lemma {:induction false} SortedIsCanonical(a: seq<NodeData>, t: seq<NodeData>)
    requires forall i :: 0 <= i < |t| ==> t[i].index == i
    requires multiset(a) == multiset(t) && SortedByIndex(a)
    ensures a == t
    decreases |t|
  {
    if |t| == 0 {
      assert |a| == |multiset(a)| == 0;
    } else {
      SortedLast(a, t);
      var n := |t| - 1;
      var last := a[n];
      var a0, t0 := a[..n], t[..n];
      assert a == a0 + [last];
      assert t == t0 + [t[n]];
      assert multiset(a) == multiset(a0) + multiset{last};
      assert multiset(t) == multiset(t0) + multiset{last};
      MultisetCancel(multiset(a0), multiset(t0), last);
      SortedIsCanonical(a0, t0);
    }
  }

  // ---------------------------------------------------------------------------------
  // The reconstructed text and the extractor

  /** `nodeData.map(node => '  '.repeat(node.depth) + node.name)`. */
  function DataLines(ds: seq<NodeData>): (ls: seq<string>)
    ensures |ls| == |ds|
    ensures forall k :: 0 <= k < |ds| ==> ls[k] == Indent(ds[k].depth) + ds[k].name
  {
    seq(|ds|, k requires 0 <= k < |ds| => Indent(ds[k].depth) + ds[k].name)
  }

  /** The text rebuilt from gathered entries (code.js:67-76). */
  function ReconstructText(nodeData: seq<NodeData>): string
  {
    Join(DataLines(SortByIndex(nodeData)))
  }

  /** What the extractor returns for a container, or for none. */
  function Extracted(container: Option<DesignContainer>): Option<string>
  {
    match container
    case None => None
    case Some(c) =>
      if c.storedText != "" then Some(c.storedText)
      else Some(ReconstructText(Gathered(c.children)))
  }

  /** `extractSitemapFromDesigns`: no container gives nothing, a stored text is returned
      as it is, otherwise the text is rebuilt from the page frames. */
  method ExtractSitemapFromDesigns(designContainer: Option<DesignContainer>) returns (r: Option<string>)
    ensures designContainer.None? ==> r.None?
    ensures designContainer.Some? && designContainer.value.storedText != "" ==>
      r == Some(designContainer.value.storedText)
    ensures r == Extracted(designContainer)
  {
    if designContainer.None? {
      return None;
    }
    var container := designContainer.value;
    if container.storedText != "" {
      return Some(container.storedText);
    }
    var nodeData := GatherFrames(container.children);
    var sorted := SortByIndex(nodeData);
    var lines := DataLines(sorted);
    return Some(Join(lines));
  }

  // ---------------------------------------------------------------------------------
  // The exporter

  /** A design frame as the exporter leaves it: its layer name, its place in the
      container, its size, and its plugin data. */
  datatype DesignFrame = DesignFrame(name: string, x: int, y: int, width: nat, height: nat, page: PageEntry)

  /** The exporter's result: the container's bounds, its `sitemapText`, and its frames in
      creation order. */
  datatype Export = Export(bounds: Bounds, sitemapText: string, frames: seq<DesignFrame>)

  /** The frame made for record i (code.js:482-503). */
  function FrameFor(nodes: seq<Record>, i: nat, w: nat, h: nat): DesignFrame
    requires i < |nodes|
  {
    var at := FrameAt(i, w, h);
    DesignFrame(nodes[i].name, at.x, at.y, w, h, PageEntry(i, nodes[i].name, nodes[i].depth))
  }

  /** `exportToFigmaDesign` without its drawing calls. */
  method ExportToFigmaDesign(nodes: seq<Record>, frameWidth: nat, frameHeight: nat) returns (e: Export)
    requires |nodes| >= 1
    ensures e.bounds == ContainerBounds(Slots(|nodes|, frameWidth, frameHeight), frameWidth, frameHeight)
    ensures e.sitemapText == Render(nodes)
    ensures |e.frames| == |nodes|
    ensures forall i :: 0 <= i < |nodes| ==> e.frames[i] == FrameFor(nodes, i, frameWidth, frameHeight)
  {
    var positions := GridPositions(|nodes|, frameWidth, frameHeight);
    SlotsAre(positions, |nodes|, frameWidth, frameHeight);
    var bounds := ContainerBounds(positions, frameWidth, frameHeight);
    var text := Join(Lines(nodes));
    var frames: seq<DesignFrame> := [];
    for i := 0 to |nodes|
      invariant |frames| == i
      invariant forall k :: 0 <= k < i ==> frames[k] == FrameFor(nodes, k, frameWidth, frameHeight)
    {
      var node := nodes[i];
      var pos := positions[i];
      var frame := DesignFrame(node.name, pos.x + Padding, pos.y + Padding, frameWidth, frameHeight,
                               PageEntry(i, node.name, node.depth));
      assert frame == FrameFor(nodes, i, frameWidth, frameHeight);
      frames := frames + [frame];
    }
    return Export(bounds, text, frames);
  }

  /** The exporter's container as the extractor later finds it. */
  function ReadBack(e: Export): DesignContainer
  {
    DesignContainer(e.sitemapText,
      seq(|e.frames|, k requires 0 <= k < |e.frames| => SceneChild(true, e.frames[k].name, Some(e.frames[k].page))))
  }

  /** Entry i of the outline, as the extractor should recover it. */
  function Canonical(nodes: seq<Record>): (ds: seq<NodeData>)
    ensures |ds| == |nodes|
    ensures forall i :: 0 <= i < |nodes| ==> ds[i] == NodeData(i, nodes[i].name, nodes[i].depth)
  {
    seq(|nodes|, i requires 0 <= i < |nodes| => NodeData(i, nodes[i].name, nodes[i].depth))
  }

  ghost predicate ExportedFrom(e: Export, nodes: seq<Record>, w: nat, h: nat)
  {
    |e.frames| == |nodes| &&
    forall i :: 0 <= i < |nodes| ==> e.frames[i] == FrameFor(nodes, i, w, h)
  }

  /** Children that each give exactly one entry, in order, gather to those entries. */
  lemma {:induction false} GatheredEach(cs: seq<SceneChild>, t: seq<NodeData>)
    requires |cs| == |t|
    requires forall k :: 0 <= k < |cs| ==> cs[k].isFrame && cs[k].page.Some? && Recovered(cs[k]) == t[k]
    ensures Gathered(cs) == t
  {
    if |cs| > 0 {
      var n := |cs| - 1;
      var cs0, t0 := cs[..n], t[..n];
      assert cs0 == cs[..|cs| - 1];
      GatheredEach(cs0, t0);
      assert t == t0 + [t[n]];
    }
  }

  /** The exported frames, read in creation order, give back every record with its index. */
  lemma ExportGathers(e: Export, nodes: seq<Record>, w: nat, h: nat)
    requires ExportedFrom(e, nodes, w, h)
    ensures Gathered(ReadBack(e).children) == Canonical(nodes)
  {
    var cs, t := ReadBack(e).children, Canonical(nodes);
    forall k | 0 <= k < |cs| ensures cs[k].isFrame && cs[k].page.Some? && Recovered(cs[k]) == t[k] {
      assert cs[k] == SceneChild(true, e.frames[k].name, Some(e.frames[k].page));
      assert e.frames[k] == FrameFor(nodes, k, w, h);
    }
    GatheredEach(cs, t);
  }

  /** Rebuilding from the exported frames, found in any order, gives the exported text. */
  lemma ReconstructRoundTrip(e: Export, nodes: seq<Record>, w: nat, h: nat, cs: seq<SceneChild>)
    requires ExportedFrom(e, nodes, w, h)
    requires multiset(cs) == multiset(ReadBack(e).children)
    ensures ReconstructText(Gathered(cs)) == Render(nodes)
  {
    ExportGathers(e, nodes, w, h);
    GatheredPerm(cs, ReadBack(e).children);
    var sorted := SortByIndex(Gathered(cs));
    SortedIsCanonical(sorted, Canonical(nodes));
    assert DataLines(sorted) == Lines(nodes);
  }

  /** Whichever path the extractor takes on an exported container, with its frames in any
      order, it returns the outline text. */
  lemma ExtractRoundTrip(e: Export, nodes: seq<Record>, w: nat, h: nat, cs: seq<SceneChild>)
    requires ExportedFrom(e, nodes, w, h) && e.sitemapText == Render(nodes)
    requires multiset(cs) == multiset(ReadBack(e).children)
    ensures Extracted(Some(DesignContainer(e.sitemapText, cs))) == Some(Render(nodes))
  {
    ReconstructRoundTrip(e, nodes, w, h, cs);
  }
}
