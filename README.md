# Sitemap plugin: verified model of its layout and export logic

The plugin in `code.js` receives an outline: a list of `{name, depth}` records, one per
page. From it the plugin draws, in a diagram editor, either a sitemap (boxes joined by
connectors) or a grid of page-design frames. Nearly all of the code drives the editor's
host API. This project models the self-contained integer and sequence logic in between,
and proves what that logic computes.

- **Forest builder** (`Forest`): the depth-stack loop of `createSitemap`. It pops entries
  that are at least as deep as the current record, attaches the record to the new top (or
  makes it a root), and pushes it. `BuildForest` is proved to produce `ForestOf(ds)`. In
  that forest a record's parent is the nearest earlier record with strictly smaller
  depth, and children are listed in index order. A pre-order walk visits `0 .. N-1` once
  each, in ascending order.
- **Tree layout** (`TreeLayout`): `layoutTree` and the root loop, as a class `Layout` that
  owns the `positions` map. The methods are proved to write exactly `Positions(ds)`:
  - the k-th root goes to `(500 k, 0)`;
  - the j-th child of a node at `(x, y)` goes to `(x + 250 j, y + 200)`;
  - y is 200 times the number of forest ancestors.

  Subtrees are not kept apart. Two worked outlines show distinct records placed at the
  same point.
- **Connectors** (`Edges`): the `depthStack` loop. It is independent of the forest, and its
  table is never cut back. A record at depth d > 0 is connected from the last earlier
  record of depth d - 1, when there is one. On well-formed outlines (the first record at depth
  0, and no record more than one level deeper than the record before it; a return to any
  shallower level is allowed) the connectors are exactly the forest's parent-child pairs.
  On other outlines they differ, and worked examples show this. `Sitemap.CreateSitemap`
  puts the three pieces together.
- **Grid** (`Grid`): the export's frame slots are
  `(i mod 5 · (W + 100), i div 5 · (H + 100))`. The container bounds are the farthest slot
  plus the frame size, plus 100 of padding on every side, and each frame sits 100 inside
  its slot. The bounds have a closed form. Frames never overlap, and all of them lie
  inside the container.
- **Outline text and its reconstruction** (`Text`, `Designs`):
  - The stored text is one line per record: two spaces per level, then the name, with
    lines joined by newlines.
  - `extractSitemapFromDesigns` returns the stored text when there is one. Otherwise it
    gathers `(index, name, depth)` from the page frames, sorts by index, and re-renders.
  - An exported container gives back the exported text whatever order its frames are
    found in.

## Model

| member | source | states |
|---|---|---|
| `Forest.ParentOf` | code.js:201-209 | the parent found for record i is an earlier record with strictly smaller depth, or -1 |
| `Forest.ParentOfSpec` | code.js:201-203 | every record strictly between the parent and i is at least as deep as i (the pops removed them) |
| `Forest.ParentOfIs` | code.js:201-209 | any p that is an earlier, shallower record with no shallower record after it, or -1 when none exists, is the parent |
| `Forest.NearestSmallerIs` | code.js:201-203 | scanning backwards for the first depth below d finds the nearest such record, or -1 when every earlier record is at least d deep |
| `Forest.Kids` | code.js:205-209 | every listed child lies in the scanned range and has p as its parent |
| `Forest.KidsIncreasing` | code.js:206-208 | children (and roots) are listed in strictly increasing index order |
| `Forest.KidsRank` | code.js:206-208 | the k-th child of p is preceded by exactly k children of p |
| `Forest.End` | code.js:201-203 | the end of p's block lies after p, and the record there, if any, is no deeper than p |
| `Forest.EndSpec` | code.js:201-203 | every record inside p's block is strictly deeper than p |
| `Forest.ChildInBlock` | code.js:201-209 | a child lies inside its parent's block |
| `Forest.BlockNested` | code.js:201-209 | a record's block ends no later than its parent's block |
| `Forest.FirstChild` | code.js:205-206 | the record right after a, inside a's block, is a child of a |
| `Forest.NextSibling` | code.js:205-209 | the record that ends a's block, when still inside the parent's block, is a's next sibling |
| `Forest.NoSiblingInBlock` | code.js:201-209 | every record inside a's block descends at or below a (its parent index is at least a) |
| `Forest.SiblingsTile` | code.js:205-209 | the children of p from a on are a followed by the children from a's block end on; the blocks tile p's block |
| `Forest.WalkFrom` | code.js:219-231 | the pre-order walk of p's children from a on visits exactly the indices from a to the end of p's block, in order |
| `Forest.PreOrderCons` | code.js:222-227 | pre-order visits a node, then its subtree, then its remaining siblings |
| `Forest.PreOrderVisitsAll` | code.js:197-212 | a pre-order walk of the roots visits 0 .. N-1, each once, in ascending order |
| `Forest.ChildIff` | code.js:201-209 | c is a child of p exactly when p < c, p is shallower than c, and no record between them is shallower than c |
| `Forest.RootIff` | code.js:207-208 | c is a root exactly when no earlier record is shallower than c |
| `Forest.WellFormedParent` | code.js:201-209 | on a well-formed outline, the roots are exactly the depth-0 records, and a parent is one level up |
| `Forest.PopLeavesParent` | code.js:201-211 | after the pops the stack top is the parent of i (empty stack: i is a root), and pushing i restores the stack invariant |
| `Forest.PushKeepsStack` | code.js:211 | pushing i onto the popped stack gives exactly the open records, ordered by index and depth |
| `Forest.PushSorted` | code.js:211 | the pushed stack is strictly increasing in index and in depth |
| `Forest.PushOpen` | code.js:201-211 | an earlier record is on the pushed stack exactly when no later record up to i is at its depth or shallower |
| `Forest.ChildrenBeforeStep` | code.js:205-209 | record i is appended to its parent's children (or to the roots), and no other list changes |
| `Forest.PopDeeper` | code.js:201-203 | the pop loop leaves a prefix of the stack; every popped entry is at least as deep, and the new top is shallower |
| `Forest.BuildForest` | code.js:194-212 | the built roots and children lists are exactly those of `ForestOf`: each record under its nearest shallower predecessor, in index order |
| `TreeLayout.RootPosition` | code.js:233-238 | the k-th root is placed at (500 k, 0) |
| `TreeLayout.ChildPosition` | code.js:219-231 | the j-th child of a node at (x, y) is placed at (x + 250 j, y + 200) |
| `TreeLayout.LevelAtMostDepth` | code.js:226 | a record's row is never below its depth: it has at most depth-many forest ancestors |
| `TreeLayout.LevelIsDepth` | code.js:226 | on a well-formed outline, y = 200 · depth |
| `TreeLayout.SiblingsCover` | code.js:222-227 | the subtrees of p's children from a on cover exactly the indices from a to the end of p's block |
| `TreeLayout.SpanSplit` | code.js:222-227 | a subtree is its root plus its children's subtrees |
| `TreeLayout.RootsCoverAll` | code.js:233-238 | the root trees together cover exactly the indices 0 .. N-1 |
| `TreeLayout.AllPlaced` | code.js:233-238 | placing every root tree places every record at its `Spot` |
| `TreeLayout.Layout.constructor` | code.js:217 | the layout starts with an empty `positions` map over the built forest |
| `TreeLayout.Layout.LayoutTree` | code.js:219-231 | `layoutTree(nodeList, x, y)` adds, for every record in the listed subtrees, exactly its target position, and changes nothing else |
| `TreeLayout.Layout.PlaceNode` | code.js:222-230 | one iteration places the k-th sibling at x + 250 k and lays out its children one row down |
| `TreeLayout.Layout.LayoutForest` | code.js:233-238 | the root loop adds exactly `Positions(ds)`: every record gets exactly one position |
| `TreeLayout.Layout.LayoutRoot` | code.js:235-237 | one root iteration lays out the k-th root tree from x = 500 k |
| `TreeLayout.OverlapExample` | code.js:222-229 | depths 0,1,2,2,1,2: records 3 and 5 are both placed at (250, 400) |
| `TreeLayout.RootOverlapExample` | code.js:234-237 | depths 0,1,1,1,0,1: records 3 and 5 are both placed at (500, 200) |
| `TreeLayout.ChildSpots` | code.js:225-226 | a node's children form the row one level below, starting at the node's own x |
| `Edges.LastAt` | code.js:304 | the entry `depthStack[d]` after k records is an earlier record of depth d, or -1 |
| `Edges.LastAtIsLast` | code.js:304 | no record after that entry and before k has depth d |
| `Edges.LastAtIff` | code.js:304 | the entry for d is p exactly when p has depth d and is the last such record, or -1 when there is none |
| `Edges.StackAtIs` | code.js:297-304 | d is defined in `depthStack` exactly when an earlier record has depth d, and then it holds the last such index |
| `Edges.Connectors` | code.js:299-331 | every connector drawn for the first n records enters one of them |
| `Edges.ConnectorsHas` | code.js:299-331 | an edge is drawn exactly when its child is among the records and it is that child's connector |
| `Edges.ConnectorsOrdered` | code.js:299-331 | connectors come in strictly increasing child order, so no record has two incoming connectors |
| `Edges.ConnectorsStep` | code.js:304-310 | one more record adds one connector when its depth is positive and the entry one level up is defined, otherwise none |
| `Edges.EdgeIff` | code.js:299-310 | p→c is drawn exactly when depth[c] > 0, p < c, depth[p] = depth[c] - 1, and no record between them has depth depth[c] - 1 |
| `Edges.NoEdgeIff` | code.js:307-310 | a record gets no connector exactly when it is at depth 0 or no earlier record is one level up |
| `Edges.DeriveEdges` | code.js:297-331 | the loop emits exactly `Connectors`, in creation order |
| `Edges.WellFormedEdgeInto` | code.js:304-310 | on a well-formed outline, the connector into c comes from c's forest parent, and roots get none |
| `Edges.EdgesAreForest` | code.js:304-310 | on a well-formed outline, p→c is drawn exactly when c is a forest child of p |
| `Edges.RootsHaveNoEdge` | code.js:307-310 | on a well-formed outline, a record is a root exactly when no connector enters it |
| `Edges.SiblingsExample` | code.js:299-310 | depths 0,1,1,2 give the connectors 0→1, 0→2, 2→3 |
| `Edges.StaleEntryExample` | code.js:304-310 | depths 0,1,2,0,2 give 1→4, while the forest makes 4 a child of 3 |
| `Edges.SkippedLevelExample` | code.js:307-310 | depths 0,2 give no connector, yet record 1 is a forest child of 0 placed at (0, 200) |
| `Sitemap.CreateSitemap` | code.js:175-331 | an empty outline gives nothing; otherwise the positions are `Positions(ds)` and the connectors are `Connectors(ds, N)` |
| `Sitemap.SitemapPlacesAll` | code.js:241-312 | every record has a position, and both ends of every connector do (the `positions.get` and `nodeMap.get` lookups never miss) |
| `Grid.GridPositions` | code.js:396-405 | the slot list has N entries, and entry i is (i mod 5 · (W+100), i div 5 · (H+100)) |
| `Grid.MaxOf` | code.js:409-410 | `Math.max` of a non-empty list is one of its elements and bounds all of them |
| `Grid.BoundsClosedForm` | code.js:409-415 | for N ≥ 1: maxX = (min(N,5)-1)·(W+100)+W, maxY = ((N-1) div 5)·(H+100)+H, and the container is 200 larger each way |
| `Grid.FramesDisjoint` | code.js:396-405 | two different frames never overlap |
| `Grid.FramesInside` | code.js:409-415 | every frame lies inside the container with at least the padding to spare on each side |
| `Grid.TwelveFramesExample` | code.js:396-415 | N=12, W=300, H=200: slot 5 is (0, 300), frame 5 is at (100, 400), and the container is 2100 × 1000 |
| `Text.Indent` | code.js:469 | `'  '.repeat(d)` is 2d spaces |
| `Text.SplitJoin` | code.js:469 | splitting newline-free lines joined by newlines gives the lines back |
| `Text.RenderLines` | code.js:469 | the stored text has N lines, and line i is 2·depth[i] spaces then name[i], when names have no newline |
| `Text.LineInjective` | code.js:469 | a line determines its record when names do not start with a space |
| `Designs.GatherFrames` | code.js:56-65 | the gathering loop yields `Gathered(children)`: one entry per page frame, in child order |
| `Designs.GatheredAppend` | code.js:56-65 | gathering a concatenation concatenates the gathered entries |
| `Designs.GatheredPerm` | code.js:56-65 | children found in another order give the same entries in another order |
| `Designs.Insert` | code.js:68 | inserting adds exactly one entry |
| `Designs.InsertSorted` | code.js:68 | inserting into a list sorted by index keeps it sorted |
| `Designs.SortByIndex` | code.js:68 | the sort returns a permutation of its input, sorted by index |
| `Designs.SortedIsCanonical` | code.js:68 | a sorted permutation of entries whose entry i has index i is those entries |
| `Designs.ExtractSitemapFromDesigns` | code.js:42-80 | no container gives nothing; a stored text is returned unchanged; otherwise the text is rebuilt from the sorted page frames |
| `Designs.ExportToFigmaDesign` | code.js:342-503 | the container bounds come from the slots; the stored text is the rendered outline; frame i has record i's name, sits at its slot + 100, and carries index i, the name and the depth |
| `Designs.GatheredEach` | code.js:56-65 | children that each give one entry, in order, gather to exactly those entries |
| `Designs.ExportGathers` | code.js:482-503 | the exported frames, read in creation order, give back every record with its index |
| `Designs.ReconstructRoundTrip` | code.js:55-76 | rebuilding from the exported frames, found in any order, reproduces the exported text exactly |
| `Designs.ExtractRoundTrip` | code.js:42-76 | extracting from an exported container, with its frames in any order, returns the text that was exported |

## Left out

- Every call into the editor's host API is left out: creating rectangles, text, frames,
  connectors, sections and pages; `resize`; fills and strokes; fonts; selection and
  viewport; notifications and UI messages. The model keeps what those calls are fed:
  positions, connector endpoints, frame geometry and plugin data.
- Plugin data is modelled as already-decoded values. `setPluginData`/`getPluginData` and
  `parseInt`/`toString` are not modelled. A frame's page data is `Some` exactly when its
  `pageDepth` entry is set. The exporter always sets it, and the string it writes is never
  empty.
- The page and section capability probes and the try/catch plumbing of
  `exportToFigmaDesign` and `extractSitemapFromDesigns` are not modelled. Neither are the
  container's descriptive name, its `pageDesigns` marker entry (code.js:468), its
  `createdAt` timestamp, nor the `pageCount`, `frameWidth` and `frameHeight` entries.
- Styling constants are not modelled: colours, font sizes, text offsets, box size,
  "Level n" labels.
- `checkExistingSitemaps` and `extractSitemapText` are stubs, and the `update` and
  `delete-all` branches built on them are left out. So is `checkExistingPageDesigns`, a
  search of the host's scene graph. `extractSitemapFromDesigns` is modelled although
  nothing in the file calls it.
- `Designs.ExportToFigmaDesign`: requires at least one record. On an empty outline
  `Math.max()` is `-Infinity`, so `maxX`, `maxY` and the container size are `-Infinity`.
- Depths are natural numbers, so `depth || 0` in the connector loop is the identity.
  Coordinates and frame sizes are integers, and no floating point is modelled.
- `Designs.SortByIndex`: its contract states sortedness and permutation, not stability.
  The insertion it uses keeps equal indices in input order, as `Array.prototype.sort`
  does. The round-trip lemmas do not need stability, because exported indices are
  distinct.
- In the JavaScript, nodes are objects whose `children` arrays are appended to in place,
  and the stack holds references to them. The model keeps one list of child indices per
  record, so object identity and aliasing are not represented.
- `TreeLayout.Layout.PlaceNode` and `TreeLayout.Layout.LayoutRoot` are the bodies of the
  two layout loops, written as methods of their own. `Edges.ConnectorsStep` and the
  `Forest` stack lemmas carry the reasoning for one iteration of their loops.
- `Text.RenderLines`: states the line structure only when no name contains a newline. A
  name with a newline would split into two lines.
- A JavaScript `Map` keyed by record index and the sparse `depthStack` array are modelled
  as Dafny maps.
