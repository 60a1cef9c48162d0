/** `createSitemap` (code.js:175-339) without its drawing calls: an empty outline stops
    at once; otherwise the forest is built, laid out, and the connectors are derived. */
module Sitemap {
  import opened Outline
  import opened Forest
  import opened TreeLayout
  import opened Edges

  /** What the drawing calls are fed: one box per record at its position, and the
      connectors between boxes. */
  datatype Sitemap = Sitemap(positions: map<nat, Pos>, edges: seq<Edge>)

  method CreateSitemap(nodes: seq<Record>) returns (r: Option<Sitemap>)
    ensures |nodes| == 0 <==> r.None?
    ensures r.Some? ==> r.value.positions == Positions(Depths(nodes))
    ensures r.Some? ==> r.value.edges == Connectors(Depths(nodes), |nodes|)
  {
    if |nodes| == 0 {
      return None;
    }
    var ds := Depths(nodes);
    var f := BuildForest(nodes);
    var layout := new Layout(ds, f);
    layout.LayoutForest(f.roots);
    var edges := DeriveEdges(nodes);
    return Some(Sitemap(layout.positions, edges));
  }

  /** Every record of a built sitemap is placed exactly once, and each connector joins two
      placed records. */
  lemma {:induction false} SitemapPlacesAll(nodes: seq<Record>, s: Sitemap)
    requires s.positions == Positions(Depths(nodes))
    requires s.edges == Connectors(Depths(nodes), |nodes|)
    ensures s.positions.Keys == Interval(0, |nodes|)
    ensures forall k :: 0 <= k < |s.edges| ==>
      s.edges[k].parent in s.positions && s.edges[k].child in s.positions
  {
    var ds := Depths(nodes);
    forall k | 0 <= k < |s.edges|
      ensures s.edges[k].parent in s.positions && s.edges[k].child in s.positions
    {
      assert s.edges[k] in Connectors(ds, |ds|);
      EdgeIff(ds, s.edges[k]);
    }
  }
}
