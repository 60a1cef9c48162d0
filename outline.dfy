/** The flat outline the plugin's UI hands to the code (`msg.nodes`): one record per page,
    in document order, each with its name and its nesting depth. The index of a record in
    this list is its identifier for the duration of one build. */
module Outline {

  datatype Option<T> = None | Some(value: T)

  /** One outline entry: `{name, depth}`. */
  datatype Record = Record(name: string, depth: nat)

  /** A canvas coordinate; every constant of the layouts is an integer. */
  datatype Pos = Pos(x: int, y: int)

  /** The depth column of the outline. */
  function Depths(nodes: seq<Record>): (ds: seq<nat>)
    ensures |ds| == |nodes|
    ensures forall i :: 0 <= i < |nodes| ==> ds[i] == nodes[i].depth
  {
    seq(|nodes|, i requires 0 <= i < |nodes| => nodes[i].depth)
  }

  /** A well-formed outline starts at depth 0 and never goes more than one level deeper
      than the line before it. */
  ghost predicate WellFormed(ds: seq<nat>)
  {
    (|ds| > 0 ==> ds[0] == 0) &&
    forall i :: 0 < i < |ds| ==> ds[i] <= ds[i - 1] + 1
  }

  /** The indices a, a+1, ..., b-1. */
  function Range(a: nat, b: nat): (r: seq<nat>)
    ensures |r| == if a <= b then b - a else 0
    ensures forall k :: 0 <= k < |r| ==> r[k] == a + k
    decreases b - a
  {
    if a >= b then [] else [a] + Range(a + 1, b)
  }

  /** The set of indices a .. b-1. */
  function Interval(a: nat, b: nat): (s: set<nat>)
    ensures forall j :: j in s <==> a <= j < b
    decreases b - a
  {
    if a >= b then {} else {a} + Interval(a + 1, b)
  }

  lemma IntervalJoin(a: nat, m: nat, b: nat)
    requires a <= m <= b
    ensures Interval(a, m) + Interval(m, b) == Interval(a, b)
  {
  }

  lemma {:induction false} RangeSplit(a: nat, m: nat, b: nat)
    requires a <= m <= b
    ensures Range(a, b) == Range(a, m) + Range(m, b)
  {
    var l, r := Range(a, b), Range(a, m) + Range(m, b);
    assert |l| == |r|;
    forall k | 0 <= k < |l| ensures l[k] == r[k] {
      if k < m - a {
        assert r[k] == Range(a, m)[k];
      } else {
        assert r[k] == Range(m, b)[k - (m - a)];
      }
    }
  }

  lemma RangeCons(a: nat, m: nat, b: nat)
    requires a < m <= b
    ensures Range(a, b) == [a] + Range(a + 1, m) + Range(m, b)
  {
    RangeSplit(a + 1, m, b);
  }
}
