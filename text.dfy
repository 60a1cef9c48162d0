/** The outline text the exporter stores on its container (code.js:469) and the
    reconstruction re-renders (code.js:71-76): one line per record, two spaces per level of
    depth followed by the name, lines joined by '\n'. */
module Text {
  import opened Outline

  /** `'  '.repeat(d)`. */
  function Indent(d: nat): (s: string)
    ensures |s| == 2 * d
    ensures forall k :: 0 <= k < |s| ==> s[k] == ' '
  {
    if d == 0 then "" else "  " + Indent(d - 1)
  }

  /** `'  '.repeat(n.depth) + n.name`. */
  function Line(r: Record): string
  {
    Indent(r.depth) + r.name
  }

  /** `nodes.map(...)` into lines. */
  function Lines(nodes: seq<Record>): (ls: seq<string>)
    ensures |ls| == |nodes|
    ensures forall i :: 0 <= i < |nodes| ==> ls[i] == Line(nodes[i])
  {
    seq(|nodes|, i requires 0 <= i < |nodes| => Line(nodes[i]))
  }

  /** `lines.join('\n')`: no separator before the first line or after the last. */
  function Join(lines: seq<string>): string
  {
    if |lines| == 0 then ""
    else if |lines| == 1 then lines[0]
    else lines[0] + "\n" + Join(lines[1..])
  }

  /** The stored sitemap text. */
  function Render(nodes: seq<Record>): string
  {
    Join(Lines(nodes))
  }

  /** JavaScript's `s.split('\n')`: the pieces between newlines, with an empty piece at
      either end when s starts or ends with one; the empty string gives one empty piece. */
  function Split(s: string): (parts: seq<string>)
    ensures |parts| >= 1
    decreases |s|
  {
    if |s| == 0 then [""]
    else if s[0] == '\n' then [""] + Split(s[1..])
    else
      var rest := Split(s[1..]);
      [[s[0]] + rest[0]] + rest[1..]
  }

  ghost predicate NoNewline(s: string)
  {
    forall k :: 0 <= k < |s| ==> s[k] != '\n'
  }

  /** Splitting a newline-free prefix onto t glues it to t's first piece. */
  lemma {:induction false} SplitPrefix(l: string, t: string)
    requires NoNewline(l)
    ensures Split(l + t) == [l + Split(t)[0]] + Split(t)[1..]
    decreases |l|
  {
    if |l| > 0 {
      assert (l + t)[0] == l[0] && (l + t)[1..] == l[1..] + t;
      SplitPrefix(l[1..], t);
      assert [l[0]] + (l[1..] + Split(t)[0]) == l + Split(t)[0];
    } else {
      assert l + t == t && l + Split(t)[0] == Split(t)[0];
      assert Split(t) == [Split(t)[0]] + Split(t)[1..];
    }
  }

  /** Splitting joined newline-free lines gives the lines back. */
  lemma {:induction false} SplitJoin(lines: seq<string>)
    requires |lines| >= 1
    requires forall k :: 0 <= k < |lines| ==> NoNewline(lines[k])
    ensures Split(Join(lines)) == lines
  {
    if |lines| == 1 {
      SplitPrefix(lines[0], "");
      assert lines[0] + "" == lines[0];
    } else {
      var rest := Join(lines[1..]);
      SplitJoin(lines[1..]);
      assert lines[0] + "\n" + rest == lines[0] + ("\n" + rest);
      SplitPrefix(lines[0], "\n" + rest);
      assert ("\n" + rest)[0] == '\n' && ("\n" + rest)[1..] == rest;
      assert Split("\n" + rest) == [""] + lines[1..];
      assert lines[0] + "" == lines[0];
    }
  }

  /** A line never contains a newline when its name does not. */
  lemma LineNoNewline(r: Record)
    requires NoNewline(r.name)
    ensures NoNewline(Line(r))
  {
    var l := Line(r);
    forall k | 0 <= k < |l| ensures l[k] != '\n' {
      if k >= 2 * r.depth {
        assert l[k] == r.name[k - 2 * r.depth];
      }
    }
  }

  /** The stored text of a non-empty outline whose names have no newline has one line per
      record, line i being 2 x depth(i) spaces followed by name(i). */
  lemma RenderLines(nodes: seq<Record>)
    requires |nodes| >= 1
    requires forall i :: 0 <= i < |nodes| ==> NoNewline(nodes[i].name)
    ensures Split(Render(nodes)) == Lines(nodes)
    ensures forall i :: 0 <= i < |nodes| ==> Split(Render(nodes))[i] == Indent(nodes[i].depth) + nodes[i].name
  {
    var ls := Lines(nodes);
    forall k | 0 <= k < |ls| ensures NoNewline(ls[k]) {
      LineNoNewline(nodes[k]);
    }
    SplitJoin(ls);
  }

  /** The number of leading spaces. */
  function LeadingSpaces(s: string): (n: nat)
    ensures n <= |s|
  {
    if |s| > 0 && s[0] == ' ' then 1 + LeadingSpaces(s[1..]) else 0
  }

  lemma {:induction false} LeadingSpacesLine(d: nat, name: string)
    requires name == [] || name[0] != ' '
    ensures LeadingSpaces(Indent(d) + name) == 2 * d
  {
    if d > 0 {
      var rest := Indent(d - 1) + name;
      assert Indent(d) + name == " " + (" " + rest);
      assert (" " + (" " + rest))[1..] == " " + rest;
      assert (" " + rest)[1..] == rest;
      LeadingSpacesLine(d - 1, name);
    } else {
      assert Indent(d) + name == name;
    }
  }

  /** A line determines its record when names do not start with a space: the depth is half
      the indentation and the name is the rest. */
  lemma LineInjective(a: Record, b: Record)
    requires a.name == [] || a.name[0] != ' '
    requires b.name == [] || b.name[0] != ' '
    requires Line(a) == Line(b)
    ensures a == b
  {
    LeadingSpacesLine(a.depth, a.name);
    LeadingSpacesLine(b.depth, b.name);
    assert a.depth == b.depth;
    assert a.name == Line(a)[2 * a.depth..];
    assert b.name == Line(b)[2 * b.depth..];
  }
}
