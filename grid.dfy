/** The grid of `exportToFigmaDesign` (code.js:390-415, 483-492): one design frame per
    record, five to a row, 100 apart; a container that leaves 100 of padding around the
    frames; each frame shifted into the container by that padding. Frame sizes are the
    whole numbers the UI sends. */
module Grid {
  import opened Outline

  const FrameSpacing := 100
  const FramesPerRow := 5
  const Padding := 100

  /** Slot i of the grid: column i mod 5, row i div 5, each cell the frame size plus the
      spacing. */
  function Slot(i: nat, w: nat, h: nat): Pos
  {
    Pos((i % 5) * (w + 100), (i / 5) * (h + 100))
  }

  /** The `positions.push` loop (code.js:396-405). */
  method GridPositions(n: nat, frameWidth: nat, frameHeight: nat) returns (positions: seq<Pos>)
    ensures |positions| == n
    ensures forall i :: 0 <= i < n ==> positions[i] == Slot(i, frameWidth, frameHeight)
  {
    positions := [];
    for i := 0 to n
      invariant |positions| == i
      invariant forall j :: 0 <= j < i ==> positions[j] == Slot(j, frameWidth, frameHeight)
    {
      var row := i / FramesPerRow;
      var col := i % FramesPerRow;
      positions := positions + [Pos(col * (frameWidth + FrameSpacing), row * (frameHeight + FrameSpacing))];
    }
  }

  /** `Math.max(...xs)` on a non-empty list. */
  function MaxOf(xs: seq<int>): (m: int)
    requires |xs| > 0
    ensures m in xs
    ensures forall k :: 0 <= k < |xs| ==> xs[k] <= m
  {
    if |xs| == 1 then xs[0]
    else
      var rest := MaxOf(xs[1..]);
      if xs[0] >= rest then xs[0] else rest
  }

  function Xs(ps: seq<Pos>): (xs: seq<int>)
    ensures |xs| == |ps| && forall k :: 0 <= k < |ps| ==> xs[k] == ps[k].x
  {
    seq(|ps|, k requires 0 <= k < |ps| => ps[k].x)
  }

  function Ys(ps: seq<Pos>): (ys: seq<int>)
    ensures |ys| == |ps| && forall k :: 0 <= k < |ps| ==> ys[k] == ps[k].y
  {
    seq(|ps|, k requires 0 <= k < |ps| => ps[k].y)
  }

  /** The container of code.js:409-415: the farthest frame corner plus padding on both
      sides. */
  datatype Bounds = Bounds(maxX: int, maxY: int, width: int, height: int)

  function ContainerBounds(positions: seq<Pos>, frameWidth: nat, frameHeight: nat): Bounds
    requires |positions| > 0
  {
    var maxX := MaxOf(Xs(positions)) + frameWidth;
    var maxY := MaxOf(Ys(positions)) + frameHeight;
    Bounds(maxX, maxY, maxX + Padding * 2, maxY + Padding * 2)
  }

  /** Where frame i goes inside the container (code.js:489-492). */
  function FrameAt(i: nat, w: nat, h: nat): Pos
  {
    var s := Slot(i, w, h);
    Pos(s.x + Padding, s.y + Padding)
  }

  // ---------------------------------------------------------------------------------
  // Properties of the grid

  function Min(a: int, b: int): int { if a <= b then a else b }

  lemma MulMono(a: nat, b: nat, c: nat)
    requires a <= b
    ensures a * c <= b * c
  {
  }

  /** The slots of n frames. */
  ghost function Slots(n: nat, w: nat, h: nat): (ps: seq<Pos>)
    ensures |ps| == n && forall i :: 0 <= i < n ==> ps[i] == Slot(i, w, h)
  {
    seq(n, i requires 0 <= i < n => Slot(i, w, h))
  }

  /** A list holding slot i at every i is the list of slots. */
  lemma SlotsAre(positions: seq<Pos>, n: nat, w: nat, h: nat)
    requires |positions| == n && forall i :: 0 <= i < n ==> positions[i] == Slot(i, w, h)
    ensures positions == Slots(n, w, h)
  {
  }

  /** For n >= 1 frames the farthest frame edge is at x = (min(n, 5) - 1)(w + 100) + w and
      y = ((n - 1) div 5)(h + 100) + h, and the container is 200 larger each way. */
  lemma BoundsClosedForm(n: nat, w: nat, h: nat)
    requires n >= 1
    ensures var b := ContainerBounds(Slots(n, w, h), w, h);
      b.maxX == (Min(n, 5) - 1) * (w + 100) + w &&
      b.maxY == ((n - 1) / 5) * (h + 100) + h &&
      b.width == b.maxX + 200 && b.height == b.maxY + 200
  {
    var ps := Slots(n, w, h);
    var xs, ys := Xs(ps), Ys(ps);
    var c := Min(n, 5) - 1;
    forall i | 0 <= i < n ensures xs[i] <= c * (w + 100) && ys[i] <= ((n - 1) / 5) * (h + 100) {
      MulMono(i % 5, c, w + 100);
      DivMono(i, n - 1);
      MulMono(i / 5, (n - 1) / 5, h + 100);
    }
    assert xs[c] == c * (w + 100);
    assert ys[n - 1] == ((n - 1) / 5) * (h + 100);
    MaxIs(xs, c * (w + 100));
    MaxIs(ys, ((n - 1) / 5) * (h + 100));
  }

  lemma DivMono(a: nat, b: nat)
    requires a <= b
    ensures a / 5 <= b / 5
  {
  }

  /** A list's maximum is any element that bounds all the others. */
  lemma MaxIs(xs: seq<int>, m: int)
    requires m in xs && forall k :: 0 <= k < |xs| ==> xs[k] <= m
    ensures MaxOf(xs) == m
  {
  }

  /** Cells a < b of a row or column of cells c + 100 wide leave 100 between a frame of
      width c in cell a and cell b. */
  lemma Gap(a: nat, b: nat, c: nat)
    requires a < b
    ensures a * (c + 100) + c < b * (c + 100)
  {
    MulMono(a + 1, b, c + 100);
    assert (a + 1) * (c + 100) == a * (c + 100) + c + 100;
  }

  /** Two different frames never overlap: they are a whole cell apart in a row or column. */
  lemma FramesDisjoint(i: nat, j: nat, w: nat, h: nat)
    requires i != j
    ensures var a, b := FrameAt(i, w, h), FrameAt(j, w, h);
      a.x + w < b.x || b.x + w < a.x || a.y + h < b.y || b.y + h < a.y
  {
    var ci, cj, ri, rj := i % 5, j % 5, i / 5, j / 5;
    assert FrameAt(i, w, h) == Pos(ci * (w + 100) + 100, ri * (h + 100) + 100);
    assert FrameAt(j, w, h) == Pos(cj * (w + 100) + 100, rj * (h + 100) + 100);
    if ri == rj {
      assert ci != cj;
      if ci < cj {
        Gap(ci, cj, w);
      } else {
        Gap(cj, ci, w);
      }
    } else if ri < rj {
      Gap(ri, rj, h);
    } else {
      Gap(rj, ri, h);
    }
  }

  /** Every frame of n lies inside the container with at least the padding to spare. */
  lemma FramesInside(n: nat, w: nat, h: nat, i: nat)
    requires i < n
    ensures var b, f := ContainerBounds(Slots(n, w, h), w, h), FrameAt(i, w, h);
      Padding <= f.x && f.x + w + Padding <= b.width &&
      Padding <= f.y && f.y + h + Padding <= b.height
  {
    var ps := Slots(n, w, h);
    var xs, ys := Xs(ps), Ys(ps);
    var s := Slot(i, w, h);
    assert xs[i] == s.x && ys[i] == s.y;
    assert s.x <= MaxOf(xs) && s.y <= MaxOf(ys);
    assert 0 <= s.x && 0 <= s.y by {
      MulMono(0, i % 5, w + 100);
      MulMono(0, i / 5, h + 100);
    }
  }

  /** Twelve 300 x 200 frames: frame 5 opens the second row at slot (0, 300); the
      container is 2100 x 1000. */
  lemma TwelveFramesExample(n: nat, w: nat, h: nat)
    requires n == 12 && w == 300 && h == 200
    ensures Slot(5, w, h) == Pos(0, 300)
    ensures FrameAt(5, w, h) == Pos(100, 400)
    ensures ContainerBounds(Slots(n, w, h), w, h) == Bounds(1900, 800, 2100, 1000)
  {
    BoundsClosedForm(n, w, h);
  }
}
