/** The RasterGraph object of segmenter.js: a w×h pixel grid whose 4-neighbour
    edges are kept as one byte per pixel and can only be cut, plus the flood fill
    that extracts its connected components, the bounding box of a component, and
    `segmenter`, which cuts every edge between pixels of different classes. */
module Raster {
  import opened Grid
  import opened FloodFill
  import opened Segmentation

  /** The byte array the RasterGraph constructor builds: all bits set, then the
      east bit cleared along the last column and the south bit along the last row. */
  method FreshMask(w: nat, h: nat) returns (a: array<bv8>)
    ensures fresh(a) && a.Length == w * h
    ensures forall x, y :: InGrid(w, h, x, y) ==>
      Index(w, x, y) < a.Length && a[Index(w, x, y)] == FreshByte(x + 1 < w, y + 1 < h)
  {
    var n := w * h;
    a := new bv8[n];
    for i := 0 to n
      invariant forall k :: 0 <= k < i ==> a[k] == 3
    {
      a[i] := 3;
    }
    forall x, y | InGrid(w, h, x, y) ensures Index(w, x, y) < n {
      PixelIsAddress(w, h, x, y);
    }
    CloseLastColumn(a, w, h);
    CloseLastRow(a, w, h);
  }

  /** The constructor's first border loop: the last pixel of every row loses its east
      edge. */
  method CloseLastColumn(a: array<bv8>, w: nat, h: nat)
    requires a.Length == w * h
    requires forall x, y :: InGrid(w, h, x, y) ==> Index(w, x, y) < a.Length && a[Index(w, x, y)] == 3
    modifies a
    ensures forall x, y :: InGrid(w, h, x, y) ==>
      Index(w, x, y) < a.Length && a[Index(w, x, y)] == FreshByte(x + 1 < w, true)
  {
    var n := w * h;
    for i := 0 to h
      invariant forall x, y :: InGrid(w, h, x, y) ==>
        Index(w, x, y) < n && a[Index(w, x, y)] == FreshByte(!(x == w - 1 && y < i), true)
    {
      var k := i * w + w - 1;
      if 0 <= k < n {
        ClearPixel(a[..], w, h, w - 1, i, EAST);
        a[k] := a[k] & !EAST;
      }
    }
  }

  /** The constructor's second border loop: every pixel of the last row loses its
      south edge. */
  method CloseLastRow(a: array<bv8>, w: nat, h: nat)
    requires a.Length == w * h
    requires forall x, y :: InGrid(w, h, x, y) ==>
      Index(w, x, y) < a.Length && a[Index(w, x, y)] == FreshByte(x + 1 < w, true)
    modifies a
    ensures forall x, y :: InGrid(w, h, x, y) ==>
      Index(w, x, y) < a.Length && a[Index(w, x, y)] == FreshByte(x + 1 < w, y + 1 < h)
  {
    var n := w * h;
    for i := 0 to w
      invariant forall x, y :: InGrid(w, h, x, y) ==>
        Index(w, x, y) < n && a[Index(w, x, y)] == FreshByte(x + 1 < w, !(y == h - 1 && x < i))
    {
      var k := i + n - w;
      if 0 <= k < n {
        assert k == Index(w, i, h - 1);
        ClearPixel(a[..], w, h, i, h - 1, SOUTH);
        a[k] := a[k] & !SOUTH;
      }
    }
  }

  class RasterGraph {
    const width: nat
    const height: nat
    /** One byte per pixel: bit EAST for the edge to (x + 1, y), bit SOUTH for (x, y + 1). */
    const m: array<bv8>
    /** Number of calls to CutEastEdge and CutSouthEdge (a statistic only). */
    var cuts: nat

    ghost predicate Valid()
      reads this, m
    {
      BordersClosed(m[..], width, height)
    }

    /** A fully connected grid: every pixel is joined to its east neighbour unless it
        is in the last column and to its south neighbour unless it is in the last row. */
    constructor (w: nat, h: nat)
      ensures width == w && height == h && cuts == 0 && fresh(m)
      ensures Valid()
      ensures forall x, y :: InGrid(w, h, x, y) ==>
        Index(w, x, y) < m.Length && m[Index(w, x, y)] == FreshByte(x + 1 < w, y + 1 < h)
    {
      var a := FreshMask(w, h);
      FreshIsClosed(a[..], w, h);
      width, height, m, cuts := w, h, a, 0;
    }

    /** cutEdge: clears the bit recording the edge between 4-neighbours p and q;
        the cut counter is not touched. */
    method CutEdge(px: nat, py: nat, qx: nat, qy: nat)
      requires Valid() && InGrid(width, height, px, py) && InGrid(width, height, qx, qy)
      requires Adjacent(px, py, qx, qy)
      modifies m
      ensures Valid()
      ensures m[..] == Cut(old(m[..]), width, px, py, qx, qy)
    {
      var k := Owner(width, px, py, qx, qy);
      ClearKeepsBorders(m[..], width, height, k, EdgeBit(px, qx));
      m[k] := m[k] & !EdgeBit(px, qx);
    }

    /** getEdge: non-zero exactly when the flood fill's neighbour test joins p and q. */
    function GetEdge(px: nat, py: nat, qx: nat, qy: nat): (e: bv8)
      reads this, m
      requires Valid() && InGrid(width, height, px, py) && InGrid(width, height, qx, qy)
      requires Adjacent(px, py, qx, qy)
      ensures e == 0 || e == EdgeBit(px, qx)
      ensures e != 0 <==> Linked(m[..], width, Index(width, px, py), Index(width, qx, qy))
    {
      LinkedIffEdge(m[..], width, height, px, py, qx, qy);
      m[Owner(width, px, py, qx, qy)] & EdgeBit(px, qx)
    }

    /** getEastEdge: the edge from (px, py) to (px + 1, py); always absent in the last column. */
    function GetEastEdge(px: nat, py: nat): (e: bv8)
      reads this, m
      requires Valid() && InGrid(width, height, px, py)
      ensures e == 0 || e == EAST
      ensures px + 1 == width ==> e == 0
      ensures px + 1 < width ==>
        (e != 0 <==> Linked(m[..], width, Index(width, px, py), Index(width, px + 1, py)))
    {
      if px + 1 < width then
        LinkedIffEdge(m[..], width, height, px, py, px + 1, py);
        m[Index(width, px, py)] & EAST
      else
        m[Index(width, px, py)] & EAST
    }

    /** getSouthEdge: the edge from (px, py) to (px, py + 1); always absent in the last row. */
    function GetSouthEdge(px: nat, py: nat): (e: bv8)
      reads this, m
      requires Valid() && InGrid(width, height, px, py)
      ensures e == 0 || e == SOUTH
      ensures py + 1 == height ==> e == 0
      ensures py + 1 < height ==>
        (e != 0 <==> Linked(m[..], width, Index(width, px, py), Index(width, px, py + 1)))
    {
      if py + 1 < height then
        LinkedIffEdge(m[..], width, height, px, py, px, py + 1);
        m[Index(width, px, py)] & SOUTH
      else
        m[Index(width, px, py)] & SOUTH
    }

    /** The four neighbour tests of `visit` (above, below, left, right): the unvisited
        pixels joined to pixel i by a present edge, in the order they are pushed. */
    method Neighbours(flag: array<bool>, i: nat) returns (pushed: seq<nat>)
      requires flag.Length == m.Length && i < m.Length && width > 0 && m.Length % width == 0
      ensures pushed == Pushed(m[..], width, flag[..], i)
    {
      var n, w := flag.Length, width;
      pushed := [];
      if i - w >= 0 && flag[i - w] && m[i - w] & SOUTH != 0 {
        pushed := pushed + [i - w];
      }
      if i + w < n && flag[i + w] && m[i] & SOUTH != 0 {
        pushed := pushed + [i + w];
      }
      if i % w != 0 && flag[i - 1] && m[i - 1] & EAST != 0 {
        pushed := pushed + [i - 1];
      }
      if (i + 1) % w != 0 && flag[i + 1] && m[i] & EAST != 0 {
        pushed := pushed + [i + 1];
      }
    }

    /** The `visit` closure of connectedComponents: an explicit-stack flood fill from
        `seed` over unvisited pixels (flag true), clearing the flag of each pixel it
        takes.  `done` holds the components found before; it is only used in the proof. */
    method Visit(flag: array<bool>, seed: nat, ghost done: seq<seq<nat>>) returns (comp: seq<nat>)
      requires m.Length == width * height && flag.Length == m.Length
      requires (flag as object) != (m as object)
      requires FillPre(m[..], width, flag[..], seed, done)
      modifies flag
      ensures FillResult(m[..], width, old(flag[..]), flag[..], seed, comp)
    {
      ghost var s, f0 := m[..], flag[..];
      FillStart(s, width, f0, seed, done);
      comp := [];
      var stack: seq<nat> := [seed];
      // the member of comp whose neighbour test pushed each stack entry
      ghost var pusher: seq<nat> := [0];
      while |stack| > 0
        invariant m[..] == s
        invariant FillInv(s, width, f0, flag[..], seed, comp, stack, pusher)
        decreases Unvisited(flag[..]), |stack|
      {
        comp, stack, pusher := VisitStep(flag, s, f0, seed, done, comp, stack, pusher);
      }
      FillDone(s, width, f0, flag[..], seed, comp, pusher);
    }

    /** One pass of the `visit` loop: pop the top of the stack and, if that pixel is
        still unvisited, mark it, take it into the component and push its unvisited
        linked neighbours. */
    method VisitStep(flag: array<bool>, ghost s: seq<bv8>, ghost f0: seq<bool>, seed: nat,
                     ghost done: seq<seq<nat>>, comp: seq<nat>, stack: seq<nat>, ghost pusher: seq<nat>)
        returns (comp': seq<nat>, stack': seq<nat>, ghost pusher': seq<nat>)
      requires m.Length == width * height && flag.Length == m.Length && m[..] == s
      requires (flag as object) != (m as object)
      requires FillPre(s, width, f0, seed, done)
      requires FillInv(s, width, f0, flag[..], seed, comp, stack, pusher) && |stack| > 0
      modifies flag
      ensures FillInv(s, width, f0, flag[..], seed, comp', stack', pusher')
      ensures Unvisited(flag[..]) < old(Unvisited(flag[..]))
        || (flag[..] == old(flag[..]) && |stack'| < |stack|)
    {
      ghost var f := flag[..];
      var i := stack[|stack| - 1];
      IndexDivMod(width, 0, height);
      assert m.Length % width == 0;
      if flag[i] {
        flag[i] := false;
        assert flag[..] == f[i := false];
        var pushed := Neighbours(flag, i);
        FillVisit(s, width, f0, f, seed, done, comp, stack, pusher, pushed);
        comp', stack' := comp + [i], stack[..|stack| - 1] + pushed;
        pusher' := pusher[..|stack| - 1] + seq(|pushed|, _ => |comp|);
      } else {
        FillSkip(s, width, f0, f, seed, comp, stack, pusher);
        comp', stack', pusher' := comp, stack[..|stack| - 1], pusher[..|stack| - 1];
      }
    }

    /** connectedComponents: the components of the graph under its present edges, each
        as the list of pixel addresses in the order the flood fill reached them. */
    method ConnectedComponents() returns (comps: seq<seq<nat>>)
      requires Valid()
      ensures IsPartition(comps, m.Length)
      ensures forall ci :: 0 <= ci < |comps| ==> |comps[ci]| > 0
      ensures Closed(m[..], width, comps)
      ensures forall ci :: 0 <= ci < |comps| ==> GrownFromSeed(m[..], width, comps[ci])
      ensures forall ci, k :: 0 <= ci < |comps| && 0 <= k < |comps[ci]| ==> comps[ci][0] <= comps[ci][k]
      ensures forall ci, cj :: 0 <= ci < cj < |comps| ==> comps[ci][0] < comps[cj][0]
    {
      var n := width * height;
      var flag := new bool[n];
      for i := 0 to n
        invariant forall k :: 0 <= k < i ==> flag[k]
      {
        flag[i] := true;
      }
      ScanStart(m[..], width, flag[..]);
      comps := [];
      for i := 0 to n
        invariant ScanInv(m[..], width, flag[..], comps, i)
      {
        if flag[i] {
          ghost var f := flag[..];
          ScanPre(m[..], width, f, comps, i);
          var comp := Visit(flag, i, comps);
          ScanVisit(m[..], width, f, flag[..], comps, i, comp);
          comps := comps + [comp];
        } else {
          ScanSkip(m[..], width, flag[..], comps, i);
        }
      }
      ScanDone(m[..], width, flag[..], comps);
    }

    /** The bounding-box loop of `segmentComponent` with the box seeded from the
        first member in both coordinates: the smallest box holding every member, each
        of its four sides touching one. */
    method ComponentBox(comp: seq<nat>) returns (x0: nat, x1: nat, y0: nat, y1: nat)
      requires width > 0 && |comp| > 0
      ensures forall xy :: xy in comp ==> x0 <= Col(width, xy) <= x1 && y0 <= Row(width, xy) <= y1
      ensures exists xy :: xy in comp && Col(width, xy) == x0
      ensures exists xy :: xy in comp && Col(width, xy) == x1
      ensures exists xy :: xy in comp && Row(width, xy) == y0
      ensures exists xy :: xy in comp && Row(width, xy) == y1
    {
      var w := width;
      x0 := Col(w, comp[0]);
      x1 := x0;
      y0 := Row(w, comp[0]);
      y1 := y0;
      // positions of members on the four sides
      ghost var a0, a1, b0, b1 := 0, 0, 0, 0;
      for t := 0 to |comp|
        invariant forall u :: 0 <= u < t ==> x0 <= Col(w, comp[u]) <= x1 && y0 <= Row(w, comp[u]) <= y1
        invariant a0 < |comp| && a1 < |comp| && b0 < |comp| && b1 < |comp|
        invariant Col(w, comp[a0]) == x0 && Col(w, comp[a1]) == x1 && Row(w, comp[b0]) == y0 && Row(w, comp[b1]) == y1
      {
        var xy := comp[t];
        var x := Col(w, xy);
        var y := Row(w, xy);
        if x < x0 { x0, a0 := x, t; }
        if x > x1 { x1, a1 := x, t; }
        if y < y0 { y0, b0 := y, t; }
        if y > y1 { y1, b1 := y, t; }
      }
      assert comp[a0] in comp && comp[a1] in comp && comp[b0] in comp && comp[b1] in comp;
    }

    /** The bounding-box loop of `segmentComponent` as written: the rows are seeded
        from `comp[1]`, which for a one-pixel component is `undefined`, and
        `~~(undefined / w)` is 0.  The box still holds every member and is tight
        whenever the component has two members or more; a one-pixel component gets
        the rows 0 to its own row. */
    method ComponentBoxAsWritten(comp: seq<nat>) returns (x0: nat, x1: nat, y0: nat, y1: nat)
      requires width > 0 && |comp| > 0
      ensures forall xy :: xy in comp ==> x0 <= Col(width, xy) <= x1 && y0 <= Row(width, xy) <= y1
      ensures exists xy :: xy in comp && Col(width, xy) == x0
      ensures exists xy :: xy in comp && Col(width, xy) == x1
      ensures |comp| > 1 ==> exists xy :: xy in comp && Row(width, xy) == y0
      ensures |comp| > 1 ==> exists xy :: xy in comp && Row(width, xy) == y1
      ensures |comp| == 1 ==> y0 == 0 && y1 == Row(width, comp[0])
    {
      var w := width;
      x0 := Col(w, comp[0]);
      x1 := x0;
      y0 := if |comp| > 1 then Row(w, comp[1]) else 0;
      y1 := y0;
      // positions of members on the four sides (for the rows, when there are two)
      ghost var a0, a1, b0, b1 := 0, 0, 1, 1;
      for t := 0 to |comp|
        invariant forall u :: 0 <= u < t ==> x0 <= Col(w, comp[u]) <= x1
        invariant forall u :: 0 <= u < t ==> y0 <= Row(w, comp[u]) <= y1
        invariant a0 < |comp| && a1 < |comp| && Col(w, comp[a0]) == x0 && Col(w, comp[a1]) == x1
        invariant |comp| > 1 ==> b0 < |comp| && b1 < |comp| && Row(w, comp[b0]) == y0 && Row(w, comp[b1]) == y1
        invariant |comp| == 1 ==> y0 == 0 && y1 == if t == 0 then 0 else Row(w, comp[0])
      {
        var xy := comp[t];
        var x := Col(w, xy);
        var y := Row(w, xy);
        if x < x0 { x0, a0 := x, t; }
        if x > x1 { x1, a1 := x, t; }
        if y < y0 { y0, b0 := y, t; }
        if y > y1 { y1, b1 := y, t; }
      }
      assert comp[a0] in comp && comp[a1] in comp;
      if |comp| > 1 {
        assert comp[b0] in comp && comp[b1] in comp;
      }
    }

    /** The one-pixel component holding the first pixel of the second row: as written
        its box starts at row 0, the corrected box at the pixel's own row 1. */
    method OnePixelBox() returns (asWritten: nat, corrected: nat)
      requires width > 0
      ensures asWritten == 0 && corrected == 1
    {
      var x0, x1, y0, y1 := ComponentBoxAsWritten([width]);
      asWritten := y0;
      x0, x1, y0, y1 := ComponentBox([width]);
      corrected := y0;
    }

    /** cutEastEdge: clears the east bit of (px, py) and counts one more cut. */
    method CutEastEdge(px: nat, py: nat)
      requires Valid() && InGrid(width, height, px, py)
      modifies this, m
      ensures Valid() && cuts == old(cuts) + 1
      ensures m[..] == Clear(old(m[..]), Index(width, px, py), EAST)
    {
      var k := Index(width, px, py);
      ClearKeepsBorders(m[..], width, height, k, EAST);
      cuts := cuts + 1;
      m[k] := m[k] & !EAST;
    }

    /** cutSouthEdge: clears the south bit of (px, py) and counts one more cut. */
    method CutSouthEdge(px: nat, py: nat)
      requires Valid() && InGrid(width, height, px, py)
      modifies this, m
      ensures Valid() && cuts == old(cuts) + 1
      ensures m[..] == Clear(old(m[..]), Index(width, px, py), SOUTH)
    {
      var k := Index(width, px, py);
      ClearKeepsBorders(m[..], width, height, k, SOUTH);
      cuts := cuts + 1;
      m[k] := m[k] & !SOUTH;
    }
  }

  /** segmenter: builds a fully connected graph of the image's size and cuts every
      edge whose two pixels get different classes.  `cls` holds pclass of every
      pixel in row-major order; `pastEnd` is what pclass returns for a read outside the
      image, which the last-row loop makes at its last column. */
  method Segmenter(width: nat, height: nat, cls: seq<int>, pastEnd: int) returns (rg: RasterGraph)
    requires |cls| == width * height
    ensures fresh(rg) && rg.Valid() && rg.width == width && rg.height == height
    ensures SegmentedBy(rg.m[..], width, height, cls)
  {
    rg := new RasterGraph(width, height);
    PartialStart(rg.m[..], width, height, cls);
    var p1 := CutInterior(rg, cls, pastEnd);
    CutLastRow(rg, cls, pastEnd, p1);
    var q3 := CutLastColumn(rg, cls, pastEnd, p1);
    PartialDone(rg.m[..], width, height, cls, p1, q3);
  }

  /** The nested loops of `segmenter`: the south and east edges of every pixel
      outside the last row and column.  Returns the final column counter. */
  method CutInterior(rg: RasterGraph, cls: seq<int>, pastEnd: int) returns (px: nat)
    requires rg.Valid() && Partial(rg.m[..], rg.width, rg.height, cls, 0, 0, 0, 0)
    modifies rg, rg.m
    ensures rg.Valid() && Partial(rg.m[..], rg.width, rg.height, cls, px, 0, 0, 0)
    ensures px + 1 >= rg.width && (rg.width == 0 || px + 1 == rg.width)
  {
    var width, height := rg.width, rg.height;
    px := 0;
    while px + 1 < width
      invariant width == 0 || px + 1 <= width
      invariant rg.Valid() && Partial(rg.m[..], width, height, cls, px, 0, 0, 0)
    {
      var py := 0;
      while py + 1 < height
        invariant rg.Valid() && Partial(rg.m[..], width, height, cls, px, py, 0, 0)
      {
        MainStep(rg.m[..], width, height, cls, px, py);
        var i := py * width + px;
        assert i == Index(width, px, py);
        var class1 := ClassAt(cls, pastEnd, i);
        var class2 := ClassAt(cls, pastEnd, i + width);
        if class1 != class2 {
          rg.CutSouthEdge(px, py);
        }
        class2 := ClassAt(cls, pastEnd, i + 1);
        if class1 != class2 {
          rg.CutEastEdge(px, py);
        }
        py := py + 1;
      }
      MainNext(rg.m[..], width, height, cls, px, py);
      px := px + 1;
    }
  }

  /** The last-row loop of `segmenter`: the east edges of the bottom row, the last
      one compared against the read past the end of the image. */
  method CutLastRow(rg: RasterGraph, cls: seq<int>, pastEnd: int, p1: nat)
    requires rg.Valid() && Partial(rg.m[..], rg.width, rg.height, cls, p1, 0, 0, 0)
    modifies rg, rg.m
    ensures rg.Valid() && Partial(rg.m[..], rg.width, rg.height, cls, p1, 0, rg.width, 0)
  {
    var width, height := rg.width, rg.height;
    var py: int := height as int - 1;
    var px := 0;
    while px < width
      invariant px <= width
      invariant rg.Valid() && Partial(rg.m[..], width, height, cls, p1, 0, px, 0)
    {
      var i := py * width + px;
      var class1 := ClassAt(cls, pastEnd, i);
      var class2 := ClassAt(cls, pastEnd, i + 1);
      if height > 0 {
        LastRowStep(rg.m[..], width, height, cls, pastEnd, p1, px);
        assert i == Index(width, px, height - 1);
      } else {
        assert |cls| == 0 && class1 == class2;
      }
      if class1 != class2 {
        rg.CutEastEdge(px, py);
      }
      px := px + 1;
    }
  }

  /** The last-column loop of `segmenter`: the south edges of the rightmost column.
      Returns the final row counter. */
  method CutLastColumn(rg: RasterGraph, cls: seq<int>, pastEnd: int, p1: nat) returns (py: nat)
    requires rg.Valid() && Partial(rg.m[..], rg.width, rg.height, cls, p1, 0, rg.width, 0)
    requires rg.width == 0 || p1 + 1 == rg.width
    modifies rg, rg.m
    ensures rg.Valid() && Partial(rg.m[..], rg.width, rg.height, cls, p1, 0, rg.width, py)
    ensures py + 1 >= rg.height
  {
    var width, height := rg.width, rg.height;
    var px: int := width as int - 1;
    py := 0;
    while py + 1 < height
      invariant rg.Valid() && Partial(rg.m[..], width, height, cls, p1, 0, width, py)
    {
      var i := py * width + px;
      var class1 := ClassAt(cls, pastEnd, i);
      var class2 := ClassAt(cls, pastEnd, i + width);
      if width > 0 {
        LastColumnStep(rg.m[..], width, height, cls, p1, py);
        assert i == Index(width, width - 1, py);
      } else {
        assert |cls| == 0 && class1 == class2;
      }
      if class1 != class2 {
        rg.CutSouthEdge(px, py);
      }
      py := py + 1;
    }
  }

  /** `segmenter` followed by `connectedComponents`: the components are exactly the
      4-connected regions of equal class.  They partition the image, each holds one
      class, and a 4-neighbour of a member with the same class is in the same
      component. */
  method Regions(width: nat, height: nat, cls: seq<int>, pastEnd: int) returns (comps: seq<seq<nat>>)
    requires |cls| == width * height
    ensures IsPartition(comps, width * height)
    ensures forall ci, k :: 0 <= ci < |comps| && 0 <= k < |comps[ci]| ==>
      comps[ci][k] < |cls| && comps[ci][0] < |cls| && cls[comps[ci][k]] == cls[comps[ci][0]]
    ensures width > 0 ==>
      forall ci, p, q :: 0 <= ci < |comps| && p in comps[ci] && 0 <= q < |cls| &&
        Adjacent(Col(width, p), Row(width, p), Col(width, q), Row(width, q)) && p < |cls| && cls[p] == cls[q]
        ==> q in comps[ci]
  {
    var rg := Segmenter(width, height, cls, pastEnd);
    comps := rg.ConnectedComponents();
    ghost var s := rg.m[..];
    forall ci, k | 0 <= ci < |comps| && 0 <= k < |comps[ci]|
      ensures comps[ci][k] < |cls| && comps[ci][0] < |cls| && cls[comps[ci][k]] == cls[comps[ci][0]]
    {
      forall t | 0 <= t < |comps[ci]| ensures comps[ci][t] < |s| {
        MemberFlattened(comps, ci, comps[ci][t]);
      }
      ComponentOneClass(s, width, height, cls, comps[ci], k);
    }
    if width > 0 {
      forall ci, p, q | 0 <= ci < |comps| && p in comps[ci] && 0 <= q < |cls|
        && Adjacent(Col(width, p), Row(width, p), Col(width, q), Row(width, q)) && p < |cls| && cls[p] == cls[q]
        ensures q in comps[ci]
      {
        ComponentHoldsRegion(s, width, height, cls, comps, ci, p, q);
      }
    }
  }

  /** An image in which pclass gives every pixel the same class is one component
      holding every pixel. */
  method UniformRegion(width: nat, height: nat, c: int, pastEnd: int) returns (comps: seq<seq<nat>>)
    requires width * height > 0
    ensures |comps| == 1 && forall k :: 0 <= k < width * height ==> k in comps[0]
  {
    var cls := seq(width * height, _ => c);
    var rg := Segmenter(width, height, cls, pastEnd);
    comps := rg.ConnectedComponents();
    UniformIsOneComponent(rg.m[..], width, height, cls, comps);
  }
}
