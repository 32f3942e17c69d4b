/** What `segmenter` does to a fresh RasterGraph, on values: the classes pclass
    assigns to the pixels are a `seq<int>` in row-major order, and the edge mask is
    described after each step of its three loops. */
module Segmentation {
  import opened Grid

  /** The class `segmenter` obtains for the pixel at address k: pclass of its four
      colour components, or `pastEnd` when the address lies outside the image, where
      all four reads give `undefined`. */
  function ClassAt(cls: seq<int>, pastEnd: int, k: int): int {
    if 0 <= k < |cls| then cls[k] else pastEnd
  }

  /** Pixel (x, y) has an east neighbour of the same class. */
  predicate EastSame(cls: seq<int>, w: nat, x: nat, y: nat) {
    x + 1 < w && Index(w, x + 1, y) < |cls| && cls[Index(w, x, y)] == cls[Index(w, x + 1, y)]
  }

  /** Pixel (x, y) has a south neighbour of the same class. */
  predicate SouthSame(cls: seq<int>, w: nat, h: nat, x: nat, y: nat) {
    NextRow(w, x, y);
    y + 1 < h && Index(w, x, y + 1) < |cls| && cls[Index(w, x, y)] == cls[Index(w, x, y + 1)]
  }

  /** Every pixel keeps exactly the east and south edges to neighbours of its own class. */
  ghost predicate SegmentedBy(s: seq<bv8>, w: nat, h: nat, cls: seq<int>)
  {
    forall x, y :: InGrid(w, h, x, y) ==>
      Index(w, x, y) < |s| && s[Index(w, x, y)] == FreshByte(EastSame(cls, w, x, y), SouthSame(cls, w, h, x, y))
  }

  /** The east edge of (x, y) has been decided when the main loop is at column p1,
      row q1, and the last-row loop at column p2. */
  predicate EastDecided(w: nat, h: nat, p1: nat, q1: nat, p2: nat, x: nat, y: nat) {
    (y + 1 < h && (x < p1 || (x == p1 && y < q1))) || (y + 1 == h && x < p2)
  }

  /** The south edge of (x, y) has been decided when the main loop is at column p1,
      row q1, and the last-column loop at row q3. */
  predicate SouthDecided(w: nat, h: nat, p1: nat, q1: nat, q3: nat, x: nat, y: nat) {
    (y + 1 < h && (x < p1 || (x == p1 && y < q1))) || (x + 1 == w && y < q3)
  }

  /** The mask part-way through `segmenter`: decided edges are present iff the two
      classes agree, the others are still as the constructor left them. */
  ghost predicate Partial(s: seq<bv8>, w: nat, h: nat, cls: seq<int>, p1: nat, q1: nat, p2: nat, q3: nat)
  {
    && |s| == w * h && |cls| == w * h
    && forall x, y :: InGrid(w, h, x, y) ==>
      Index(w, x, y) < |s| &&
      s[Index(w, x, y)] == FreshByte(
        if EastDecided(w, h, p1, q1, p2, x, y) then EastSame(cls, w, x, y) else x + 1 < w,
        if SouthDecided(w, h, p1, q1, q3, x, y) then SouthSame(cls, w, h, x, y) else y + 1 < h)
  }

  /** `if (class1 != class2) cut…Edge(px, py)` on the mask. */
  function CutIf(s: seq<bv8>, k: nat, bit: bv8, differ: bool): seq<bv8>
    requires k < |s|
  {
    if differ then Clear(s, k, bit) else s
  }

  lemma ClearFresh(e: bool, so: bool)
    ensures FreshByte(e, so) & !SOUTH == FreshByte(e, false)
    ensures FreshByte(e, so) & !EAST == FreshByte(false, so)
  {
  }

  /** The mask of a fresh graph is the state before the first loop. */
  lemma PartialStart(s: seq<bv8>, w: nat, h: nat, cls: seq<int>)
    requires |s| == w * h && |cls| == w * h
    requires forall x, y :: InGrid(w, h, x, y) ==>
      Index(w, x, y) < |s| && s[Index(w, x, y)] == FreshByte(x + 1 < w, y + 1 < h)
    ensures Partial(s, w, h, cls, 0, 0, 0, 0)
  {
  }

  /** One pass of the main loop at (px, py) decides the south and the east edge of
      that pixel. */
  lemma MainStep(s: seq<bv8>, w: nat, h: nat, cls: seq<int>, px: nat, py: nat)
    requires Partial(s, w, h, cls, px, py, 0, 0) && px + 1 < w && py + 1 < h
    ensures Index(w, px, py) + w < |s|
    ensures Partial(
      CutIf(CutIf(s, Index(w, px, py), SOUTH, cls[Index(w, px, py)] != cls[Index(w, px, py) + w]),
            Index(w, px, py), EAST, cls[Index(w, px, py)] != cls[Index(w, px, py) + 1]),
      w, h, cls, px, py + 1, 0, 0)
  {
    var k := Index(w, px, py);
    NextRow(w, px, py);
    PixelIsAddress(w, h, px, py + 1);
    var s1 := CutIf(s, k, SOUTH, cls[k] != cls[k + w]);
    var s2 := CutIf(s1, k, EAST, cls[k] != cls[k + 1]);
    ClearPixel(s, w, h, px, py, SOUTH);
    ClearPixel(s1, w, h, px, py, EAST);
    ClearFresh(px + 1 < w, py + 1 < h);
    ClearFresh(px + 1 < w, false);
    ClearFresh(EastSame(cls, w, px, py), SouthSame(cls, w, h, px, py));
    ClearFresh(false, SouthSame(cls, w, h, px, py));
    assert s2[k] == FreshByte(EastSame(cls, w, px, py), SouthSame(cls, w, h, px, py));
  }

  /** The main loop moves on to the next column once the rows are exhausted. */
  lemma MainNext(s: seq<bv8>, w: nat, h: nat, cls: seq<int>, px: nat, py: nat)
    requires Partial(s, w, h, cls, px, py, 0, 0) && py + 1 >= h
    ensures Partial(s, w, h, cls, px + 1, 0, 0, 0)
  {
  }

  /** One pass of the last-row loop at column px decides the east edge of (px, h - 1);
      at px = w - 1 it compares against the read past the data, and a cut there
      clears a bit that is already clear. */
  lemma LastRowStep(s: seq<bv8>, w: nat, h: nat, cls: seq<int>, pastEnd: int, p1: nat, px: nat)
    requires Partial(s, w, h, cls, p1, 0, px, 0) && h > 0 && px < w
    ensures Index(w, px, h - 1) < |s|
    ensures Partial(
      CutIf(s, Index(w, px, h - 1), EAST, cls[Index(w, px, h - 1)] != ClassAt(cls, pastEnd, Index(w, px, h - 1) + 1)),
      w, h, cls, p1, 0, px + 1, 0)
  {
    var k := Index(w, px, h - 1);
    PixelIsAddress(w, h, px, h - 1);
    var s1 := CutIf(s, k, EAST, cls[k] != ClassAt(cls, pastEnd, k + 1));
    ClearPixel(s, w, h, px, h - 1, EAST);
    ClearFresh(px + 1 < w, false);
    ClearFresh(EastSame(cls, w, px, h - 1), false);
    if px + 1 < w {
      PixelIsAddress(w, h, px + 1, h - 1);
    }
    assert s1[k] == FreshByte(EastSame(cls, w, px, h - 1), false);
  }

  /** One pass of the last-column loop at row py decides the south edge of (w - 1, py). */
  lemma LastColumnStep(s: seq<bv8>, w: nat, h: nat, cls: seq<int>, p1: nat, py: nat)
    requires Partial(s, w, h, cls, p1, 0, w, py) && w > 0 && p1 + 1 == w && py + 1 < h
    ensures Index(w, w - 1, py) + w < |s|
    ensures Partial(
      CutIf(s, Index(w, w - 1, py), SOUTH, cls[Index(w, w - 1, py)] != cls[Index(w, w - 1, py) + w]),
      w, h, cls, p1, 0, w, py + 1)
  {
    var k := Index(w, w - 1, py);
    NextRow(w, w - 1, py);
    PixelIsAddress(w, h, w - 1, py + 1);
    var s1 := CutIf(s, k, SOUTH, cls[k] != cls[k + w]);
    ClearPixel(s, w, h, w - 1, py, SOUTH);
    ClearFresh(false, true);
    ClearFresh(false, SouthSame(cls, w, h, w - 1, py));
    assert s1[k] == FreshByte(false, SouthSame(cls, w, h, w - 1, py));
  }

  /** After the three loops every edge is decided. */
  lemma PartialDone(s: seq<bv8>, w: nat, h: nat, cls: seq<int>, p1: nat, q3: nat)
    requires Partial(s, w, h, cls, p1, 0, w, q3) && p1 + 1 >= w && q3 + 1 >= h
    ensures SegmentedBy(s, w, h, cls)
  {
  }

  /** In a segmented graph an edge between 4-neighbours is present iff the two
      pixels have the same class. */
  lemma SegmentedEdgeIffSameClass(s: seq<bv8>, w: nat, h: nat, cls: seq<int>,
                                  px: nat, py: nat, qx: nat, qy: nat)
    requires |s| == w * h && |cls| == w * h && SegmentedBy(s, w, h, cls)
    requires InGrid(w, h, px, py) && InGrid(w, h, qx, qy) && Adjacent(px, py, qx, qy)
    ensures Owner(w, px, py, qx, qy) < |s| && Index(w, px, py) < |cls| && Index(w, qx, qy) < |cls|
    ensures Query(s, w, px, py, qx, qy) != 0 <==> cls[Index(w, px, py)] == cls[Index(w, qx, qy)]
  {
    PixelIsAddress(w, h, px, py);
    PixelIsAddress(w, h, qx, qy);
    NextRow(w, px, py);
    NextRow(w, qx, qy);
  }

  // ---------------------------------------------------------------------------
  // Components of a segmented graph

  /** In a segmented graph the flood fill's edge relation joins two addresses iff
      their pixels are 4-neighbours of the same class. */
  lemma SegmentedLinked(s: seq<bv8>, w: nat, h: nat, cls: seq<int>, i: int, j: int)
    requires |s| == w * h && |cls| == w * h && SegmentedBy(s, w, h, cls)
    requires 0 <= i < |s| && 0 <= j < |s|
    ensures w > 0
    ensures Linked(s, w, i, j) <==> Adjacent(i % w, i / w, j % w, j / w) && cls[i] == cls[j]
  {
    AddressIsPixel(w, h, i);
    AddressIsPixel(w, h, j);
    LinkedIffEdge(s, w, h, i % w, i / w, j % w, j / w);
    if Adjacent(i % w, i / w, j % w, j / w) {
      SegmentedEdgeIffSameClass(s, w, h, cls, i % w, i / w, j % w, j / w);
    }
  }

  /** Every member of a component grown along the edges of a segmented graph has
      the class of its first member. */
  lemma {:induction false} ComponentOneClass(s: seq<bv8>, w: nat, h: nat, cls: seq<int>,
                                             comp: seq<nat>, k: nat)
    requires |s| == w * h && |cls| == w * h && SegmentedBy(s, w, h, cls)
    requires GrownFromSeed(s, w, comp) && k < |comp| && forall t :: 0 <= t < |comp| ==> comp[t] < |s|
    ensures cls[comp[k]] == cls[comp[0]]
    decreases k
  {
    if k > 0 {
      var j :| 0 <= j < k && Linked(s, w, comp[j], comp[k]);
      ComponentOneClass(s, w, h, cls, comp, j);
      SegmentedLinked(s, w, h, cls, comp[j], comp[k]);
    }
  }

  /** A closed component of a segmented graph holds every 4-neighbour of the same
      class of each of its members: components are whole same-class regions. */
  lemma ComponentHoldsRegion(s: seq<bv8>, w: nat, h: nat, cls: seq<int>,
                             comps: seq<seq<nat>>, ci: nat, p: nat, q: nat)
    requires |s| == w * h && |cls| == w * h && SegmentedBy(s, w, h, cls) && Closed(s, w, comps)
    requires ci < |comps| && p in comps[ci] && p < |s| && q < |s|
    requires Adjacent(p % w, p / w, q % w, q / w) && cls[p] == cls[q]
    ensures q in comps[ci]
  {
    SegmentedLinked(s, w, h, cls, p, q);
    var k :| 0 <= k < |comps[ci]| && comps[ci][k] == p;
  }

  /** The two parts of a duplicate-free list are each duplicate-free and share nothing. */
  lemma NoDupSplit(s: seq<nat>, t: seq<nat>)
    requires NoDup(s + t)
    ensures NoDup(s) && forall y :: y in t ==> y !in s
  {
    forall i, j | 0 <= i < |s| && 0 <= j < |t| ensures s[i] != t[j] {
      assert (s + t)[i] == s[i] && (s + t)[|s| + j] == t[j];
    }
    forall i, j | 0 <= i < j < |s| ensures s[i] != s[j] {
      assert (s + t)[i] == s[i] && (s + t)[j] == s[j];
    }
  }

  /** An address missing from the flattened list is missing from every component. */
  lemma {:induction false} NotFlattened(comps: seq<seq<nat>>, ci: nat, x: nat)
    requires ci < |comps| && x !in Flatten(comps)
    ensures x !in comps[ci]
  {
    var n := |comps| - 1;
    assert Flatten(comps) == Flatten(comps[..n]) + comps[n];
    if ci < n {
      assert comps[..n][ci] == comps[ci];
      NotFlattened(comps[..n], ci, x);
    }
  }

  /** An address occurs in at most one component of a duplicate-free list. */
  lemma {:induction false} NoDupShared(comps: seq<seq<nat>>, a: nat, b: nat, x: nat)
    requires NoDup(Flatten(comps)) && a < |comps| && b < |comps| && a != b && x in comps[a]
    ensures x !in comps[b]
  {
    var n := |comps| - 1;
    var init, last := comps[..n], comps[n];
    assert Flatten(comps) == Flatten(init) + last;
    NoDupSplit(Flatten(init), last);
    if a < n && b < n {
      assert init[a] == comps[a] && init[b] == comps[b];
      NoDupShared(init, a, b, x);
    } else if a < n {
      assert init[a] == comps[a];
      MemberFlattened(init, a, x);
    } else {
      assert init[b] == comps[b];
      NotFlattened(init, b, x);
    }
  }

  /** With one class everywhere, the component holding address 0 holds every address. */
  lemma {:induction false} UniformReachesAll(s: seq<bv8>, w: nat, h: nat, cls: seq<int>,
                                             comps: seq<seq<nat>>, ci: nat, k: nat)
    requires |s| == w * h && |cls| == w * h && SegmentedBy(s, w, h, cls) && Closed(s, w, comps)
    requires forall a :: 0 <= a < |cls| ==> cls[a] == cls[0]
    requires ci < |comps| && 0 in comps[ci] && k < |s|
    ensures k in comps[ci]
    decreases k
  {
    if k > 0 {
      var prev := PreviousNeighbour(w, h, k);
      UniformReachesAll(s, w, h, cls, comps, ci, prev);
      ComponentHoldsRegion(s, w, h, cls, comps, ci, prev, k);
    }
  }

  /** Every address but the first has a 4-neighbour with a smaller address: the
      pixel to its left, or the one above when it starts a row. */
  lemma PreviousNeighbour(w: nat, h: nat, k: nat) returns (prev: nat)
    requires 0 < k < w * h
    ensures prev < k && Adjacent(prev % w, prev / w, k % w, k / w)
  {
    AddressIsPixel(w, h, k);
    var x, y := k % w, k / w;
    if x > 0 {
      prev := k - 1;
      assert prev == Index(w, x - 1, y);
      IndexDivMod(w, x - 1, y);
    } else {
      assert y > 0;
      NextRow(w, 0, y - 1);
      prev := Index(w, 0, y - 1);
      IndexDivMod(w, 0, y - 1);
    }
  }

  /** An image of one class is one component. */
  lemma UniformIsOneComponent(s: seq<bv8>, w: nat, h: nat, cls: seq<int>, comps: seq<seq<nat>>)
    requires |s| == w * h && |cls| == w * h && |s| > 0 && SegmentedBy(s, w, h, cls)
    requires forall a :: 0 <= a < |cls| ==> cls[a] == cls[0]
    requires IsPartition(comps, |s|) && Closed(s, w, comps)
    requires forall ci :: 0 <= ci < |comps| ==> |comps[ci]| > 0
    ensures |comps| == 1 && forall k :: 0 <= k < |s| ==> k in comps[0]
  {
    var ci := FlattenedMember(comps, 0);
    if |comps| > 1 {
      // a second component would share its first member with component ci
      var cj := if ci == 0 then 1 else 0;
      var x := comps[cj][0];
      MemberFlattened(comps, cj, x);
      UniformReachesAll(s, w, h, cls, comps, ci, x);
      NoDupShared(comps, ci, cj, x);
      assert false;
    }
    forall k | 0 <= k < |s| ensures k in comps[ci] {
      UniformReachesAll(s, w, h, cls, comps, ci, k);
    }
  }
}
