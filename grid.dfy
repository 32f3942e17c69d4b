/** The pixel adjacency graph of a RasterGraph, as pure functions over its edge
    mask (one byte per pixel, row-major order).

    Bit EAST of byte `x + y * w` says whether pixel (x, y) is joined to (x + 1, y);
    bit SOUTH says whether it is joined to (x, y + 1).  West and north edges are not
    stored: they are the east and south bits of the neighbour.  Everything the
    RasterGraph class does to its byte array is described here on `seq<bv8>`, and
    the lemmas about edges and components are stated at this level. */
module Grid {

  const EAST: bv8 := 1
  const SOUTH: bv8 := 2

  /** Row-major address of pixel (x, y) in a grid of width w. */
  function Index(w: nat, x: nat, y: nat): nat { x + y * w }

  /** Column and row of address xy. */
  function Col(w: nat, xy: nat): nat requires w > 0 { xy % w }
  function Row(w: nat, xy: nat): nat requires w > 0 { xy / w }

  predicate InGrid(w: nat, h: nat, x: int, y: int) { 0 <= x < w && 0 <= y < h }

  /** (px, py) and (qx, qy) are 4-neighbours. */
  predicate Adjacent(px: int, py: int, qx: int, qy: int) {
    || (px == qx && (qy == py + 1 || py == qy + 1))
    || (py == qy && (qx == px + 1 || px == qx + 1))
  }

  /** The bit that records the edge between p and q: SOUTH for a vertical pair,
      EAST for a horizontal one. */
  function EdgeBit(px: nat, qx: nat): bv8 { if px == qx then SOUTH else EAST }

  /** The byte that records the edge between p and q: that of the west-most or
      north-most of the two pixels. */
  function Owner(w: nat, px: nat, py: nat, qx: nat, qy: nat): nat {
    if px == qx then
      (if qy > py then Index(w, px, py) else Index(w, qx, qy))
    else
      (if qx > px then Index(w, px, py) else Index(w, qx, qy))
  }

  /** Clears `bit` in byte k and leaves every other byte alone. */
  function Clear(s: seq<bv8>, k: nat, bit: bv8): seq<bv8>
    requires k < |s|
  {
    s[k := s[k] & !bit]
  }

  /** The value `getEdge(px, py, qx, qy)` reads: the owner byte masked with the edge bit. */
  function Query(s: seq<bv8>, w: nat, px: nat, py: nat, qx: nat, qy: nat): bv8
    requires Owner(w, px, py, qx, qy) < |s|
  {
    s[Owner(w, px, py, qx, qy)] & EdgeBit(px, qx)
  }

  /** The mask after `cutEdge(px, py, qx, qy)`. */
  function Cut(s: seq<bv8>, w: nat, px: nat, py: nat, qx: nat, qy: nat): seq<bv8>
    requires Owner(w, px, py, qx, qy) < |s|
  {
    Clear(s, Owner(w, px, py, qx, qy), EdgeBit(px, qx))
  }

  /** The byte a freshly built graph holds for a pixel: both bits set, except the
      east bit in the last column and the south bit in the last row. */
  function FreshByte(eastOpen: bool, southOpen: bool): bv8 {
    (if eastOpen then EAST else 0) | (if southOpen then SOUTH else 0)
  }

  /** No byte has an east bit in the last column or a south bit in the last row,
      and no byte uses a bit other than EAST and SOUTH. */
  ghost predicate BordersClosed(s: seq<bv8>, w: nat, h: nat)
  {
    |s| == w * h &&
    forall x, y :: InGrid(w, h, x, y) ==>
      Index(w, x, y) < |s| &&
      s[Index(w, x, y)] & !(EAST | SOUTH) == 0 &&
      (x == w - 1 ==> s[Index(w, x, y)] & EAST == 0) &&
      (y == h - 1 ==> s[Index(w, x, y)] & SOUTH == 0)
  }

  /** The edge relation that `connectedComponents` follows, on pixel addresses:
      exactly its four neighbour tests (above, below, left, right). */
  predicate Linked(s: seq<bv8>, w: nat, i: int, j: int)
  {
    && 0 <= i < |s| && 0 <= j < |s| && w > 0
    && (|| (j == i - w && s[j] & SOUTH != 0)
        || (j == i + w && s[i] & SOUTH != 0)
        || (j == i - 1 && i % w != 0 && s[j] & EAST != 0)
        || (j == i + 1 && j % w != 0 && s[i] & EAST != 0))
  }

  // ---------------------------------------------------------------------------
  // Address arithmetic

  lemma MulAtLeast(k: int, w: nat)
    requires k >= 1
    ensures k * w >= w
  {
    assert k * w == (k - 1) * w + w;
    assert (k - 1) * w >= 0;
  }

  lemma DivModUnique(a: int, w: nat, q: int, r: int)
    requires w > 0 && 0 <= r < w && a == q * w + r
    ensures a / w == q && a % w == r
  {
    var q', r' := a / w, a % w;
    assert a == q' * w + r' && 0 <= r' < w;
    assert (q - q') * w == r' - r;
    if q > q' {
      MulAtLeast(q - q', w);
    } else if q < q' {
      MulAtLeast(q' - q, w);
    }
  }

  /** Column and row can be read back from an address. */
  lemma IndexDivMod(w: nat, x: nat, y: nat)
    requires x < w
    ensures Index(w, x, y) % w == x && Index(w, x, y) / w == y
  {
    DivModUnique(x + y * w, w, y, x);
  }

  /** Every address below w * h is the address of a pixel of the grid. */
  lemma AddressIsPixel(w: nat, h: nat, k: int)
    requires 0 <= k < w * h
    ensures w > 0 && InGrid(w, h, k % w, k / w) && Index(w, k % w, k / w) == k
  {
  }

  /** Pixels of the grid have addresses below w * h. */
  lemma PixelIsAddress(w: nat, h: nat, x: nat, y: nat)
    requires InGrid(w, h, x, y)
    ensures Index(w, x, y) < w * h
  {
    MulAtLeast(h - y, w);
    assert (h - y) * w == h * w - y * w;
  }

  /** Distinct pixels have distinct addresses. */
  lemma IndexInjective(w: nat, x1: nat, y1: nat, x2: nat, y2: nat)
    requires x1 < w && x2 < w && Index(w, x1, y1) == Index(w, x2, y2)
    ensures x1 == x2 && y1 == y2
  {
    IndexDivMod(w, x1, y1);
    IndexDivMod(w, x2, y2);
  }

  lemma NextRow(w: nat, x: nat, y: nat)
    ensures Index(w, x, y + 1) == Index(w, x, y) + w
  {
  }

  // ---------------------------------------------------------------------------
  // Properties of edge queries and cuts

  /** getEdge is symmetric: both orders of a 4-adjacent pair read the same bit of
      the same byte. */
  lemma QuerySymmetric(s: seq<bv8>, w: nat, px: nat, py: nat, qx: nat, qy: nat)
    requires Adjacent(px, py, qx, qy) && Owner(w, px, py, qx, qy) < |s|
    ensures Owner(w, qx, qy, px, py) == Owner(w, px, py, qx, qy)
    ensures Query(s, w, px, py, qx, qy) == Query(s, w, qx, qy, px, py)
  {
  }

  /** After cutting p–q, the edge reads as absent from both endpoints. */
  lemma CutClearsBothWays(s: seq<bv8>, w: nat, px: nat, py: nat, qx: nat, qy: nat)
    requires Adjacent(px, py, qx, qy) && Owner(w, px, py, qx, qy) < |s|
    ensures Query(Cut(s, w, px, py, qx, qy), w, px, py, qx, qy) == 0
    ensures Query(Cut(s, w, px, py, qx, qy), w, qx, qy, px, py) == 0
  {
    QuerySymmetric(Cut(s, w, px, py, qx, qy), w, px, py, qx, qy);
  }

  /** Clearing a bit changes that one bit of that one byte. */
  lemma ClearTouchesOneBit(s: seq<bv8>, k: nat, bit: bv8)
    requires k < |s|
    ensures |Clear(s, k, bit)| == |s|
    ensures forall i :: 0 <= i < |s| && i != k ==> Clear(s, k, bit)[i] == s[i]
    ensures Clear(s, k, bit)[k] & bit == 0
    ensures Clear(s, k, bit)[k] & !bit == s[k] & !bit
  {
  }

  /** Clearing the same bit twice is clearing it once. */
  lemma ClearIdempotent(s: seq<bv8>, k: nat, bit: bv8)
    requires k < |s|
    ensures Clear(Clear(s, k, bit), k, bit) == Clear(s, k, bit)
  {
  }

  /** Cutting an edge already cut changes nothing. */
  lemma CutIdempotent(s: seq<bv8>, w: nat, px: nat, py: nat, qx: nat, qy: nat)
    requires Owner(w, px, py, qx, qy) < |s|
    ensures Cut(Cut(s, w, px, py, qx, qy), w, px, py, qx, qy) == Cut(s, w, px, py, qx, qy)
  {
    ClearIdempotent(s, Owner(w, px, py, qx, qy), EdgeBit(px, qx));
  }

  /** Clearing a bit never adds an edge to the graph. */
  lemma ClearOnlyRemoves(s: seq<bv8>, w: nat, k: nat, bit: bv8, i: int, j: int)
    requires k < |s| && Linked(Clear(s, k, bit), w, i, j)
    ensures Linked(s, w, i, j)
  {
  }

  /** Clearing keeps the border invariant. */
  lemma ClearKeepsBorders(s: seq<bv8>, w: nat, h: nat, k: nat, bit: bv8)
    requires BordersClosed(s, w, h) && k < |s|
    ensures BordersClosed(Clear(s, k, bit), w, h)
  {
    var t := Clear(s, k, bit);
    forall x, y | InGrid(w, h, x, y)
      ensures t[Index(w, x, y)] & !(EAST | SOUTH) == 0
      ensures x == w - 1 ==> t[Index(w, x, y)] & EAST == 0
      ensures y == h - 1 ==> t[Index(w, x, y)] & SOUTH == 0
    {
      var i := Index(w, x, y);
      assert t[i] == s[i] || t[i] == s[i] & !bit;
    }
  }

  /** The flood fill's edge relation is symmetric. */
  lemma LinkedSymmetric(s: seq<bv8>, w: nat, i: int, j: int)
    requires Linked(s, w, i, j)
    ensures Linked(s, w, j, i)
  {
  }

  /** The flood fill's neighbour tests see exactly the edges getEdge reports:
      two pixels are linked iff they are 4-adjacent and their edge is present. */
  lemma LinkedIffEdge(s: seq<bv8>, w: nat, h: nat, px: nat, py: nat, qx: nat, qy: nat)
    requires |s| == w * h && InGrid(w, h, px, py) && InGrid(w, h, qx, qy)
    ensures Owner(w, px, py, qx, qy) < |s|
    ensures Linked(s, w, Index(w, px, py), Index(w, qx, qy))
        <==> Adjacent(px, py, qx, qy) && Query(s, w, px, py, qx, qy) != 0
  {
    var i, j := Index(w, px, py), Index(w, qx, qy);
    PixelIsAddress(w, h, px, py);
    PixelIsAddress(w, h, qx, qy);
    IndexDivMod(w, px, py);
    IndexDivMod(w, qx, qy);
    if Adjacent(px, py, qx, qy) {
      if qx == px + 1 { IndexDivMod(w, px + 1, py); }
      if px == qx + 1 { IndexDivMod(w, qx + 1, qy); }
    }
    if Linked(s, w, i, j) {
      if j == i - w {
        assert py >= 1;
        NextRow(w, qx, qy);
        assert i == Index(w, qx, qy + 1);
        IndexInjective(w, px, py, qx, qy + 1);
      } else if j == i + w {
        NextRow(w, px, py);
        IndexInjective(w, px, py + 1, qx, qy);
      } else if j == i - 1 {
        assert px >= 1;
        assert j == Index(w, px - 1, py);
        IndexInjective(w, px - 1, py, qx, qy);
      } else {
        assert px + 1 < w by {
          if px + 1 == w {
            assert j == Index(w, 0, py + 1);
            IndexDivMod(w, 0, py + 1);
          }
        }
        assert j == Index(w, px + 1, py);
        IndexInjective(w, px + 1, py, qx, qy);
      }
    }
  }

  /** Clearing a bit of pixel p leaves every other pixel's byte alone. */
  lemma ClearPixel(s: seq<bv8>, w: nat, h: nat, px: nat, py: nat, bit: bv8)
    requires |s| == w * h && InGrid(w, h, px, py)
    ensures Index(w, px, py) < |s|
    ensures forall x, y :: InGrid(w, h, x, y) && (x != px || y != py) ==>
      Index(w, x, y) < |s| && Clear(s, Index(w, px, py), bit)[Index(w, x, y)] == s[Index(w, x, y)]
  {
    PixelIsAddress(w, h, px, py);
    forall x, y | InGrid(w, h, x, y) && (x != px || y != py)
      ensures Index(w, x, y) < |s| && Index(w, x, y) != Index(w, px, py)
    {
      PixelIsAddress(w, h, x, y);
      if Index(w, x, y) == Index(w, px, py) {
        IndexInjective(w, x, y, px, py);
      }
    }
  }

  /** A freshly built mask satisfies the border invariant. */
  lemma FreshIsClosed(s: seq<bv8>, w: nat, h: nat)
    requires |s| == w * h
    requires forall x, y :: InGrid(w, h, x, y) ==>
      Index(w, x, y) < |s| && s[Index(w, x, y)] == FreshByte(x + 1 < w, y + 1 < h)
    ensures BordersClosed(s, w, h)
  {
  }

  // ---------------------------------------------------------------------------
  // Lists of components

  /** All members of all components, in order. */
  function Flatten(comps: seq<seq<nat>>): seq<nat>
  {
    if comps == [] then [] else Flatten(comps[..|comps| - 1]) + comps[|comps| - 1]
  }

  predicate NoDup(s: seq<nat>) {
    forall a, b :: 0 <= a < b < |s| ==> s[a] != s[b]
  }

  /** Appending a list that shares nothing with s keeps it free of duplicates. */
  lemma NoDupAppend(s: seq<nat>, t: seq<nat>)
    requires NoDup(s) && NoDup(t) && forall x :: x in t ==> x !in s
    ensures NoDup(s + t)
  {
    forall a, b | 0 <= a < b < |s + t|
      ensures (s + t)[a] != (s + t)[b]
    {
      if a < |s| && b >= |s| {
        assert (s + t)[b] in t;
      }
    }
  }

  lemma {:induction false} FlattenSnoc(comps: seq<seq<nat>>, c: seq<nat>)
    ensures Flatten(comps + [c]) == Flatten(comps) + c
  {
    assert (comps + [c])[..|comps|] == comps;
  }

  /** A member of a component is a member of the flattened list. */
  lemma {:induction false} MemberFlattened(comps: seq<seq<nat>>, ci: int, x: nat)
    requires 0 <= ci < |comps| && x in comps[ci]
    ensures x in Flatten(comps)
  {
    if ci < |comps| - 1 {
      MemberFlattened(comps[..|comps| - 1], ci, x);
    }
  }

  /** A member of the flattened list belongs to some component. */
  lemma {:induction false} FlattenedMember(comps: seq<seq<nat>>, x: nat) returns (ci: nat)
    requires x in Flatten(comps)
    ensures ci < |comps| && x in comps[ci]
  {
    var init := comps[..|comps| - 1];
    if x in comps[|comps| - 1] {
      ci := |comps| - 1;
    } else {
      ci := FlattenedMember(init, x);
      assert comps[ci] == init[ci];
    }
  }

  /** Each address below n occurs exactly once among the components. */
  ghost predicate IsPartition(comps: seq<seq<nat>>, n: nat)
  {
    && NoDup(Flatten(comps))
    && (forall k :: 0 <= k < n ==> k in Flatten(comps))
    && (forall k :: k in Flatten(comps) ==> k < n)
  }

  /** Every linked neighbour of a member of component ci is in component ci. */
  ghost predicate Closed(s: seq<bv8>, w: nat, comps: seq<seq<nat>>)
  {
    forall ci, k, y :: 0 <= ci < |comps| && 0 <= k < |comps[ci]| && Linked(s, w, comps[ci][k], y)
      ==> y in comps[ci]
  }

  /** Every member after the first is linked to a member that comes before it. */
  ghost predicate GrownFromSeed(s: seq<bv8>, w: nat, comp: seq<nat>)
  {
    forall k :: 0 < k < |comp| ==> exists j :: 0 <= j < k && Linked(s, w, comp[j], comp[k])
  }

  /** A walk along present edges. */
  ghost predicate IsPath(s: seq<bv8>, w: nat, path: seq<nat>)
  {
    forall k :: 0 < k < |path| ==> Linked(s, w, path[k - 1], path[k])
  }

  /** A component grown from its seed has, for each member, a walk inside the
      component from its first element to that member. */
  lemma {:induction false} GrownIsReachable(s: seq<bv8>, w: nat, comp: seq<nat>, k: nat)
      returns (path: seq<nat>)
    requires GrownFromSeed(s, w, comp) && k < |comp|
    ensures |path| > 0 && path[0] == comp[0] && path[|path| - 1] == comp[k]
    ensures IsPath(s, w, path) && forall x :: x in path ==> x in comp
    decreases k
  {
    if k == 0 {
      path := [comp[0]];
    } else {
      var j :| 0 <= j < k && Linked(s, w, comp[j], comp[k]);
      var prefix := GrownIsReachable(s, w, comp, j);
      path := prefix + [comp[k]];
    }
  }
}
