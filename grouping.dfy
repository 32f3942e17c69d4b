/** The two grouping passes of sketch.js: `mergeBackground` (sketch.js:215-234) and
    `mergeBySegmentClass` (sketch.js:240-252).  The global list `segs` is a parameter and
    the new list the result; a `merge` call is the value update of `Segments.Merge`. */
module Grouping {
  import opened Segments

  /** The segments of class `c` merged in list order into the first of them, which is
      what holds the class once the list has been walked. */
  function Gather(segs: seq<Segment>, c: nat): Option<Segment>
    decreases |segs|
  {
    if |segs| == 0 then None
    else
      var g := Gather(segs[..|segs| - 1], c);
      var x := segs[|segs| - 1];
      if x.segmentClass != c then g
      else if g.Some? then Some(Merge(g.value, x))
      else Some(x)
  }

  /** The pixels of all segments of class `c`, in list order. */
  function SameMembers(segs: seq<Segment>, c: nat): seq<nat>
    decreases |segs|
  {
    if |segs| == 0 then []
    else
      var x := segs[|segs| - 1];
      SameMembers(segs[..|segs| - 1], c) + (if x.segmentClass == c then x.members else [])
  }

  /** The segments whose class is not `c`, in list order. */
  function Others(segs: seq<Segment>, c: nat): seq<Segment>
    decreases |segs|
  {
    if |segs| == 0 then []
    else
      var x := segs[|segs| - 1];
      Others(segs[..|segs| - 1], c) + (if x.segmentClass != c then [x] else [])
  }

  /** A class no segment has gathers nothing. */
  lemma {:induction false} GatherNone(segs: seq<Segment>, c: nat)
    requires forall k :: 0 <= k < |segs| ==> segs[k].segmentClass != c
    ensures Gather(segs, c) == None && SameMembers(segs, c) == []
    decreases |segs|
  {
    if |segs| > 0 {
      var n := |segs| - 1;
      assert forall k :: 0 <= k < n ==> segs[..n][k] == segs[k];
      GatherNone(segs[..n], c);
    }
  }

  /** The first segment `f` of class `c` ends up holding the pixels of every segment of
      that class, its own first, and keeps its class and classifier. */
  lemma {:induction false} GatherFirst(segs: seq<Segment>, c: nat, f: nat)
    requires f < |segs| && segs[f].segmentClass == c
    requires forall k :: 0 <= k < f ==> segs[k].segmentClass != c
    ensures Gather(segs, c) == Some(segs[f].(members := SameMembers(segs, c)))
    decreases |segs|
  {
    var n := |segs| - 1;
    var front := segs[..n];
    if f == n {
      assert forall k :: 0 <= k < n ==> front[k] == segs[k];
      GatherNone(front, c);
      assert SameMembers(segs, c) == segs[f].members;
      assert segs[f].(members := segs[f].members) == segs[f];
    } else {
      assert front[f] == segs[f];
      assert forall k :: 0 <= k < f ==> front[k] == segs[k];
      GatherFirst(front, c, f);
      var x := segs[n];
      if x.segmentClass == c {
        assert SameMembers(segs, c) == SameMembers(front, c) + x.members;
        assert Gather(segs, c) == Some(Merge(segs[f].(members := SameMembers(front, c)), x));
      } else {
        assert SameMembers(segs, c) == SameMembers(front, c) + [] == SameMembers(front, c);
        assert Gather(segs, c) == Gather(front, c);
      }
    }
  }

  /** `Others` keeps exactly the segments of another class, in their order: it reads the
      list at strictly increasing positions, which are all the positions of another class. */
  lemma {:induction false} OthersOrder(segs: seq<Segment>, c: nat) returns (at: seq<nat>)
    ensures |at| == |Others(segs, c)|
    ensures forall m :: 0 <= m < |at| ==> at[m] < |segs| && Others(segs, c)[m] == segs[at[m]]
    ensures forall m :: 0 <= m < |at| ==> Others(segs, c)[m].segmentClass != c
    ensures forall m, l :: 0 <= m < l < |at| ==> at[m] < at[l]
    ensures forall k :: 0 <= k < |segs| && segs[k].segmentClass != c ==> k in at
    decreases |segs|
  {
    if |segs| == 0 {
      at := [];
    } else {
      var n := |segs| - 1;
      var front := segs[..n];
      var rest := OthersOrder(front, c);
      if segs[n].segmentClass != c {
        at := rest + [n];
      } else {
        at := rest;
      }
      forall k | 0 <= k < n && segs[k].segmentClass != c ensures k in at {
        assert front[k] == segs[k];
      }
    }
  }

  /** `mergeBackground()`: the class of `segs[0]` is the background; every other segment
      is kept in order, and the background segments are merged into `segs[0]`, which is
      placed last.  With an empty list the source fails on `segs[0]`. */
  method MergeBackground(segs: seq<Segment>) returns (result: seq<Segment>)
    requires |segs| > 0
    ensures Gather(segs, segs[0].segmentClass).Some?
    ensures result == Others(segs, segs[0].segmentClass) + [Gather(segs, segs[0].segmentClass).value]
  {
    var bkgClass := segs[0].segmentClass;
    var merged: seq<Segment> := [];
    var mergedBkg: Option<Segment> := None;
    var k := 0;
    while k < |segs|
      invariant k <= |segs|
      invariant merged == Others(segs[..k], bkgClass) && mergedBkg == Gather(segs[..k], bkgClass)
      invariant k > 0 ==> mergedBkg.Some?
    {
      assert segs[..k + 1][..k] == segs[..k];
      var seg := segs[k];
      if seg.segmentClass == bkgClass {
        if mergedBkg.Some? {
          mergedBkg := Some(Merge(mergedBkg.value, seg));
        } else {
          mergedBkg := Some(seg);
        }
      } else {
        merged := merged + [seg];
      }
      k := k + 1;
    }
    assert segs[..k] == segs;
    var list := new SegmentList(Live(merged) + [mergedBkg]);
    list.Compress();
    assert Live(merged) + [mergedBkg] == Live(merged + [mergedBkg.value]);
    SqueezeDefined(Live(merged + [mergedBkg.value]));
    result := Values(list.slots);
  }

  /** The result of `mergeBackground`: the other segments in order, then `segs[0]` having
      absorbed every later background segment. */
  lemma BackgroundResult(segs: seq<Segment>)
    requires |segs| > 0
    ensures Gather(segs, segs[0].segmentClass) == Some(segs[0].(members := SameMembers(segs, segs[0].segmentClass)))
    ensures |segs[0].members| <= |SameMembers(segs, segs[0].segmentClass)|
    ensures SameMembers(segs, segs[0].segmentClass)[..|segs[0].members|] == segs[0].members
  {
    GatherFirst(segs, segs[0].segmentClass, 0);
    SameMembersFirst(segs, segs[0].segmentClass, 0);
  }

  /** The pixels of the class begin with those of its first segment. */
  lemma {:induction false} SameMembersFirst(segs: seq<Segment>, c: nat, f: nat)
    requires f < |segs| && segs[f].segmentClass == c
    requires forall k :: 0 <= k < f ==> segs[k].segmentClass != c
    ensures |segs[f].members| <= |SameMembers(segs, c)| && SameMembers(segs, c)[..|segs[f].members|] == segs[f].members
    decreases |segs|
  {
    var n := |segs| - 1;
    var front := segs[..n];
    if f == n {
      assert forall k :: 0 <= k < n ==> front[k] == segs[k];
      GatherNone(front, c);
    } else {
      assert front[f] == segs[f];
      assert forall k :: 0 <= k < f ==> front[k] == segs[k];
      SameMembersFirst(front, c, f);
    }
  }

  /** `merged[i]` after one more segment of class `i`: merged into the segment already
      there, or stored, the array growing with `undefined` holes when `i` is past its end. */
  function Put(slots: seq<Option<Segment>>, seg: Segment): seq<Option<Segment>> {
    var i := seg.segmentClass;
    if i < |slots| then
      if slots[i].Some? then slots[i := Some(Merge(slots[i].value, seg))] else slots[i := Some(seg)]
    else slots + seq(i - |slots|, _ => None) + [Some(seg)]
  }

  /** The array `merged` of `mergeBySegmentClass` after the first `|segs|` segments,
      starting as `new Array(colors)`. */
  function ByClass(segs: seq<Segment>, colors: nat): seq<Option<Segment>>
    decreases |segs|
  {
    if |segs| == 0 then seq(colors, _ => None)
    else Put(ByClass(segs[..|segs| - 1], colors), segs[|segs| - 1])
  }

  /** Slot `c` of the array holds what the segments of class `c` gather; the array is at
      least `colors` long and no class past its end has a segment. */
  lemma {:induction false} ByClassSlots(segs: seq<Segment>, colors: nat)
    ensures |ByClass(segs, colors)| >= colors
    ensures forall c :: 0 <= c < |ByClass(segs, colors)| ==> ByClass(segs, colors)[c] == Gather(segs, c)
    ensures forall c :: c >= |ByClass(segs, colors)| ==> Gather(segs, c) == None
    decreases |segs|
  {
    if |segs| > 0 {
      var n := |segs| - 1;
      ByClassSlots(segs[..n], colors);
    }
  }

  /** `mergeBySegmentClass()` over a list, with `settings.colors` as `colors`. */
  method MergeBySegmentClass(segs: seq<Segment>, colors: nat) returns (result: seq<Segment>)
    ensures result == Values(Squeeze(ByClass(segs, colors)))
  {
    var merged: seq<Option<Segment>> := seq(colors, _ => None);
    var k := 0;
    while k < |segs|
      invariant k <= |segs|
      invariant merged == ByClass(segs[..k], colors)
    {
      assert segs[..k + 1][..k] == segs[..k];
      var seg := segs[k];
      var i := seg.segmentClass;
      if i < |merged| && merged[i].Some? {
        merged := merged[i := Some(Merge(merged[i].value, seg))];
      } else if i < |merged| {
        merged := merged[i := Some(seg)];
      } else {
        merged := merged + seq(i - |merged|, _ => None) + [Some(seg)];
      }
      k := k + 1;
    }
    assert segs[..k] == segs;
    var list := new SegmentList(merged);
    list.Compress();
    result := Values(list.slots);
  }

  lemma {:induction false} GatherClass(segs: seq<Segment>, c: nat)
    requires Gather(segs, c).Some?
    ensures Gather(segs, c).value.segmentClass == c
    decreases |segs|
  {
    var n := |segs| - 1;
    if Gather(segs[..n], c).Some? {
      GatherClass(segs[..n], c);
    }
  }

  /** The result of `mergeBySegmentClass`: one segment per class of the list, in strictly
      ascending class order, each the gathered segment of its class. */
  lemma ByClassResult(segs: seq<Segment>, colors: nat)
    ensures var r := Values(Squeeze(ByClass(segs, colors)));
      && (forall m :: 0 <= m < |r| ==> Gather(segs, r[m].segmentClass) == Some(r[m]))
      && (forall m, l :: 0 <= m < l < |r| ==> r[m].segmentClass < r[l].segmentClass)
      && (forall k :: 0 <= k < |segs| ==> exists m :: 0 <= m < |r| && r[m].segmentClass == segs[k].segmentClass)
  {
    var b := ByClass(segs, colors);
    ByClassSlots(segs, colors);
    var at := SqueezeKeepsOrder(b);
    var r := Values(Squeeze(b));
    forall m | 0 <= m < |r| ensures r[m].segmentClass == at[m] && Gather(segs, r[m].segmentClass) == Some(r[m]) {
      assert Squeeze(b)[m] == b[at[m]];
      GatherClass(segs, at[m]);
    }
    forall k | 0 <= k < |segs| ensures exists m :: 0 <= m < |r| && r[m].segmentClass == segs[k].segmentClass {
      var c := segs[k].segmentClass;
      if Gather(segs, c).None? {
        GatherSome(segs, c, k);
      }
      assert b[c].Some?;
      var m :| 0 <= m < |at| && at[m] == c;
      assert r[m].segmentClass == c;
    }
  }

  /** A class some segment has gathers something. */
  lemma {:induction false} GatherSome(segs: seq<Segment>, c: nat, k: nat)
    requires k < |segs| && segs[k].segmentClass == c
    ensures Gather(segs, c).Some?
    decreases |segs|
  {
    var n := |segs| - 1;
    if k < n {
      assert segs[..n][k] == segs[k];
      GatherSome(segs[..n], c, k);
    }
  }
}
