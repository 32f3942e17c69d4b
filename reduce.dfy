/** `reduceSegments(segs, candidates)` (sketch.js:158-209), proved against the eager
    reference of module EagerReduce.

    The parent map `sClass` and the position map `index` are local maps, as in the source;
    the list `segs` is a `SegmentList` whose slots are updated in place.  A ghost rank per
    class, raised by every union, bounds the root-chasing loops. */
module Reduce {
  import opened Segments
  import opened EagerReduce
  import opened Pairs

  /** The wrapped classifier of sketch.js:201-204: the old classifier's class, sent
      through the final class map; a class the map does not hold gives `undefined`. */
  function Wrap(orig: Classifier, final: ClassMap): (f: Classifier)
    ensures forall p :: orig(p).None? ==> f(p).None?
    ensures forall p :: orig(p).Some? && orig(p).value in final ==> f(p) == Some(final[orig(p).value])
    ensures forall p :: orig(p).Some? && orig(p).value !in final ==> f(p).None?
  {
    p => if orig(p).Some? && orig(p).value in final then Some(final[orig(p).value]) else None
  }

  function Rewrapped(seg: Segment, final: ClassMap): Segment {
    seg.(pClass := Wrap(seg.pClass, final))
  }

  /** Every segment of the list with its own classifier wrapped by the final map: it keeps
      its class and pixels, and on each pixel answers the final class of what its old
      classifier answered, or `undefined` when that is undefined or not a class of the map. */
  function Relabelled(xs: seq<Segment>, final: ClassMap): (r: seq<Segment>)
    ensures |r| == |xs|
    ensures forall k :: 0 <= k < |xs| ==> r[k].segmentClass == xs[k].segmentClass && r[k].members == xs[k].members
    ensures forall k, p :: 0 <= k < |xs| && xs[k].pClass(p).Some? && xs[k].pClass(p).value in final ==>
      r[k].pClass(p) == Some(final[xs[k].pClass(p).value])
    ensures forall k, p :: 0 <= k < |xs| && (xs[k].pClass(p).None? || xs[k].pClass(p).value !in final) ==>
      r[k].pClass(p).None?
  {
    seq(|xs|, k requires 0 <= k < |xs| => Rewrapped(xs[k], final))
  }

  /** The reference result: the eager reduction, compacted, every classifier wrapped. */
  function Reduced(vals: seq<Segment>, cands: seq<(nat, nat)>): seq<Segment>
    requires DistinctClasses(vals)
  {
    var st := ReduceAll(IndexOf(vals), Init(vals), cands);
    Relabelled(Values(Squeeze(st.slots)), st.root)
  }

  /** The root-chasing loops `while (sClass[i] != i) i = sClass[i]` (sketch.js:174, 176, 192):
      they stop, at the final class of the eager reference. */
  method Chase(sClass: ClassMap, c: nat, ghost root: ClassMap, ghost rank: ClassMap, ghost bound: nat) returns (r: nat)
    requires Forest(sClass, root, rank, bound) && c in root
    ensures r in root && r == root[c]
  {
    r := c;
    while sClass[r] != r
      invariant r in root && r in sClass && r in rank && root[r] == root[c]
      decreases bound - rank[r]
    {
      r := sClass[r];
    }
    assert root[r] == r;
  }

  /** The state of the pairs loop after `t` pairs, tied to the eager reference: the slots
      are the reference's, the parent map is a forest over its final classes, and every
      final class still finds its segment through `index`. */
  ghost predicate Merged(vals: seq<Segment>, pos: ClassMap, cands: seq<(nat, nat)>, t: nat,
                   slots: seq<Option<Segment>>, sClass: ClassMap, index: ClassMap, rank: ClassMap, bound: nat)
    requires t <= |cands|
  {
    var st := ReduceAll(pos, Init(vals), cands[..t]);
    && slots == st.slots
    && Forest(sClass, st.root, rank, bound)
    && RootIndex(st.root, index, pos)
  }

  /** Every final class finds its segment through `index`. */
  predicate RootIndex(root: ClassMap, index: ClassMap, pos: ClassMap) {
    forall r :: r in root && root[r] == r ==> r in index && r in pos && index[r] == pos[r]
  }

  lemma MergedStart(vals: seq<Segment>, pos: ClassMap, cands: seq<(nat, nat)>)
    requires IsIndex(vals, pos)
    ensures Merged(vals, pos, cands, 0, Live(vals), map c | c in pos :: c, pos, map c | c in pos :: 0, 0)
  {
    var none: seq<(nat, nat)> := [];
    assert cands[..0] == none;
    assert ReduceAll(pos, Init(vals), none) == Init(vals);
    assert (map c | c in pos :: c) == Identity(vals);
    assert (map c | c in pos :: 0) == map c | c in Classes(vals) :: 0;
    ForestStart(vals);
  }

  lemma MergedFacts(vals: seq<Segment>, pos: ClassMap, cands: seq<(nat, nat)>, t: nat,
                    slots: seq<Option<Segment>>, sClass: ClassMap, index: ClassMap, rank: ClassMap, bound: nat)
    requires IsIndex(vals, pos) && PairsIn(cands, Classes(vals)) && t < |cands|
    requires Merged(vals, pos, cands, t, slots, sClass, index, rank, bound)
    ensures var st := ReduceAll(pos, Init(vals), cands[..t]);
      Forest(sClass, st.root, rank, bound) && cands[t].0 in st.root && cands[t].1 in st.root
  {
    PairsInPrefix(cands, Classes(vals), t);
    ReduceAllGoodInit(vals, pos, cands[..t]);
  }

  /** The pair processed at step `t` is the last one of the prefix `cands[..t + 1]`. */
  lemma PrefixStep(pos: ClassMap, init: Eager, cands: seq<(nat, nat)>, t: nat)
    requires t < |cands|
    ensures ReduceAll(pos, init, cands[..t + 1]) == Step(pos, ReduceAll(pos, init, cands[..t]), cands[t].0, cands[t].1)
  {
    var prefix := cands[..t + 1];
    assert prefix[..t] == cands[..t] && prefix[t] == cands[t];
    ReduceAllLast(pos, init, prefix);
  }

  /** A pair whose two classes already share a root changes nothing. */
  lemma MergedIdle(vals: seq<Segment>, pos: ClassMap, cands: seq<(nat, nat)>, t: nat,
                   slots: seq<Option<Segment>>, sClass: ClassMap, index: ClassMap, rank: ClassMap, bound: nat)
    requires IsIndex(vals, pos) && PairsIn(cands, Classes(vals)) && t < |cands|
    requires Merged(vals, pos, cands, t, slots, sClass, index, rank, bound)
    requires var st := ReduceAll(pos, Init(vals), cands[..t]);
      cands[t].0 in st.root && cands[t].1 in st.root && st.root[cands[t].0] == st.root[cands[t].1]
    ensures Merged(vals, pos, cands, t + 1, slots, sClass, index, rank, bound)
  {
    var st := ReduceAll(pos, Init(vals), cands[..t]);
    PrefixStep(pos, Init(vals), cands, t);
    StepIdle(pos, st, cands[t].0, cands[t].1);
  }

  /** Throughout the pairs loop the segment of every final class is defined. */
  lemma MergedLive(vals: seq<Segment>, pos: ClassMap, cands: seq<(nat, nat)>, t: nat,
                   slots: seq<Option<Segment>>, sClass: ClassMap, index: ClassMap, rank: ClassMap, bound: nat)
    requires IsIndex(vals, pos) && PairsIn(cands, Classes(vals)) && t < |cands|
    requires Merged(vals, pos, cands, t, slots, sClass, index, rank, bound)
    ensures var st := ReduceAll(pos, Init(vals), cands[..t]);
      forall r :: r in st.root && st.root[r] == r ==> r in index && index[r] < |slots| && slots[index[r]].Some?
    ensures var st := ReduceAll(pos, Init(vals), cands[..t]);
      forall r, s :: r in st.root && st.root[r] == r && s in st.root && st.root[s] == s && r != s ==>
        r in index && s in index && index[r] != index[s]
  {
    PairsInPrefix(cands, Classes(vals), t);
    ReduceAllGoodInit(vals, pos, cands[..t]);
  }

  /** One union in the eager reference, seen from the source's slots and `index`. */
  lemma UnionSlots(pos: ClassMap, st: Eager, index: ClassMap, a: nat, b: nat)
    requires Good(pos, st) && RootIndex(st.root, index, pos)
    requires a in st.root && b in st.root && st.root[a] != st.root[b]
    ensures var i, j := st.root[a], st.root[b];
      && i in index && j in index && index[i] < |st.slots| && index[j] < |st.slots|
      && st.slots[index[i]].Some? && st.slots[index[j]].Some?
      && Step(pos, st, a, b) == Eager(st.slots[index[i] := Some(Merge(st.slots[index[i]].value, st.slots[index[j]].value))][index[j] := None],
                                      Relabel(st.root, j, i))
  {
    var i, j := st.root[a], st.root[b];
    assert st.root[i] == i && st.root[j] == j;
    StepLive(pos, st, i, j);
  }

  /** After the union the new root `i` keeps its slot and `j` is no longer a root. */
  lemma UnionIndex(root: ClassMap, index: ClassMap, pos: ClassMap, a: nat, b: nat)
    requires RootsClosed(root) && RootIndex(root, index, pos)
    requires a in root && b in root && root[a] != root[b]
    ensures RootIndex(Relabel(root, root[b], root[a]), index[root[b] := index[root[a]]], pos)
  {
    var i, j := root[a], root[b];
    var r' := Relabel(root, j, i);
    var index' := index[j := index[i]];
    assert root[i] == i;
    forall r | r in r' && r'[r] == r ensures r in index' && r in pos && index'[r] == pos[r] {
      assert root[r] != j;
      assert root[r] == r && r != j;
    }
  }

  /** A pair whose roots `i` and `j` differ: the slot of `j` is merged into that of `i`
      and emptied, and the parent map sends `j`, `pair.j` and `pair.i` to `i`. */
  lemma MergedStep(vals: seq<Segment>, pos: ClassMap, cands: seq<(nat, nat)>, t: nat,
                   slots: seq<Option<Segment>>, sClass: ClassMap, index: ClassMap, rank: ClassMap, bound: nat)
    requires IsIndex(vals, pos) && PairsIn(cands, Classes(vals)) && t < |cands|
    requires Merged(vals, pos, cands, t, slots, sClass, index, rank, bound)
    requires var st := ReduceAll(pos, Init(vals), cands[..t]);
      cands[t].0 in st.root && cands[t].1 in st.root && st.root[cands[t].0] != st.root[cands[t].1]
    ensures var st := ReduceAll(pos, Init(vals), cands[..t]);
      var a, b := cands[t].0, cands[t].1;
      var i, j := st.root[a], st.root[b];
      && i in index && j in index && index[i] < |slots| && index[j] < |slots|
      && slots[index[i]].Some? && slots[index[j]].Some? && i in rank && j in rank
      && Merged(vals, pos, cands, t + 1,
                slots[index[i] := Some(Merge(slots[index[i]].value, slots[index[j]].value))][index[j] := None],
                sClass[j := i][b := i][a := i], index[j := index[i]], NewRank(rank, i, j), NewBound(rank, bound, j))
  {
    var st := ReduceAll(pos, Init(vals), cands[..t]);
    var a, b := cands[t].0, cands[t].1;
    PairsInPrefix(cands, Classes(vals), t);
    ReduceAllGoodInit(vals, pos, cands[..t]);
    PrefixStep(pos, Init(vals), cands, t);
    UnionSlots(pos, st, index, a, b);
    UnionIndex(st.root, index, pos, a, b);
    ForestUnion(sClass, st.root, rank, bound, a, b);
  }

  /** The pairs loop (sketch.js:171-186). */
  method MergeCandidates(segs: SegmentList, cands: seq<(nat, nat)>, index0: ClassMap, ghost vals: seq<Segment>)
    returns (sClass: ClassMap, ghost rank: ClassMap, ghost bound: nat)
    modifies segs
    requires IsIndex(vals, index0) && PairsIn(cands, Classes(vals)) && segs.slots == Live(vals)
    ensures var st := ReduceAll(index0, Init(vals), cands);
      segs.slots == st.slots && Forest(sClass, st.root, rank, bound)
  {
    var index := index0;
    sClass := map c | c in index :: c;
    rank, bound := map c | c in index :: 0, 0;
    MergedStart(vals, index0, cands);
    var t := 0;
    while t < |cands|
      invariant t <= |cands|
      invariant Merged(vals, index0, cands, t, segs.slots, sClass, index, rank, bound)
    {
      ghost var st := ReduceAll(index0, Init(vals), cands[..t]);
      MergedFacts(vals, index0, cands, t, segs.slots, sClass, index, rank, bound);
      var i := Chase(sClass, cands[t].0, st.root, rank, bound);
      var j := Chase(sClass, cands[t].1, st.root, rank, bound);
      if i != j {
        MergedStep(vals, index0, cands, t, segs.slots, sClass, index, rank, bound);
        segs.slots := segs.slots[index[i] := Some(Merge(segs.slots[index[i]].value, segs.slots[index[j]].value))];
        segs.slots := segs.slots[index[j] := None];
        sClass := sClass[j := i];
        sClass := sClass[cands[t].1 := i];
        sClass := sClass[cands[t].0 := i];
        index := index[j := index[i]];
        rank, bound := NewRank(rank, i, j), NewBound(rank, bound, j);
      } else {
        MergedIdle(vals, index0, cands, t, segs.slots, sClass, index, rank, bound);
      }
      t := t + 1;
    }
    assert cands[..t] == cands;
  }

  /** The loop `for (var c in sClass)` (sketch.js:188-194): the final class of every class,
      visited in any order. */
  method FinalClasses(sClass: ClassMap, ghost root: ClassMap, ghost rank: ClassMap, ghost bound: nat)
    returns (newClass: ClassMap)
    requires Forest(sClass, root, rank, bound)
    ensures newClass == root
    ensures forall c :: c in newClass ==> newClass[c] in sClass && sClass[newClass[c]] == newClass[c]
  {
    newClass := map[];
    var keys := sClass.Keys;
    while keys != {}
      invariant keys <= sClass.Keys
      invariant newClass.Keys == sClass.Keys - keys
      invariant forall c :: c in newClass ==> c in root && newClass[c] == root[c]
      decreases keys
    {
      var c :| c in keys;
      var r := Chase(sClass, c, root, rank, bound);
      newClass := newClass[c := r];
      keys := keys - {c};
    }
    assert newClass.Keys == root.Keys;
  }

  /** The loop of sketch.js:199-207 with `orig` read per segment: each segment's
      classifier is wrapped by the final map. */
  method WrapClassifiers(segs: SegmentList, final: ClassMap)
    modifies segs
    requires AllDefined(segs.slots)
    ensures segs.slots == Live(Relabelled(Values(old(segs.slots)), final))
  {
    ghost var start := segs.slots;
    var k := 0;
    while k < |segs.slots|
      invariant k <= |segs.slots| == |start|
      invariant forall m :: 0 <= m < |start| ==>
        start[m].Some? && segs.slots[m] == (if m < k then Some(Rewrapped(start[m].value, final)) else start[m])
    {
      var seg := segs.slots[k].value;
      var orig := seg.pClass;
      segs.slots := segs.slots[k := Some(seg.(pClass := Wrap(orig, final)))];
      k := k + 1;
    }
    assert segs.slots == Live(Relabelled(Values(start), final));
  }

  /** `reduceSegments(segs, candidates)`: the list ends as the reference result, and the
      final class map is returned. */
  method ReduceSegments(segs: SegmentList, cands: seq<(nat, nat)>) returns (final: ClassMap)
    modifies segs
    requires AllDefined(segs.slots) && DistinctClasses(Values(segs.slots))
    requires PairsIn(cands, Classes(Values(segs.slots)))
    ensures final == ReduceAll(IndexOf(Values(old(segs.slots))), Init(Values(old(segs.slots))), cands).root
    ensures AllDefined(segs.slots) && Values(segs.slots) == Reduced(Values(old(segs.slots)), cands)
  {
    var vals := Values(segs.slots);
    assert segs.slots == Live(vals);
    var index := BuildIndex(vals);
    var sClass, rank, bound := MergeCandidates(segs, cands, index, vals);
    ghost var st := ReduceAll(index, Init(vals), cands);
    final := FinalClasses(sClass, st.root, rank, bound);
    segs.Compress();
    WrapClassifiers(segs, final);
  }

  // What the reference result promises.

  /** Survivor count: the list ends with one segment fewer for every pair whose two
      classes still had different roots when it was reached. */
  lemma ReducedCount(vals: seq<Segment>, cands: seq<(nat, nat)>)
    requires DistinctClasses(vals) && PairsIn(cands, Classes(vals))
    ensures |Reduced(vals, cands)| + Effective(IndexOf(vals), Init(vals), cands) == |vals|
  {
    SurvivorCount(vals, IndexOf(vals), cands);
  }

  lemma {:induction false} SizeSlotwise(a: seq<Option<Segment>>, b: seq<Option<Segment>>)
    requires |a| == |b| && forall k :: 0 <= k < |a| ==> SlotSize(a[k]) == SlotSize(b[k])
    ensures Size(a) == Size(b)
  {
    if |a| > 0 {
      SizeSlotwise(a[1..], b[1..]);
    }
  }

  /** No pixel is lost: the segments left hold together as many pixels as the list held. */
  lemma ReducedPixels(vals: seq<Segment>, cands: seq<(nat, nat)>)
    requires DistinctClasses(vals) && PairsIn(cands, Classes(vals))
    ensures Size(Live(Reduced(vals, cands))) == Size(Live(vals))
  {
    var st := ReduceAll(IndexOf(vals), Init(vals), cands);
    SizeKept(vals, IndexOf(vals), cands);
    SizeSqueeze(st.slots);
    var sq := Squeeze(st.slots);
    SizeSlotwise(Live(Reduced(vals, cands)), sq);
  }

  /** Every surviving segment is that of a final class: its class is its own root. */
  lemma ReducedRoots(vals: seq<Segment>, cands: seq<(nat, nat)>)
    requires DistinctClasses(vals) && PairsIn(cands, Classes(vals))
    ensures var root := ReduceAll(IndexOf(vals), Init(vals), cands).root;
      forall k :: 0 <= k < |Reduced(vals, cands)| ==>
        Reduced(vals, cands)[k].segmentClass in root && root[Reduced(vals, cands)[k].segmentClass] == Reduced(vals, cands)[k].segmentClass
  {
    var pos := IndexOf(vals);
    var st := ReduceAll(pos, Init(vals), cands);
    ReduceAllGoodInit(vals, pos, cands);
    var at := SqueezeKeepsOrder(st.slots);
    var out := Reduced(vals, cands);
    forall k | 0 <= k < |out| ensures out[k].segmentClass in st.root && st.root[out[k].segmentClass] == out[k].segmentClass {
      var p := at[k];
      assert Squeeze(st.slots)[k] == st.slots[p];
      var c := vals[p].segmentClass;
      assert pos[c] == p;
      assert st.slots[pos[c]].Some?;
      assert st.slots[p].value.segmentClass == c;
    }
  }

  /** No candidate pairs: the list keeps its length, order and segments, and every wrapped
      classifier agrees with the old one on every pixel it sends to a class of the list
      or to `undefined`. */
  lemma ReducedNothing(vals: seq<Segment>)
    requires DistinctClasses(vals)
    ensures |Reduced(vals, [])| == |vals|
    ensures forall k :: 0 <= k < |vals| ==>
      Reduced(vals, [])[k].segmentClass == vals[k].segmentClass && Reduced(vals, [])[k].members == vals[k].members
    ensures forall k, p :: 0 <= k < |vals| && (vals[k].pClass(p).None? || vals[k].pClass(p).value in Classes(vals)) ==>
      Reduced(vals, [])[k].pClass(p) == vals[k].pClass(p)
  {
    NoCandidates(vals, IndexOf(vals));
  }

  /** The relabel loop as it is written: `orig` is declared with `var` and so is shared by
      every closure, which therefore all call the classifier of the last segment. */
  function RelabelledAsWritten(xs: seq<Segment>, final: ClassMap): (r: seq<Segment>)
    ensures |r| == |xs|
    ensures forall k :: 0 <= k < |xs| ==> r[k].segmentClass == xs[k].segmentClass && r[k].members == xs[k].members
    ensures forall k :: 0 <= k < |xs| ==> r[k].pClass == Relabelled(xs, final)[|xs| - 1].pClass
  {
    if |xs| == 0 then []
    else seq(|xs|, k requires 0 <= k < |xs| => xs[k].(pClass := Wrap(xs[|xs| - 1].pClass, final)))
  }

  /** Two segments with different classifiers: as written, the first segment's new
      classifier answers with the class of the second one's. */
  lemma SharedOrigDiffers()
    ensures var xs := [Segment(0, [], _ => Some(0)), Segment(1, [], _ => Some(1))];
      var final := map[0 := 0, 1 := 1];
      RelabelledAsWritten(xs, final)[0].pClass(Pixel(0, 0, 0, 0)) == Some(1)
      && Relabelled(xs, final)[0].pClass(Pixel(0, 0, 0, 0)) == Some(0)
  {
    var xs := [Segment(0, [], _ => Some(0)), Segment(1, [], _ => Some(1))];
    var final := map[0 := 0, 1 := 1];
    assert xs[1].pClass(Pixel(0, 0, 0, 0)) == Some(1);
    assert xs[0].pClass(Pixel(0, 0, 0, 0)) == Some(0);
  }

  /** When every segment carries the same classifier, as the segments of one segmentation
      do, the shared `orig` is harmless. */
  lemma SharedOrigAgrees(xs: seq<Segment>, final: ClassMap)
    requires forall k :: 0 <= k < |xs| ==> xs[k].pClass == xs[0].pClass
    ensures RelabelledAsWritten(xs, final) == Relabelled(xs, final)
  {
  }
}
