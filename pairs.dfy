/** `mergeablePairs` (sketch.js:116-152): for every segment, the most frequent other
    neighbour class that is eligible, offered to a caller-supplied test.

    `neighborCount()` of a segment is given as a sequence indexed by class, holding the
    number of neighbour pixels of that class (`None` where the class is absent); its keys
    are read in ascending order, as a JavaScript `for ... in` visits integer keys.  The
    colour distance `colorDist(avgColor, avgColor)` is a parameter `dist` applied to the
    positions of the two segments in the list. */
module Pairs {
  import opened Segments
  import opened EagerReduce

  lemma DistinctPrefix(segs: seq<Segment>, k: nat)
    requires DistinctClasses(segs) && k <= |segs|
    ensures DistinctClasses(segs[..k])
  {
    assert forall m :: 0 <= m < k ==> segs[..k][m] == segs[m];
  }

  /** Indexing one more segment adds exactly its class at its position. */
  lemma IndexOfLast(segs: seq<Segment>, k: nat)
    requires DistinctClasses(segs) && k < |segs|
    ensures DistinctClasses(segs[..k]) && DistinctClasses(segs[..k + 1])
    ensures IndexOf(segs[..k + 1]) == IndexOf(segs[..k])[segs[k].segmentClass := k]
  {
    DistinctPrefix(segs, k);
    DistinctPrefix(segs, k + 1);
    var small, big := IndexOf(segs[..k]), IndexOf(segs[..k + 1]);
    var upd := small[segs[k].segmentClass := k];
    assert forall m :: 0 <= m < k ==> segs[..k + 1][m] == segs[..k][m];
    assert segs[..k + 1][k] == segs[k];
    forall c | c in big ensures c in upd && upd[c] == big[c] {
      var m := big[c];
      assert segs[..k + 1][m].segmentClass == c;
      if m < k {
        assert segs[..k][m].segmentClass == c;
      }
    }
    forall c | c in upd ensures c in big {
      if c != segs[k].segmentClass {
        assert segs[..k][small[c]].segmentClass == c;
        assert segs[..k + 1][small[c]].segmentClass == c;
      }
    }
    assert big.Keys == upd.Keys;
  }

  /** The `index` loop (sketch.js:118-123, and again at sketch.js:164-169): the class of
      every segment mapped to its position.  The `console.assert` that no class is seen
      twice is the precondition. */
  method BuildIndex(segs: seq<Segment>) returns (index: ClassMap)
    requires DistinctClasses(segs)
    ensures index == IndexOf(segs)
  {
    index := map[];
    var k := 0;
    assert segs[..0] == [];
    while k < |segs|
      invariant k <= |segs| && DistinctClasses(segs[..k])
      invariant index == IndexOf(segs[..k])
    {
      IndexOfLast(segs, k);
      index := index[segs[k].segmentClass := k];
      k := k + 1;
    }
    assert segs[..k] == segs;
  }

  /** The running values of the neighbour loop: `jmax` (-1 for none), `maxcount`, `sum`. */
  datatype Tally = Tally(jmax: int, maxcount: nat, sum: nat)

  /** `index[j]` is truthy: the class is in the list and not at position 0. */
  predicate Truthy(index: ClassMap, j: nat) {
    j in index && index[j] != 0
  }

  /** The neighbour loop (sketch.js:131-141) after the classes below `|counts|`. */
  function Scan(counts: seq<Option<nat>>, index: ClassMap, i: nat): Tally
    decreases |counts|
  {
    if |counts| == 0 then Tally(-1, 0, 0)
    else
      var j := |counts| - 1;
      var t := Scan(counts[..j], index, i);
      match counts[j]
      case None => t
      case Some(n) =>
        if j == i then t
        else if n > t.maxcount && Truthy(index, j) then Tally(j, n, t.sum + n)
        else t.(sum := t.sum + n)
  }

  /** A class the loop may pick: another class, present among the neighbours, truthy in `index`. */
  predicate Eligible(counts: seq<Option<nat>>, index: ClassMap, i: nat, j: nat) {
    j < |counts| && j != i && counts[j].Some? && Truthy(index, j)
  }

  /** The count of every neighbour class, `internal` included. */
  function Total(counts: seq<Option<nat>>): nat {
    if |counts| == 0 then 0 else (if counts[0].Some? then counts[0].value else 0) + Total(counts[1..])
  }

  /** `neighbors[i]`: the count of the segment's own class, `undefined` when absent. */
  function Internal(counts: seq<Option<nat>>, i: nat): Option<nat> {
    if i < |counts| then counts[i] else None
  }

  function Count(o: Option<nat>): nat {
    if o.Some? then o.value else 0
  }

  lemma {:induction false} TotalLast(counts: seq<Option<nat>>)
    requires |counts| > 0
    ensures Total(counts) == Total(counts[..|counts| - 1]) + Count(counts[|counts| - 1])
  {
    if |counts| > 1 {
      assert counts[1..][..|counts| - 2] == counts[..|counts| - 1][1..];
      TotalLast(counts[1..]);
    }
  }

  /** The loop picks the first class with the strictly largest positive count among the
      eligible ones, `-1` when every eligible count is 0, and sums the counts of all other
      classes. */
  lemma {:induction false} ScanBest(counts: seq<Option<nat>>, index: ClassMap, i: nat)
    ensures var t := Scan(counts, index, i);
      && (t.jmax == -1 <==> forall j: nat :: Eligible(counts, index, i, j) ==> counts[j].value == 0)
      && (t.jmax == -1 ==> t.maxcount == 0)
      && (t.jmax != -1 ==> 0 <= t.jmax && Eligible(counts, index, i, t.jmax) && counts[t.jmax].value == t.maxcount > 0)
      && (forall j: nat :: Eligible(counts, index, i, j) ==> counts[j].value <= t.maxcount)
      && (forall j: nat :: Eligible(counts, index, i, j) && j < t.jmax ==> counts[j].value < t.maxcount)
      && t.sum + Count(Internal(counts, i)) == Total(counts)
    decreases |counts|
  {
    if |counts| > 0 {
      var j := |counts| - 1;
      var front := counts[..j];
      ScanBest(front, index, i);
      TotalLast(counts);
      assert forall l: nat :: l < j ==> (Eligible(counts, index, i, l) <==> Eligible(front, index, i, l)) && front[l] == counts[l];
      if i < j {
        assert Internal(counts, i) == Internal(front, i);
      } else if i > j {
        assert Internal(counts, i) == None == Internal(front, i);
      } else {
        assert Internal(front, i) == None;
      }
    }
  }

  /** What the loop over `segs` (sketch.js:125-150) adds for the segment at position `k`. */
  function Choice<D>(segs: seq<Segment>, nbs: seq<seq<Option<nat>>>, dist: (nat, nat) -> D,
                     mergeable: (Option<nat>, nat, nat, D) -> bool, k: nat): Option<(nat, nat)>
    requires DistinctClasses(segs) && |nbs| == |segs| && k < |segs|
  {
    var index := IndexOf(segs);
    var i := segs[k].segmentClass;
    var t := Scan(nbs[k], index, i);
    if t.jmax == -1 then None
    else
      ScanBest(nbs[k], index, i);
      if mergeable(Internal(nbs[k], i), t.sum, t.maxcount, dist(index[i], index[t.jmax])) then Some((i, t.jmax as nat))
      else None
  }

  /** The choices for the first `k` segments. */
  function Choices<D>(segs: seq<Segment>, nbs: seq<seq<Option<nat>>>, dist: (nat, nat) -> D,
                      mergeable: (Option<nat>, nat, nat, D) -> bool, k: nat): (cs: seq<Option<(nat, nat)>>)
    requires DistinctClasses(segs) && |nbs| == |segs| && k <= |segs|
    ensures |cs| == k && forall m :: 0 <= m < k ==> cs[m] == Choice(segs, nbs, dist, mergeable, m)
  {
    seq(k, m requires 0 <= m < k => Choice(segs, nbs, dist, mergeable, m))
  }

  /** The pairs pushed for the first `k` segments: their choices, undefined ones dropped. */
  function Emit<D>(segs: seq<Segment>, nbs: seq<seq<Option<nat>>>, dist: (nat, nat) -> D,
                   mergeable: (Option<nat>, nat, nat, D) -> bool, k: nat): seq<(nat, nat)>
    requires DistinctClasses(segs) && |nbs| == |segs| && k <= |segs|
  {
    Values(Squeeze(Choices(segs, nbs, dist, mergeable, k)))
  }

  lemma ValuesAppend<T>(a: seq<Option<T>>, b: seq<Option<T>>)
    requires AllDefined(a) && AllDefined(b)
    ensures AllDefined(a + b) && Values(a + b) == Values(a) + Values(b)
  {
    assert AllDefined(a + b) by {
      forall k | 0 <= k < |a + b| ensures (a + b)[k].Some? {
        if k < |a| { assert (a + b)[k] == a[k]; } else { assert (a + b)[k] == b[k - |a|]; }
      }
    }
  }

  /** One more segment appends its choice, if any. */
  lemma EmitStep<D>(segs: seq<Segment>, nbs: seq<seq<Option<nat>>>, dist: (nat, nat) -> D,
                    mergeable: (Option<nat>, nat, nat, D) -> bool, k: nat)
    requires DistinctClasses(segs) && |nbs| == |segs| && k < |segs|
    ensures var c := Choice(segs, nbs, dist, mergeable, k);
      Emit(segs, nbs, dist, mergeable, k + 1) == Emit(segs, nbs, dist, mergeable, k) + (if c.Some? then [c.value] else [])
  {
    var c := Choice(segs, nbs, dist, mergeable, k);
    var front := Choices(segs, nbs, dist, mergeable, k);
    assert Choices(segs, nbs, dist, mergeable, k + 1) == front + [c];
    SqueezeAppend(front, [c]);
    assert [c][1..] == [];
    ValuesAppend(Squeeze(front), Squeeze([c]));
  }

  /** The neighbour loop of sketch.js:128-141 for the segment of class `i`. */
  method Tallied(neighbors: seq<Option<nat>>, index: ClassMap, i: nat) returns (jmax: int, maxcount: nat, sum: nat)
    ensures Tally(jmax, maxcount, sum) == Scan(neighbors, index, i)
  {
    maxcount := 0;
    sum := 0;
    jmax := -1;
    var j := 0;
    while j < |neighbors|
      invariant j <= |neighbors|
      invariant Tally(jmax, maxcount, sum) == Scan(neighbors[..j], index, i)
    {
      assert neighbors[..j + 1][..j] == neighbors[..j];
      if neighbors[j].Some? {
        var n := neighbors[j].value;
        if j != i {
          if n > maxcount && j in index && index[j] != 0 {
            jmax := j;
            maxcount := n;
          }
          sum := sum + n;
        }
      }
      j := j + 1;
    }
    assert neighbors[..j] == neighbors;
  }

  /** `mergeablePairs(segs, mergeable)`. */
  method MergeablePairs<D>(segs: seq<Segment>, nbs: seq<seq<Option<nat>>>, dist: (nat, nat) -> D,
                           mergeable: (Option<nat>, nat, nat, D) -> bool) returns (pairs: seq<(nat, nat)>)
    requires DistinctClasses(segs) && |nbs| == |segs|
    ensures pairs == Emit(segs, nbs, dist, mergeable, |segs|)
  {
    var index := BuildIndex(segs);
    pairs := [];
    var k := 0;
    while k < |segs|
      invariant k <= |segs|
      invariant pairs == Emit(segs, nbs, dist, mergeable, k)
    {
      var neighbors := nbs[k];
      var i := segs[k].segmentClass;
      var jmax, maxcount, sum := Tallied(neighbors, index, i);
      if jmax != -1 {
        ScanBest(neighbors, index, i);
        var d := dist(index[i], index[jmax]);
        if mergeable(Internal(neighbors, i), sum, maxcount, d) {
          pairs := pairs + [(i, jmax)];
        }
      }
      EmitStep(segs, nbs, dist, mergeable, k);
      k := k + 1;
    }
  }

  /** At most one pair per segment, in the order of `segs`: the pairs are the choices at
      a strictly increasing sequence of positions, which holds every position with a choice. */
  lemma EmitOrder<D>(segs: seq<Segment>, nbs: seq<seq<Option<nat>>>, dist: (nat, nat) -> D,
                     mergeable: (Option<nat>, nat, nat, D) -> bool) returns (at: seq<nat>)
    requires DistinctClasses(segs) && |nbs| == |segs|
    ensures var pairs := Emit(segs, nbs, dist, mergeable, |segs|);
      && |at| == |pairs| <= |segs|
      && (forall m :: 0 <= m < |at| ==> at[m] < |segs| && Choice(segs, nbs, dist, mergeable, at[m]) == Some(pairs[m]))
      && (forall m, l :: 0 <= m < l < |at| ==> at[m] < at[l])
      && (forall p :: 0 <= p < |segs| && Choice(segs, nbs, dist, mergeable, p).Some? ==> p in at)
  {
    var cs := Choices(segs, nbs, dist, mergeable, |segs|);
    at := SqueezeKeepsOrder(cs);
    var pairs := Values(Squeeze(cs));
    forall m | 0 <= m < |at| ensures Choice(segs, nbs, dist, mergeable, at[m]) == Some(pairs[m]) {
      assert Squeeze(cs)[m] == cs[at[m]];
    }
  }

  /** A chosen pair is the segment's class and an eligible best neighbour class. */
  lemma ChoicePair<D>(segs: seq<Segment>, nbs: seq<seq<Option<nat>>>, dist: (nat, nat) -> D,
                      mergeable: (Option<nat>, nat, nat, D) -> bool, k: nat)
    requires DistinctClasses(segs) && |nbs| == |segs| && k < |segs|
    requires Choice(segs, nbs, dist, mergeable, k).Some?
    ensures var p := Choice(segs, nbs, dist, mergeable, k).value;
      && p.0 == segs[k].segmentClass && p.1 != p.0 && p.1 in Classes(segs)
      && IndexOf(segs)[p.1] != 0
      && p.1 == Scan(nbs[k], IndexOf(segs), p.0).jmax
  {
    ScanBest(nbs[k], IndexOf(segs), segs[k].segmentClass);
  }

  /** Every emitted pair names two different classes of the list, as `reduceSegments` needs. */
  lemma PairsAreClasses<D>(segs: seq<Segment>, nbs: seq<seq<Option<nat>>>, dist: (nat, nat) -> D,
                           mergeable: (Option<nat>, nat, nat, D) -> bool)
    requires DistinctClasses(segs) && |nbs| == |segs|
    ensures var pairs := Emit(segs, nbs, dist, mergeable, |segs|);
      PairsIn(pairs, Classes(segs)) && forall m :: 0 <= m < |pairs| ==> pairs[m].0 != pairs[m].1
  {
    var pairs := Emit(segs, nbs, dist, mergeable, |segs|);
    var at := EmitOrder(segs, nbs, dist, mergeable);
    forall m | 0 <= m < |pairs| ensures pairs[m].0 in Classes(segs) && pairs[m].1 in Classes(segs) && pairs[m].0 != pairs[m].1 {
      ChoicePair(segs, nbs, dist, mergeable, at[m]);
    }
  }
}
