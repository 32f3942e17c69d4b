/** The class reduction of `reduceSegments` (sketch.js), stated twice.

    The eager reference: every class carries its final class `root[c]` at all times, and
    merging the classes of a pair relabels the whole class of the second root at once.

    The lazy forest: the parent map `sClass` that the source keeps, whose roots are found
    by chasing parents.  `Forest` ties it to an eager `root` map and to a ghost rank
    that grows strictly along every parent link, so that chasing terminates. */
module EagerReduce {
  import opened Segments

  type ClassMap = map<nat, nat>

  predicate DistinctClasses(segs: seq<Segment>) {
    forall k, l :: 0 <= k < l < |segs| ==> segs[k].segmentClass != segs[l].segmentClass
  }

  function Classes(segs: seq<Segment>): set<nat> {
    set k | 0 <= k < |segs| :: segs[k].segmentClass
  }

  /** `index`: each segment class mapped to the position of its segment in `segs`. */
  predicate IsIndex(segs: seq<Segment>, index: ClassMap) {
    && index.Keys == Classes(segs)
    && (forall k :: 0 <= k < |segs| ==> index[segs[k].segmentClass] == k)
    && (forall c :: c in index ==> index[c] < |segs| && segs[index[c]].segmentClass == c)
  }

  /** The index of a list with distinct classes. */
  function IndexOf(segs: seq<Segment>): (r: ClassMap)
    requires DistinctClasses(segs)
    ensures IsIndex(segs, r)
  {
    var r := map k | 0 <= k < |segs| :: segs[k].segmentClass := k;
    assert forall k :: 0 <= k < |segs| ==> segs[k].segmentClass in r && r[segs[k].segmentClass] == k;
    r
  }

  predicate Injective(pos: ClassMap) {
    forall c, d :: c in pos && d in pos && c != d ==> pos[c] != pos[d]
  }

  /** The state of the eager reference: the segment slots and the final class of
      every class. */
  datatype Eager = Eager(slots: seq<Option<Segment>>, root: ClassMap)

  function Identity(segs: seq<Segment>): (r: ClassMap)
    ensures r.Keys == Classes(segs) && forall c :: c in r ==> r[c] == c
  {
    map c | c in Classes(segs) :: c
  }

  function Init(segs: seq<Segment>): Eager {
    Eager(Live(segs), Identity(segs))
  }

  /** The final class of `c`; a class outside the map is its own. */
  function Find(root: ClassMap, c: nat): nat {
    if c in root then root[c] else c
  }

  /** Every class of the second root now carries the first root. */
  function Relabel(root: ClassMap, j: nat, i: nat): (r: ClassMap)
    ensures r.Keys == root.Keys
    ensures forall c :: c in root ==> r[c] == (if root[c] == j then i else root[c])
  {
    map c | c in root :: if root[c] == j then i else root[c]
  }

  /** `segs[p].merge(segs[q]); segs[q] = undefined`. */
  function MergeSlots(slots: seq<Option<Segment>>, p: nat, q: nat): (r: seq<Option<Segment>>)
    ensures |r| == |slots|
  {
    if p < |slots| && q < |slots| && slots[p].Some? && slots[q].Some? then
      slots[p := Some(Merge(slots[p].value, slots[q].value))][q := None]
    else slots
  }

  predicate RootsClosed(root: ClassMap) {
    forall c :: c in root ==> root[c] in root && root[root[c]] == root[c]
  }

  /** The slot of a class holds a segment exactly when the class is its own root. */
  predicate LiveRoots(pos: ClassMap, st: Eager) {
    forall c :: c in st.root ==> c in pos && pos[c] < |st.slots| && (st.slots[pos[c]].Some? <==> st.root[c] == c)
  }

  /** A live slot still holds a segment of the class that owns the slot. */
  predicate LiveClass(pos: ClassMap, st: Eager) {
    forall c :: c in st.root && c in pos && pos[c] < |st.slots| && st.slots[pos[c]].Some? ==>
      st.slots[pos[c]].value.segmentClass == c
  }

  predicate Good(pos: ClassMap, st: Eager) {
    && Injective(pos)
    && st.root.Keys == pos.Keys
    && RootsClosed(st.root)
    && LiveRoots(pos, st)
    && LiveClass(pos, st)
  }

  lemma InitGood(segs: seq<Segment>, pos: ClassMap)
    requires IsIndex(segs, pos)
    ensures Good(pos, Init(segs)) && |Init(segs).slots| == |segs|
  {
    assert Injective(pos) by {
      forall c, d | c in pos && d in pos && c != d ensures pos[c] != pos[d] {
        assert segs[pos[c]].segmentClass == c && segs[pos[d]].segmentClass == d;
      }
    }
  }

  /** Both members of every candidate pair are classes of `segs`. */
  predicate PairsIn(cands: seq<(nat, nat)>, keys: set<nat>) {
    forall t :: 0 <= t < |cands| ==> cands[t].0 in keys && cands[t].1 in keys
  }

  /** One candidate pair: when the roots of its classes differ, the segment of the
      second root is merged into that of the first, its slot is emptied and its whole
      class takes the first root. */
  function Step(pos: ClassMap, st: Eager, a: nat, b: nat): Eager {
    var i := Find(st.root, a);
    var j := Find(st.root, b);
    if i == j || i !in pos || j !in pos then st
    else Eager(MergeSlots(st.slots, pos[i], pos[j]), Relabel(st.root, j, i))
  }

  /** Whether a pair still joins two different classes when it is reached. */
  predicate Joins(st: Eager, a: nat, b: nat) {
    Find(st.root, a) != Find(st.root, b)
  }

  lemma StepRootsClosed(root: ClassMap, i: nat, j: nat)
    requires RootsClosed(root) && i in root && root[i] == i && i != j
    ensures RootsClosed(Relabel(root, j, i))
  {
    var r' := Relabel(root, j, i);
    forall c | c in r' ensures r'[c] in r' && r'[r'[c]] == r'[c] {
      if root[c] == j {
        assert r'[i] == i;
      } else {
        assert root[root[c]] == root[c] != j;
      }
    }
  }

  lemma StepLive(pos: ClassMap, st: Eager, i: nat, j: nat)
    requires Good(pos, st) && i in st.root && j in st.root && i != j
    requires st.root[i] == i && st.root[j] == j
    ensures pos[i] != pos[j] && st.slots[pos[i]].Some? && st.slots[pos[j]].Some?
    ensures LiveRoots(pos, Eager(MergeSlots(st.slots, pos[i], pos[j]), Relabel(st.root, j, i)))
    ensures LiveClass(pos, Eager(MergeSlots(st.slots, pos[i], pos[j]), Relabel(st.root, j, i)))
  {
    var slots := MergeSlots(st.slots, pos[i], pos[j]);
    assert slots == st.slots[pos[i] := Some(Merge(st.slots[pos[i]].value, st.slots[pos[j]].value))][pos[j] := None];
    var st' := Eager(slots, Relabel(st.root, j, i));
    forall c | c in st'.root
      ensures c in pos && pos[c] < |slots| && (slots[pos[c]].Some? <==> st'.root[c] == c)
    {
      if c != i && c != j {
        assert pos[c] != pos[i] && pos[c] != pos[j];
      }
    }
    forall c | c in st'.root && c in pos && pos[c] < |slots| && slots[pos[c]].Some?
      ensures slots[pos[c]].value.segmentClass == c
    {
      if c != i {
        assert pos[c] != pos[i];
      }
    }
  }

  /** `Step` keeps the reference well formed. */
  lemma StepGood(pos: ClassMap, st: Eager, a: nat, b: nat)
    requires Good(pos, st) && a in st.root && b in st.root
    ensures Good(pos, Step(pos, st, a, b)) && Step(pos, st, a, b).root.Keys == st.root.Keys
    ensures |Step(pos, st, a, b).slots| == |st.slots|
  {
    var i, j := st.root[a], st.root[b];
    assert RootsClosed(st.root);
    assert i in st.root && st.root[i] == i;
    assert j in st.root && st.root[j] == j;
    if i != j {
      assert Step(pos, st, a, b) == Eager(MergeSlots(st.slots, pos[i], pos[j]), Relabel(st.root, j, i));
      StepRootsClosed(st.root, i, j);
      StepLive(pos, st, i, j);
    } else {
      assert Step(pos, st, a, b) == st;
    }
  }

  /** An effective step merges two live slots at different positions. */
  lemma StepMerges(pos: ClassMap, st: Eager, a: nat, b: nat) returns (p: nat, q: nat)
    requires Good(pos, st) && a in st.root && b in st.root && Joins(st, a, b)
    ensures st.root[a] in pos && st.root[b] in pos && p == pos[st.root[a]] && q == pos[st.root[b]]
    ensures p != q && p < |st.slots| && q < |st.slots| && st.slots[p].Some? && st.slots[q].Some?
    ensures Step(pos, st, a, b).slots == st.slots[p := Some(Merge(st.slots[p].value, st.slots[q].value))][q := None]
  {
    var i, j := st.root[a], st.root[b];
    assert RootsClosed(st.root);
    assert i in st.root && st.root[i] == i;
    assert j in st.root && st.root[j] == j;
    StepLive(pos, st, i, j);
    p, q := pos[i], pos[j];
  }

  /** The eager state after the first `|cands|` pairs. */
  function ReduceAll(pos: ClassMap, init: Eager, cands: seq<(nat, nat)>): Eager
    decreases |cands|
  {
    if |cands| == 0 then init
    else Step(pos, ReduceAll(pos, init, cands[..|cands| - 1]), cands[|cands| - 1].0, cands[|cands| - 1].1)
  }

  /** The number of pairs whose two roots still differed when the pair was reached. */
  function Effective(pos: ClassMap, init: Eager, cands: seq<(nat, nat)>): nat
    decreases |cands|
  {
    if |cands| == 0 then 0
    else
      var n := |cands| - 1;
      Effective(pos, init, cands[..n]) + (if Joins(ReduceAll(pos, init, cands[..n]), cands[n].0, cands[n].1) then 1 else 0)
  }

  lemma PairsInPrefix(cands: seq<(nat, nat)>, keys: set<nat>, n: nat)
    requires PairsIn(cands, keys) && n <= |cands|
    ensures PairsIn(cands[..n], keys)
  {
    assert forall t :: 0 <= t < n ==> cands[..n][t] == cands[t];
  }

  lemma ReduceAllLast(pos: ClassMap, init: Eager, cands: seq<(nat, nat)>)
    requires |cands| > 0
    ensures ReduceAll(pos, init, cands) ==
      Step(pos, ReduceAll(pos, init, cands[..|cands| - 1]), cands[|cands| - 1].0, cands[|cands| - 1].1)
  {
  }

  lemma {:induction false} ReduceAllGood(pos: ClassMap, init: Eager, cands: seq<(nat, nat)>)
    requires Good(pos, init) && PairsIn(cands, init.root.Keys)
    ensures Good(pos, ReduceAll(pos, init, cands)) && ReduceAll(pos, init, cands).root.Keys == init.root.Keys
    ensures |ReduceAll(pos, init, cands).slots| == |init.slots|
    decreases |cands|
  {
    if |cands| == 0 {
      assert ReduceAll(pos, init, cands) == init;
    } else {
      var n := |cands| - 1;
      PairsInPrefix(cands, init.root.Keys, n);
      ReduceAllGood(pos, init, cands[..n]);
      var st := ReduceAll(pos, init, cands[..n]);
      assert cands[n].0 in st.root && cands[n].1 in st.root;
      StepGood(pos, st, cands[n].0, cands[n].1);
      ReduceAllLast(pos, init, cands);
    }
  }

  lemma EffectiveLast(pos: ClassMap, init: Eager, cands: seq<(nat, nat)>)
    requires |cands| > 0
    ensures Effective(pos, init, cands) == Effective(pos, init, cands[..|cands| - 1]) +
      (if Joins(ReduceAll(pos, init, cands[..|cands| - 1]), cands[|cands| - 1].0, cands[|cands| - 1].1) then 1 else 0)
  {
  }

  /** A pair whose classes already share a root changes nothing. */
  lemma StepIdle(pos: ClassMap, st: Eager, a: nat, b: nat)
    requires !Joins(st, a, b)
    ensures Step(pos, st, a, b) == st
  {
  }

  lemma CountAfterMerge(s: seq<Option<Segment>>, p: nat, q: nat)
    requires p != q && p < |s| && q < |s| && s[p].Some? && s[q].Some?
    ensures CountSome(s[p := Some(Merge(s[p].value, s[q].value))][q := None]) + 1 == CountSome(s)
  {
    var m := Some(Merge(s[p].value, s[q].value));
    CountSomeUpdate(s, p, m);
    CountSomeUpdate(s[p := m], q, None);
  }

  /** One pair more: the count of live slots falls exactly when the pair is effective. */
  lemma SurvivorStep(pos: ClassMap, init: Eager, cands: seq<(nat, nat)>)
    requires |cands| > 0
    requires Good(pos, ReduceAll(pos, init, cands[..|cands| - 1]))
    requires cands[|cands| - 1].0 in ReduceAll(pos, init, cands[..|cands| - 1]).root
    requires cands[|cands| - 1].1 in ReduceAll(pos, init, cands[..|cands| - 1]).root
    ensures CountSome(ReduceAll(pos, init, cands).slots) + Effective(pos, init, cands) ==
      CountSome(ReduceAll(pos, init, cands[..|cands| - 1]).slots) + Effective(pos, init, cands[..|cands| - 1])
  {
    var n := |cands| - 1;
    var st := ReduceAll(pos, init, cands[..n]);
    var a, b := cands[n].0, cands[n].1;
    ReduceAllLast(pos, init, cands);
    EffectiveLast(pos, init, cands);
    if Joins(st, a, b) {
      var p, q := StepMerges(pos, st, a, b);
      CountAfterMerge(st.slots, p, q);
    } else {
      StepIdle(pos, st, a, b);
    }
  }

  /** The reference stays well formed from the initial state on. */
  lemma ReduceAllGoodInit(segs: seq<Segment>, pos: ClassMap, cands: seq<(nat, nat)>)
    requires IsIndex(segs, pos) && PairsIn(cands, Classes(segs))
    ensures Good(pos, ReduceAll(pos, Init(segs), cands)) && ReduceAll(pos, Init(segs), cands).root.Keys == Classes(segs)
    ensures |ReduceAll(pos, Init(segs), cands).slots| == |segs|
  {
    InitGood(segs, pos);
    ReduceAllGood(pos, Init(segs), cands);
  }

  /** Survivor count: every effective pair empties exactly one slot, so after the
      pairs `|segs| - Effective(...)` segments are left. */
  lemma {:induction false} SurvivorCount(segs: seq<Segment>, pos: ClassMap, cands: seq<(nat, nat)>)
    requires IsIndex(segs, pos) && PairsIn(cands, Classes(segs))
    ensures CountSome(ReduceAll(pos, Init(segs), cands).slots) + Effective(pos, Init(segs), cands) == |segs|
    decreases |cands|
  {
    if |cands| == 0 {
      assert ReduceAll(pos, Init(segs), cands) == Init(segs) && Effective(pos, Init(segs), cands) == 0;
      CountSomeDefined(Live(segs));
    } else {
      var n := |cands| - 1;
      PairsInPrefix(cands, Classes(segs), n);
      SurvivorCount(segs, pos, cands[..n]);
      ReduceAllGoodInit(segs, pos, cands[..n]);
      SurvivorStep(pos, Init(segs), cands);
    }
  }

  /** A step moves pixels between slots and loses none. */
  lemma SizeStep(pos: ClassMap, st: Eager, a: nat, b: nat)
    requires Good(pos, st) && a in st.root && b in st.root
    ensures Size(Step(pos, st, a, b).slots) == Size(st.slots)
  {
    if Joins(st, a, b) {
      var p, q := StepMerges(pos, st, a, b);
      SizeAfterMerge(st.slots, p, q);
    } else {
      StepIdle(pos, st, a, b);
    }
  }

  /** No pixel is lost: the slots hold as many pixels after the pairs as before. */
  lemma {:induction false} SizeKept(segs: seq<Segment>, pos: ClassMap, cands: seq<(nat, nat)>)
    requires IsIndex(segs, pos) && PairsIn(cands, Classes(segs))
    ensures Size(ReduceAll(pos, Init(segs), cands).slots) == Size(Live(segs))
    decreases |cands|
  {
    if |cands| == 0 {
      assert ReduceAll(pos, Init(segs), cands) == Init(segs);
    } else {
      var n := |cands| - 1;
      PairsInPrefix(cands, Classes(segs), n);
      SizeKept(segs, pos, cands[..n]);
      ReduceAllGoodInit(segs, pos, cands[..n]);
      ReduceAllLast(pos, Init(segs), cands);
      SizeStep(pos, ReduceAll(pos, Init(segs), cands[..n]), cands[n].0, cands[n].1);
    }
  }

  /** Relabelling keeps every equality between final classes. */
  lemma RelabelKeepsJoins(root: ClassMap, j: nat, i: nat, x: nat, y: nat)
    requires x in root && y in root && root[x] == root[y]
    ensures Relabel(root, j, i)[x] == Relabel(root, j, i)[y]
  {
  }

  /** A step joins its own pair and keeps every pair joined that was joined before. */
  lemma StepJoins(pos: ClassMap, st: Eager, a: nat, b: nat, x: nat, y: nat)
    requires RootsClosed(st.root) && st.root.Keys == pos.Keys && a in st.root && b in st.root && x in st.root && y in st.root
    ensures !Joins(Step(pos, st, a, b), a, b)
    ensures !Joins(st, x, y) ==> !Joins(Step(pos, st, a, b), x, y)
  {
    if Joins(st, a, b) {
      var i, j := st.root[a], st.root[b];
      assert RootsClosed(st.root);
      assert st.root[i] == i && st.root[j] == j;
      assert Step(pos, st, a, b).root == Relabel(st.root, j, i);
      if !Joins(st, x, y) {
        RelabelKeepsJoins(st.root, j, i, x, y);
      }
    } else {
      StepIdle(pos, st, a, b);
    }
  }

  /** One more pair joins its own two classes and keeps every joined pair joined. */
  lemma JoinExtend(pos: ClassMap, init: Eager, cands: seq<(nat, nat)>, m: nat, x: nat, y: nat)
    requires 0 < m <= |cands|
    requires RootsClosed(ReduceAll(pos, init, cands[..m - 1]).root)
    requires ReduceAll(pos, init, cands[..m - 1]).root.Keys == pos.Keys
    requires cands[m - 1].0 in pos && cands[m - 1].1 in pos && x in pos && y in pos
    ensures !Joins(ReduceAll(pos, init, cands[..m]), cands[m - 1].0, cands[m - 1].1)
    ensures !Joins(ReduceAll(pos, init, cands[..m - 1]), x, y) ==> !Joins(ReduceAll(pos, init, cands[..m]), x, y)
  {
    var prefix := cands[..m];
    assert prefix[..m - 1] == cands[..m - 1];
    assert prefix[m - 1] == cands[m - 1];
    ReduceAllLast(pos, init, prefix);
    StepJoins(pos, ReduceAll(pos, init, cands[..m - 1]), cands[m - 1].0, cands[m - 1].1, x, y);
  }

  /** Closed final classes stay closed under any sequence of pairs. */
  lemma {:induction false} ReduceAllRoots(pos: ClassMap, init: Eager, cands: seq<(nat, nat)>)
    requires RootsClosed(init.root) && init.root.Keys == pos.Keys && PairsIn(cands, pos.Keys)
    ensures RootsClosed(ReduceAll(pos, init, cands).root) && ReduceAll(pos, init, cands).root.Keys == pos.Keys
    decreases |cands|
  {
    if |cands| == 0 {
      assert ReduceAll(pos, init, cands) == init;
    } else {
      var n := |cands| - 1;
      PairsInPrefix(cands, pos.Keys, n);
      ReduceAllRoots(pos, init, cands[..n]);
      var st := ReduceAll(pos, init, cands[..n]);
      ReduceAllLast(pos, init, cands);
      var i, j := Find(st.root, cands[n].0), Find(st.root, cands[n].1);
      if i == j || i !in pos || j !in pos {
        assert ReduceAll(pos, init, cands) == st;
      } else {
        assert st.root[i] == i;
        StepRootsClosed(st.root, i, j);
        assert ReduceAll(pos, init, cands).root == Relabel(st.root, j, i);
      }
    }
  }

  /** The pair reached last is joined once it has been processed. */
  lemma JoinFirst(pos: ClassMap, init: Eager, cands: seq<(nat, nat)>, m: nat)
    requires RootsClosed(init.root) && init.root.Keys == pos.Keys && PairsIn(cands, pos.Keys) && 0 < m <= |cands|
    ensures !Joins(ReduceAll(pos, init, cands[..m]), cands[m - 1].0, cands[m - 1].1)
  {
    PairsInPrefix(cands, pos.Keys, m - 1);
    ReduceAllRoots(pos, init, cands[..m - 1]);
    JoinExtend(pos, init, cands, m, cands[m - 1].0, cands[m - 1].1);
  }

  /** An earlier pair that was joined stays joined after one more pair. */
  lemma JoinKeep(pos: ClassMap, init: Eager, cands: seq<(nat, nat)>, t: nat, m: nat)
    requires RootsClosed(init.root) && init.root.Keys == pos.Keys && PairsIn(cands, pos.Keys) && t < m - 1 && m <= |cands|
    requires !Joins(ReduceAll(pos, init, cands[..m - 1]), cands[t].0, cands[t].1)
    ensures !Joins(ReduceAll(pos, init, cands[..m]), cands[t].0, cands[t].1)
  {
    PairsInPrefix(cands, pos.Keys, m - 1);
    ReduceAllRoots(pos, init, cands[..m - 1]);
    JoinExtend(pos, init, cands, m, cands[t].0, cands[t].1);
  }

  /** Pair `t` shares a final class after every longer prefix of the pairs. */
  lemma {:induction false} JoinedAfter(pos: ClassMap, init: Eager, cands: seq<(nat, nat)>, t: nat, m: nat)
    requires RootsClosed(init.root) && init.root.Keys == pos.Keys && PairsIn(cands, pos.Keys) && t < m <= |cands|
    ensures !Joins(ReduceAll(pos, init, cands[..m]), cands[t].0, cands[t].1)
    decreases m
  {
    if t == m - 1 {
      JoinFirst(pos, init, cands, m);
    } else {
      JoinedAfter(pos, init, cands, t, m - 1);
      JoinKeep(pos, init, cands, t, m);
    }
  }

  /** After the reduction the two classes of every candidate pair share one final class. */
  lemma CandidatesJoined(segs: seq<Segment>, pos: ClassMap, cands: seq<(nat, nat)>)
    requires IsIndex(segs, pos) && PairsIn(cands, Classes(segs))
    ensures forall t :: 0 <= t < |cands| ==> !Joins(ReduceAll(pos, Init(segs), cands), cands[t].0, cands[t].1)
  {
    InitGood(segs, pos);
    assert PairsIn(cands, pos.Keys);
    forall t | 0 <= t < |cands| ensures !Joins(ReduceAll(pos, Init(segs), cands), cands[t].0, cands[t].1) {
      JoinedAfter(pos, Init(segs), cands, t, |cands|);
      assert cands[..|cands|] == cands;
    }
  }

  /** Transitive resolution: the pairs (A, B) and then (B, C) give B and C the final
      class of A, which is A itself. */
  lemma ChainResolves(segs: seq<Segment>, pos: ClassMap, a: nat, b: nat, c: nat)
    requires IsIndex(segs, pos) && a in pos && b in pos && c in pos
    requires a != b && b != c && a != c
    ensures var r := ReduceAll(pos, Init(segs), [(a, b), (b, c)]).root;
      Find(r, a) == a && Find(r, b) == a && Find(r, c) == a
  {
    var cands := [(a, b), (b, c)];
    var none: seq<(nat, nat)> := [];
    assert cands[..1] == [(a, b)] && cands[..1][..0] == none;
    var id := Identity(segs);
    assert ReduceAll(pos, Init(segs), none) == Init(segs);
    assert Find(id, a) == a && Find(id, b) == b;
    var st1 := ReduceAll(pos, Init(segs), cands[..1]);
    assert st1 == Step(pos, Init(segs), a, b);
    assert st1.root == Relabel(id, b, a);
    assert st1.root[a] == a && st1.root[b] == a && st1.root[c] == c;
    assert ReduceAll(pos, Init(segs), cands) == Step(pos, st1, b, c);
    var r := Relabel(st1.root, c, a);
    assert ReduceAll(pos, Init(segs), cands).root == r;
    assert r[a] == a && r[b] == a && r[c] == a;
  }

  /** With no candidate pairs nothing is merged and every class is its own final class. */
  lemma NoCandidates(segs: seq<Segment>, pos: ClassMap)
    ensures ReduceAll(pos, Init(segs), []) == Init(segs)
    ensures Squeeze(Init(segs).slots) == Live(segs)
    ensures forall c :: c in Classes(segs) ==> Find(Init(segs).root, c) == c
  {
    SqueezeDefined(Live(segs));
  }

  // The lazy parent map `sClass`, split into the facts that each union must keep.

  predicate SameKeys(sClass: ClassMap, root: ClassMap, rank: ClassMap) {
    sClass.Keys == root.Keys && rank.Keys == root.Keys
  }

  /** A class is its own parent exactly when it is its own final class. */
  predicate RootsAgree(sClass: ClassMap, root: ClassMap) {
    forall c :: c in sClass && c in root ==> (sClass[c] == c <==> root[c] == c)
  }

  /** A parent link stays among the classes, keeps the final class and climbs in rank. */
  predicate LinksClimb(sClass: ClassMap, root: ClassMap, rank: ClassMap) {
    forall c {:trigger sClass[c]} :: c in sClass && sClass[c] != c ==>
      && c in root && c in rank && sClass[c] in root && sClass[c] in rank
      && root[sClass[c]] == root[c] && rank[c] < rank[sClass[c]]
  }

  /** Below its final class a class has a smaller rank. */
  predicate RootAbove(root: ClassMap, rank: ClassMap) {
    forall c :: c in root && root[c] != c && c in rank && root[c] in rank ==> rank[c] < rank[root[c]]
  }

  predicate Bounded(rank: ClassMap, bound: nat) {
    forall c :: c in rank ==> rank[c] <= bound
  }

  predicate Forest(sClass: ClassMap, root: ClassMap, rank: ClassMap, bound: nat) {
    && SameKeys(sClass, root, rank)
    && RootsClosed(root)
    && RootsAgree(sClass, root)
    && LinksClimb(sClass, root, rank)
    && RootAbove(root, rank)
    && Bounded(rank, bound)
  }

  /** At the start every class is its own parent. */
  lemma ForestStart(segs: seq<Segment>)
    ensures Forest(Identity(segs), Identity(segs), map c | c in Classes(segs) :: 0, 0)
  {
  }

  function NewRank(rank: ClassMap, i: nat, j: nat): ClassMap
    requires i in rank && j in rank
  {
    rank[i := if rank[i] > rank[j] then rank[i] else rank[j] + 1]
  }

  function NewBound(rank: ClassMap, bound: nat, j: nat): nat
    requires j in rank
  {
    if bound > rank[j] then bound else rank[j] + 1
  }

  /** The union keeps the parent and final-class maps agreeing on which classes are roots. */
  lemma UnionAgree(sClass: ClassMap, root: ClassMap, a: nat, b: nat)
    requires sClass.Keys == root.Keys && RootsClosed(root) && RootsAgree(sClass, root)
    requires a in root && b in root && root[a] != root[b]
    ensures RootsAgree(sClass[root[b] := root[a]][b := root[a]][a := root[a]], Relabel(root, root[b], root[a]))
  {
    var i, j := root[a], root[b];
    var s' := sClass[j := i][b := i][a := i];
    var r' := Relabel(root, j, i);
    forall c | c in s' && c in r' ensures s'[c] == c <==> r'[c] == c {
      if c == a || c == b || c == j {
        assert s'[c] == i && r'[c] == i;
      } else {
        assert s'[c] == sClass[c];
      }
    }
  }

  /** The union keeps every parent link inside the same final class and climbing in rank. */
  lemma UnionLinks(sClass: ClassMap, root: ClassMap, rank: ClassMap, a: nat, b: nat)
    requires SameKeys(sClass, root, rank) && RootsClosed(root)
    requires LinksClimb(sClass, root, rank) && RootAbove(root, rank)
    requires a in root && b in root && root[a] != root[b]
    ensures LinksClimb(sClass[root[b] := root[a]][b := root[a]][a := root[a]], Relabel(root, root[b], root[a]),
      NewRank(rank, root[a], root[b]))
  {
    var i, j := root[a], root[b];
    var s' := sClass[j := i][b := i][a := i];
    var r' := Relabel(root, j, i);
    var k' := NewRank(rank, i, j);
    assert root[i] == i && root[j] == j;
    forall c | c in s' && s'[c] != c
      ensures c in r' && c in k' && s'[c] in r' && s'[c] in k' && r'[s'[c]] == r'[c] && k'[c] < k'[s'[c]]
    {
      if c == a || c == b || c == j {
        assert s'[c] == i && r'[c] == i && c != i;
        assert rank[c] <= rank[root[c]];
      } else {
        var p := sClass[c];
        assert s'[c] == p;
        assert root[p] == root[c] && rank[c] < rank[p];
      }
    }
  }

  /** After the union a class below its final class still has a smaller rank. */
  lemma UnionAbove(root: ClassMap, rank: ClassMap, a: nat, b: nat)
    requires rank.Keys == root.Keys && RootsClosed(root) && RootAbove(root, rank)
    requires a in root && b in root && root[a] != root[b]
    ensures RootAbove(Relabel(root, root[b], root[a]), NewRank(rank, root[a], root[b]))
  {
    var i, j := root[a], root[b];
    var r' := Relabel(root, j, i);
    var k' := NewRank(rank, i, j);
    assert root[i] == i && root[j] == j;
    forall c | c in r' && r'[c] != c && c in k' && r'[c] in k' ensures k'[c] < k'[r'[c]] {
      if root[c] == j {
        assert c != i && r'[c] == i;
        assert rank[c] <= rank[j];
      } else {
        assert r'[c] == root[c] && c != i;
      }
    }
  }

  /** The raised rank of the new root stays within the raised bound. */
  lemma UnionBounded(rank: ClassMap, bound: nat, i: nat, j: nat)
    requires Bounded(rank, bound) && i in rank && j in rank
    ensures Bounded(NewRank(rank, i, j), NewBound(rank, bound, j))
  {
  }

  /** Updating classes already present keeps the three maps on the same classes. */
  lemma UnionKeys(sClass: ClassMap, root: ClassMap, rank: ClassMap, a: nat, b: nat, i: nat, j: nat)
    requires SameKeys(sClass, root, rank) && a in root && b in root && i in root && j in root
    ensures SameKeys(sClass[j := i][b := i][a := i], Relabel(root, j, i), NewRank(rank, i, j))
  {
    assert sClass[j := i][b := i][a := i].Keys == sClass.Keys;
  }

  /** The union of sketch.js:181-183: `sClass[j]`, `sClass[pair.j]` and `sClass[pair.i]`
      all become the root `i` of `pair.i`, where `j` is the root of `pair.j`.  The parent
      map stays a forest whose roots are those of the eager relabelling. */
  lemma ForestUnion(sClass: ClassMap, root: ClassMap, rank: ClassMap, bound: nat, a: nat, b: nat)
    requires Forest(sClass, root, rank, bound) && a in root && b in root && root[a] != root[b]
    ensures var i, j := root[a], root[b];
      Forest(sClass[j := i][b := i][a := i], Relabel(root, j, i), NewRank(rank, i, j), NewBound(rank, bound, j))
  {
    var i, j := root[a], root[b];
    assert root[i] == i;
    StepRootsClosed(root, i, j);
    UnionAgree(sClass, root, a, b);
    UnionLinks(sClass, root, rank, a, b);
    UnionAbove(root, rank, a, b);
    UnionBounded(rank, bound, i, j);
    UnionKeys(sClass, root, rank, a, b, i, j);
  }
}
