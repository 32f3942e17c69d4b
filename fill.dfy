/** The proof of the flood fill behind `connectedComponents`, on values: the flag
    array is a `seq<bool>` here, the stack and the component list are sequences.
    FillInv is the invariant of the `visit` loop and ScanInv that of the loop over
    all pixels; the step lemmas show that one iteration keeps them. */
module FloodFill {
  import opened Grid

  /** What `visit` may rely on when it starts from `seed`: the unvisited pixels are
      exactly those in no earlier component, and the earlier components are closed. */
  ghost predicate FillPre(s: seq<bv8>, w: nat, f0: seq<bool>, seed: nat, done: seq<seq<nat>>)
  {
    && |f0| == |s| && seed < |s| && f0[seed]
    && (forall k :: 0 <= k < |f0| ==> (!f0[k] <==> k in Flatten(done)))
    && Closed(s, w, done)
  }

  /** Every stack entry is a pixel that is unvisited or already in the component. */
  ghost predicate StackPending(s: seq<bv8>, f: seq<bool>, comp: seq<nat>, stack: seq<nat>)
  {
    |f| == |s| && forall t :: 0 <= t < |stack| ==> stack[t] < |s| && (f[stack[t]] || stack[t] in comp)
  }

  /** `pusher[t]` is the position in `comp` of the pixel whose neighbour test pushed
      `stack[t]`. */
  ghost predicate PushedBy(s: seq<bv8>, w: nat, comp: seq<nat>, stack: seq<nat>, pusher: seq<nat>)
  {
    && |pusher| == |stack|
    && (comp != [] ==> forall t :: 0 <= t < |stack| ==>
          pusher[t] < |comp| && Linked(s, w, comp[pusher[t]], stack[t]))
  }

  /** The flags are the initial ones with the members of `comp` cleared. */
  ghost predicate Marked(s: seq<bv8>, f0: seq<bool>, f: seq<bool>, comp: seq<nat>)
  {
    && |f0| == |s| && |f| == |s|
    && (forall x :: x in comp ==> x < |s| && f0[x])
    && (forall k :: 0 <= k < |s| ==> (f[k] <==> f0[k] && k !in comp))
  }

  /** Every linked neighbour of a member is a member or still on the stack. */
  ghost predicate ClosedBut(s: seq<bv8>, w: nat, comp: seq<nat>, stack: seq<nat>)
  {
    forall k, y :: 0 <= k < |comp| && Linked(s, w, comp[k], y) ==> y in comp || y in stack
  }

  /** The neighbours that one pass of `visit` pushes for pixel i, in push order:
      above, below, left, right, each when unvisited and joined to i. */
  function Pushed(s: seq<bv8>, w: nat, f: seq<bool>, i: nat): (r: seq<nat>)
    requires |f| == |s| && i < |s| && w > 0 && |s| % w == 0
  {
    (if i >= w && f[i - w] && s[i - w] & SOUTH != 0 then [i - w] else []) +
    (if i + w < |s| && f[i + w] && s[i] & SOUTH != 0 then [i + w] else []) +
    (if i % w != 0 && f[i - 1] && s[i - 1] & EAST != 0 then [i - 1] else []) +
    (if (i + 1) % w != 0 && f[i + 1] && s[i] & EAST != 0 then [i + 1] else [])
  }

  /** Exactly the unvisited linked neighbours are pushed. */
  lemma PushedIsLinked(s: seq<bv8>, w: nat, f: seq<bool>, i: nat)
    requires |f| == |s| && i < |s| && w > 0 && |s| % w == 0
    ensures forall y :: y in Pushed(s, w, f, i) <==> Linked(s, w, i, y) && f[y]
  {
  }

  /** The loop invariant of `visit`. */
  ghost predicate FillInv(s: seq<bv8>, w: nat, f0: seq<bool>, f: seq<bool>, seed: nat,
                          comp: seq<nat>, stack: seq<nat>, pusher: seq<nat>)
  {
    && StackPending(s, f, comp, stack)
    && PushedBy(s, w, comp, stack, pusher)
    && (comp == [] ==> stack == [seed])
    && (comp != [] ==> comp[0] == seed)
    && NoDup(comp)
    && Marked(s, f0, f, comp)
    && ClosedBut(s, w, comp, stack)
    && GrownFromSeed(s, w, comp)
  }

  /** What `visit` delivers: a duplicate-free component starting at the seed, made of
      pixels that were unvisited, now marked visited, closed under the edges and
      grown edge by edge from the seed. */
  ghost predicate FillResult(s: seq<bv8>, w: nat, f0: seq<bool>, f: seq<bool>, seed: nat,
                             comp: seq<nat>)
  {
    && |comp| > 0 && comp[0] == seed && NoDup(comp)
    && Marked(s, f0, f, comp)
    && (forall k, y :: 0 <= k < |comp| && Linked(s, w, comp[k], y) ==> y in comp)
    && GrownFromSeed(s, w, comp)
  }

  ghost function Unvisited(f: seq<bool>): set<nat>
  {
    set k | 0 <= k < |f| && f[k]
  }

  lemma FillStart(s: seq<bv8>, w: nat, f0: seq<bool>, seed: nat, done: seq<seq<nat>>)
    requires FillPre(s, w, f0, seed, done)
    ensures FillInv(s, w, f0, f0, seed, [], [seed], [0])
  {
  }

  lemma StackPendingVisit(s: seq<bv8>, f: seq<bool>, comp: seq<nat>, stack: seq<nat>, pushed: seq<nat>)
    requires StackPending(s, f, comp, stack) && |stack| > 0
    requires forall y :: y in pushed ==> y < |s| && f[stack[|stack| - 1] := false][y]
    ensures StackPending(s, f[stack[|stack| - 1] := false], comp + [stack[|stack| - 1]],
                         stack[..|stack| - 1] + pushed)
  {
    var i := stack[|stack| - 1];
    var f', comp', rest := f[i := false], comp + [i], stack[..|stack| - 1];
    var stack' := rest + pushed;
    forall t | 0 <= t < |stack'|
      ensures stack'[t] < |s| && (f'[stack'[t]] || stack'[t] in comp')
    {
      if t >= |rest| {
        assert stack'[t] in pushed;
      } else {
        assert stack'[t] == stack[t];
      }
    }
  }

  lemma PushedByVisit(s: seq<bv8>, w: nat, comp: seq<nat>, stack: seq<nat>, pusher: seq<nat>,
                      pushed: seq<nat>)
    requires PushedBy(s, w, comp, stack, pusher) && |stack| > 0
    requires comp == [] ==> |stack| == 1
    requires forall y :: y in pushed ==> Linked(s, w, stack[|stack| - 1], y)
    ensures PushedBy(s, w, comp + [stack[|stack| - 1]], stack[..|stack| - 1] + pushed,
                     pusher[..|stack| - 1] + seq(|pushed|, _ => |comp|))
  {
    var i := stack[|stack| - 1];
    var comp', rest, prest := comp + [i], stack[..|stack| - 1], pusher[..|stack| - 1];
    var stack', pusher' := rest + pushed, prest + seq(|pushed|, _ => |comp|);
    forall t | 0 <= t < |stack'|
      ensures pusher'[t] < |comp'| && Linked(s, w, comp'[pusher'[t]], stack'[t])
    {
      if t >= |rest| {
        assert stack'[t] in pushed && pusher'[t] == |comp|;
      } else {
        assert stack'[t] == stack[t] && pusher'[t] == pusher[t];
      }
    }
  }

  lemma MarkedVisit(s: seq<bv8>, f0: seq<bool>, f: seq<bool>, comp: seq<nat>, i: nat)
    requires Marked(s, f0, f, comp) && i < |s| && f[i]
    ensures i !in comp
    ensures Marked(s, f0, f[i := false], comp + [i])
  {
  }

  lemma ClosedButVisit(s: seq<bv8>, w: nat, f0: seq<bool>, f: seq<bool>, seed: nat,
                       done: seq<seq<nat>>, comp: seq<nat>, stack: seq<nat>, pushed: seq<nat>)
    requires FillPre(s, w, f0, seed, done)
    requires Marked(s, f0, f, comp) && ClosedBut(s, w, comp, stack)
    requires |stack| > 0 && stack[|stack| - 1] < |f| && f[stack[|stack| - 1]]
    requires forall y ::
      Linked(s, w, stack[|stack| - 1], y) && f[stack[|stack| - 1] := false][y] ==> y in pushed
    ensures ClosedBut(s, w, comp + [stack[|stack| - 1]], stack[..|stack| - 1] + pushed)
  {
    var i := stack[|stack| - 1];
    var f', comp', rest := f[i := false], comp + [i], stack[..|stack| - 1];
    var stack' := rest + pushed;
    forall k, y | 0 <= k < |comp'| && Linked(s, w, comp'[k], y)
      ensures y in comp' || y in stack'
    {
      if k < |comp| {
        assert comp'[k] == comp[k];
        if y in stack && y !in comp {
          var t :| 0 <= t < |stack| && stack[t] == y;
          if t < |rest| {
            assert rest[t] == y;
          }
        }
      } else if !f'[y] && y != i && !(f0[y] && y in comp) {
        // y was visited by an earlier component, which would then contain i
        var ci := FlattenedMember(done, y);
        var j :| 0 <= j < |done[ci]| && done[ci][j] == y;
        LinkedSymmetric(s, w, i, y);
        MemberFlattened(done, ci, i);
        assert false;
      }
    }
  }

  lemma GrownVisit(s: seq<bv8>, w: nat, comp: seq<nat>, i: nat, from: nat)
    requires GrownFromSeed(s, w, comp)
    requires comp != [] ==> from < |comp| && Linked(s, w, comp[from], i)
    ensures GrownFromSeed(s, w, comp + [i])
  {
    var comp' := comp + [i];
    forall k | 0 < k < |comp'|
      ensures exists j :: 0 <= j < k && Linked(s, w, comp'[j], comp'[k])
    {
      if k == |comp| {
        assert Linked(s, w, comp'[from], comp'[k]);
      } else {
        var j :| 0 <= j < k && Linked(s, w, comp[j], comp[k]);
        assert Linked(s, w, comp'[j], comp'[k]);
      }
    }
  }

  lemma NoDupSnoc(comp: seq<nat>, i: nat)
    requires NoDup(comp) && i !in comp
    ensures NoDup(comp + [i])
  {
    var comp' := comp + [i];
    forall a, b | 0 <= a < b < |comp'| ensures comp'[a] != comp'[b] {
      if b == |comp| {
        assert comp'[a] in comp;
      }
    }
  }

  /** The popped pixel i is unvisited: it joins the component and its unvisited
      linked neighbours are pushed. */
  lemma FillVisit(s: seq<bv8>, w: nat, f0: seq<bool>, f: seq<bool>, seed: nat,
                  done: seq<seq<nat>>, comp: seq<nat>, stack: seq<nat>, pusher: seq<nat>,
                  pushed: seq<nat>)
    requires FillPre(s, w, f0, seed, done)
    requires FillInv(s, w, f0, f, seed, comp, stack, pusher)
    requires |stack| > 0 && stack[|stack| - 1] < |f| && f[stack[|stack| - 1]]
    requires w > 0 && |s| % w == 0
    requires pushed == Pushed(s, w, f[stack[|stack| - 1] := false], stack[|stack| - 1])
    ensures FillInv(s, w, f0, f[stack[|stack| - 1] := false], seed, comp + [stack[|stack| - 1]],
      stack[..|stack| - 1] + pushed, pusher[..|stack| - 1] + seq(|pushed|, _ => |comp|))
    ensures Unvisited(f[stack[|stack| - 1] := false]) < Unvisited(f)
  {
    var i := stack[|stack| - 1];
    var f' := f[i := false];
    PushedIsLinked(s, w, f', i);
    StackPendingVisit(s, f, comp, stack, pushed);
    PushedByVisit(s, w, comp, stack, pusher, pushed);
    MarkedVisit(s, f0, f, comp, i);
    ClosedButVisit(s, w, f0, f, seed, done, comp, stack, pushed);
    GrownVisit(s, w, comp, i, pusher[|stack| - 1]);
    NoDupSnoc(comp, i);
    assert i in Unvisited(f) && i !in Unvisited(f');
  }

  lemma ClosedButSkip(s: seq<bv8>, w: nat, comp: seq<nat>, stack: seq<nat>)
    requires ClosedBut(s, w, comp, stack) && |stack| > 0 && stack[|stack| - 1] in comp
    ensures ClosedBut(s, w, comp, stack[..|stack| - 1])
  {
    var rest := stack[..|stack| - 1];
    forall k, y | 0 <= k < |comp| && Linked(s, w, comp[k], y)
      ensures y in comp || y in rest
    {
      if y in stack && y !in comp {
        var t :| 0 <= t < |stack| && stack[t] == y;
        assert rest[t] == y;
      }
    }
  }

  lemma StackPendingSkip(s: seq<bv8>, f: seq<bool>, comp: seq<nat>, stack: seq<nat>)
    requires StackPending(s, f, comp, stack) && |stack| > 0
    ensures StackPending(s, f, comp, stack[..|stack| - 1])
  {
    var rest := stack[..|stack| - 1];
    assert forall t :: 0 <= t < |rest| ==> rest[t] == stack[t];
  }

  lemma PushedBySkip(s: seq<bv8>, w: nat, comp: seq<nat>, stack: seq<nat>, pusher: seq<nat>)
    requires PushedBy(s, w, comp, stack, pusher) && |stack| > 0
    ensures PushedBy(s, w, comp, stack[..|stack| - 1], pusher[..|stack| - 1])
  {
    var rest, prest := stack[..|stack| - 1], pusher[..|stack| - 1];
    assert forall t :: 0 <= t < |rest| ==> rest[t] == stack[t] && prest[t] == pusher[t];
  }

  /** The popped pixel i was visited already (it is in the component): it is dropped. */
  lemma FillSkip(s: seq<bv8>, w: nat, f0: seq<bool>, f: seq<bool>, seed: nat,
                 comp: seq<nat>, stack: seq<nat>, pusher: seq<nat>)
    requires FillInv(s, w, f0, f, seed, comp, stack, pusher)
    requires |stack| > 0 && stack[|stack| - 1] < |f| && !f[stack[|stack| - 1]]
    ensures FillInv(s, w, f0, f, seed, comp, stack[..|stack| - 1], pusher[..|stack| - 1])
  {
    assert stack[|stack| - 1] in comp;
    ClosedButSkip(s, w, comp, stack);
    StackPendingSkip(s, f, comp, stack);
    PushedBySkip(s, w, comp, stack, pusher);
  }

  /** An empty stack means the component is complete. */
  lemma FillDone(s: seq<bv8>, w: nat, f0: seq<bool>, f: seq<bool>, seed: nat,
                 comp: seq<nat>, pusher: seq<nat>)
    requires FillInv(s, w, f0, f, seed, comp, [], pusher)
    ensures FillResult(s, w, f0, f, seed, comp)
  {
    assert |comp| > 0 && comp[0] == seed;
  }

  /** The visited flags are cleared exactly for the members of the components, each
      address occurring once. */
  ghost predicate Covered(s: seq<bv8>, f: seq<bool>, comps: seq<seq<nat>>)
  {
    && |f| == |s|
    && (forall k :: 0 <= k < |s| ==> (!f[k] <==> k in Flatten(comps)))
    && NoDup(Flatten(comps))
    && (forall k :: k in Flatten(comps) ==> k < |s|)
  }

  /** Components are non-empty, start at their smallest member, come in increasing
      order of their first member, and all start below i. */
  ghost predicate SeedsOrdered(comps: seq<seq<nat>>, i: nat)
  {
    && (forall ci :: 0 <= ci < |comps| ==> |comps[ci]| > 0 && comps[ci][0] < i)
    && (forall ci, k :: 0 <= ci < |comps| && 0 <= k < |comps[ci]| ==> comps[ci][0] <= comps[ci][k])
    && (forall ci, cj :: 0 <= ci < cj < |comps| ==> comps[ci][0] < comps[cj][0])
  }

  ghost predicate AllGrown(s: seq<bv8>, w: nat, comps: seq<seq<nat>>)
  {
    forall ci :: 0 <= ci < |comps| ==> GrownFromSeed(s, w, comps[ci])
  }

  /** The invariant of the loop of `connectedComponents` over the pixel addresses
      0 .. i - 1: what is visited is exactly what the components found so far hold. */
  ghost predicate ScanInv(s: seq<bv8>, w: nat, f: seq<bool>, comps: seq<seq<nat>>, i: nat)
  {
    && i <= |s|
    && Covered(s, f, comps)
    && (forall k :: 0 <= k < i ==> !f[k])
    && SeedsOrdered(comps, i)
    && AllGrown(s, w, comps)
    && Closed(s, w, comps)
  }

  lemma ScanStart(s: seq<bv8>, w: nat, f: seq<bool>)
    requires |f| == |s| && forall k :: 0 <= k < |f| ==> f[k]
    ensures ScanInv(s, w, f, [], 0)
  {
  }

  lemma CoveredSnoc(s: seq<bv8>, w: nat, f: seq<bool>, f': seq<bool>, comps: seq<seq<nat>>,
                    i: nat, comp: seq<nat>)
    requires Covered(s, f, comps)
    requires FillResult(s, w, f, f', i, comp)
    ensures Covered(s, f', comps + [comp])
  {
    FlattenSnoc(comps, comp);
    NoDupAppend(Flatten(comps), comp);
  }

  lemma SeedsSnoc(f: seq<bool>, comps: seq<seq<nat>>, i: nat, comp: seq<nat>)
    requires SeedsOrdered(comps, i) && |comp| > 0 && comp[0] == i
    requires forall k :: 0 <= k < i && k < |f| ==> !f[k]
    requires forall x :: x in comp ==> x < |f| && f[x]
    ensures SeedsOrdered(comps + [comp], i + 1)
  {
    var comps' := comps + [comp];
    assert forall x :: x in comp ==> x >= i;
    forall ci, k | 0 <= ci < |comps'| && 0 <= k < |comps'[ci]|
      ensures comps'[ci][0] <= comps'[ci][k]
    {
      if ci == |comps| {
        assert comps'[ci][k] in comp;
      }
    }
  }

  lemma GrownSnoc(s: seq<bv8>, w: nat, comps: seq<seq<nat>>, comp: seq<nat>)
    requires AllGrown(s, w, comps) && GrownFromSeed(s, w, comp)
    ensures AllGrown(s, w, comps + [comp])
  {
    var comps' := comps + [comp];
    forall ci | 0 <= ci < |comps'| ensures GrownFromSeed(s, w, comps'[ci]) {
      if ci < |comps| {
        assert comps'[ci] == comps[ci];
      }
    }
  }

  lemma ClosedSnoc(s: seq<bv8>, w: nat, comps: seq<seq<nat>>, comp: seq<nat>)
    requires Closed(s, w, comps)
    requires forall k, y :: 0 <= k < |comp| && Linked(s, w, comp[k], y) ==> y in comp
    ensures Closed(s, w, comps + [comp])
  {
    var comps' := comps + [comp];
    forall ci, k, y | 0 <= ci < |comps'| && 0 <= k < |comps'[ci]| && Linked(s, w, comps'[ci][k], y)
      ensures y in comps'[ci]
    {
      if ci < |comps| {
        assert comps'[ci] == comps[ci];
      }
    }
  }

  /** Pixel i is unvisited: the fill from it may start, and its component is
      appended. */
  lemma ScanVisit(s: seq<bv8>, w: nat, f: seq<bool>, f': seq<bool>, comps: seq<seq<nat>>,
                  i: nat, comp: seq<nat>)
    requires ScanInv(s, w, f, comps, i) && i < |s| && f[i]
    requires FillResult(s, w, f, f', i, comp)
    ensures ScanInv(s, w, f', comps + [comp], i + 1)
  {
    CoveredSnoc(s, w, f, f', comps, i, comp);
    SeedsSnoc(f, comps, i, comp);
    GrownSnoc(s, w, comps, comp);
    ClosedSnoc(s, w, comps, comp);
  }

  /** The fill from an unvisited pixel i may start. */
  lemma ScanPre(s: seq<bv8>, w: nat, f: seq<bool>, comps: seq<seq<nat>>, i: nat)
    requires ScanInv(s, w, f, comps, i) && i < |s| && f[i]
    ensures FillPre(s, w, f, i, comps)
  {
  }

  /** Pixel i was visited by an earlier component: nothing happens. */
  lemma ScanSkip(s: seq<bv8>, w: nat, f: seq<bool>, comps: seq<seq<nat>>, i: nat)
    requires ScanInv(s, w, f, comps, i) && i < |s| && !f[i]
    ensures ScanInv(s, w, f, comps, i + 1)
  {
  }

  /** After the last address the components partition the grid. */
  lemma ScanDone(s: seq<bv8>, w: nat, f: seq<bool>, comps: seq<seq<nat>>)
    requires ScanInv(s, w, f, comps, |s|)
    ensures IsPartition(comps, |s|)
  {
  }
}
