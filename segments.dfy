/** Segment records and the list of segment slots that sketch.js keeps in `segs`.

    A slot of the list is `None` where the JavaScript array holds `undefined`.  The
    segment object is not defined in the modelled files; it is modelled by the fields
    the reduction reads and writes: its segment class, the pixels it holds and its
    pixel classifier `pClass`. */
module Segments {

  datatype Option<T> = None | Some(value: T)

  /** A pixel as the classifier sees it: red, green, blue and alpha. */
  datatype Pixel = Pixel(r: int, g: int, b: int, a: int)

  /** `pClass(r, g, b, a)`; `None` is the `undefined` a lookup of a missing key yields. */
  type Classifier = Pixel -> Option<nat>

  datatype Segment = Segment(segmentClass: nat, members: seq<nat>, pClass: Classifier)

  /** `a.merge(b)`: `a` keeps its class and classifier and takes over `b`'s pixels. */
  function Merge(a: Segment, b: Segment): (r: Segment)
    ensures r.segmentClass == a.segmentClass && r.pClass == a.pClass
    ensures |r.members| == |a.members| + |b.members|
    ensures r.members[..|a.members|] == a.members && r.members[|a.members|..] == b.members
  {
    a.(members := a.members + b.members)
  }

  predicate AllDefined<T>(s: seq<Option<T>>) {
    forall k :: 0 <= k < |s| ==> s[k].Some?
  }

  /** The segments of a list none of whose slots is `undefined`. */
  function Values<T>(s: seq<Option<T>>): (r: seq<T>)
    requires AllDefined(s)
    ensures |r| == |s| && forall k :: 0 <= k < |s| ==> s[k] == Some(r[k])
  {
    seq(|s|, k requires 0 <= k < |s| => s[k].value)
  }

  /** A list whose every slot holds the given segment. */
  function Live<T>(xs: seq<T>): (r: seq<Option<T>>)
    ensures AllDefined(r) && Values(r) == xs
  {
    seq(|xs|, k requires 0 <= k < |xs| => Some(xs[k]))
  }

  function CountSome<T>(s: seq<Option<T>>): (n: nat)
    ensures n <= |s|
  {
    if |s| == 0 then 0 else (if s[0].Some? then 1 else 0) + CountSome(s[1..])
  }

  /** The defined slots of `s`, in their order: what `compressArray` leaves. */
  function Squeeze<T>(s: seq<Option<T>>): (r: seq<Option<T>>)
    ensures AllDefined(r)
    ensures |r| == CountSome(s)
  {
    if |s| == 0 then [] else (if s[0].Some? then [s[0]] else []) + Squeeze(s[1..])
  }

  lemma {:induction false} SqueezeAppend<T>(a: seq<Option<T>>, b: seq<Option<T>>)
    ensures Squeeze(a + b) == Squeeze(a) + Squeeze(b)
  {
    if |a| > 0 {
      assert (a + b)[1..] == a[1..] + b;
      SqueezeAppend(a[1..], b);
    } else {
      assert a + b == b;
    }
  }

  /** Removing an `undefined` slot does not change the defined slots. */
  lemma {:induction false} SqueezeDropUndefined<T>(s: seq<Option<T>>, i: nat)
    requires i < |s| && s[i].None?
    ensures Squeeze(s[..i] + s[i + 1..]) == Squeeze(s)
  {
    var t := s[..i] + s[i + 1..];
    if i == 0 {
      assert t == s[1..];
    } else {
      assert t[0] == s[0];
      assert t[1..] == s[1..][..i - 1] + s[1..][i..];
      SqueezeDropUndefined(s[1..], i - 1);
    }
  }

  /** A list without `undefined` slots is left as it is. */
  lemma {:induction false} SqueezeDefined<T>(s: seq<Option<T>>)
    requires AllDefined(s)
    ensures Squeeze(s) == s
  {
    if |s| > 0 {
      SqueezeDefined(s[1..]);
    }
  }

  lemma {:induction false} CountSomeAppend<T>(a: seq<Option<T>>, b: seq<Option<T>>)
    ensures CountSome(a + b) == CountSome(a) + CountSome(b)
  {
    if |a| > 0 {
      assert (a + b)[1..] == a[1..] + b;
      CountSomeAppend(a[1..], b);
    } else {
      assert a + b == b;
    }
  }

  /** Overwriting one slot changes the count by the difference at that slot. */
  lemma CountSomeUpdate<T>(s: seq<Option<T>>, i: nat, x: Option<T>)
    requires i < |s|
    ensures CountSome(s[i := x]) + (if s[i].Some? then 1 else 0) == CountSome(s) + (if x.Some? then 1 else 0)
  {
    assert s == s[..i] + [s[i]] + s[i + 1..];
    assert s[i := x] == s[..i] + [x] + s[i + 1..];
    CountSomeAppend(s[..i] + [s[i]], s[i + 1..]);
    CountSomeAppend(s[..i], [s[i]]);
    CountSomeAppend(s[..i] + [x], s[i + 1..]);
    CountSomeAppend(s[..i], [x]);
    assert [s[i]][1..] == [] && [x][1..] == [];
  }

  lemma {:induction false} CountSomeDefined<T>(s: seq<Option<T>>)
    requires AllDefined(s)
    ensures CountSome(s) == |s|
  {
    if |s| > 0 {
      CountSomeDefined(s[1..]);
    }
  }

  /** The number of pixels held by the defined slots. */
  function Size(s: seq<Option<Segment>>): nat {
    if |s| == 0 then 0 else (if s[0].Some? then |s[0].value.members| else 0) + Size(s[1..])
  }

  lemma {:induction false} SizeAppend(a: seq<Option<Segment>>, b: seq<Option<Segment>>)
    ensures Size(a + b) == Size(a) + Size(b)
  {
    if |a| > 0 {
      assert (a + b)[1..] == a[1..] + b;
      SizeAppend(a[1..], b);
    } else {
      assert a + b == b;
    }
  }

  function SlotSize(o: Option<Segment>): nat {
    if o.Some? then |o.value.members| else 0
  }

  /** Overwriting one slot changes the size by the difference at that slot. */
  lemma SizeUpdate(s: seq<Option<Segment>>, i: nat, x: Option<Segment>)
    requires i < |s|
    ensures Size(s[i := x]) + SlotSize(s[i]) == Size(s) + SlotSize(x)
  {
    assert s == s[..i] + [s[i]] + s[i + 1..];
    assert s[i := x] == s[..i] + [x] + s[i + 1..];
    SizeAppend(s[..i] + [s[i]], s[i + 1..]);
    SizeAppend(s[..i], [s[i]]);
    SizeAppend(s[..i] + [x], s[i + 1..]);
    SizeAppend(s[..i], [x]);
    assert [s[i]][1..] == [] && [x][1..] == [];
  }

  /** Merging one defined slot into another and emptying it keeps every pixel. */
  lemma SizeAfterMerge(s: seq<Option<Segment>>, p: nat, q: nat)
    requires p != q && p < |s| && q < |s| && s[p].Some? && s[q].Some?
    ensures Size(s[p := Some(Merge(s[p].value, s[q].value))][q := None]) == Size(s)
  {
    var s' := s[p := Some(Merge(s[p].value, s[q].value))];
    SizeUpdate(s, p, Some(Merge(s[p].value, s[q].value)));
    SizeUpdate(s', q, None);
  }

  /** Dropping the undefined slots keeps every pixel. */
  lemma {:induction false} SizeSqueeze(s: seq<Option<Segment>>)
    ensures Size(Squeeze(s)) == Size(s)
  {
    if |s| > 0 {
      SizeSqueeze(s[1..]);
      SizeAppend(if s[0].Some? then [s[0]] else [], Squeeze(s[1..]));
      if s[0].Some? {
        assert [s[0]][1..] == [];
      }
    }
  }

  /** The defined slots keep their relative order: `Squeeze(s)` is `s` read at a strictly
      increasing sequence of positions that are exactly the defined slots of `s`. */
  lemma {:induction false} SqueezeKeepsOrder<T>(s: seq<Option<T>>) returns (pos: seq<nat>)
    ensures |pos| == |Squeeze(s)|
    ensures forall k :: 0 <= k < |pos| ==> pos[k] < |s| && Squeeze(s)[k] == s[pos[k]]
    ensures forall k, l :: 0 <= k < l < |pos| ==> pos[k] < pos[l]
    ensures forall i :: 0 <= i < |s| && s[i].Some? ==> i in pos
  {
    if |s| == 0 {
      pos := [];
    } else {
      var n := |s| - 1;
      var front := s[..n];
      var rest := SqueezeKeepsOrder(front);
      assert s == front + [s[n]];
      SqueezeAppend(front, [s[n]]);
      assert [s[n]][1..] == [];
      if s[n].Some? {
        pos := rest + [n];
        assert Squeeze(s) == Squeeze(front) + [s[n]];
      } else {
        pos := rest;
        assert Squeeze(s) == Squeeze(front);
      }
      forall i | 0 <= i < n && s[i].Some? ensures i in pos {
        assert front[i] == s[i];
      }
    }
  }

  /** The JavaScript array `segs`, updated in place by the reduction. */
  class SegmentList {
    var slots: seq<Option<Segment>>

    constructor (init: seq<Option<Segment>>)
      ensures slots == init
    {
      slots := init;
    }

    /** `compressArray`: splices out every `undefined` slot; the defined ones keep
        their order and nothing else is left. */
    method Compress()
      modifies this
      ensures slots == Squeeze(old(slots))
    {
      var i := 0;
      while i < |slots|
        invariant i <= |slots| + 1
        invariant Squeeze(slots) == Squeeze(old(slots))
        invariant forall k :: 0 <= k < i && k < |slots| ==> slots[k].Some?
        decreases |slots| + 1 - i
      {
        while i < |slots| && slots[i].None?
          invariant i <= |slots|
          invariant Squeeze(slots) == Squeeze(old(slots))
          invariant forall k :: 0 <= k < i && k < |slots| ==> slots[k].Some?
          decreases |slots|
        {
          SqueezeDropUndefined(slots, i);
          slots := slots[..i] + slots[i + 1..];
        }
        i := i + 1;
      }
      SqueezeDefined(slots);
    }
  }
}
