/**
 The pending timers of a timeline, kept as a binary heap with the earliest one in front: the
 contract of the library's heap operations that lib/dtv-gingaplayer/src/player/timelinetimer.cpp
 relies on, with the comparison of that file.
 */
module TimerHeap {

  /** What a timer does when it is dispatched: expire a duration, or some other call. */
  datatype Callback = Expire(duration: int) | Call(stops: bool)

  /** A timer object; `id` is its identity. */
  datatype Timer = Timer(id: nat, ms: nat, callback: Callback)

  function Parent(i: nat): (p: nat)
    requires i > 0
    ensures p < i
  {
    (i - 1) / 2
  }

  ghost predicate OrderedAt(h: seq<Timer>, i: nat)
    requires 0 < i < |h|
  {
    h[Parent(i)].ms <= h[i].ms
  }

  ghost predicate IsHeap(h: seq<Timer>) {
    forall i: nat :: 0 < i < |h| ==> OrderedAt(h, i)
  }

  /** The front of a heap is the earliest of its timers. */
  lemma {:induction false} FrontIsEarliest(h: seq<Timer>, i: nat)
    requires IsHeap(h) && i < |h|
    ensures h[0].ms <= h[i].ms
    decreases i
  {
    if i > 0 {
      assert OrderedAt(h, i);
      FrontIsEarliest(h, Parent(i));
    }
  }

  function Swap(h: seq<Timer>, i: nat, j: nat): (r: seq<Timer>)
    requires i < |h| && j < |h|
    ensures |r| == |h| && multiset(r) == multiset(h)
    ensures r[i] == h[j] && r[j] == h[i]
    ensures forall k :: 0 <= k < |h| && k != i && k != j ==> r[k] == h[k]
  {
    h[i := h[j]][j := h[i]]
  }

  /** Ordered everywhere but between `hole` and its parent; the hole's children are above that parent. */
  ghost predicate OrderedAbove(h: seq<Timer>, hole: nat) {
    && (forall i: nat :: 0 < i < |h| && i != hole ==> OrderedAt(h, i))
    && (forall i: nat :: 0 < i < |h| && hole > 0 && Parent(i) == hole < |h| ==> h[Parent(hole)].ms <= h[i].ms)
  }

  /** The last timer takes its place in the heap of the others. */
  method PushHeap(h: seq<Timer>) returns (r: seq<Timer>)
    requires |h| > 0 && IsHeap(h[..|h| - 1])
    ensures IsHeap(r) && multiset(r) == multiset(h)
  {
    r := h;
    var hole: nat := |h| - 1;
    assert forall i: nat :: 0 < i < |h| - 1 ==> OrderedAt(h[..|h| - 1], i) ==> OrderedAt(h, i);
    while hole > 0 && r[hole].ms < r[Parent(hole)].ms
      invariant hole < |r| == |h| && multiset(r) == multiset(h)
      invariant OrderedAbove(r, hole)
    {
      var above := Parent(hole);
      ghost var before := r;
      r := Swap(r, hole, above);
      SwapUp(before, hole);
      hole := above;
    }
  }

  lemma SwapUp(h: seq<Timer>, hole: nat)
    requires 0 < hole < |h| && h[hole].ms < h[Parent(hole)].ms && OrderedAbove(h, hole)
    ensures OrderedAbove(Swap(h, hole, Parent(hole)), Parent(hole))
  {
    var r, above := Swap(h, hole, Parent(hole)), Parent(hole);
    forall i: nat | 0 < i < |r| && i != above
      ensures OrderedAt(r, i)
    {
      assert i != hole ==> OrderedAt(h, i);
    }
    forall i: nat | 0 < i < |r| && above > 0 && Parent(i) == above
      ensures r[Parent(above)].ms <= r[i].ms
    {
      assert OrderedAt(h, above);
      assert i != hole ==> OrderedAt(h, i);
    }
  }

  /** Ordered everywhere but between `hole` and its children, which are above the hole's parent. */
  ghost predicate OrderedBelow(h: seq<Timer>, hole: nat) {
    && (forall i: nat :: 0 < i < |h| && Parent(i) != hole ==> OrderedAt(h, i))
    && (forall i: nat :: 0 < i < |h| && hole > 0 && Parent(i) == hole ==> h[Parent(hole)].ms <= h[i].ms)
  }

  /** The front timer leaves the heap and goes to the end. */
  method PopHeap(h: seq<Timer>) returns (r: seq<Timer>)
    requires |h| > 0 && IsHeap(h)
    ensures multiset(r) == multiset(h) && |r| == |h|
    ensures r[|r| - 1] == h[0] && IsHeap(r[..|r| - 1])
  {
    var n := |h| - 1;
    var swapped := Swap(h, 0, n);
    assert swapped == swapped[..n] + [h[0]];
    LastInFront(h);
    var rest := SiftDown(swapped[..n]);
    r := rest + [h[0]];
    assert r[..n] == rest;
  }

  lemma LastInFront(h: seq<Timer>)
    requires |h| > 0 && IsHeap(h)
    ensures OrderedBelow(Swap(h, 0, |h| - 1)[..|h| - 1], 0)
  {
    var rest := Swap(h, 0, |h| - 1)[..|h| - 1];
    forall i: nat | 0 < i < |rest| && Parent(i) != 0
      ensures OrderedAt(rest, i)
    {
      assert OrderedAt(h, i);
    }
  }

  method SiftDown(h: seq<Timer>) returns (r: seq<Timer>)
    requires OrderedBelow(h, 0)
    ensures IsHeap(r) && multiset(r) == multiset(h) && |r| == |h|
  {
    r := h;
    var hole: nat := 0;
    while hole < |r|
      invariant |r| == |h| && multiset(r) == multiset(h)
      invariant OrderedBelow(r, hole)
    {
      var least := LeastChild(r, hole);
      if least >= |r| || r[hole].ms <= r[least].ms {
        StopsHere(r, hole, least);
        return;
      }
      SwapDown(r, hole, least);
      r := Swap(r, hole, least);
      hole := least;
    }
  }

  method LeastChild(h: seq<Timer>, hole: nat) returns (least: nat)
    requires hole < |h|
    ensures IsLeastChild(h, hole, least)
  {
    least := 2 * hole + 1;
    if least + 1 < |h| && h[least + 1].ms < h[least].ms {
      least := least + 1;
    }
  }

  /** A hole's earliest child, or a place past the end. */
  ghost predicate IsLeastChild(h: seq<Timer>, hole: nat, least: nat) {
    && 2 * hole < least <= 2 * hole + 2
    && (least < |h| ==> forall i: nat :: 0 < i < |h| && Parent(i) == hole ==> h[least].ms <= h[i].ms)
    && (least >= |h| ==> forall i: nat :: 0 < i < |h| ==> Parent(i) != hole)
  }

  lemma SwapDown(h: seq<Timer>, hole: nat, least: nat)
    requires hole < |h| && least < |h| && OrderedBelow(h, hole)
    requires IsLeastChild(h, hole, least) && h[least].ms < h[hole].ms
    ensures OrderedBelow(Swap(h, hole, least), least)
  {
    var r := Swap(h, hole, least);
    forall i: nat | 0 < i < |r| && Parent(i) != least
      ensures OrderedAt(r, i)
    {
      if i != least && Parent(i) != hole {
        assert OrderedAt(h, i);
      }
    }
    forall i: nat | 0 < i < |r| && Parent(i) == least
      ensures r[Parent(least)].ms <= r[i].ms
    {
      assert OrderedAt(h, i);
    }
  }

  lemma StopsHere(h: seq<Timer>, hole: nat, least: nat)
    requires hole < |h| && OrderedBelow(h, hole) && IsLeastChild(h, hole, least)
    requires least < |h| ==> h[hole].ms <= h[least].ms
    ensures IsHeap(h)
  {
  }
}
