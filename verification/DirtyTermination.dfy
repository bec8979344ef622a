/**
 When the recursion of `Canvas::invalidateRegion` ends, and a list of three regions and a
 rectangle, reached by three ordinary calls under the default join percentage, for which it never
 does.
 */
module DirtyTermination {
  import opened Geometry
  import opened DirtyRegions

  // ----- More stack never changes an answer

  lemma {:induction false} InvalidateMonotone(regions: seq<Rect>, rect: Rect, join: JoinRule, less: nat, more: nat)
    requires less <= more
    requires Invalidate(regions, rect, join, less).Some?
    ensures Invalidate(regions, rect, join, more) == Invalidate(regions, rect, join, less)
    decreases less, 0
  {
    if !rect.IsEmpty() && !IsCovered(rect, regions) && ToAdd(rect, regions, join) != [] {
      var kept := EraseEach(regions, ToErase(rect, regions, join));
      InvalidateEachMonotone(kept, ToAdd(rect, regions, join), join, less - 1, more - 1);
    }
  }

  lemma {:induction false} InvalidateEachMonotone(regions: seq<Rect>, rects: seq<Rect>, join: JoinRule,
                                                  less: nat, more: nat)
    requires less <= more
    requires InvalidateEach(regions, rects, join, less).Some?
    ensures InvalidateEach(regions, rects, join, more) == InvalidateEach(regions, rects, join, less)
    decreases less, 1 + |rects|
  {
    if rects != [] {
      InvalidateMonotone(regions, rects[0], join, less, more);
      var first := Invalidate(regions, rects[0], join, less).value;
      InvalidateEachMonotone(first.regions, rects[1..], join, less, more);
    }
  }

  // ----- A rejected join stays rejected

  /** After a cut the piece and the region it was cut by are left alone, in either order. */
  lemma CutIsFinal(rect: Rect, region: Rect, join: JoinRule)
    requires rect.Proper() && region.Proper()
    ensures var v := Judge(rect, region, join);
            && (v.Trimmed? ==> Judge(v.piece, region, join).Apart?)
            && (v.Split? ==> Judge(rect, v.piece, join).Apart? && Judge(v.piece, rect, join).Apart?)
  {
    var v := Judge(rect, region, join);
    match v
    case Trimmed(piece) =>
      TrimmedPiece(rect, region, join);
      DisjointVerdict(piece, region, join);
    case Split(piece) =>
      SplitPiece(rect, region, join);
      assert rect.Encompass(piece) == piece.Encompass(rect);
      DisjointVerdict(rect, piece, join);
      DisjointVerdict(piece, rect, join);
    case _ =>
  }

  /** Rectangles without a common cell are joined or left alone, never cut. */
  lemma DisjointVerdict(rect: Rect, region: Rect, join: JoinRule)
    requires rect.Proper() && region.Proper() && !rect.Overlaps(region)
    ensures rect.Intersection(region).Area() == 0
    ensures var v := Judge(rect, region, join);
            if ExtraArea(rect, region) <= join(rect.Encompass(region).Area())
            then v == Joined(rect.Encompass(region)) else v == Apart
  {
    OverlapHasArea(rect, region);
    var i := rect.Intersection(region);
    assert i.w == 0 || i.h == 0;
  }

  // ----- Where the recursion ends

  lemma InvalidateEmptyList(rect: Rect, join: JoinRule, depth: nat)
    requires depth >= 1 && rect.Proper()
    ensures Invalidate([], rect, join, depth) == Some(Outcome([rect], [rect]))
  {
    assert [] + [rect] == [rect];
  }

  lemma PassOverOne(rect: Rect, region: Rect, join: JoinRule)
    ensures IsCovered(rect, [region]) <==> region.Includes(rect)
    ensures ToErase(rect, [region], join) == if Erases(Judge(rect, region, join)) then [region] else []
    ensures ToAdd(rect, [region], join) == Additions(Judge(rect, region, join), rect)
    ensures EraseEach([region], [region]) == []
    ensures EraseEach([region], []) == [region]
  {
    assert [region][..0] == [];
    assert [region][0].Includes(rect) <==> region.Includes(rect);
    assert ToErase(rect, [region][..0], join) == [];
    assert ToAdd(rect, [region][..0], join) == [];
    assert EraseEach([region], [region][..0]) == [region];
    assert [region][1..] == [];
    assert ([] + Additions(Judge(rect, region, join), rect)) == Additions(Judge(rect, region, join), rect);
  }

  /** The list that one stored region and a rectangle end in. */
  function PairResult(rect: Rect, region: Rect, join: JoinRule): seq<Rect> {
    match Judge(rect, region, join)
    case Covered => [region]
    case Absorbed => [rect]
    case Joined(whole) => [whole]
    case Trimmed(piece) => [region, piece]
    case Split(piece) => [piece, rect]
    case Apart => [region, rect]
  }

  /** With one stored region the recursion ends after two nested calls, under any join rule. */
  lemma SingleRegionEnds(rect: Rect, region: Rect, join: JoinRule, depth: nat)
    requires rect.Proper() && region.Proper() && depth >= 2
    ensures Invalidate([region], rect, join, depth).Some?
    ensures Invalidate([region], rect, join, depth).value.regions == PairResult(rect, region, join)
  {
    PassOverOne(rect, region, join);
    CutIsFinal(rect, region, join);
    var v := Judge(rect, region, join);
    if !v.Covered? {
      var kept := EraseEach([region], ToErase(rect, [region], join));
      match v
      case Joined(whole) =>
        EachOfOne(kept, whole, join, depth - 1);
        InvalidateEmptyList(whole, join, depth - 1);
      case Trimmed(piece) =>
        TrimmedPiece(rect, region, join);
        EachOfOne(kept, piece, join, depth - 1);
        ApartIsAdded(piece, region, join, depth - 1);
      case Split(piece) =>
        SplitPiece(rect, region, join);
        EachOfTwo(kept, piece, rect, join, depth - 1);
        InvalidateEmptyList(piece, join, depth - 1);
        ApartIsAdded(rect, piece, join, depth - 1);
      case Absorbed => assert kept + [rect] == [rect];
      case Apart => assert kept + [rect] == [region, rect];
    }
  }

  lemma ApartIsAdded(rect: Rect, region: Rect, join: JoinRule, depth: nat)
    requires depth >= 1 && rect.Proper() && Judge(rect, region, join).Apart?
    ensures Invalidate([region], rect, join, depth) == Some(Outcome([region, rect], [rect]))
  {
    PassOverOne(rect, region, join);
    assert [region] + [rect] == [region, rect];
  }

  lemma EachOfOne(regions: seq<Rect>, rect: Rect, join: JoinRule, depth: nat)
    ensures var one := Invalidate(regions, rect, join, depth);
            var all := InvalidateEach(regions, [rect], join, depth);
            if one.Some? then all == Some(Outcome(one.value.regions, one.value.added)) else all == None
  {
    var one := Invalidate(regions, rect, join, depth);
    assert [rect][1..] == [];
    if one.Some? {
      assert InvalidateEach(one.value.regions, [], join, depth) == Some(Outcome(one.value.regions, []));
      assert one.value.added + [] == one.value.added;
    }
  }

  lemma EachOfTwo(regions: seq<Rect>, a: Rect, b: Rect, join: JoinRule, depth: nat)
    requires Invalidate(regions, a, join, depth).Some?
    ensures var first := Invalidate(regions, a, join, depth).value;
            var second := Invalidate(first.regions, b, join, depth);
            var all := InvalidateEach(regions, [a, b], join, depth);
            if second.Some? then all == Some(Outcome(second.value.regions, first.added + second.value.added))
            else all == None
  {
    var first := Invalidate(regions, a, join, depth).value;
    assert [a, b][1..] == [b];
    EachOfOne(first.regions, b, join, depth);
  }

  // ----- A join rule that accepts everything

  ghost predicate AlwaysJoins(join: JoinRule) {
    forall area :: area >= 0 ==> join(area) >= area
  }

  lemma AreaMonotone(outer: Rect, inner: Rect)
    requires inner.w >= 0 && inner.h >= 0 && outer.w >= inner.w && outer.h >= inner.h
    ensures 0 <= inner.Area() <= outer.Area()
  {
    assert inner.w * inner.h <= inner.w * outer.h <= outer.w * outer.h;
  }

  lemma AlwaysJoinsVerdict(rect: Rect, region: Rect, join: JoinRule)
    requires rect.Proper() && region.Proper() && AlwaysJoins(join)
    ensures Judge(rect, region, join) in {Covered, Absorbed, Joined(rect.Encompass(region))}
  {
    var whole := rect.Encompass(region);
    AreaMonotone(whole, rect);
    AreaMonotone(region, rect.Intersection(region));
  }

  lemma {:induction false} AlwaysJoinsPass(rect: Rect, regions: seq<Rect>, join: JoinRule)
    requires rect.Proper() && (forall r :: r in regions ==> r.Proper()) && AlwaysJoins(join)
    requires !IsCovered(rect, regions)
    ensures ToErase(rect, regions, join) == regions
    ensures forall a :: a in ToAdd(rect, regions, join) ==> a.Proper()
  {
    if regions != [] {
      var n := |regions| - 1;
      assert regions == regions[..n] + [regions[n]];
      assert forall i :: 0 <= i < n ==> regions[..n][i] == regions[i];
      AlwaysJoinsPass(rect, regions[..n], join);
      assert !regions[n].Includes(rect);
      AlwaysJoinsVerdict(rect, regions[n], join);
    }
  }

  lemma {:induction false} EraseAllOfThem(regions: seq<Rect>, k: nat)
    requires k <= |regions|
    ensures EraseEach(regions, regions[..k]) == regions[k..]
  {
    if k > 0 {
      assert regions[..k][..k - 1] == regions[..k - 1];
      EraseAllOfThem(regions, k - 1);
      assert regions[k - 1..][0] == regions[k - 1];
    }
  }

  lemma {:induction false} AlwaysJoinsEach(regions: seq<Rect>, rects: seq<Rect>, join: JoinRule, depth: nat)
    requires |regions| <= 1 && (forall r :: r in regions + rects ==> r.Proper())
    requires AlwaysJoins(join) && depth >= 2
    ensures InvalidateEach(regions, rects, join, depth).Some?
    ensures |InvalidateEach(regions, rects, join, depth).value.regions| <= 1
    ensures rects != [] ==> |InvalidateEach(regions, rects, join, depth).value.regions| == 1
    decreases |rects|
  {
    if rects != [] {
      assert rects[0] in regions + rects;
      if regions == [] {
        InvalidateEmptyList(rects[0], join, depth);
      } else {
        assert regions == [regions[0]] && regions[0] in regions + rects;
        AlwaysJoinsVerdict(rects[0], regions[0], join);
        SingleRegionEnds(rects[0], regions[0], join, depth);
      }
      var next := Invalidate(regions, rects[0], join, depth).value.regions;
      assert |next| == 1 && next[0].Proper();
      AlwaysJoinsEach(next, rects[1..], join, depth);
    }
  }

  /**
   A join percentage of one or more keeps the recursion finite whatever is stored: a rectangle
   that was not covered collapses the list into a single region.
   */
  lemma AlwaysJoinsEnds(regions: seq<Rect>, rect: Rect, join: JoinRule, depth: nat)
    requires (forall r :: r in regions ==> r.Proper()) && rect.Proper()
    requires AlwaysJoins(join) && depth >= 3
    ensures Invalidate(regions, rect, join, depth).Some?
    ensures !IsCovered(rect, regions) ==> |Invalidate(regions, rect, join, depth).value.regions| == 1
  {
    if !IsCovered(rect, regions) {
      AlwaysJoinsPass(rect, regions, join);
      EraseAllOfThem(regions, |regions|);
      assert regions[..|regions|] == regions && regions[|regions|..] == [];
      AlwaysJoinsEach([], ToAdd(rect, regions, join), join, depth - 1);
    }
  }

  // ----- Where it does not end

  /** The stored regions, the rectangle, and the pieces that one pass over them asks for. */
  datatype Cycle = Cycle(a: Rect, b: Rect, c: Rect, rect: Rect, upper: Rect, lower: Rect, rest: Rect, middle: Rect) {

    /**
     The rectangle is trimmed by `a` and by `b` and splits `c`.  Both trimmed parts shrink to the
     same middle piece, and that piece joins what was left of `c` into `c` again.
     */
    predicate Closes(join: JoinRule) {
      && a.Proper() && b.Proper() && c.Proper() && rect.Proper()
      && upper.Proper() && lower.Proper() && rest.Proper() && middle.Proper()
      && c != a && c != b && middle != a && middle != b
      && Judge(rect, a, join) == Trimmed(upper)
      && Judge(rect, b, join) == Trimmed(lower)
      && Judge(rect, c, join) == Split(rest)
      && Judge(upper, a, join) == Apart
      && Judge(upper, b, join) == Trimmed(middle)
      && Judge(lower, a, join) == Trimmed(middle)
      && Judge(lower, b, join) == Apart
      && Judge(lower, middle, join) == Absorbed
      && Judge(rest, a, join) == Apart
      && Judge(rest, b, join) == Apart
      && Judge(rest, middle, join) == Joined(c)
      && Judge(middle, a, join) == Apart
      && Judge(middle, b, join) == Apart
      && Judge(c, a, join) == Apart
      && Judge(c, b, join) == Apart
    }
  }

  lemma PassOverTwo(rect: Rect, a: Rect, b: Rect, join: JoinRule)
    ensures IsCovered(rect, [a, b]) <==> Judge(rect, a, join).Covered? || Judge(rect, b, join).Covered?
    ensures ToErase(rect, [a, b], join) ==
            (if Erases(Judge(rect, a, join)) then [a] else []) + (if Erases(Judge(rect, b, join)) then [b] else [])
    ensures ToAdd(rect, [a, b], join) == Additions(Judge(rect, a, join), rect) + Additions(Judge(rect, b, join), rect)
  {
    assert [a, b][..1] == [a];
    PassOverOne(rect, a, join);
    assert [a, b][0].Includes(rect) <==> Judge(rect, a, join).Covered?;
    assert [a, b][1].Includes(rect) <==> Judge(rect, b, join).Covered?;
  }

  lemma PassOverThree(rect: Rect, a: Rect, b: Rect, c: Rect, join: JoinRule)
    ensures IsCovered(rect, [a, b, c]) <==>
            Judge(rect, a, join).Covered? || Judge(rect, b, join).Covered? || Judge(rect, c, join).Covered?
    ensures ToErase(rect, [a, b, c], join) ==
            (if Erases(Judge(rect, a, join)) then [a] else []) + (if Erases(Judge(rect, b, join)) then [b] else [])
            + (if Erases(Judge(rect, c, join)) then [c] else [])
    ensures ToAdd(rect, [a, b, c], join) ==
            Additions(Judge(rect, a, join), rect) + Additions(Judge(rect, b, join), rect)
            + Additions(Judge(rect, c, join), rect)
  {
    assert [a, b, c][..2] == [a, b];
    PassOverTwo(rect, a, b, join);
    assert [a, b, c][0].Includes(rect) <==> Judge(rect, a, join).Covered?;
    assert [a, b, c][1].Includes(rect) <==> Judge(rect, b, join).Covered?;
    assert [a, b, c][2].Includes(rect) <==> Judge(rect, c, join).Covered?;
  }

  /** The third of three regions is the only one to go. */
  lemma EraseThird(a: Rect, b: Rect, x: Rect)
    requires x != a && x != b
    ensures EraseEach([a, b, x], [x]) == [a, b]
    ensures EraseEach([a, b], []) == [a, b]
  {
    assert [x][..0] == [];
    assert [a, b, x][1..] == [b, x] && [b, x][1..] == [x] && [x][1..] == [];
    assert EraseFirst([x], x) == [];
    assert EraseFirst([b, x], x) == [b];
  }

  lemma ApartFromBoth(rect: Rect, a: Rect, b: Rect, join: JoinRule, depth: nat)
    requires depth >= 1 && rect.Proper()
    requires Judge(rect, a, join).Apart? && Judge(rect, b, join).Apart?
    ensures Invalidate([a, b], rect, join, depth) == Some(Outcome([a, b, rect], [rect]))
  {
    hide Judge, IsCovered;
    PassOverTwo(rect, a, b, join);
    assert [a, b] + [rect] == [a, b, rect];
  }

  /** A call whose pass leaves a and b and asks only for x, which is apart from both. */
  lemma Detour(regions: seq<Rect>, rect: Rect, a: Rect, b: Rect, x: Rect, join: JoinRule, depth: nat)
    requires depth >= 2 && rect.Proper() && x.Proper() && !IsCovered(rect, regions)
    requires EraseEach(regions, ToErase(rect, regions, join)) == [a, b] && ToAdd(rect, regions, join) == [x]
    requires Judge(x, a, join).Apart? && Judge(x, b, join).Apart?
    ensures Invalidate(regions, rect, join, depth).Some?
    ensures Invalidate(regions, rect, join, depth).value.regions == [a, b, x]
  {
    hide Judge, IsCovered, ToErase, ToAdd, EraseEach;
    ApartFromBoth(x, a, b, join, depth - 1);
    EachOfOne([a, b], x, join, depth - 1);
  }

  lemma CycleParts(k: Cycle, join: JoinRule, depth: nat)
    requires k.Closes(join) && depth >= 2
    ensures var r := Invalidate([k.a, k.b], k.upper, join, depth);
            r.Some? && r.value.regions == [k.a, k.b, k.middle]
    ensures var r := Invalidate([k.a, k.b, k.middle], k.lower, join, depth);
            r.Some? && r.value.regions == [k.a, k.b, k.middle]
    ensures var r := Invalidate([k.a, k.b, k.middle], k.rest, join, depth);
            r.Some? && r.value.regions == [k.a, k.b, k.c]
  {
    hide Judge, IsCovered, ToErase, ToAdd, EraseEach, Invalidate;
    EraseThird(k.a, k.b, k.middle);
    PassOverTwo(k.upper, k.a, k.b, join);
    Detour([k.a, k.b], k.upper, k.a, k.b, k.middle, join, depth);
    PassOverThree(k.lower, k.a, k.b, k.middle, join);
    Detour([k.a, k.b, k.middle], k.lower, k.a, k.b, k.middle, join, depth);
    PassOverThree(k.rest, k.a, k.b, k.middle, join);
    Detour([k.a, k.b, k.middle], k.rest, k.a, k.b, k.c, join, depth);
  }

  lemma CycleEntry(k: Cycle, join: JoinRule)
    requires k.Closes(join)
    ensures !IsCovered(k.rect, [k.a, k.b, k.c])
    ensures EraseEach([k.a, k.b, k.c], ToErase(k.rect, [k.a, k.b, k.c], join)) == [k.a, k.b]
    ensures ToAdd(k.rect, [k.a, k.b, k.c], join) == [k.upper, k.lower, k.rest, k.rect]
  {
    hide Judge, IsCovered, ToErase, ToAdd, EraseEach;
    PassOverThree(k.rect, k.a, k.b, k.c, join);
    assert ToErase(k.rect, [k.a, k.b, k.c], join) == [k.c];
    EraseThird(k.a, k.b, k.c);
  }

  lemma EachStep(regions: seq<Rect>, rects: seq<Rect>, join: JoinRule, depth: nat, next: seq<Rect>)
    requires rects != [] && InvalidateEach(regions, rects, join, depth).Some?
    requires Invalidate(regions, rects[0], join, depth + 2).Some?
    requires Invalidate(regions, rects[0], join, depth + 2).value.regions == next
    ensures InvalidateEach(next, rects[1..], join, depth).Some?
  {
    InvalidateMonotone(regions, rects[0], join, depth, depth + 2);
  }

  /** If what the pass asks for can be processed, so can the rectangle itself, with no more stack. */
  lemma CycleReturns(k: Cycle, join: JoinRule, depth: nat)
    requires k.Closes(join)
    requires InvalidateEach([k.a, k.b], [k.upper, k.lower, k.rest, k.rect], join, depth).Some?
    ensures Invalidate([k.a, k.b, k.c], k.rect, join, depth).Some?
  {
    hide Judge;
    assert [k.upper, k.lower, k.rest, k.rect][1..] == [k.lower, k.rest, k.rect];
    assert [k.lower, k.rest, k.rect][1..] == [k.rest, k.rect];
    assert [k.rest, k.rect][1..] == [k.rect];
    CycleParts(k, join, depth + 2);
    EachStep([k.a, k.b], [k.upper, k.lower, k.rest, k.rect], join, depth, [k.a, k.b, k.middle]);
    EachStep([k.a, k.b, k.middle], [k.lower, k.rest, k.rect], join, depth, [k.a, k.b, k.middle]);
    EachStep([k.a, k.b, k.middle], [k.rest, k.rect], join, depth, [k.a, k.b, k.c]);
    EachOfOne([k.a, k.b, k.c], k.rect, join, depth);
  }

  /** No amount of stack is enough for the rectangle of a cycle. */
  lemma {:induction false} CycleNeverEnds(k: Cycle, join: JoinRule, depth: nat)
    requires k.Closes(join)
    ensures Invalidate([k.a, k.b, k.c], k.rect, join, depth) == None
  {
    hide Judge, EraseEach, ToErase, ToAdd;
    if depth > 0 {
      CycleEntry(k, join);
      CycleNeverEnds(k, join, depth - 1);
      assert !k.rect.IsEmpty();
      if InvalidateEach([k.a, k.b], [k.upper, k.lower, k.rest, k.rect], join, depth - 1).Some? {
        CycleReturns(k, join, depth - 1);
      }
    }
  }

  /** The list of a cycle is what three calls on an empty list leave. */
  lemma CycleIsReached(k: Cycle, last: Rect, join: JoinRule)
    requires k.Closes(join) && last.Proper()
    requires Judge(k.b, k.a, join) == Apart
    requires Judge(last, k.a, join) == Apart && Judge(last, k.b, join) == Trimmed(k.c)
    ensures var r := InvalidateEach([], [k.a, k.b, last], join, 2);
            r.Some? && r.value.regions == [k.a, k.b, k.c]
  {
    hide Judge, IsCovered, ToErase, ToAdd, EraseEach;
    assert [k.a, k.b, last][1..] == [k.b, last] && [k.b, last][1..] == [last];
    InvalidateEmptyList(k.a, join, 2);
    ApartIsAdded(k.b, k.a, join, 2);
    PassOverTwo(last, k.a, k.b, join);
    EraseThird(k.a, k.b, k.c);
    Detour([k.a, k.b], last, k.a, k.b, k.c, join, 2);
    EachOfOne([k.a, k.b], last, join, 2);
    EachOfTwo([k.a], k.b, last, join, 2);
  }

  const CYCLE := Cycle(Rect(1, 5, 5, 1), Rect(1, 0, 5, 3), Rect(4, 3, 2, 2), Rect(4, 1, 1, 5),
                       Rect(4, 1, 1, 4), Rect(4, 3, 1, 3), Rect(5, 3, 1, 2), Rect(4, 3, 1, 2))

  /** The call that puts `CYCLE.c` on the list. */
  const LAST := Rect(4, 2, 2, 3)

  /** The default rule rejects the join of two rectangles, given their bounding box and overlap. */
  predicate WastesTooMuch(rect: Rect, region: Rect, whole: Rect, common: Rect) {
    && whole == rect.Encompass(region) && common == rect.Intersection(region)
    && 5 * (whole.w * whole.h - rect.w * rect.h - region.w * region.h + common.w * common.h) > whole.w * whole.h + 2
  }

  lemma ApartFrom(rect: Rect, region: Rect, whole: Rect, common: Rect)
    requires rect.Proper() && region.Proper() && common.w * common.h == 0
    requires WastesTooMuch(rect, region, whole, common)
    ensures Judge(rect, region, DEFAULT_JOIN) == Apart
  {
    OverlapHasArea(rect, region);
    DisjointVerdict(rect, region, DEFAULT_JOIN);
  }

  lemma TrimmedBy(rect: Rect, region: Rect, whole: Rect, common: Rect)
    requires rect.GoesInto(region) && rect.Overlaps(region) && !region.Includes(rect) && !rect.Includes(region)
    requires WastesTooMuch(rect, region, whole, common)
    ensures common.Aside(rect)
    ensures Judge(rect, region, DEFAULT_JOIN) == Trimmed(rect.Cut(common))
  {
    OverlapHasArea(rect, region);
  }

  lemma SplitBy(rect: Rect, region: Rect, whole: Rect, common: Rect)
    requires region.GoesInto(rect) && rect.Overlaps(region) && !region.Includes(rect) && !rect.Includes(region)
    requires WastesTooMuch(rect, region, whole, common) && !rect.GoesInto(region)
    ensures common.Aside(region)
    ensures Judge(rect, region, DEFAULT_JOIN) == Split(region.Cut(common))
  {
    OverlapHasArea(rect, region);
  }

  lemma AbsorbedBy(rect: Rect, region: Rect)
    requires rect.Includes(region) && !region.Includes(rect)
    ensures Judge(rect, region, DEFAULT_JOIN) == Absorbed
  {
  }

  lemma JoinedWith(rect: Rect, region: Rect, whole: Rect)
    requires rect.Proper() && region.Proper() && !rect.Overlaps(region) && whole == rect.Encompass(region)
    requires whole.w * whole.h == rect.w * rect.h + region.w * region.h
    ensures Judge(rect, region, DEFAULT_JOIN) == Joined(whole)
  {
    DisjointVerdict(rect, region, DEFAULT_JOIN);
    AreaMonotone(whole, rect);
  }

  lemma ExampleRectByA()
    ensures Judge(CYCLE.rect, CYCLE.a, DEFAULT_JOIN) == Trimmed(CYCLE.upper)
  {
    hide Judge;
    TrimmedBy(CYCLE.rect, CYCLE.a, Rect(1, 1, 5, 5), Rect(4, 5, 1, 1));
  }

  lemma ExampleRectByB()
    ensures Judge(CYCLE.rect, CYCLE.b, DEFAULT_JOIN) == Trimmed(CYCLE.lower)
  {
    hide Judge;
    TrimmedBy(CYCLE.rect, CYCLE.b, Rect(1, 0, 5, 6), Rect(4, 1, 1, 2));
  }

  lemma ExampleVerdictOfSplit()
    ensures Judge(CYCLE.rect, CYCLE.c, DEFAULT_JOIN) == Split(CYCLE.rest)
  {
    hide Judge;
    SplitBy(CYCLE.rect, CYCLE.c, Rect(4, 1, 2, 5), Rect(4, 3, 1, 2));
  }

  lemma ExampleUpperByB()
    ensures Judge(CYCLE.upper, CYCLE.b, DEFAULT_JOIN) == Trimmed(CYCLE.middle)
  {
    hide Judge;
    TrimmedBy(CYCLE.upper, CYCLE.b, Rect(1, 0, 5, 5), Rect(4, 1, 1, 2));
  }

  lemma ExampleLowerByA()
    ensures Judge(CYCLE.lower, CYCLE.a, DEFAULT_JOIN) == Trimmed(CYCLE.middle)
  {
    hide Judge;
    assert CYCLE.lower == Rect(4, 3, 1, 3) && CYCLE.a == Rect(1, 5, 5, 1);
    TrimmedBy(CYCLE.lower, CYCLE.a, Rect(1, 3, 5, 3), Rect(4, 5, 1, 1));
  }

  lemma ExampleLastByB()
    ensures Judge(LAST, CYCLE.b, DEFAULT_JOIN) == Trimmed(CYCLE.c)
  {
    hide Judge;
    TrimmedBy(LAST, CYCLE.b, Rect(1, 0, 5, 5), Rect(4, 2, 2, 1));
  }

  lemma ExampleVerdictsOfMiddle()
    ensures Judge(CYCLE.lower, CYCLE.middle, DEFAULT_JOIN) == Absorbed
    ensures Judge(CYCLE.rest, CYCLE.middle, DEFAULT_JOIN) == Joined(CYCLE.c)
  {
    hide Judge;
    AbsorbedBy(CYCLE.lower, CYCLE.middle);
    JoinedWith(CYCLE.rest, CYCLE.middle, CYCLE.c);
  }

  lemma ExampleApartFromA()
    ensures Judge(CYCLE.upper, CYCLE.a, DEFAULT_JOIN) == Apart
    ensures Judge(CYCLE.rest, CYCLE.a, DEFAULT_JOIN) == Apart
    ensures Judge(CYCLE.middle, CYCLE.a, DEFAULT_JOIN) == Apart
    ensures Judge(CYCLE.c, CYCLE.a, DEFAULT_JOIN) == Apart
    ensures Judge(CYCLE.b, CYCLE.a, DEFAULT_JOIN) == Apart
    ensures Judge(LAST, CYCLE.a, DEFAULT_JOIN) == Apart
  {
    hide Judge;
    assert Judge(CYCLE.upper, CYCLE.a, DEFAULT_JOIN) == Apart by {
      ApartFrom(CYCLE.upper, CYCLE.a, Rect(1, 1, 5, 5), Rect(4, 5, 1, 0));
    }
    assert Judge(CYCLE.rest, CYCLE.a, DEFAULT_JOIN) == Apart by {
      ApartFrom(CYCLE.rest, CYCLE.a, Rect(1, 3, 5, 3), Rect(5, 5, 1, 0));
    }
    assert Judge(CYCLE.middle, CYCLE.a, DEFAULT_JOIN) == Apart by {
      ApartFrom(CYCLE.middle, CYCLE.a, Rect(1, 3, 5, 3), Rect(4, 5, 1, 0));
    }
    assert Judge(CYCLE.c, CYCLE.a, DEFAULT_JOIN) == Apart by {
      ApartFrom(CYCLE.c, CYCLE.a, Rect(1, 3, 5, 3), Rect(4, 5, 2, 0));
    }
    assert Judge(CYCLE.b, CYCLE.a, DEFAULT_JOIN) == Apart by {
      ApartFrom(CYCLE.b, CYCLE.a, Rect(1, 0, 5, 6), Rect(1, 5, 5, 0));
    }
    assert Judge(LAST, CYCLE.a, DEFAULT_JOIN) == Apart by {
      ApartFrom(LAST, CYCLE.a, Rect(1, 2, 5, 4), Rect(4, 5, 2, 0));
    }
  }

  lemma ExampleApartFromB()
    ensures Judge(CYCLE.lower, CYCLE.b, DEFAULT_JOIN) == Apart
    ensures Judge(CYCLE.rest, CYCLE.b, DEFAULT_JOIN) == Apart
    ensures Judge(CYCLE.middle, CYCLE.b, DEFAULT_JOIN) == Apart
    ensures Judge(CYCLE.c, CYCLE.b, DEFAULT_JOIN) == Apart
  {
    hide Judge;
    assert Judge(CYCLE.lower, CYCLE.b, DEFAULT_JOIN) == Apart by {
      ApartFrom(CYCLE.lower, CYCLE.b, Rect(1, 0, 5, 6), Rect(4, 3, 1, 0));
    }
    assert Judge(CYCLE.rest, CYCLE.b, DEFAULT_JOIN) == Apart by {
      ApartFrom(CYCLE.rest, CYCLE.b, Rect(1, 0, 5, 5), Rect(5, 3, 1, 0));
    }
    assert Judge(CYCLE.middle, CYCLE.b, DEFAULT_JOIN) == Apart by {
      ApartFrom(CYCLE.middle, CYCLE.b, Rect(1, 0, 5, 5), Rect(4, 3, 1, 0));
    }
    assert Judge(CYCLE.c, CYCLE.b, DEFAULT_JOIN) == Apart by {
      ApartFrom(CYCLE.c, CYCLE.b, Rect(1, 0, 5, 5), Rect(4, 3, 2, 0));
    }
  }

  /**
   Three ordinary calls on an empty list, under the default join percentage, leave a list for
   which the next call never returns.
   */
  lemma DefaultJoinCanRecurForever(depth: nat)
    ensures var r := InvalidateEach([], [Rect(1, 5, 5, 1), Rect(1, 0, 5, 3), Rect(4, 2, 2, 3)], DEFAULT_JOIN, 2);
            r.Some? && Invalidate(r.value.regions, Rect(4, 1, 1, 5), DEFAULT_JOIN, depth) == None
  {
    hide Judge, Invalidate, InvalidateEach;
    ExampleRectByA();
    ExampleRectByB();
    ExampleVerdictOfSplit();
    ExampleUpperByB();
    ExampleLowerByA();
    ExampleLastByB();
    ExampleVerdictsOfMiddle();
    ExampleApartFromA();
    ExampleApartFromB();
    assert CYCLE.Closes(DEFAULT_JOIN);
    CycleIsReached(CYCLE, LAST, DEFAULT_JOIN);
    CycleNeverEnds(CYCLE, DEFAULT_JOIN, depth);
  }
}
