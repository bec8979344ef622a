/**
 What `Canvas::invalidateRegion` does with regions that are far away from a rectangle: nothing.  So
 what decides whether the recursion ends is the part of the list that is close by, however long the
 list is.
 */
module DirtyLocality {
  import opened Geometry
  import opened DirtyRegions
  import DirtyPairs

  /** The region is neither joined nor cut with any rectangle inside the box. */
  ghost predicate Remote(region: Rect, box: Rect, join: JoinRule) {
    forall a: Rect :: a.Proper() && box.Includes(a) ==> Judge(a, region, join).Apart?
  }

  /** The regions inside the box, or the others. */
  function Part(regions: seq<Rect>, box: Rect, inside: bool): seq<Rect> {
    if regions == [] then []
    else
      var last := regions[|regions| - 1];
      Part(regions[..|regions| - 1], box, inside) + if box.Includes(last) == inside then [last] else []
  }

  function Near(regions: seq<Rect>, box: Rect): seq<Rect> {
    Part(regions, box, true)
  }

  function Far(regions: seq<Rect>, box: Rect): seq<Rect> {
    Part(regions, box, false)
  }

  lemma {:induction false} PartHas(regions: seq<Rect>, box: Rect, inside: bool)
    ensures forall g :: g in Part(regions, box, inside) <==> g in regions && box.Includes(g) == inside
  {
    if regions != [] {
      var n := |regions| - 1;
      PartHas(regions[..n], box, inside);
      assert regions == regions[..n] + [regions[n]];
    }
  }

  /** Every stored region is inside the box, or it is remote from it. */
  ghost predicate Clear(regions: seq<Rect>, box: Rect, join: JoinRule) {
    forall g :: g in regions ==> g.Proper() && (box.Includes(g) || Remote(g, box, join))
  }

  lemma {:induction false} FrontFirst(first: Rect, rest: seq<Rect>, box: Rect, inside: bool)
    ensures Part([first] + rest, box, inside) ==
            (if box.Includes(first) == inside then [first] else []) + Part(rest, box, inside)
  {
    if rest == [] {
      assert [first] + rest == [first] && Part([], box, inside) == [];
    } else {
      var n := |rest| - 1;
      FrontFirst(first, rest[..n], box, inside);
      assert ([first] + rest)[..n + 1] == [first] + rest[..n];
    }
  }

  lemma NoParts(box: Rect)
    ensures Near([], box) == [] && Far([], box) == []
  {
  }

  lemma {:induction false} EraseFirstPart(regions: seq<Rect>, rect: Rect, box: Rect)
    requires box.Includes(rect)
    ensures Near(EraseFirst(regions, rect), box) == EraseFirst(Near(regions, box), rect)
    ensures Far(EraseFirst(regions, rect), box) == Far(regions, box)
  {
    hide Part, Rect.Includes;
    if regions == [] {
      NoParts(box);
    } else {
      var first, rest := regions[0], regions[1..];
      assert regions == [first] + rest;
      FrontFirst(first, rest, box, true);
      FrontFirst(first, rest, box, false);
      if first != rect {
        EraseFirstPart(rest, rect, box);
        FrontFirst(first, EraseFirst(rest, rect), box, true);
        FrontFirst(first, EraseFirst(rest, rect), box, false);
        assert ([first] + Near(rest, box))[1..] == Near(rest, box) == [] + Near(rest, box);
        assert [] + Near(EraseFirst(rest, rect), box) == Near(EraseFirst(rest, rect), box);
      } else {
        assert ([rect] + Near(rest, box))[1..] == Near(rest, box) && [] + Far(rest, box) == Far(rest, box);
      }
    }
  }

  lemma {:induction false} EraseEachPart(regions: seq<Rect>, rects: seq<Rect>, box: Rect)
    requires forall r :: r in rects ==> box.Includes(r)
    ensures Near(EraseEach(regions, rects), box) == EraseEach(Near(regions, box), rects)
    ensures Far(EraseEach(regions, rects), box) == Far(regions, box)
  {
    hide Near, Far, Rect.Includes;
    if rects != [] {
      var n := |rects| - 1;
      EraseEachPart(regions, rects[..n], box);
      EraseFirstPart(EraseEach(regions, rects[..n]), rects[n], box);
    }
  }

  lemma AddedIsNear(kept: seq<Rect>, rect: Rect, box: Rect)
    requires box.Includes(rect)
    ensures Near(kept + [rect], box) == Near(kept, box) + [rect] && Far(kept + [rect], box) == Far(kept, box)
  {
    assert (kept + [rect])[..|kept|] == kept;
  }

  /** The two loops of one pass see only what is near. */
  lemma {:induction false} PassIsNear(rect: Rect, regions: seq<Rect>, box: Rect, join: JoinRule)
    requires rect.Proper() && box.Includes(rect) && Clear(regions, box, join)
    ensures ToErase(rect, regions, join) == ToErase(rect, Near(regions, box), join)
    ensures ToAdd(rect, regions, join) == ToAdd(rect, Near(regions, box), join)
  {
    hide Judge;
    if regions != [] {
      var n := |regions| - 1;
      PassIsNear(rect, regions[..n], box, join);
      var near := Near(regions[..n], box);
      if box.Includes(regions[n]) {
        assert (near + [regions[n]])[..|near|] == near;
      } else {
        assert Judge(rect, regions[n], join).Apart?;
        assert near + [] == near;
      }
    }
  }

  lemma CoveredNearby(rect: Rect, regions: seq<Rect>, box: Rect, join: JoinRule)
    requires rect.Proper() && box.Includes(rect) && Clear(regions, box, join)
    ensures IsCovered(rect, regions) <==> IsCovered(rect, Near(regions, box))
  {
    var near := Near(regions, box);
    PartHas(regions, box, true);
    if IsCovered(rect, regions) {
      var i :| 0 <= i < |regions| && regions[i].Includes(rect);
      assert Judge(rect, regions[i], join).Covered?;
      assert regions[i] in near;
    }
    if IsCovered(rect, near) {
      var i :| 0 <= i < |near| && near[i].Includes(rect);
      assert near[i] in regions;
    }
  }

  /** The call does to the near regions what it would do without the others, and nothing to those. */
  ghost predicate IsLocal(out: Option<Outcome>, alone: Option<Outcome>, regions: seq<Rect>, box: Rect) {
    && out.Some? == alone.Some?
    && (out.Some? ==>
          && Near(out.value.regions, box) == alone.value.regions && Far(out.value.regions, box) == Far(regions, box)
          && out.value.added == alone.value.added)
  }

  lemma StaysClear(regions: seq<Rect>, later: seq<Rect>, box: Rect, join: JoinRule)
    requires Clear(regions, box, join) && Within(Near(later, box), box) && Far(later, box) == Far(regions, box)
    ensures Clear(later, box, join)
  {
    hide Remote;
    PartHas(regions, box, false);
    PartHas(later, box, true);
    PartHas(later, box, false);
    forall g | g in later
      ensures g.Proper() && (box.Includes(g) || Remote(g, box, join))
    {
      assert g in Near(later, box) || g in Far(later, box);
    }
  }

  lemma NearIsWithin(regions: seq<Rect>, rect: Rect, box: Rect, join: JoinRule)
    requires Clear(regions, box, join) && rect.Proper() && box.Includes(rect)
    ensures Within(Near(regions, box), box) && Within([rect], box)
  {
    PartHas(regions, box, true);
  }

  /** One pass without its recursive calls. */
  lemma PassIsLocal(regions: seq<Rect>, rect: Rect, box: Rect, join: JoinRule)
    requires Clear(regions, box, join) && rect.Proper() && box.Includes(rect)
    ensures var near := Near(regions, box);
            var kept := EraseEach(regions, ToErase(rect, regions, join));
            && ToAdd(rect, regions, join) == ToAdd(rect, near, join) && Within(ToAdd(rect, near, join), box)
            && Near(kept, box) == EraseEach(near, ToErase(rect, near, join)) && Far(kept, box) == Far(regions, box)
            && Clear(kept, box, join)
  {
    hide Judge, Remote, ToErase, ToAdd, EraseEach;
    var near := Near(regions, box);
    PassIsNear(rect, regions, box, join);
    NearIsWithin(regions, rect, box, join);
    OnePassWithin(near, rect, join, box);
    PassOrigin(rect, near, join);
    EraseEachPart(regions, ToErase(rect, regions, join), box);
    StaysClear(regions, EraseEach(regions, ToErase(rect, regions, join)), box, join);
  }

  /** Remote regions take no part in a call, and have no influence on it, at whatever depth of the recursion. */
  lemma {:induction false} RemoteRegionsStay(regions: seq<Rect>, rect: Rect, box: Rect, join: JoinRule, depth: nat)
    requires Clear(regions, box, join) && (rect.IsEmpty() || (rect.Proper() && box.Includes(rect)))
    ensures IsLocal(Invalidate(regions, rect, join, depth), Invalidate(Near(regions, box), rect, join, depth),
                    regions, box)
    decreases depth, 0
  {
    hide Clear, Near, Far, ToErase, ToAdd, EraseEach, IsCovered, Within, InvalidateEach;
    if depth > 0 && !rect.IsEmpty() {
      CoveredNearby(rect, regions, box, join);
      if !IsCovered(rect, regions) {
        PassIsLocal(regions, rect, box, join);
        var kept, toAdd := EraseEach(regions, ToErase(rect, regions, join)), ToAdd(rect, regions, join);
        if toAdd == [] {
          AddedIsNear(kept, rect, box);
        } else {
          EachStays(kept, toAdd, box, join, depth - 1);
        }
      }
    }
  }

  lemma {:induction false} EachStays(regions: seq<Rect>, rects: seq<Rect>, box: Rect, join: JoinRule, depth: nat)
    requires Clear(regions, box, join) && Within(rects, box)
    ensures IsLocal(InvalidateEach(regions, rects, join, depth), InvalidateEach(Near(regions, box), rects, join, depth),
                    regions, box)
    decreases depth, 1 + |rects|
  {
    hide Clear, Near, Far, Invalidate;
    if rects != [] {
      assert rects[0] in rects;
      RemoteRegionsStay(regions, rects[0], box, join, depth);
      var first := Invalidate(regions, rects[0], join, depth);
      if first.Some? {
        NearIsWithin(regions, rects[0], box, join);
        InvalidateStaysWithin(Near(regions, box), rects[0], join, depth, box);
        StaysClear(regions, first.value.regions, box, join);
        EachStays(first.value.regions, rects[1..], box, join, depth);
      }
    }
  }

  /** The recursion ends when at most two regions are near, however many remote ones are stored. */
  lemma TwoNearRegionsEnd(regions: seq<Rect>, rect: Rect, box: Rect, join: JoinRule, depth: nat)
    requires depth >= 5 && Clear(regions, box, join) && |Near(regions, box)| <= 2
    requires rect.IsEmpty() || (rect.Proper() && box.Includes(rect))
    ensures Invalidate(regions, rect, join, depth).Some?
    ensures Far(Invalidate(regions, rect, join, depth).value.regions, box) == Far(regions, box)
  {
    hide Invalidate, Remote;
    PartHas(regions, box, true);
    DirtyPairs.TwoRegionsEnd(Near(regions, box), rect, join, depth);
    RemoteRegionsStay(regions, rect, box, join, depth);
  }

  // ----- What is remote under the default join percentage

  /** How far apart two stretches are that begin at `a` and `b`. */
  function Gap(a: int, aLength: int, b: int, bLength: int): int {
    Max(Max(b - (a + aLength), a - (b + bLength)), 0)
  }

  /** In one direction four times the gap is at least what they measure together, and three more. */
  predicate IsDistant(region: Rect, box: Rect) {
    || 4 * Gap(box.x, box.w, region.x, region.w) >= box.w + region.w + 3
    || 4 * Gap(box.y, box.h, region.y, region.h) >= box.h + region.h + 3
  }

  lemma Times(a: int, b: int, h: int)
    requires a <= b && 0 <= h
    ensures a * h <= b * h
  {
  }

  lemma Spread(a: int, b: int, gap: int, h: int)
    ensures (a + b + gap) * h == a * h + b * h + gap * h
  {
  }

  /** Two stretches with a gap between them, `h` high, hold much more than two rectangles as long as they. */
  lemma MuchIsWasted(a: int, b: int, gap: int, h: int)
    requires 0 < h && 4 * gap >= a + b + 3
    ensures gap * h > DEFAULT_JOIN((a + b + gap) * h)
  {
    var all, wasted := (a + b + gap) * h, gap * h;
    assert 10 * wasted >= 2 * all + 6 by {
      Spread(a, b, gap, h);
      Times(a + b + 3, 4 * gap, h);
      assert (4 * gap) * h == 4 * wasted;
      assert (a + b + 3) * h == a * h + b * h + 3 * h;
    }
  }

  lemma AreasFit(aw: int, ah: int, bw: int, bh: int, gap: int, h: int)
    requires 0 < aw && 0 < ah <= h && 0 < bw && 0 < bh <= h && 4 * gap >= aw + bw + 3
    ensures (aw + bw + gap) * h - aw * ah - bw * bh > DEFAULT_JOIN((aw + bw + gap) * h)
  {
    hide DEFAULT_JOIN;
    MuchIsWasted(aw, bw, gap, h);
    Spread(aw, bw, gap, h);
    Times(ah, h, aw);
    Times(bh, h, bw);
  }

  lemma FurtherInside(a: int, aLength: int, box: int, boxLength: int, b: int, bLength: int)
    requires box <= a && a + aLength <= box + boxLength && 0 < aLength && 0 < bLength
    requires 4 * Gap(box, boxLength, b, bLength) >= boxLength + bLength + 3
    ensures var gap := Max(a + aLength, b + bLength) - Min(a, b) - aLength - bLength;
            4 * gap >= aLength + bLength + 3
    ensures a + aLength < b || b + bLength < a
  {
  }

  lemma ApartInWidth(a: Rect, region: Rect)
    requires a.Proper() && region.Proper() && (a.x + a.w < region.x || region.x + region.w < a.x)
    requires 4 * (a.Encompass(region).w - a.w - region.w) >= a.w + region.w + 3
    ensures Judge(a, region, DEFAULT_JOIN).Apart?
  {
    hide DEFAULT_JOIN;
    var whole := a.Encompass(region);
    AreasFit(a.w, a.h, region.w, region.h, whole.w - a.w - region.w, whole.h);
    assert a.w + region.w + (whole.w - a.w - region.w) == whole.w;
    assert a.Intersection(region).w == 0;
  }

  lemma ApartInHeight(a: Rect, region: Rect)
    requires a.Proper() && region.Proper() && (a.y + a.h < region.y || region.y + region.h < a.y)
    requires 4 * (a.Encompass(region).h - a.h - region.h) >= a.h + region.h + 3
    ensures Judge(a, region, DEFAULT_JOIN).Apart?
  {
    hide DEFAULT_JOIN;
    var whole := a.Encompass(region);
    AreasFit(a.h, a.w, region.h, region.w, whole.h - a.h - region.h, whole.w);
    assert a.h + region.h + (whole.h - a.h - region.h) == whole.h;
    assert a.Intersection(region).h == 0;
    assert whole.w * whole.h == whole.h * whole.w;
  }

  /** A distant region is remote. */
  lemma DistantIsRemote(region: Rect, box: Rect)
    requires region.Proper() && IsDistant(region, box)
    ensures Remote(region, box, DEFAULT_JOIN)
  {
    hide Judge, DEFAULT_JOIN;
    forall a: Rect | a.Proper() && box.Includes(a)
      ensures Judge(a, region, DEFAULT_JOIN).Apart?
    {
      if 4 * Gap(box.x, box.w, region.x, region.w) >= box.w + region.w + 3 {
        FurtherInside(a.x, a.w, box.x, box.w, region.x, region.w);
        ApartInWidth(a, region);
      } else {
        FurtherInside(a.y, a.h, box.y, box.h, region.y, region.h);
        ApartInHeight(a, region);
      }
    }
  }

  /**
   Under the default join percentage the recursion ends if all stored regions but two are distant from
   some box that has the rectangle and those two inside.
   */
  lemma DefaultEndsNearby(regions: seq<Rect>, rect: Rect, box: Rect, depth: nat)
    requires depth >= 5 && (rect.IsEmpty() || (rect.Proper() && box.Includes(rect))) && |Near(regions, box)| <= 2
    requires forall g :: g in regions ==> g.Proper() && (box.Includes(g) || IsDistant(g, box))
    ensures Invalidate(regions, rect, DEFAULT_JOIN, depth).Some?
    ensures Far(Invalidate(regions, rect, DEFAULT_JOIN, depth).value.regions, box) == Far(regions, box)
  {
    hide Invalidate, Remote, IsDistant;
    forall g | g in regions && IsDistant(g, box)
      ensures Remote(g, box, DEFAULT_JOIN)
    {
      DistantIsRemote(g, box);
    }
    TwoNearRegionsEnd(regions, rect, box, DEFAULT_JOIN, depth);
  }
}
