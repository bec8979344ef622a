/**
 The list of dirty rectangles of a canvas and the recursive rule that adds a rectangle to it,
 after `Canvas::invalidateRegion` in lib/dtv-canvas/src/canvas.cpp.

 The source recurses on the C++ call stack; here `depth` is the stack that is left, and a call
 that would need more is `None`.
 */
module DirtyRegions {
  import opened Geometry

  datatype Option<+T> = None | Some(value: T)

  /** The largest extra area that a join may waste, as a function of the joined area. */
  type JoinRule = int -> int

  /** `iround(area * 0.2)`, the configured default: a multiple of 0.2 never lies half way. */
  const DEFAULT_JOIN: JoinRule := area => (2 * area + 5) / 10

  /** It is the whole number nearest to a fifth of the area. */
  lemma DefaultJoinRounds(area: int, extra: int)
    ensures extra == DEFAULT_JOIN(area) <==> -5 < 10 * extra - 2 * area < 5
  {
  }

  /** What one stored region means for a new rectangle: the branches of the first loop. */
  datatype Verdict =
    | Covered                // the region includes the rectangle: nothing to do at all
    | Absorbed               // the rectangle includes the region
    | Joined(whole: Rect)    // both are replaced by their bounding box
    | Trimmed(piece: Rect)   // only this piece of the rectangle is new
    | Split(piece: Rect)     // the region is replaced by this piece, the rectangle is kept
    | Apart

  function ExtraArea(rect: Rect, region: Rect): int {
    rect.Encompass(region).Area() - rect.Area() - region.Area() + rect.Intersection(region).Area()
  }

  function Judge(rect: Rect, region: Rect, join: JoinRule): Verdict {
    if region.Includes(rect) then Covered
    else if rect.Includes(region) then Absorbed
    else
      var whole := rect.Encompass(region);
      var common := rect.Intersection(region);
      if ExtraArea(rect, region) <= join(whole.Area()) then Joined(whole)
      else if common.Area() > 0 then
        OverlapHasArea(rect, region);
        if rect.GoesInto(region) then
          CutIsAllowed(rect, region);
          Trimmed(rect.Cut(common))
        else if region.GoesInto(rect) then
          CutIsAllowed(region, rect);
          Split(region.Cut(common))
        else Apart
      else Apart
  }

  /** The extra area is the number of cells of the bounding box that neither rectangle has. */
  lemma ExtraAreaIsWaste(rect: Rect, region: Rect)
    requires rect.Proper() && region.Proper()
    ensures ExtraArea(rect, region) == |Cells(rect.Encompass(region)) - Cells(rect) - Cells(region)|
    ensures rect.Encompass(region).Area() == |Cells(rect.Encompass(region))|
  {
    hide Cells, Rect.Includes, Rect.Overlaps, Rect.Area;
    var whole, common := rect.Encompass(region), rect.Intersection(region);
    var all, a, b := Cells(whole), Cells(rect), Cells(region);
    AreaCountsCells(whole);
    AreaCountsCells(rect);
    AreaCountsCells(region);
    AreaCountsCells(common);
    CellsCompare(rect, region);
    Outside(all, a, b);
  }

  lemma Outside(all: set<Point>, a: set<Point>, b: set<Point>)
    requires a <= all && b <= all
    ensures |all - a - b| == |all| - |a| - |b| + |a * b|
  {
    assert |a + b| == |a| + |b| - |a * b|;
    assert all - a - b == all - (a + b) && a + b <= all;
  }

  /** What the verdict is, in terms of cells. */
  lemma VerdictMeans(rect: Rect, region: Rect, join: JoinRule)
    requires rect.Proper() && region.Proper()
    ensures var v := Judge(rect, region, join);
            var a, b, all := Cells(rect), Cells(region), Cells(rect.Encompass(region));
            var joins := |all - a - b| <= join(|all|);
            && (v.Covered? <==> a <= b)
            && (v.Absorbed? <==> b < a)
            && (v.Joined? <==> !(a <= b) && !(b <= a) && joins)
            && (v.Joined? ==> v.whole == rect.Encompass(region))
            && (v.Trimmed? <==> !(a <= b) && !(b <= a) && !joins && !(a !! b) && LeavesRectangle(rect, region))
            && (v.Trimmed? ==> Cells(v.piece) == a - b)
            && (v.Split? <==> !(a <= b) && !(b <= a) && !joins && !(a !! b)
                              && !LeavesRectangle(rect, region) && LeavesRectangle(region, rect))
            && (v.Split? ==> Cells(v.piece) == b - a)
  {
    hide Cells, Rect.Includes, Rect.Overlaps, Rect.Area, ExtraArea, Rect.GoesInto, LeavesRectangle, IsRest;
    hide Rect.Intersection, Rect.Encompass, Rect.Cut, Rect.Aside, Rect.Contains;
    CellsCompare(rect, region);
    CellsCompare(region, rect);
    OverlapHasArea(rect, region);
    ExtraAreaIsWaste(rect, region);
    if !region.Includes(rect) && !rect.Includes(region) && rect.Overlaps(region) {
      GoesIntoIffOnePiece(rect, region);
      GoesIntoIffOnePiece(region, rect);
      RestCells(rect, region);
      RestCells(region, rect);
    }
  }

  lemma RestCells(a: Rect, b: Rect)
    ensures forall c: Rect :: IsRest(c, a, b) ==> Cells(c) == Cells(a) - Cells(b)
  {
    hide Cells;
  }

  predicate Erases(v: Verdict) {
    v.Absorbed? || v.Joined? || v.Split?
  }

  function Additions(v: Verdict, rect: Rect): seq<Rect> {
    match v
    case Joined(whole) => [whole]
    case Trimmed(piece) => [piece]
    case Split(piece) => [piece, rect]
    case _ => []
  }

  /** The loop returns at once when a stored region includes the rectangle. */
  predicate IsCovered(rect: Rect, regions: seq<Rect>) {
    exists i :: 0 <= i < |regions| && regions[i].Includes(rect)
  }

  /** `toErase` after the regions of the sequence. */
  function ToErase(rect: Rect, regions: seq<Rect>, join: JoinRule): seq<Rect> {
    if regions == [] then []
    else
      var last := regions[|regions| - 1];
      ToErase(rect, regions[..|regions| - 1], join) +
      if Erases(Judge(rect, last, join)) then [last] else []
  }

  /** `toAdd` after the regions of the sequence. */
  function ToAdd(rect: Rect, regions: seq<Rect>, join: JoinRule): seq<Rect> {
    if regions == [] then []
    else
      var last := regions[|regions| - 1];
      ToAdd(rect, regions[..|regions| - 1], join) + Additions(Judge(rect, last, join), rect)
  }

  /** What one stored region adds to the two lists. */
  lemma PassOfOne(rect: Rect, region: Rect, join: JoinRule)
    ensures var v := Judge(rect, region, join);
            && ToErase(rect, [region], join) == (if v.Absorbed? || v.Joined? || v.Split? then [region] else [])
            && ToAdd(rect, [region], join) ==
               (if v.Joined? then [v.whole] else if v.Trimmed? then [v.piece]
                else if v.Split? then [v.piece, rect] else [])
  {
    hide Judge;
    assert [region][..0] == [] && ToErase(rect, [], join) == [] && ToAdd(rect, [], join) == [];
  }

  /** The regions are looked at one after another. */
  lemma {:induction false} PassOfMany(rect: Rect, first: seq<Rect>, rest: seq<Rect>, join: JoinRule)
    ensures ToErase(rect, first + rest, join) == ToErase(rect, first, join) + ToErase(rect, rest, join)
    ensures ToAdd(rect, first + rest, join) == ToAdd(rect, first, join) + ToAdd(rect, rest, join)
  {
    hide Judge, Additions, Erases;
    if rest == [] {
      assert first + rest == first;
    } else {
      hide ToErase, ToAdd;
      var n := |rest| - 1;
      PassOfMany(rect, first, rest[..n], join);
      PassSnoc(rect, rest[..n], rest[n], join);
      PassSnoc(rect, first + rest[..n], rest[n], join);
      assert rest[..n] + [rest[n]] == rest && (first + rest[..n]) + [rest[n]] == first + rest;
    }
  }

  lemma PassSnoc(rect: Rect, regions: seq<Rect>, last: Rect, join: JoinRule)
    ensures ToErase(rect, regions + [last], join) ==
            ToErase(rect, regions, join) + if Erases(Judge(rect, last, join)) then [last] else []
    ensures ToAdd(rect, regions + [last], join) ==
            ToAdd(rect, regions, join) + Additions(Judge(rect, last, join), rect)
  {
    hide Judge, Additions, Erases;
    assert (regions + [last])[..|regions|] == regions;
  }

  /** Erase the first element equal to `rect`, if there is one. */
  function EraseFirst(regions: seq<Rect>, rect: Rect): seq<Rect> {
    if regions == [] then []
    else if regions[0] == rect then regions[1..]
    else [regions[0]] + EraseFirst(regions[1..], rect)
  }

  function EraseEach(regions: seq<Rect>, rects: seq<Rect>): seq<Rect> {
    if rects == [] then regions
    else EraseFirst(EraseEach(regions, rects[..|rects| - 1]), rects[|rects| - 1])
  }

  /** The new list, and the rectangles handed to `addDirtyRegion` on the way, in order. */
  datatype Outcome = Outcome(regions: seq<Rect>, added: seq<Rect>)

  function Invalidate(regions: seq<Rect>, rect: Rect, join: JoinRule, depth: nat): Option<Outcome>
    decreases depth, 0
  {
    if depth == 0 then None
    else if rect.IsEmpty() || IsCovered(rect, regions) then Some(Outcome(regions, []))
    else
      var kept := EraseEach(regions, ToErase(rect, regions, join));
      var toAdd := ToAdd(rect, regions, join);
      if toAdd == [] then Some(Outcome(kept + [rect], [rect]))
      else InvalidateEach(kept, toAdd, join, depth - 1)
  }

  function InvalidateEach(regions: seq<Rect>, rects: seq<Rect>, join: JoinRule, depth: nat): Option<Outcome>
    decreases depth, 1 + |rects|
  {
    if rects == [] then Some(Outcome(regions, []))
    else
      var first := Invalidate(regions, rects[0], join, depth);
      if first.None? then None
      else
        var rest := InvalidateEach(first.value.regions, rects[1..], join, depth);
        if rest.None? then None
        else Some(Outcome(rest.value.regions, first.value.added + rest.value.added))
  }

  /** The list after a call that had the stack it needs. */
  function Marked(regions: seq<Rect>, rect: Rect, join: JoinRule, depth: nat): seq<Rect> {
    var out := Invalidate(regions, rect, join, depth);
    if out.Some? then out.value.regions else regions
  }

  // ----- What the list covers

  predicate CoveredBy(p: Point, regions: seq<Rect>) {
    exists i :: 0 <= i < |regions| && regions[i].Contains(p)
  }

  lemma CoveredByElement(p: Point, regions: seq<Rect>, r: Rect)
    requires r in regions && r.Contains(p)
    ensures CoveredBy(p, regions)
  {
  }

  /** What one pass decides for one region, seen from the lists it builds. */
  lemma {:induction false} PassContains(rect: Rect, regions: seq<Rect>, join: JoinRule, region: Rect)
    requires region in regions
    ensures Erases(Judge(rect, region, join)) ==> region in ToErase(rect, regions, join)
    ensures forall a :: a in Additions(Judge(rect, region, join), rect) ==> a in ToAdd(rect, regions, join)
  {
    hide Judge;
    var n := |regions| - 1;
    assert regions == regions[..n] + [regions[n]];
    if region != regions[n] {
      PassContains(rect, regions[..n], join, region);
    }
  }

  lemma {:induction false} PassOrigin(rect: Rect, regions: seq<Rect>, join: JoinRule)
    ensures forall e :: e in ToErase(rect, regions, join) ==> e in regions && Erases(Judge(rect, e, join))
    ensures forall a :: a in ToAdd(rect, regions, join) ==>
              exists r :: r in regions && a in Additions(Judge(rect, r, join), rect)
  {
    hide Judge;
    if regions != [] {
      var n := |regions| - 1;
      assert regions == regions[..n] + [regions[n]];
      PassOrigin(rect, regions[..n], join);
      forall a | a in ToAdd(rect, regions, join)
        ensures exists r :: r in regions && a in Additions(Judge(rect, r, join), rect)
      {
        if a in ToAdd(rect, regions[..n], join) {
          var r :| r in regions[..n] && a in Additions(Judge(rect, r, join), rect);
          assert r in regions;
        } else {
          assert a in Additions(Judge(rect, regions[n], join), rect);
        }
      }
    }
  }

  lemma {:induction false} EraseFirstMembers(regions: seq<Rect>, rect: Rect)
    ensures forall r :: r in EraseFirst(regions, rect) ==> r in regions
    ensures forall r :: r in regions && r != rect ==> r in EraseFirst(regions, rect)
  {
    if regions != [] {
      EraseFirstMembers(regions[1..], rect);
      assert regions == [regions[0]] + regions[1..];
    }
  }

  lemma {:induction false} EraseEachMembers(regions: seq<Rect>, rects: seq<Rect>)
    ensures forall r :: r in EraseEach(regions, rects) ==> r in regions
    ensures forall r :: r in regions && r !in rects ==> r in EraseEach(regions, rects)
  {
    if rects != [] {
      var n := |rects| - 1;
      assert rects == rects[..n] + [rects[n]];
      EraseEachMembers(regions, rects[..n]);
      EraseFirstMembers(EraseEach(regions, rects[..n]), rects[n]);
    }
  }

  /** A cell of an erased region, or of the rectangle, is never lost between the two passes. */
  lemma OnePassKeepsCell(regions: seq<Rect>, rect: Rect, join: JoinRule, p: Point)
    requires CoveredBy(p, regions) || rect.Contains(p)
    ensures var kept := EraseEach(regions, ToErase(rect, regions, join));
            var toAdd := ToAdd(rect, regions, join);
            CoveredBy(p, kept) || CoveredBy(p, if toAdd == [] then [rect] else toAdd)
  {
    hide Judge, ToErase, ToAdd, EraseEach, Additions, Erases;
    var toErase, toAdd := ToErase(rect, regions, join), ToAdd(rect, regions, join);
    var kept := EraseEach(regions, toErase);
    PassOrigin(rect, regions, join);
    EraseEachMembers(regions, toErase);
    if rect.Contains(p) {
      if toAdd != [] {
        assert toAdd[0] in toAdd;
        var r :| r in regions && toAdd[0] in Additions(Judge(rect, r, join), rect);
        PassContains(rect, regions, join, r);
        RectCellKept(rect, r, join, p);
        if exists a :: a in Additions(Judge(rect, r, join), rect) && a.Contains(p) {
          var a :| a in Additions(Judge(rect, r, join), rect) && a.Contains(p);
          CoveredByElement(p, toAdd, a);
        } else {
          CoveredByElement(p, kept, r);
        }
      }
    } else {
      var i :| 0 <= i < |regions| && regions[i].Contains(p);
      var r := regions[i];
      if r in toErase {
        PassContains(rect, regions, join, r);
        RegionCellKept(rect, r, join, p);
        var a :| a in Additions(Judge(rect, r, join), rect) && a.Contains(p);
        CoveredByElement(p, toAdd, a);
      } else {
        CoveredByElement(p, kept, r);
      }
    }
  }

  /** If a verdict adds anything, the rectangle is inside the additions and the kept region. */
  lemma RectCellKept(rect: Rect, region: Rect, join: JoinRule, p: Point)
    requires rect.Contains(p)
    requires Additions(Judge(rect, region, join), rect) != []
    ensures (exists a :: a in Additions(Judge(rect, region, join), rect) && a.Contains(p))
            || (region.Contains(p) && !Erases(Judge(rect, region, join)))
  {
    var v := Judge(rect, region, join);
    match v
    case Joined(whole) => assert whole in Additions(v, rect);
    case Trimmed(piece) =>
      TrimmedPiece(rect, region, join);
      assert piece in Additions(v, rect);
    case Split(piece) => assert rect in Additions(v, rect);
  }

  /** An erased region's cell is in the rectangle, or in an addition. */
  lemma RegionCellKept(rect: Rect, region: Rect, join: JoinRule, p: Point)
    requires region.Contains(p) && !rect.Contains(p)
    requires Erases(Judge(rect, region, join))
    ensures exists a :: a in Additions(Judge(rect, region, join), rect) && a.Contains(p)
  {
    var v := Judge(rect, region, join);
    match v
    case Absorbed => assert false;
    case Joined(whole) => assert whole in Additions(v, rect);
    case Split(piece) =>
      SplitPiece(rect, region, join);
      assert piece in Additions(v, rect);
  }

  lemma TrimmedPiece(rect: Rect, region: Rect, join: JoinRule)
    requires Judge(rect, region, join).Trimmed?
    ensures var piece := Judge(rect, region, join).piece;
            && rect.Overlaps(region)
            && piece.Proper() && rect.Includes(piece) && !piece.Overlaps(region)
            && piece.Encompass(region) == rect.Encompass(region)
            && piece.Area() + rect.Intersection(region).Area() == rect.Area()
            && forall p: Point :: rect.Contains(p) ==> piece.Contains(p) || region.Contains(p)
  {
    OverlapHasArea(rect, region);
    CutPartitions(rect, region);
    CutKeepsBoundingBox(rect, region);
  }

  lemma SplitPiece(rect: Rect, region: Rect, join: JoinRule)
    requires Judge(rect, region, join).Split?
    ensures var piece := Judge(rect, region, join).piece;
            && rect.Overlaps(region)
            && piece.Proper() && region.Includes(piece) && !piece.Overlaps(rect)
            && piece.Encompass(rect) == rect.Encompass(region)
            && piece.Area() + rect.Intersection(region).Area() == region.Area()
            && forall p: Point :: region.Contains(p) ==> piece.Contains(p) || rect.Contains(p)
  {
    OverlapHasArea(rect, region);
    CutPartitions(region, rect);
    CutKeepsBoundingBox(region, rect);
  }

  /**
   No cell is ever lost: whatever the join rule, every cell of the old regions and of the
   rectangle is in a region of the new list.
   */
  lemma {:induction false} InvalidateCovers(regions: seq<Rect>, rect: Rect, join: JoinRule, depth: nat, p: Point)
    requires Invalidate(regions, rect, join, depth).Some?
    requires CoveredBy(p, regions) || rect.Contains(p)
    ensures CoveredBy(p, Invalidate(regions, rect, join, depth).value.regions)
    decreases depth, 0
  {
    hide Judge;
    if rect.IsEmpty() {
      assert !rect.Contains(p);
    } else if !IsCovered(rect, regions) {
      OnePassKeepsCell(regions, rect, join, p);
      var kept := EraseEach(regions, ToErase(rect, regions, join));
      var toAdd := ToAdd(rect, regions, join);
      if toAdd == [] {
        var r := if CoveredBy(p, kept) then var i :| 0 <= i < |kept| && kept[i].Contains(p); kept[i] else rect;
        CoveredByElement(p, kept + [rect], r);
      } else {
        InvalidateEachCovers(kept, toAdd, join, depth - 1, p);
      }
    }
  }

  lemma {:induction false} InvalidateEachCovers(regions: seq<Rect>, rects: seq<Rect>, join: JoinRule,
                                                depth: nat, p: Point)
    requires InvalidateEach(regions, rects, join, depth).Some?
    requires CoveredBy(p, regions) || CoveredBy(p, rects)
    ensures CoveredBy(p, InvalidateEach(regions, rects, join, depth).value.regions)
    decreases depth, 1 + |rects|
  {
    hide Judge;
    if rects != [] {
      var next := Invalidate(regions, rects[0], join, depth).value.regions;
      if CoveredBy(p, regions) || rects[0].Contains(p) {
        InvalidateCovers(regions, rects[0], join, depth, p);
      } else {
        var i :| 0 <= i < |rects| && rects[i].Contains(p);
        assert rects[1..][i - 1] == rects[i];
      }
      InvalidateEachCovers(next, rects[1..], join, depth, p);
    }
  }

  // ----- What the list may hold

  /** Every rectangle is non-empty and inside the box. */
  predicate Within(regions: seq<Rect>, box: Rect) {
    forall r :: r in regions ==> r.Proper() && box.Includes(r)
  }

  lemma AdditionsWithin(rect: Rect, region: Rect, join: JoinRule, box: Rect)
    requires Within([rect, region], box)
    ensures Within(Additions(Judge(rect, region, join), rect), box)
  {
    assert rect in [rect, region] && region in [rect, region];
    var v := Judge(rect, region, join);
    match v
    case Joined(whole) => EncompassIsLeastBound(rect, region, box);
    case Trimmed(piece) => TrimmedPiece(rect, region, join);
    case Split(piece) => SplitPiece(rect, region, join);
    case _ =>
  }

  lemma OnePassWithin(regions: seq<Rect>, rect: Rect, join: JoinRule, box: Rect)
    requires Within(regions, box) && Within([rect], box)
    ensures Within(EraseEach(regions, ToErase(rect, regions, join)), box)
    ensures Within(ToAdd(rect, regions, join), box)
  {
    hide Judge;
    EraseEachMembers(regions, ToErase(rect, regions, join));
    PassOrigin(rect, regions, join);
    forall a | a in ToAdd(rect, regions, join)
      ensures a.Proper() && box.Includes(a)
    {
      var r :| r in regions && a in Additions(Judge(rect, r, join), rect);
      assert rect in [rect];
      AdditionsWithin(rect, r, join, box);
    }
  }

  /**
   Every stored region stays non-empty and inside any box around the old regions and the
   rectangle.
   */
  lemma {:induction false} InvalidateStaysWithin(regions: seq<Rect>, rect: Rect, join: JoinRule, depth: nat, box: Rect)
    requires Invalidate(regions, rect, join, depth).Some?
    requires Within(regions, box)
    requires !rect.IsEmpty() ==> Within([rect], box)
    ensures Within(Invalidate(regions, rect, join, depth).value.regions, box)
    decreases depth, 0
  {
    hide Judge;
    if !rect.IsEmpty() && !IsCovered(rect, regions) {
      OnePassWithin(regions, rect, join, box);
      var toErase := ToErase(rect, regions, join);
      var kept := EraseEach(regions, toErase);
      var toAdd := ToAdd(rect, regions, join);
      EraseEachMembers(regions, toErase);
      if toAdd == [] {
        assert rect in [rect];
      } else {
        InvalidateEachStaysWithin(kept, toAdd, join, depth - 1, box);
      }
    }
  }

  lemma {:induction false} InvalidateEachStaysWithin(regions: seq<Rect>, rects: seq<Rect>, join: JoinRule,
                                                     depth: nat, box: Rect)
    requires InvalidateEach(regions, rects, join, depth).Some?
    requires Within(regions, box) && Within(rects, box)
    ensures Within(InvalidateEach(regions, rects, join, depth).value.regions, box)
    decreases depth, 1 + |rects|
  {
    hide Judge;
    if rects != [] {
      assert rects[0] in rects;
      InvalidateStaysWithin(regions, rects[0], join, depth, box);
      InvalidateEachStaysWithin(Invalidate(regions, rects[0], join, depth).value.regions, rects[1..], join, depth, box);
    }
  }

  /** Every stored region is an old one, or was handed to `addDirtyRegion`. */
  lemma {:induction false} InvalidateOrigin(regions: seq<Rect>, rect: Rect, join: JoinRule, depth: nat)
    requires Invalidate(regions, rect, join, depth).Some?
    ensures var out := Invalidate(regions, rect, join, depth).value;
            forall r :: r in out.regions ==> r in regions || r in out.added
    decreases depth, 0
  {
    hide Judge;
    if !rect.IsEmpty() && !IsCovered(rect, regions) {
      EraseEachMembers(regions, ToErase(rect, regions, join));
      var kept := EraseEach(regions, ToErase(rect, regions, join));
      if ToAdd(rect, regions, join) != [] {
        InvalidateEachOrigin(kept, ToAdd(rect, regions, join), join, depth - 1);
      }
    }
  }

  lemma {:induction false} InvalidateEachOrigin(regions: seq<Rect>, rects: seq<Rect>, join: JoinRule, depth: nat)
    requires InvalidateEach(regions, rects, join, depth).Some?
    ensures var out := InvalidateEach(regions, rects, join, depth).value;
            forall r :: r in out.regions ==> r in regions || r in out.added
    decreases depth, 1 + |rects|
  {
    hide Judge;
    if rects != [] {
      InvalidateOrigin(regions, rects[0], join, depth);
      InvalidateEachOrigin(Invalidate(regions, rects[0], join, depth).value.regions, rects[1..], join, depth);
    }
  }
}
