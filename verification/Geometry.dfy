/**
 Axis-aligned integer rectangles, after lib/dtv-canvas/src/rect.cpp.  A rectangle is the
 half-open set of cells `x <= px < x+w`, `y <= py < y+h`; the operations below are the
 source's expressions, the lemmas say what they mean for the cells.
 */
module Geometry {

  datatype Point = Point(x: int, y: int)

  datatype Size = Size(w: int, h: int)

  datatype Rect = Rect(x: int, y: int, w: int, h: int) {

    /** The source only tests for zero: a rectangle of negative size is not "empty". */
    predicate IsEmpty() {
      w == 0 || h == 0
    }

    /** At least one cell. */
    predicate Proper() {
      w > 0 && h > 0
    }

    predicate Contains(p: Point) {
      x <= p.x < x + w && y <= p.y < y + h
    }

    predicate Includes(rect: Rect) {
      && x <= rect.x
      && rect.x + rect.w <= x + w
      && y <= rect.y
      && rect.y + rect.h <= y + h
    }

    predicate Intersects(rect: Rect) {
      !(|| rect.x > x + w - 1
        || x > rect.x + rect.w - 1
        || rect.y > y + h - 1
        || y > rect.y + rect.h - 1)
    }

    /** The out-parameter of the source's `intersection`; its result is `Overlaps`. */
    function Intersection(rect: Rect): Rect {
      var ix := Max(x, rect.x);
      var iy := Max(y, rect.y);
      Rect(ix, iy,
           Max(Min(x + w, rect.x + rect.w) - ix, 0),
           Max(Min(y + h, rect.y + rect.h) - iy, 0))
    }

    predicate Overlaps(rect: Rect) {
      Intersection(rect).w > 0 && Intersection(rect).h > 0
    }

    function Encompass(rect: Rect): Rect {
      var minX := Min(x, rect.x);
      var minY := Min(y, rect.y);
      var maxX := Max(x + w, rect.x + rect.w);
      var maxY := Max(y + h, rect.y + rect.h);
      Rect(minX, minY, maxX - minX, maxY - minY)
    }

    function Area(): int {
      w * h
    }

    /** This rectangle is a proper slice of `rect` along exactly one of its four sides. */
    predicate Aside(rect: Rect) {
      || (x == rect.x && x + w < rect.x + rect.w && y == rect.y && y + h == rect.y + rect.h)
      || (x > rect.x && x + w == rect.x + rect.w && y == rect.y && y + h == rect.y + rect.h)
      || (x == rect.x && x + w == rect.x + rect.w && y == rect.y && y + h < rect.y + rect.h)
      || (x == rect.x && x + w == rect.x + rect.w && y > rect.y && y + h == rect.y + rect.h)
    }

    /** The rest of this rectangle once the slice `rect` is removed; the source asserts `Aside`. */
    function Cut(rect: Rect): Rect
      requires rect.Aside(this)
    {
      Rect(if rect.x + rect.w == x + w then x else rect.x + rect.w,
           if rect.y + rect.h == y + h then y else rect.y + rect.h,
           if rect.w == w then w else w - rect.w,
           if rect.h == h then h else h - rect.h)
    }

    predicate GoesInto(rect: Rect) {
      || (x >= rect.x && x + w <= rect.x + rect.w && (y >= rect.y || y + h <= rect.y + rect.h))
      || (y >= rect.y && y + h <= rect.y + rect.h && (x >= rect.x || x + w <= rect.x + rect.w))
    }
  }

  function Min(a: int, b: int): int {
    if a <= b then a else b
  }

  function Max(a: int, b: int): int {
    if a >= b then a else b
  }

  /** `includes` is cell-wise inclusion, for an inner rectangle that has cells at all. */
  lemma IncludesIsSubset(outer: Rect, inner: Rect)
    requires inner.Proper()
    ensures outer.Includes(inner) <==> forall p: Point :: inner.Contains(p) ==> outer.Contains(p)
  {
    if forall p: Point :: inner.Contains(p) ==> outer.Contains(p) {
      var low, high := Point(inner.x, inner.y), Point(inner.x + inner.w - 1, inner.y + inner.h - 1);
      assert inner.Contains(low) && inner.Contains(high);
      assert outer.Contains(low) && outer.Contains(high);
    }
  }

  /** `intersects` holds of two proper rectangles exactly when they share a cell. */
  lemma IntersectsIsSharedCell(a: Rect, b: Rect)
    requires a.Proper() && b.Proper()
    ensures a.Intersects(b) <==> exists p: Point :: a.Contains(p) && b.Contains(p)
  {
    if a.Intersects(b) {
      var p := Point(Max(a.x, b.x), Max(a.y, b.y));
      assert a.Contains(p) && b.Contains(p);
    }
  }

  /**
   `intersection` is the set of common cells, with no condition on either rectangle, and its area
   is positive exactly when it reports an overlap.
   */
  lemma IntersectionIsCommonCells(a: Rect, b: Rect)
    ensures forall p: Point :: a.Intersection(b).Contains(p) <==> a.Contains(p) && b.Contains(p)
    ensures a.Overlaps(b) <==> a.Intersection(b).Area() > 0
  {
    OverlapHasArea(a, b);
  }

  lemma OverlapHasArea(a: Rect, b: Rect)
    ensures a.Overlaps(b) <==> a.Intersection(b).Area() > 0
    ensures a.Overlaps(b) <==> b.Overlaps(a)
    ensures a.Intersection(b) == b.Intersection(a)
  {
    var i := a.Intersection(b);
    assert i.w > 0 && i.h > 0 ==> i.w * i.h > 0;
    assert i.w == 0 || i.h == 0 ==> i.w * i.h == 0;
  }

  /** The assertion at the head of `cut` holds where the source calls it. */
  lemma CutIsAllowed(a: Rect, b: Rect)
    requires a.GoesInto(b) && a.Overlaps(b) && !b.Includes(a)
    ensures a.Intersection(b).Aside(a)
  {
  }

  /** `encompass` is the least rectangle that includes both. */
  lemma EncompassIsLeastBound(a: Rect, b: Rect, c: Rect)
    ensures a.Encompass(b).Includes(a) && a.Encompass(b).Includes(b)
    ensures c.Includes(a) && c.Includes(b) ==> c.Includes(a.Encompass(b))
  {
  }

  /**
   When `a` goes into an overlapping `b` that does not include it, the assertion of `cut` holds,
   and the piece and the overlap split the cells of `a` between them.
   */
  lemma CutPartitions(a: Rect, b: Rect)
    requires a.GoesInto(b) && a.Overlaps(b) && !b.Includes(a)
    ensures a.Intersection(b).Aside(a)
    ensures a.Cut(a.Intersection(b)).Proper()
    ensures a.Includes(a.Cut(a.Intersection(b)))
    ensures forall p: Point :: a.Contains(p) <==>
              a.Cut(a.Intersection(b)).Contains(p) || a.Intersection(b).Contains(p)
    ensures forall p: Point :: !(a.Cut(a.Intersection(b)).Contains(p) && b.Contains(p))
    ensures !a.Cut(a.Intersection(b)).Overlaps(b)
    ensures a.Cut(a.Intersection(b)).Area() + a.Intersection(b).Area() == a.Area()
  {
    var i := a.Intersection(b);
    assert i.Aside(a);
    var c := a.Cut(i);
    if i.w == a.w {
      assert c.w == a.w && c.h == a.h - i.h;
      assert a.w * a.h == a.w * (a.h - i.h) + a.w * i.h;
    } else {
      assert c.h == a.h && c.w == a.w - i.w && i.h == a.h;
      assert a.w * a.h == (a.w - i.w) * a.h + i.w * a.h;
    }
  }

  /** A cut piece has the same bounding box with the region it was cut by as the whole had. */
  lemma CutKeepsBoundingBox(a: Rect, b: Rect)
    requires a.GoesInto(b) && a.Overlaps(b) && !b.Includes(a)
    ensures a.Intersection(b).Aside(a)
    ensures a.Cut(a.Intersection(b)).Encompass(b) == a.Encompass(b)
  {
  }

  // ----- Counting cells

  ghost function Cells(r: Rect): (cells: set<Point>)
    ensures forall p :: p in cells <==> r.Contains(p)
  {
    set x, y | r.x <= x < r.x + r.w && r.y <= y < r.y + r.h :: Point(x, y)
  }

  lemma {:induction false} RowCount(x: int, y: int, w: nat)
    ensures |Cells(Rect(x, y, w, 1))| == w
  {
    if w == 0 {
      assert Cells(Rect(x, y, w, 1)) == {};
    } else {
      RowCount(x, y, w - 1);
      assert Cells(Rect(x, y, w, 1)) == Cells(Rect(x, y, w - 1, 1)) + {Point(x + w - 1, y)};
    }
  }

  /** The area is the number of cells. */
  lemma {:induction false} AreaCountsCells(r: Rect)
    requires r.w >= 0 && r.h >= 0
    ensures |Cells(r)| == r.Area()
    decreases r.h
  {
    hide Cells;
    if r.h == 0 {
      assert Cells(r) == {};
    } else {
      var rest, row := Rect(r.x, r.y, r.w, r.h - 1), Rect(r.x, r.y + r.h - 1, r.w, 1);
      AreaCountsCells(rest);
      RowCount(r.x, r.y + r.h - 1, r.w);
      assert Cells(r) == Cells(rest) + Cells(row);
      assert Cells(rest) !! Cells(row);
      OneRowMore(r.w, r.h);
    }
  }

  lemma OneRowMore(w: int, h: int)
    ensures w * h == w * (h - 1) + w
  {
  }

  /** Inclusion is inclusion of cells, and an overlap is a common cell. */
  lemma CellsCompare(a: Rect, b: Rect)
    requires a.Proper() && b.Proper()
    ensures a.Includes(b) <==> Cells(b) <= Cells(a)
    ensures a.Overlaps(b) <==> !(Cells(a) !! Cells(b))
    ensures Cells(a.Intersection(b)) == Cells(a) * Cells(b)
    ensures Cells(a) <= Cells(a.Encompass(b)) && Cells(b) <= Cells(a.Encompass(b))
  {
    hide Cells;
    IncludesIsSubset(a, b);
    IntersectionIsCommonCells(a, b);
    var common := a.Intersection(b);
    if a.Overlaps(b) {
      var p := Point(common.x, common.y);
      assert common.Contains(p) && p in Cells(a) && p in Cells(b);
    }
  }

  /** The cells of `c` are those of `a` without `b`. */
  ghost predicate IsRest(c: Rect, a: Rect, b: Rect) {
    forall p: Point :: c.Contains(p) <==> a.Contains(p) && !b.Contains(p)
  }

  /** What is left of `a` without `b` is a rectangle. */
  ghost predicate LeavesRectangle(a: Rect, b: Rect) {
    exists c: Rect :: IsRest(c, a, b)
  }

  /** A rectangle goes into an overlapping one exactly when what is left of it without that is a rectangle. */
  lemma GoesIntoIffOnePiece(a: Rect, b: Rect)
    requires a.Proper() && b.Proper() && a.Overlaps(b) && !b.Includes(a)
    ensures a.GoesInto(b) <==> LeavesRectangle(a, b)
    ensures a.GoesInto(b) ==> a.Intersection(b).Aside(a) && IsRest(a.Cut(a.Intersection(b)), a, b)
  {
    if a.GoesInto(b) {
      CutPartitions(a, b);
      IntersectionIsCommonCells(a, b);
      assert IsRest(a.Cut(a.Intersection(b)), a, b);
    } else {
      forall c: Rect
        ensures !IsRest(c, a, b)
      {
        NotOnePiece(a, b, c);
      }
    }
  }

  /** Cells of `a` on two sides of a common one are not in `b`, and a rectangle with both has the common one. */
  lemma NotOnePiece(a: Rect, b: Rect, c: Rect)
    requires a.Proper() && b.Proper() && a.Overlaps(b) && !b.Includes(a) && !a.GoesInto(b)
    ensures exists p: Point :: c.Contains(p) != (a.Contains(p) && !b.Contains(p))
  {
    var x, y := Max(a.x, b.x), Max(a.y, b.y);
    var left, right := Point(a.x, y), Point(a.x + a.w - 1, y);
    var top, bottom := Point(x, a.y), Point(x, a.y + a.h - 1);
    var one := if !b.Contains(left) then left else if !b.Contains(right) then right else top;
    var other := if !b.Contains(left) && !b.Contains(right) then right else if !b.Contains(top) then top else bottom;
    var second := if one == top then bottom else other;
    assert a.Contains(one) && !b.Contains(one) && a.Contains(second) && !b.Contains(second);
    var p := if !c.Contains(one) then one else if !c.Contains(second) then second else Point(x, y);
    assert c.Contains(p) != (a.Contains(p) && !b.Contains(p));
  }

  /** The condition of `cut`: the slice is a part of the rectangle, and what is left of that is a rectangle again. */
  lemma AsideMeans(slice: Rect, rect: Rect)
    requires slice.Proper() && rect.Proper()
    ensures slice.Aside(rect) <==> rect.Includes(slice) && slice != rect && LeavesRectangle(rect, slice)
  {
    hide LeavesRectangle;
    if rect.Includes(slice) && slice != rect {
      GoesIntoIffOnePiece(rect, slice);
    }
  }
}
