/**
 Surfaces and the canvas that repaints them, after lib/dtv-canvas/src/surface.cpp and
 lib/dtv-canvas/src/canvas.cpp.

 `Canvas.Valid()` is what every run keeps: each auto-flush surface over a stored dirty region is
 flagged, and outside those regions the layer already shows the full repaint.
 */
module CanvasEngine {
  import opened Geometry
  import opened DirtyRegions
  import opened Compositing
  import opened Sorting

  datatype Mode = SourceOver | Source | Clear

  /** One pixel drawn over another in a composition mode. */
  function Put(mode: Mode, color: Color, under: Color, over: Blend): Color {
    match mode
    case SourceOver => over(color, under)
    case Source => color
    case Clear => TRANSPARENT
  }

  function FillPixels(pixels: Pixels, rect: Rect, mode: Mode, color: Color, over: Blend): Pixels {
    map p | p in pixels :: if rect.Contains(p) then Put(mode, color, pixels[p], over) else pixels[p]
  }

  /** The source rectangle of `from`, drawn with its corner on `target` and clipped to the pixels there are. */
  function BlitPixels(pixels: Pixels, target: Point, from: Pixels, source: Rect, mode: Mode, over: Blend): Pixels {
    map p | p in pixels ::
      var q := Point(p.x - target.x + source.x, p.y - target.y + source.y);
      if Rect(target.x, target.y, source.w, source.h).Contains(p) && q in from
      then Put(mode, from[q], pixels[p], over) else pixels[p]
  }

  /** A pixel of a blit is the pixel of the source as far from its corner, put there in the mode. */
  lemma BlittedPixel(pixels: Pixels, target: Point, from: Pixels, source: Rect, mode: Mode, over: Blend, x: int, y: int)
    requires Point(target.x + x, target.y + y) in pixels
    ensures BlitPixels(pixels, target, from, source, mode, over).Keys == pixels.Keys
    ensures var p, q := Point(target.x + x, target.y + y), Point(source.x + x, source.y + y);
            BlitPixels(pixels, target, from, source, mode, over)[p] ==
            if 0 <= x < source.w && 0 <= y < source.h && q in from then
              (match mode
               case SourceOver => over(from[q], pixels[p])
               case Source => from[q]
               case Clear => TRANSPARENT)
            else pixels[p]
  {
    assert Point(target.x + x - target.x + source.x, target.y + y - target.y + source.y)
        == Point(source.x + x, source.y + y);
  }

  predicate Hits(rects: seq<Rect>, bounds: Rect) {
    exists i :: 0 <= i < |rects| && rects[i].Intersects(bounds)
  }

  lemma HitsConcat(a: seq<Rect>, b: seq<Rect>, bounds: Rect)
    ensures Hits(a + b, bounds) <==> Hits(a, bounds) || Hits(b, bounds)
  {
    if Hits(a, bounds) {
      var i :| 0 <= i < |a| && a[i].Intersects(bounds);
      assert (a + b)[i].Intersects(bounds);
    }
    if Hits(b, bounds) {
      var i :| 0 <= i < |b| && b[i].Intersects(bounds);
      assert (a + b)[|a| + i].Intersects(bounds);
    }
  }

  lemma HitsFrom(regions: seq<Rect>, a: seq<Rect>, b: seq<Rect>, bounds: Rect)
    requires forall r :: r in regions ==> r in a || r in b
    ensures Hits(regions, bounds) ==> Hits(a, bounds) || Hits(b, bounds)
  {
    if Hits(regions, bounds) {
      var i :| 0 <= i < |regions| && regions[i].Intersects(bounds);
      assert regions[i] in a || regions[i] in b;
    }
  }

  lemma CoveredBySnoc(p: Point, regions: seq<Rect>, k: nat)
    requires k < |regions|
    ensures CoveredBy(p, regions[..k + 1]) <==> CoveredBy(p, regions[..k]) || regions[k].Contains(p)
  {
    if CoveredBy(p, regions[..k]) {
      var i :| 0 <= i < k && regions[..k][i].Contains(p);
      assert regions[..k + 1][i].Contains(p);
    }
    if regions[k].Contains(p) {
      assert regions[..k + 1][k].Contains(p);
    }
  }

  lemma PaintStep(sprites: seq<Sprite>, k: nat, p: Point, base: Color, over: Blend)
    requires AllValid(sprites) && k < |sprites|
    ensures Paint(sprites[k..], p, base, over) ==
            Paint(sprites[k + 1..], p,
                  if sprites[k].Bounds().Contains(p) then over(sprites[k].ColorAt(p), base) else base, over)
  {
    assert sprites[k..][1..] == sprites[k + 1..];
  }

  lemma PaintNothing(p: Point, base: Color, over: Blend)
    ensures Paint([], p, base, over) == base
  {
  }

  lemma NothingDirty(layer: Pixels, scene: seq<Sprite>, over: Blend)
    requires AllValid(scene)
    ensures Current(layer, scene, [], over) <==> forall p :: p in layer ==> layer[p] == Composite(scene, p, over)
  {
  }

  /** One cell of a blit whose source and target are the same part of a surface and the cells it is on. */
  lemma BlitOfCell(pixels: Pixels, common: Rect, s: Sprite, p: Point, over: Blend)
    requires s.Valid() && p in pixels && (common.Contains(p) ==> s.Bounds().Contains(p))
    ensures var drawn := BlitPixels(pixels, Point(common.x, common.y), s.pixels,
                                    Rect(common.x - s.pos.x, common.y - s.pos.y, common.w, common.h), SourceOver, over);
            drawn[p] == if common.Contains(p) then over(s.ColorAt(p), pixels[p]) else pixels[p]
  {
    assert Rect(common.x, common.y, common.w, common.h) == common;
    var q := Point(p.x - s.pos.x, p.y - s.pos.y);
    assert Point(p.x - common.x + (common.x - s.pos.x), p.y - common.y + (common.y - s.pos.y)) == q;
  }

  /** A blit of what a surface has in a region puts the surface on top there, and nowhere else. */
  lemma BlitInRegion(pixels: Pixels, region: Rect, s: Sprite, over: Blend)
    requires s.Valid()
    ensures var common := region.Intersection(s.Bounds());
            var drawn := BlitPixels(pixels, Point(common.x, common.y), s.pixels,
                                    Rect(common.x - s.pos.x, common.y - s.pos.y, common.w, common.h), SourceOver, over);
            && drawn.Keys == pixels.Keys
            && (!region.Overlaps(s.Bounds()) ==> drawn == pixels)
            && forall p: Point :: p in pixels ==>
                 drawn[p] == if region.Contains(p) && s.Bounds().Contains(p) then over(s.ColorAt(p), pixels[p])
                             else pixels[p]
  {
    hide Rect.Intersection, Put;
    var common := region.Intersection(s.Bounds());
    IntersectionIsCommonCells(region, s.Bounds());
    var source := Rect(common.x - s.pos.x, common.y - s.pos.y, common.w, common.h);
    var drawn := BlitPixels(pixels, Point(common.x, common.y), s.pixels, source, SourceOver, over);
    forall p | p in pixels
      ensures drawn[p] == if common.Contains(p) then over(s.ColorAt(p), pixels[p]) else pixels[p]
    {
      BlitOfCell(pixels, common, s, p, over);
    }
  }

  /** The corners of that blit are inside the surface, so `blit` accepts it. */
  lemma BlitIsInBounds(region: Rect, pos: Point, size: Size)
    requires region.Overlaps(Rect(pos.x, pos.y, size.w, size.h))
    ensures var common := region.Intersection(Rect(pos.x, pos.y, size.w, size.h));
            var source := Rect(common.x - pos.x, common.y - pos.y, common.w, common.h);
            && 0 <= source.x && source.x + source.w <= size.w && source.w > 0
            && 0 <= source.y && source.y + source.h <= size.h && source.h > 0
  {
  }

  /**
   A layer that was right outside the regions, and was repainted inside them from the flagged
   shown surfaces only, is the full repaint everywhere.
   */
  lemma RepaintIsFull(scene: seq<Sprite>, flags: seq<bool>, regions: seq<Rect>,
                      before: Pixels, after: Pixels, over: Blend)
    requires AllValid(scene) && |scene| == |flags| && after.Keys == before.Keys
    requires Current(before, scene, regions, over)
    requires forall i :: 0 <= i < |scene| && scene[i].autoFlush && Hits(regions, scene[i].Bounds()) ==> flags[i]
    requires AllValid(StableSort(Shown(Keep(scene, flags)), ByZ()))
    requires forall p :: p in after ==>
               after[p] == if CoveredBy(p, regions)
                           then Paint(StableSort(Shown(Keep(scene, flags)), ByZ()), p, TRANSPARENT, over) else before[p]
    ensures forall p :: p in after ==> after[p] == Composite(scene, p, over)
  {
    forall p | p in after
      ensures after[p] == Composite(scene, p, over)
    {
      if CoveredBy(p, regions) {
        forall i | 0 <= i < |scene| && scene[i].Shown() && scene[i].Bounds().Contains(p)
          ensures flags[i]
        {
          CoveredCellHits(p, regions, scene[i].Bounds());
        }
        PartialRepaint(scene, flags, p, over);
      }
    }
  }

  /** A surface that has a cell of a region is hit by it. */
  lemma CoveredCellHits(p: Point, regions: seq<Rect>, bounds: Rect)
    requires CoveredBy(p, regions) && bounds.Contains(p)
    ensures Hits(regions, bounds)
  {
    var i :| 0 <= i < |regions| && regions[i].Contains(p);
    assert regions[i].Intersects(bounds);
  }

  lemma AddedConcat(a: seq<Rect>, b: seq<Rect>, regions: seq<Rect>, rects: seq<Rect>, join: JoinRule, depth: nat)
    ensures var rest := InvalidateEach(regions, rects, join, depth);
            rest.Some? ==> a + (b + rest.value.added) == (a + b) + rest.value.added
  {
  }

  /** The picture outside the dirty regions is the full repaint. */
  ghost predicate Current(layer: Pixels, scene: seq<Sprite>, regions: seq<Rect>, over: Blend)
    requires AllValid(scene)
  {
    forall p :: p in layer && !CoveredBy(p, regions) ==> layer[p] == Composite(scene, p, over)
  }

  /** It still is when one surface changed, and what it changed is inside the new dirty regions. */
  lemma StaysCurrent(layer: Pixels, before: seq<Sprite>, after: seq<Sprite>, k: nat,
                     oldRegions: seq<Rect>, newRegions: seq<Rect>, over: Blend)
    requires AllValid(before) && AllValid(after) && |before| == |after| && k < |before|
    requires Current(layer, before, oldRegions, over)
    requires forall p :: CoveredBy(p, oldRegions) ==> CoveredBy(p, newRegions)
    requires forall i :: 0 <= i < |before| && i != k ==> before[i] == after[i]
    requires forall p :: p in layer && !CoveredBy(p, newRegions) ==>
               ShownTouchOf(before[k], p) == ShownTouchOf(after[k], p)
    ensures Current(layer, after, newRegions, over)
  {
    forall p | p in layer && !CoveredBy(p, newRegions)
      ensures layer[p] == Composite(after, p, over)
    {
      CompositeIsLocal(before, after, p, over);
    }
  }

  /** Where drawing was marked, and everywhere else, the surface puts what it did on a cell. */
  lemma DrawnOutside(before: Sprite, after: Sprite, rect: Rect, regions: seq<Rect>)
    requires before.Valid() && after == before.(pixels := after.pixels) && after.Valid()
    requires forall q :: q in before.pixels && !rect.Contains(q) ==> after.pixels[q] == before.pixels[q]
    requires before.autoFlush ==> forall q :: q in before.pixels && rect.Contains(q) ==>
               CoveredBy(Point(before.pos.x + q.x, before.pos.y + q.y), regions)
    ensures forall p :: !CoveredBy(p, regions) ==> ShownTouchOf(before, p) == ShownTouchOf(after, p)
  {
    forall p | !CoveredBy(p, regions)
      ensures ShownTouchOf(before, p) == ShownTouchOf(after, p)
    {
      if before.Shown() && before.Bounds().Contains(p) {
        var q := Point(p.x - before.pos.x, p.y - before.pos.y);
        assert Point(before.pos.x + q.x, before.pos.y + q.y) == p && q in before.pixels;
      }
    }
  }

  /** The scene once a surface is no longer on auto-flush. */
  function AutoFlushOff(scene: seq<Sprite>, k: nat): (r: seq<Sprite>)
    requires k < |scene|
    ensures |r| == |scene|
  {
    scene[k := scene[k].(autoFlush := false)]
  }

  /** Every cell of the layer that the surface has is in a stored region. */
  ghost predicate IsPending(cells: set<Point>, bounds: Rect, regions: seq<Rect>) {
    forall p :: p in cells && bounds.Contains(p) ==> CoveredBy(p, regions)
  }

  /** Whatever the layer shows and whatever the blend, a picture that was right stays right. */
  ghost predicate OffIsSafe(cells: set<Point>, scene: seq<Sprite>, k: nat, regions: seq<Rect>)
    requires AllValid(scene) && k < |scene| && AllValid(AutoFlushOff(scene, k))
  {
    forall layer: Pixels, over: Blend :: layer.Keys == cells && Current(layer, scene, regions, over) ==>
      Current(layer, AutoFlushOff(scene, k), regions, over)
  }

  /**
   Turning auto-flush off marks nothing.  That is safe exactly when the surface did not show, or all
   of it that is on the layer is going to be repainted anyway.
   */
  lemma AutoFlushOffIsSafe(cells: set<Point>, scene: seq<Sprite>, k: nat, regions: seq<Rect>)
    requires AllValid(scene) && k < |scene|
    ensures AllValid(AutoFlushOff(scene, k))
    ensures OffIsSafe(cells, scene, k, regions) <==> !scene[k].Shown() || IsPending(cells, scene[k].Bounds(), regions)
  {
    hide Composite, CoveredBy;
    var after := AutoFlushOff(scene, k);
    assert after[k].Valid() by {
      assert scene[k].Valid();
    }
    assert AllValid(after);
    if !scene[k].Shown() || IsPending(cells, scene[k].Bounds(), regions) {
      forall layer: Pixels, over: Blend | layer.Keys == cells && Current(layer, scene, regions, over)
        ensures Current(layer, after, regions, over)
      {
        StaysCurrent(layer, scene, after, k, regions, regions, over);
      }
    } else {
      var p :| p in cells && scene[k].Bounds().Contains(p) && !CoveredBy(p, regions);
      var layer: Pixels := map q | q in cells :: Composite(scene, q, COUNTING);
      assert layer.Keys == cells && Current(layer, scene, regions, COUNTING);
      HidingIsSeen(scene, after, k, p);
      assert !Current(layer, after, regions, COUNTING);
    }
  }

  /** The simplest case of an unsafe one: a single opaque pixel with nothing stored. */
  lemma AutoFlushOffGoesStale(color: Color)
    requires color != TRANSPARENT
    ensures var s := Sprite(Point(0, 0), Size(1, 1), 1, true, true, map[Point(0, 0) := color]);
            var layer: Pixels, over: Blend := map[Point(0, 0) := color], (c, under) => c;
            && s.Valid()
            && Current(layer, [s], [], over)
            && !Current(layer, [s.(autoFlush := false)], [], over)
  {
    var s := Sprite(Point(0, 0), Size(1, 1), 1, true, true, map[Point(0, 0) := color]);
    var over: Blend := (c, under) => c;
    CompositeOfOne(s, Point(0, 0), over);
    CompositeOfOne(s.(autoFlush := false), Point(0, 0), over);
    assert !CoveredBy(Point(0, 0), []);
  }

  lemma CompositeOfOne(s: Sprite, p: Point, over: Blend)
    requires s.Valid() && s.Bounds().Contains(p)
    ensures Composite([s], p, over) == if s.Shown() then over(s.ColorAt(p), TRANSPARENT) else TRANSPARENT
  {
    ShownValid([s]);
    assert [s][1..] == [];
    if s.Shown() {
      assert Shown([s]) == [s] + [] == [s];
      assert StableSort([s], ByZ()) == [s];
      assert Paint([], p, over(s.ColorAt(p), TRANSPARENT), over) == over(s.ColorAt(p), TRANSPARENT);
    } else {
      assert Shown([s]) == [] + [] == [];
    }
  }

  class Surface {
    const canvas: Canvas
    const size: Size
    var pos: Point
    var zIndex: int
    var visible: bool
    var dirty: bool
    var autoFlush: bool
    var mode: Mode
    var color: Color
    var pixels: Pixels

    constructor (canvas: Canvas, rect: Rect)
      requires rect.Proper()
      ensures this.canvas == canvas && size == Size(rect.w, rect.h) && pos == Point(rect.x, rect.y)
      ensures zIndex == 1 && visible && !dirty && !autoFlush && mode == SourceOver && color == TRANSPARENT
      ensures AsSprite().Valid()
      ensures forall p :: p in pixels ==> pixels[p] == TRANSPARENT
    {
      this.canvas := canvas;
      size, pos := Size(rect.w, rect.h), Point(rect.x, rect.y);
      zIndex, visible, dirty, autoFlush, mode := 1, true, false, false, SourceOver;
      color := TRANSPARENT;
      pixels := map x, y | 0 <= x < rect.w && 0 <= y < rect.h :: Point(x, y) := TRANSPARENT;
    }

    function AsSprite(): Sprite
      reads this
    {
      Sprite(pos, size, zIndex, visible, autoFlush, pixels)
    }

    function Bounds(): Rect
      reads this
    {
      Rect(pos.x, pos.y, size.w, size.h)
    }

    predicate PointInBounds(p: Point) {
      p.x > -1 && p.x < size.w && p.y > -1 && p.y < size.h
    }

    /** A surface that drawing may touch: one on the canvas list, or the window's layer. */
    ghost predicate Attached()
      reads this, canvas, canvas.surfaces, canvas.layer
    {
      canvas.Structure() && (this in canvas.surfaces || this == canvas.layer)
    }

    /** Called by the canvas for every region it adds. */
    method InvalidateRegion(rect: Rect)
      modifies this`dirty
      ensures dirty == (old(dirty) || (autoFlush && rect.Intersects(Bounds())))
    {
      if autoFlush && !dirty {
        var bounds := Bounds();
        if rect.Intersects(bounds) {
          dirty := true;
        }
      }
    }

    /** The dirty regions of the canvas once this surface has marked `rect`. */
    ghost function After(regions: seq<Rect>, rect: Rect): seq<Rect>
      reads this
    {
      if autoFlush then Marked(regions, rect, canvas.join, canvas.depth) else regions
    }

    /** The stack suffices for marking the rectangle, if that tells the canvas at all. */
    ghost predicate Ends(regions: seq<Rect>, rect: Rect)
      reads this
    {
      autoFlush ==> Invalidate(regions, rect, canvas.join, canvas.depth).Some?
    }

    /** What marking a rectangle of the surface marks on the canvas. */
    function InCanvas(rect: Rect): Rect
      reads this
    {
      Rect(pos.x + rect.x, pos.y + rect.y,
           Min(Max(size.w - rect.x, 0), rect.w), Min(Max(size.h - rect.y, 0), rect.h))
    }

    method ClearDirty()
      modifies this`dirty
      ensures !dirty
    {
      dirty := false;
    }

    /** Only an auto-flush surface tells the canvas. */
    method MarkDirty(rect: Rect) returns (ok: bool)
      requires Attached() && (autoFlush ==> canvas.FlaggedBut(this))
      modifies this`dirty, canvas`dirtyRegions, canvas.surfaces`dirty
      ensures Attached()
      ensures !autoFlush ==> ok && unchanged(this) && canvas.dirtyRegions == old(canvas.dirtyRegions)
      ensures !autoFlush ==>
                forall i :: 0 <= i < |canvas.surfaces| ==> canvas.surfaces[i].dirty == old(canvas.surfaces[i].dirty)
      ensures ok == (autoFlush ==> Invalidate(old(canvas.dirtyRegions), rect, canvas.join, canvas.depth).Some?)
      ensures autoFlush && ok ==> dirty
      ensures ok ==> canvas.dirtyRegions == After(old(canvas.dirtyRegions), rect)
      ensures autoFlush && ok ==> forall p :: rect.Contains(p) ==> CoveredBy(p, canvas.dirtyRegions)
      ensures ok ==> forall p :: CoveredBy(p, old(canvas.dirtyRegions)) ==> CoveredBy(p, canvas.dirtyRegions)
      ensures ok && old(canvas.FlaggedBut(this)) ==> canvas.Flagged()
    {
      ok := true;
      if autoFlush {
        ok := canvas.InvalidateRegion(rect, this);
        dirty := true;
      }
    }

    /** Mark a rectangle given in the surface's own coordinates, cut at its right and bottom edge. */
    method MarkDirtySurface(rect: Rect) returns (ok: bool)
      requires Attached() && (autoFlush ==> canvas.FlaggedBut(this))
      modifies this`dirty, canvas`dirtyRegions, canvas.surfaces`dirty
      ensures Attached()
      ensures !autoFlush ==> ok && unchanged(this) && canvas.dirtyRegions == old(canvas.dirtyRegions)
      ensures !autoFlush ==>
                forall i :: 0 <= i < |canvas.surfaces| ==> canvas.surfaces[i].dirty == old(canvas.surfaces[i].dirty)
      ensures ok == Ends(old(canvas.dirtyRegions),
                         Rect(pos.x + rect.x, pos.y + rect.y,
                              Min(Max(size.w - rect.x, 0), rect.w), Min(Max(size.h - rect.y, 0), rect.h)))
      ensures autoFlush && ok ==> dirty
      ensures ok ==> canvas.dirtyRegions == After(old(canvas.dirtyRegions), InCanvas(rect))
      ensures autoFlush && ok ==> forall q :: q in pixels && rect.Contains(q) ==>
                CoveredBy(Point(pos.x + q.x, pos.y + q.y), canvas.dirtyRegions)
      ensures ok ==> forall p :: CoveredBy(p, old(canvas.dirtyRegions)) ==> CoveredBy(p, canvas.dirtyRegions)
      ensures ok && old(canvas.FlaggedBut(this)) ==> canvas.Flagged()
    {
      hide Invalidate, Marked, Composite, CoveredBy, Hits;
      InCanvasHas(rect);
      ok := MarkDirty(InCanvas(rect));
    }

    lemma InCanvasHas(rect: Rect)
      requires AsSprite().Valid()
      ensures forall q :: q in pixels && rect.Contains(q) ==> InCanvas(rect).Contains(Point(pos.x + q.x, pos.y + q.y))
    {
    }

    // ----- Drawing

    /** The common end of every drawing operation: the pixels change inside `rect`, which is marked. */
    method Draw(drawn: Pixels, rect: Rect) returns (ok: bool)
      requires Attached() && (this in canvas.surfaces ==> canvas.Valid())
      requires drawn.Keys == pixels.Keys
      requires forall q :: q in pixels && !rect.Contains(q) ==> drawn[q] == pixels[q]
      modifies this`pixels, this`dirty, canvas`dirtyRegions, canvas.surfaces`dirty
      ensures Attached() && pixels == drawn
      ensures ok == Ends(old(canvas.dirtyRegions), InCanvas(rect))
      ensures ok ==> canvas.dirtyRegions == After(old(canvas.dirtyRegions), InCanvas(rect))
      ensures this in canvas.surfaces && ok ==> canvas.Valid()
      ensures this == canvas.layer ==> ok && canvas.dirtyRegions == old(canvas.dirtyRegions)
      ensures this == canvas.layer ==>
                forall i :: 0 <= i < |canvas.surfaces| ==> canvas.surfaces[i].dirty == old(canvas.surfaces[i].dirty)
    {
      hide Composite, Invalidate;
      pixels := drawn;
      ok := MarkDirtySurface(rect);
      if ok && this in canvas.surfaces {
        DrawnOutside(old(AsSprite()), AsSprite(), rect, canvas.dirtyRegions);
        canvas.SurfaceChanged(this);
      }
    }

    method FillRect(rect: Rect) returns (drawn: bool, ok: bool)
      requires Attached() && (this in canvas.surfaces ==> canvas.Valid())
      modifies this`pixels, this`dirty, canvas`dirtyRegions, canvas.surfaces`dirty
      ensures Attached()
      ensures drawn == (rect.w >= 0 && rect.h >= 0 && PointInBounds(Point(rect.x, rect.y))
                        && PointInBounds(Point(rect.x + rect.w - 1, rect.y + rect.h - 1)))
      ensures pixels == if drawn then FillPixels(old(pixels), rect, mode, color, canvas.over) else old(pixels)
      ensures drawn ==> forall q :: q in pixels && rect.Contains(q) ==>
                pixels[q] == (match mode
                              case SourceOver => canvas.over(color, old(pixels)[q])
                              case Source => color
                              case Clear => TRANSPARENT)
      ensures drawn ==> forall q :: q in pixels && !rect.Contains(q) ==> pixels[q] == old(pixels)[q]
      ensures ok == (drawn && rect.Proper() ==> Ends(old(canvas.dirtyRegions), InCanvas(rect)))
      ensures ok ==> canvas.dirtyRegions ==
                     if drawn && rect.Proper() then After(old(canvas.dirtyRegions), InCanvas(rect))
                     else old(canvas.dirtyRegions)
      ensures this in canvas.surfaces && ok ==> canvas.Valid()
    {
      drawn := PointInBounds(Point(rect.x, rect.y));
      drawn := drawn && PointInBounds(Point(rect.x + rect.w - 1, rect.y + rect.h - 1));
      drawn := drawn && rect.w >= 0 && rect.h >= 0;
      ok := true;
      if drawn {
        if rect.w > 0 && rect.h > 0 {
          ok := Draw(FillPixels(pixels, rect, mode, color, canvas.over), rect);
        }
      }
    }

    method SetPixelColor(p: Point, color: Color) returns (drawn: bool, ok: bool)
      requires Attached() && (this in canvas.surfaces ==> canvas.Valid())
      modifies this`pixels, this`dirty, canvas`dirtyRegions, canvas.surfaces`dirty
      ensures Attached()
      ensures drawn == (p in old(pixels))
      ensures pixels == if drawn then old(pixels)[p := color] else old(pixels)
      ensures ok == (drawn ==> Ends(old(canvas.dirtyRegions), InCanvas(Rect(p.x, p.y, 1, 1))))
      ensures ok ==> canvas.dirtyRegions ==
                     if drawn then After(old(canvas.dirtyRegions), InCanvas(Rect(p.x, p.y, 1, 1)))
                     else old(canvas.dirtyRegions)
      ensures this in canvas.surfaces && ok ==> canvas.Valid()
    {
      assert AsSprite().Valid();
      drawn, ok := PointInBounds(p), true;
      if drawn {
        ok := Draw(pixels[p := color], Rect(p.x, p.y, 1, 1));
      }
    }

    /** `clear`: a fill in clear mode; unlike `fillRect` it refuses an empty rectangle. */
    method Clear(rect: Rect) returns (drawn: bool, ok: bool)
      requires Attached() && (this in canvas.surfaces ==> canvas.Valid())
      modifies this`pixels, this`dirty, canvas`dirtyRegions, canvas.surfaces`dirty
      ensures Attached()
      ensures drawn == (rect.w > 0 && rect.h > 0 && PointInBounds(Point(rect.x, rect.y))
                        && PointInBounds(Point(rect.x + rect.w - 1, rect.y + rect.h - 1)))
      ensures pixels.Keys == old(pixels).Keys
      ensures forall q :: q in pixels ==>
                pixels[q] == if drawn && rect.Contains(q) then TRANSPARENT else old(pixels)[q]
      ensures ok == (drawn ==> Ends(old(canvas.dirtyRegions), InCanvas(rect)))
      ensures ok ==> canvas.dirtyRegions ==
                     if drawn then After(old(canvas.dirtyRegions), InCanvas(rect)) else old(canvas.dirtyRegions)
      ensures this in canvas.surfaces && ok ==> canvas.Valid()
      ensures this == canvas.layer ==> ok && canvas.dirtyRegions == old(canvas.dirtyRegions)
      ensures this == canvas.layer ==>
                forall i :: 0 <= i < |canvas.surfaces| ==> canvas.surfaces[i].dirty == old(canvas.surfaces[i].dirty)
    {
      drawn := PointInBounds(Point(rect.x, rect.y));
      drawn := drawn && PointInBounds(Point(rect.x + rect.w - 1, rect.y + rect.h - 1));
      drawn := drawn && rect.w > 0 && rect.h > 0;
      ok := true;
      if drawn {
        ok := Draw(FillPixels(pixels, rect, Mode.Clear, color, canvas.over), rect);
      }
    }

    /** Draw a rectangle of `src` with its corner on `target`; what falls outside this surface is clipped. */
    method Blit(target: Point, src: Surface, source: Rect) returns (drawn: bool, ok: bool)
      requires Attached() && (this in canvas.surfaces ==> canvas.Valid())
      modifies this`pixels, this`dirty, canvas`dirtyRegions, canvas.surfaces`dirty
      ensures Attached()
      ensures drawn == (source.w >= 0 && source.h >= 0 && src.PointInBounds(Point(source.x, source.y))
                        && src.PointInBounds(Point(source.x + Max(source.w, 1) - 1, source.y + Max(source.h, 1) - 1)))
      ensures pixels == if drawn then BlitPixels(old(pixels), target, old(src.pixels), source, mode, canvas.over)
                        else old(pixels)
      ensures ok == (drawn ==> Ends(old(canvas.dirtyRegions), InCanvas(Rect(target.x, target.y, source.w, source.h))))
      ensures ok ==>
                canvas.dirtyRegions ==
                if drawn then After(old(canvas.dirtyRegions), InCanvas(Rect(target.x, target.y, source.w, source.h)))
                else old(canvas.dirtyRegions)
      ensures this in canvas.surfaces && ok ==> canvas.Valid()
      ensures this == canvas.layer ==> ok && canvas.dirtyRegions == old(canvas.dirtyRegions)
      ensures this == canvas.layer ==>
                forall i :: 0 <= i < |canvas.surfaces| ==> canvas.surfaces[i].dirty == old(canvas.surfaces[i].dirty)
    {
      drawn := source.w >= 0 && source.h >= 0;
      drawn := drawn && src.PointInBounds(Point(source.x, source.y));
      var x2 := source.x + (if source.w != 0 then source.w - 1 else 0);
      var y2 := source.y + (if source.h != 0 then source.h - 1 else 0);
      drawn := drawn && src.PointInBounds(Point(x2, y2));
      ok := true;
      if drawn {
        ok := Draw(BlitPixels(pixels, target, src.pixels, source, mode, canvas.over),
                   Rect(target.x, target.y, source.w, source.h));
      }
    }

    // ----- Moving, stacking and showing

    method SetLocation(point: Point) returns (ok: bool)
      requires this in canvas.surfaces && canvas.Valid()
      modifies this`pos, this`dirty, canvas`dirtyRegions, canvas.surfaces`dirty
      ensures canvas.Structure()
      ensures ok == (autoFlush ==>
                && Invalidate(old(canvas.dirtyRegions), old(Bounds()), canvas.join, canvas.depth).Some?
                && Ends(After(old(canvas.dirtyRegions), old(Bounds())), Rect(point.x, point.y, size.w, size.h)))
      ensures ok ==> pos == point && canvas.Valid()
      ensures ok ==> canvas.dirtyRegions == After(After(old(canvas.dirtyRegions), old(Bounds())), Bounds())
    {
      hide Composite, Invalidate;
      assert Attached();
      ok := MarkDirty(Bounds());
      if ok {
        pos := point;
        assert canvas.Structure();
        ok := MarkDirty(Bounds());
        if ok {
          canvas.SurfaceChanged(this);
        }
      }
    }

    method SetZIndex(z: int) returns (ok: bool)
      requires this in canvas.surfaces && canvas.Valid()
      modifies this`zIndex, this`dirty, canvas`dirtyRegions, canvas.surfaces`dirty
      ensures canvas.Structure() && zIndex == z
      ensures ok == (z != old(zIndex) ==> Ends(old(canvas.dirtyRegions), Bounds()))
      ensures ok ==> canvas.Valid()
      ensures ok ==> canvas.dirtyRegions ==
                     if z != old(zIndex) then After(old(canvas.dirtyRegions), Bounds()) else old(canvas.dirtyRegions)
    {
      hide Composite, Invalidate;
      ok := true;
      if zIndex != z {
        zIndex := z;
        assert Attached();
        ok := MarkDirty(Bounds());
        if ok {
          canvas.SurfaceChanged(this);
        }
      }
    }

    method SetVisible(show: bool) returns (ok: bool)
      requires this in canvas.surfaces && canvas.Valid()
      modifies this`visible, this`dirty, canvas`dirtyRegions, canvas.surfaces`dirty
      ensures canvas.Structure() && visible == show
      ensures ok == (show != old(visible) ==> Ends(old(canvas.dirtyRegions), Bounds()))
      ensures ok ==> canvas.Valid()
      ensures ok ==> canvas.dirtyRegions ==
                     if show != old(visible) then After(old(canvas.dirtyRegions), Bounds())
                     else old(canvas.dirtyRegions)
    {
      hide Composite, Invalidate;
      ok := true;
      assert Attached();
      if show != visible {
        ok := MarkDirty(Bounds());
      }
      visible := show;
      if ok && show != old(visible) {
        canvas.SurfaceChanged(this);
      }
    }

    /** Turning auto-flush off marks nothing: `AutoFlushOffIsSafe` says exactly when the picture survives that. */
    method SetAutoFlush(inCanvasFlush: bool) returns (ok: bool)
      requires this in canvas.surfaces && canvas.Valid()
      modifies this`autoFlush, this`dirty, canvas`dirtyRegions, canvas.surfaces`dirty
      ensures canvas.Structure() && autoFlush == inCanvasFlush
      ensures ok == Ends(old(canvas.dirtyRegions), Bounds())
      ensures ok ==> canvas.dirtyRegions == After(old(canvas.dirtyRegions), Bounds())
      ensures ok && (inCanvasFlush || !old(autoFlush) || !visible) ==> canvas.Valid()
      ensures ok && IsPending(canvas.layer.pixels.Keys, Bounds(), canvas.dirtyRegions) ==> canvas.Valid()
    {
      hide Composite, Invalidate;
      autoFlush := inCanvasFlush;
      assert Attached();
      ok := MarkDirty(Bounds());
      if ok {
        if inCanvasFlush || !old(autoFlush) || !visible
           || IsPending(canvas.layer.pixels.Keys, Bounds(), canvas.dirtyRegions) {
          canvas.SurfaceChanged(this);
        }
      }
    }
  }

  class Canvas {
    const size: Size
    const join: JoinRule
    const over: Blend
    const depth: nat
    var layer: Surface?
    var surfaces: seq<Surface>
    var dirtyRegions: seq<Rect>
    var inTransaction: nat

    ghost predicate Structure()
      reads this, surfaces, layer
    {
      && layer != null && layer !in surfaces
      && layer.canvas == this && layer.AsSprite().Valid() && layer.pos == Point(0, 0)
      && !layer.autoFlush && layer.mode == SourceOver
      && (forall i :: 0 <= i < |surfaces| ==> surfaces[i].canvas == this && surfaces[i].AsSprite().Valid())
    }

    ghost function Scene(): (scene: seq<Sprite>)
      requires Structure()
      reads this, surfaces, layer
      ensures |scene| == |surfaces| && AllValid(scene)
      ensures forall i :: 0 <= i < |scene| ==> scene[i] == surfaces[i].AsSprite()
    {
      seq(|surfaces|, i requires 0 <= i < |surfaces| reads this, surfaces => surfaces[i].AsSprite())
    }

    /** Every auto-flush surface over a stored region is flagged, but possibly for one. */
    ghost predicate FlaggedBut(except: Surface?)
      reads this, surfaces
    {
      forall i :: 0 <= i < |surfaces| && surfaces[i] != except ==>
        (surfaces[i].autoFlush && Hits(dirtyRegions, surfaces[i].Bounds()) ==> surfaces[i].dirty)
    }

    ghost predicate Flagged()
      reads this, surfaces
    {
      FlaggedBut(null)
    }

    ghost predicate Distinct()
      reads this
    {
      forall i, j :: 0 <= i < j < |surfaces| ==> surfaces[i] != surfaces[j]
    }

    ghost predicate Valid()
      reads this, surfaces, layer
    {
      Structure() && Distinct() && Flagged() && Current(layer.pixels, Scene(), dirtyRegions, over)
    }

    /** What has to hold of a change to one surface for the picture to stay right. */
    twostate lemma SurfaceChanged(s: Surface)
      requires old(Valid()) && Structure() && Flagged()
      requires surfaces == old(surfaces) && layer == old(layer) && layer.pixels == old(layer.pixels) && s in surfaces
      requires forall i :: 0 <= i < |surfaces| && surfaces[i] != s ==>
                 surfaces[i].AsSprite() == old(surfaces[i].AsSprite())
      requires forall p :: CoveredBy(p, old(dirtyRegions)) ==> CoveredBy(p, dirtyRegions)
      requires forall p :: p in layer.pixels && !CoveredBy(p, dirtyRegions) ==>
                 ShownTouchOf(old(s.AsSprite()), p) == ShownTouchOf(s.AsSprite(), p)
      ensures Valid()
    {
      hide Composite;
      var k :| 0 <= k < |surfaces| && surfaces[k] == s;
      StaysCurrent(layer.pixels, old(Scene()), Scene(), k, old(dirtyRegions), dirtyRegions, over);
    }

    constructor (size: Size, join: JoinRule, over: Blend, depth: nat)
      requires size.w > 0 && size.h > 0
      ensures Valid() && fresh(layer)
      ensures this.size == size && this.join == join && this.over == over && this.depth == depth
      ensures layer.size == size && surfaces == [] && inTransaction == 0
      ensures dirtyRegions == [Rect(0, 0, size.w, size.h)]
    {
      this.size, this.join, this.over, this.depth := size, join, over, depth;
      layer, surfaces, dirtyRegions, inTransaction := null, [], [Rect(0, 0, size.w, size.h)], 0;
      new;
      layer := new Surface(this, Rect(0, 0, size.w, size.h));
      forall p | p in layer.pixels
        ensures CoveredBy(p, dirtyRegions)
      {
        assert dirtyRegions[0].Contains(p);
      }
    }

    method AddDirtyRegion(rect: Rect)
      requires Structure()
      modifies this`dirtyRegions, surfaces`dirty
      ensures Structure()
      ensures dirtyRegions == old(dirtyRegions) + [rect]
      ensures forall i :: 0 <= i < |surfaces| ==>
                surfaces[i].dirty ==
                (old(surfaces[i].dirty) || (surfaces[i].autoFlush && rect.Intersects(surfaces[i].Bounds())))
    {
      dirtyRegions := dirtyRegions + [rect];
      for k := 0 to |surfaces|
        invariant Structure()
        invariant dirtyRegions == old(dirtyRegions) + [rect]
        invariant forall i :: 0 <= i < k ==>
                    surfaces[i].dirty ==
                    (old(surfaces[i].dirty) || (surfaces[i].autoFlush && rect.Intersects(surfaces[i].Bounds())))
        invariant forall i :: k <= i < |surfaces| ==>
                    || surfaces[i].dirty == old(surfaces[i].dirty)
                    || (surfaces[i].dirty && surfaces[i].autoFlush && rect.Intersects(surfaces[i].Bounds()))
      {
        surfaces[k].InvalidateRegion(rect);
      }
    }

    /** The first loop of `invalidateRegion`: look at every stored region, change nothing. */
    method Inspect(rect: Rect) returns (covered: bool, toErase: seq<Rect>, toAdd: seq<Rect>)
      ensures covered == IsCovered(rect, dirtyRegions)
      ensures !covered ==> toErase == ToErase(rect, dirtyRegions, join) && toAdd == ToAdd(rect, dirtyRegions, join)
    {
      hide Rect.Area, Rect.Encompass, Rect.Intersection, Rect.GoesInto, Rect.Includes, Rect.Overlaps;
      covered, toErase, toAdd := false, [], [];
      for k := 0 to |dirtyRegions|
        invariant toErase == ToErase(rect, dirtyRegions[..k], join)
        invariant toAdd == ToAdd(rect, dirtyRegions[..k], join)
        invariant forall j :: 0 <= j < k ==> !dirtyRegions[j].Includes(rect)
      {
        var dirtyRegion := dirtyRegions[k];
        assert dirtyRegions[..k + 1][..k] == dirtyRegions[..k];
        if dirtyRegion.Includes(rect) {
          covered := true;
          return;
        } else if rect.Includes(dirtyRegion) {
          toErase := toErase + [dirtyRegion];
        } else {
          var composedRect := rect.Encompass(dirtyRegion);
          var intersection := rect.Intersection(dirtyRegion);
          var extraJoinedArea := composedRect.Area() - rect.Area() - dirtyRegion.Area() + intersection.Area();
          var maxExtraJoinedArea := join(composedRect.Area());
          OverlapHasArea(rect, dirtyRegion);
          if extraJoinedArea <= maxExtraJoinedArea {
            toErase := toErase + [dirtyRegion];
            toAdd := toAdd + [composedRect];
          } else if intersection.Area() > 0 {
            if rect.GoesInto(dirtyRegion) {
              CutIsAllowed(rect, dirtyRegion);
              toAdd := toAdd + [rect.Cut(intersection)];
            } else if dirtyRegion.GoesInto(rect) {
              CutIsAllowed(dirtyRegion, rect);
              toErase := toErase + [dirtyRegion];
              toAdd := toAdd + [dirtyRegion.Cut(intersection)];
              toAdd := toAdd + [rect];
            }
          }
        }
      }
      assert dirtyRegions[..|dirtyRegions|] == dirtyRegions;
    }

    /** The second loop of `invalidateRegion`. */
    method EraseRegions(toErase: seq<Rect>)
      modifies this`dirtyRegions
      ensures dirtyRegions == EraseEach(old(dirtyRegions), toErase)
    {
      for k := 0 to |toErase|
        invariant dirtyRegions == EraseEach(old(dirtyRegions), toErase[..k])
      {
        assert toErase[..k + 1][..k] == toErase[..k];
        dirtyRegions := EraseFirst(dirtyRegions, toErase[k]);
      }
      assert toErase[..|toErase|] == toErase;
    }

    /**
     The recursive rule, with `stack` nested calls left.  It computes `Invalidate`, and the flags
     it raises are those of the surfaces that an added rectangle hits.
     */
    method InvalidateRegionWithin(rect: Rect, stack: nat) returns (ok: bool)
      requires Structure()
      modifies this`dirtyRegions, surfaces`dirty
      ensures Structure()
      ensures ok == Invalidate(old(dirtyRegions), rect, join, stack).Some?
      ensures ok ==> dirtyRegions == Invalidate(old(dirtyRegions), rect, join, stack).value.regions
      ensures ok ==> forall i :: 0 <= i < |surfaces| ==>
                surfaces[i].dirty ==
                (old(surfaces[i].dirty) || (surfaces[i].autoFlush &&
                  Hits(Invalidate(old(dirtyRegions), rect, join, stack).value.added, surfaces[i].Bounds())))
      decreases stack, 0
    {
      hide ToErase, ToAdd, EraseEach;
      if stack == 0 { return false; }
      if rect.IsEmpty() { return true; }
      var covered, toErase, toAdd := Inspect(rect);
      if covered { return true; }
      EraseRegions(toErase);
      if |toAdd| > 0 {
        ok := InvalidateAll(toAdd, stack - 1);
      } else {
        AddDirtyRegion(rect);
        assert forall b :: Hits([rect], b) <==> [rect][0].Intersects(b);
        ok := true;
      }
    }

    /** The third loop of `invalidateRegion`. */
    method InvalidateAll(toAdd: seq<Rect>, stack: nat) returns (ok: bool)
      requires Structure()
      modifies this`dirtyRegions, surfaces`dirty
      ensures Structure()
      ensures ok == InvalidateEach(old(dirtyRegions), toAdd, join, stack).Some?
      ensures ok ==> dirtyRegions == InvalidateEach(old(dirtyRegions), toAdd, join, stack).value.regions
      ensures ok ==> forall i :: 0 <= i < |surfaces| ==>
                surfaces[i].dirty ==
                (old(surfaces[i].dirty) || (surfaces[i].autoFlush &&
                  Hits(InvalidateEach(old(dirtyRegions), toAdd, join, stack).value.added, surfaces[i].Bounds())))
      decreases stack, 1
    {
      hide Invalidate;
      ghost var added: seq<Rect> := [];
      ghost var all := InvalidateEach(dirtyRegions, toAdd, join, stack);
      assert all.Some? ==> [] + all.value.added == all.value.added;
      assert toAdd[0..] == toAdd;
      for k := 0 to |toAdd|
        invariant Structure()
        invariant var rest := InvalidateEach(dirtyRegions, toAdd[k..], join, stack);
                  InvalidateEach(old(dirtyRegions), toAdd, join, stack) ==
                  if rest.None? then None else Some(Outcome(rest.value.regions, added + rest.value.added))
        invariant forall i :: 0 <= i < |surfaces| ==>
                    surfaces[i].dirty ==
                    (old(surfaces[i].dirty) || (surfaces[i].autoFlush && Hits(added, surfaces[i].Bounds())))
      {
        ghost var before := dirtyRegions;
        assert toAdd[k..][0] == toAdd[k] && toAdd[k..][1..] == toAdd[k + 1..];
        var done := InvalidateRegionWithin(toAdd[k], stack);
        if !done { return false; }
        ghost var more := Invalidate(before, toAdd[k], join, stack).value.added;
        AddedConcat(added, more, dirtyRegions, toAdd[k + 1..], join, stack);
        forall i | 0 <= i < |surfaces|
          ensures Hits(added + more, surfaces[i].Bounds()) <==>
                  Hits(added, surfaces[i].Bounds()) || Hits(more, surfaces[i].Bounds())
        {
          HitsConcat(added, more, surfaces[i].Bounds());
        }
        added := added + more;
      }
      assert added + [] == added;
      ok := true;
    }

    /** Add a rectangle to the dirty regions; false if the host's stack runs out. */
    method InvalidateRegion(rect: Rect, ghost except: Surface? := null) returns (ok: bool)
      requires Structure() && FlaggedBut(except)
      modifies this`dirtyRegions, surfaces`dirty
      ensures Structure()
      ensures ok == Invalidate(old(dirtyRegions), rect, join, depth).Some?
      ensures ok ==> dirtyRegions == Invalidate(old(dirtyRegions), rect, join, depth).value.regions
      ensures ok ==> forall p :: CoveredBy(p, old(dirtyRegions)) || rect.Contains(p) ==> CoveredBy(p, dirtyRegions)
      ensures ok ==> FlaggedBut(except)
    {
      ok := InvalidateRegionWithin(rect, depth);
      if ok {
        ghost var out := Invalidate(old(dirtyRegions), rect, join, depth).value;
        InvalidateOrigin(old(dirtyRegions), rect, join, depth);
        forall i | 0 <= i < |surfaces| && surfaces[i] != except && surfaces[i].autoFlush
                   && Hits(dirtyRegions, surfaces[i].Bounds())
          ensures surfaces[i].dirty
        {
          HitsFrom(dirtyRegions, old(dirtyRegions), out.added, surfaces[i].Bounds());
        }
        forall p | CoveredBy(p, old(dirtyRegions)) || rect.Contains(p)
          ensures CoveredBy(p, dirtyRegions)
        {
          InvalidateCovers(old(dirtyRegions), rect, join, depth, p);
        }
      }
    }

    // ----- Surfaces come and go

    /** A new surface is not on auto-flush, so it does not show; a rectangle without cells gives none. */
    method CreateSurface(rect: Rect) returns (s: Surface?)
      requires Valid()
      modifies this`surfaces
      ensures Valid()
      ensures s == null <==> !rect.Proper()
      ensures s == null ==> surfaces == old(surfaces)
      ensures s != null ==> fresh(s) && surfaces == old(surfaces) + [s] && s.Bounds() == rect && !s.autoFlush
      ensures s != null ==> s.zIndex == 1 && s.visible && !s.dirty
      ensures s != null ==> forall p :: p in s.pixels ==> s.pixels[p] == Color(0, 0, 0, 0)
    {
      s := null;
      if rect.w > 0 && rect.h > 0 {
        ghost var before := Scene();
        s := new Surface(this, rect);
        surfaces := surfaces + [s];
        forall p
          ensures Composite(Scene(), p, over) == Composite(before, p, over)
        {
          assert Scene() == before + [s.AsSprite()];
          HiddenSprite(before, s.AsSprite(), p, over);
        }
      }
    }

    // ----- Flushing

    method Flush(locked: bool)
      requires Valid()
      modifies this`dirtyRegions, surfaces`dirty, layer`pixels, layer`mode, layer`dirty
      ensures Valid() && Scene() == old(Scene())
      ensures locked && inTransaction == 0 ==> Flushed()
      ensures !locked || inTransaction > 0 ==> unchanged(this) && unchanged(layer)
    {
      if inTransaction == 0 {
        if locked {
          FlushImpl();
        }
      }
    }

    method BeginDraw()
      requires Valid()
      modifies this`inTransaction
      ensures Valid() && inTransaction == old(inTransaction) + 1
    {
      inTransaction := inTransaction + 1;
      assert Scene() == old(Scene());
    }

    /** The flush that was put off happens when the outermost transaction ends. */
    method EndDraw(locked: bool)
      requires Valid()
      modifies this`inTransaction, this`dirtyRegions, surfaces`dirty, layer`pixels, layer`mode, layer`dirty
      ensures Valid() && Scene() == old(Scene())
      ensures inTransaction == if old(inTransaction) > 0 then old(inTransaction) - 1 else 0
      ensures locked && old(inTransaction) == 1 ==> Flushed()
      ensures old(inTransaction) != 1 ==> dirtyRegions == old(dirtyRegions) && layer.pixels == old(layer.pixels)
    {
      if inTransaction > 0 {
        inTransaction := inTransaction - 1;
        assert Scene() == old(Scene());
        Flush(locked);
      }
    }

    /** Nothing is pending, and every pixel of the layer is the full repaint. */
    ghost predicate Flushed()
      requires Structure()
      reads this, surfaces, layer
    {
      && dirtyRegions == []
      && (forall i :: 0 <= i < |surfaces| ==> !surfaces[i].dirty)
      && forall p :: p in layer.pixels ==> layer.pixels[p] == Composite(Scene(), p, over)
    }

    /** The surfaces that the flush will look at, first to last. */
    ghost function SpritesOf(ss: seq<Surface>): (sprites: seq<Sprite>)
      reads ss
      ensures |sprites| == |ss| && forall i :: 0 <= i < |ss| ==> sprites[i] == ss[i].AsSprite()
    {
      seq(|ss|, i requires 0 <= i < |ss| reads ss => ss[i].AsSprite())
    }

    ghost function Flags(): (flags: seq<bool>)
      reads this, surfaces
      ensures |flags| == |surfaces| && forall i :: 0 <= i < |flags| ==> flags[i] == surfaces[i].dirty
    {
      seq(|surfaces|, i requires 0 <= i < |surfaces| reads this, surfaces => surfaces[i].dirty)
    }

    /** The surfaces that a flush blits: flagged, on auto-flush and visible, in the order of the list. */
    ghost function ToBlit(ss: seq<Surface>): seq<Surface>
      reads ss
    {
      if ss == [] then []
      else (if ss[0].dirty && ss[0].autoFlush && ss[0].visible then [ss[0]] else []) + ToBlit(ss[1..])
    }

    lemma {:induction false} ToBlitSprites(ss: seq<Surface>, flags: seq<bool>)
      requires |flags| == |ss| && forall i :: 0 <= i < |ss| ==> flags[i] == ss[i].dirty
      ensures SpritesOf(ToBlit(ss)) == Shown(Keep(SpritesOf(ss), flags))
      ensures forall s :: s in ToBlit(ss) ==> s in ss
    {
      if ss != [] {
        ToBlitSprites(ss[1..], flags[1..]);
        assert SpritesOf(ss)[1..] == SpritesOf(ss[1..]);
        var rest := Keep(SpritesOf(ss[1..]), flags[1..]);
        assert ([ss[0].AsSprite()] + rest)[1..] == rest && [] + rest == rest && [] + Shown(rest) == Shown(rest);
        assert SpritesOf([ss[0]] + ToBlit(ss[1..])) == [ss[0].AsSprite()] + SpritesOf(ToBlit(ss[1..]));
        assert [] + ToBlit(ss[1..]) == ToBlit(ss[1..]);
      }
    }

    /** The first loop of `flushImpl`: take the flags down, keep the flagged surfaces that show. */
    method CollectDirty() returns (isDirty: bool, toBlit: seq<Surface>)
      requires Distinct()
      modifies surfaces`dirty
      ensures isDirty == exists i :: 0 <= i < |surfaces| && old(surfaces[i].dirty)
      ensures forall i :: 0 <= i < |surfaces| ==> !surfaces[i].dirty
      ensures toBlit == old(ToBlit(surfaces))
    {
      isDirty, toBlit := false, [];
      for k := 0 to |surfaces|
        invariant isDirty == exists i :: 0 <= i < k && old(surfaces[i].dirty)
        invariant forall i :: 0 <= i < k ==> !surfaces[i].dirty
        invariant forall i :: k <= i < |surfaces| ==> surfaces[i].dirty == old(surfaces[i].dirty)
        invariant toBlit + old(ToBlit(surfaces[k..])) == old(ToBlit(surfaces))
      {
        var surface := surfaces[k];
        assert surfaces[k..][1..] == surfaces[k + 1..];
        isDirty := isDirty || surface.dirty;
        if surface.dirty {
          if surface.autoFlush && surface.visible {
            toBlit := toBlit + [surface];
          }
          surface.ClearDirty();
        }
      }
    }

    /** The same, said of what the surfaces show: the scene itself is not touched. */
    method TakeDirty() returns (isDirty: bool, toBlit: seq<Surface>)
      requires Structure() && Distinct()
      modifies surfaces`dirty
      ensures Structure() && Scene() == old(Scene())
      ensures isDirty == exists i :: 0 <= i < |surfaces| && old(surfaces[i].dirty)
      ensures forall i :: 0 <= i < |surfaces| ==> !surfaces[i].dirty
      ensures forall s :: s in toBlit ==> s in surfaces
      ensures SpritesOf(toBlit) == Shown(Keep(Scene(), old(Flags())))
    {
      hide Shown, Keep, Composite;
      ghost var flags, chosen := Flags(), ToBlit(surfaces);
      ghost var scene, blitted := Scene(), SpritesOf(chosen);
      ToBlitSprites(surfaces, flags);
      assert SpritesOf(surfaces) == scene;
      isDirty, toBlit := CollectDirty();
      assert forall i :: 0 <= i < |surfaces| ==> surfaces[i].AsSprite() == scene[i];
      assert Scene() == scene;
      assert forall i :: 0 <= i < |toBlit| ==> toBlit[i] in surfaces && toBlit[i].AsSprite() == blitted[i];
      assert SpritesOf(toBlit) == blitted;
    }

    /** The library's stable sort of surfaces by z-index. */
    method SortByZ(ss: seq<Surface>) returns (sorted: seq<Surface>)
      ensures SpritesOf(sorted) == StableSort(SpritesOf(ss), ByZ())
      ensures multiset(sorted) == multiset(ss) && forall s :: s in sorted ==> s in ss
      ensures forall i, j :: 0 <= i < j < |sorted| ==> sorted[i].zIndex <= sorted[j].zIndex
      ensures forall i, j :: 0 <= i < j < |sorted| && sorted[i].zIndex == sorted[j].zIndex ==>
                exists a, b :: 0 <= a < b < |ss| && ss[a] == sorted[i] && ss[b] == sorted[j]
    {
      hide StableSort;
      if ss == [] {
        assert StableSort(SpritesOf(ss), ByZ()) == [] by { SortNothing(); }
        return [];
      }
      var rest := SortByZ(ss[1..]);
      ghost var at: nat;
      sorted, at := InsertByZ(ss[0], rest);
      SortFirst(ss, rest);
      Inserted(ss, rest, sorted, at);
    }

    lemma SortNothing()
      ensures StableSort([], ByZ()) == []
    {
    }

    lemma SortFirst(ss: seq<Surface>, rest: seq<Surface>)
      requires ss != [] && SpritesOf(rest) == StableSort(SpritesOf(ss[1..]), ByZ())
      ensures StableSort(SpritesOf(ss), ByZ()) == Insert(ss[0].AsSprite(), SpritesOf(rest), ByZ())
    {
      assert SpritesOf(ss)[1..] == SpritesOf(ss[1..]);
    }

    /** The list is in z-order, with the same surfaces, and those of one z-index as they were. */
    ghost predicate InZOrder(ss: seq<Surface>, sorted: seq<Surface>)
      reads set s | s in sorted
    {
      && multiset(sorted) == multiset(ss)
      && (forall i, j :: 0 <= i < j < |sorted| ==> sorted[i].zIndex <= sorted[j].zIndex)
      && forall i, j :: 0 <= i < j < |sorted| && sorted[i].zIndex == sorted[j].zIndex ==>
           exists a, b :: 0 <= a < b < |ss| && ss[a] == sorted[i] && ss[b] == sorted[j]
    }

    lemma Inserted(ss: seq<Surface>, rest: seq<Surface>, sorted: seq<Surface>, at: nat)
      requires ss != [] && at <= |rest| && sorted == rest[..at] + [ss[0]] + rest[at..] && InZOrder(ss[1..], rest)
      requires forall k :: 0 <= k < at ==> rest[k].zIndex < ss[0].zIndex
      requires at < |rest| ==> ss[0].zIndex <= rest[at].zIndex
      ensures InZOrder(ss, sorted) && forall s :: s in sorted ==> s in ss
    {
      InsertedMembers(ss, rest, sorted, at);
      forall i, j | 0 <= i < j < |sorted|
        ensures sorted[i].zIndex <= sorted[j].zIndex
      {
        assert sorted[i] == if i < at then rest[i] else if i == at then ss[0] else rest[i - 1];
        assert sorted[j] == if j < at then rest[j] else if j == at then ss[0] else rest[j - 1];
      }
      forall i, j | 0 <= i < j < |sorted| && sorted[i].zIndex == sorted[j].zIndex
        ensures exists a, b :: 0 <= a < b < |ss| && ss[a] == sorted[i] && ss[b] == sorted[j]
      {
        KeepsPlaces(ss, rest, sorted, at, i, j);
      }
    }

    lemma InsertedMembers(ss: seq<Surface>, rest: seq<Surface>, sorted: seq<Surface>, at: nat)
      requires ss != [] && at <= |rest| && sorted == rest[..at] + [ss[0]] + rest[at..]
      requires multiset(rest) == multiset(ss[1..])
      ensures multiset(sorted) == multiset(ss)
      ensures (forall s :: s in sorted ==> s in ss) && forall s :: s in rest ==> s in ss[1..]
    {
      assert rest == rest[..at] + rest[at..] && ss == [ss[0]] + ss[1..];
      forall s | s in rest
        ensures s in ss[1..]
      {
        assert s in multiset(rest);
      }
    }

    lemma KeepsPlaces(ss: seq<Surface>, rest: seq<Surface>, sorted: seq<Surface>, at: nat, i: nat, j: nat)
      requires ss != [] && at <= |rest| && sorted == rest[..at] + [ss[0]] + rest[at..] && i < j < |sorted|
      requires forall s :: s in rest ==> s in ss[1..]
      requires forall k :: 0 <= k < at ==> rest[k].zIndex < ss[0].zIndex
      requires sorted[i].zIndex == sorted[j].zIndex
      requires forall i, j :: 0 <= i < j < |rest| && rest[i].zIndex == rest[j].zIndex ==>
                 exists a, b :: 0 <= a < b < |ss| - 1 && ss[1..][a] == rest[i] && ss[1..][b] == rest[j]
      ensures exists a, b :: 0 <= a < b < |ss| && ss[a] == sorted[i] && ss[b] == sorted[j]
    {
      assert j != at;
      var j' := if j < at then j else j - 1;
      assert sorted[j] == rest[j'];
      if i == at {
        assert rest[j'] in ss[1..];
        var b :| 0 <= b < |ss| - 1 && ss[1..][b] == rest[j'];
        assert ss[0] == sorted[i] && ss[b + 1] == sorted[j];
      } else {
        var i' := if i < at then i else i - 1;
        assert sorted[i] == rest[i'];
        var a, b :| 0 <= a < b < |ss| - 1 && ss[1..][a] == rest[i'] && ss[1..][b] == rest[j'];
        assert ss[a + 1] == sorted[i] && ss[b + 1] == sorted[j];
      }
    }

    /** Before the first surface of no smaller z-index. */
    method InsertByZ(x: Surface, ss: seq<Surface>) returns (sorted: seq<Surface>, ghost at: nat)
      ensures SpritesOf(sorted) == Insert(x.AsSprite(), SpritesOf(ss), ByZ())
      ensures at <= |ss| && sorted == ss[..at] + [x] + ss[at..]
      ensures forall k :: 0 <= k < at ==> ss[k].zIndex < x.zIndex
      ensures at < |ss| ==> x.zIndex <= ss[at].zIndex
    {
      var k := 0;
      while k < |ss| && ss[k].zIndex < x.zIndex
        invariant k <= |ss| && forall i :: 0 <= i < k ==> ss[i].zIndex < x.zIndex
      {
        k := k + 1;
      }
      sorted, at := ss[..k] + [x] + ss[k..], k;
      InsertAt(x.AsSprite(), SpritesOf(ss), k);
      assert SpritesOf(sorted) == SpritesOf(ss)[..k] + [x.AsSprite()] + SpritesOf(ss)[k..];
    }

    /** The part of the region that is on the layer becomes transparent. */
    method ClearRegion(dirtyRegion: Rect)
      requires Structure()
      modifies this`dirtyRegions, surfaces`dirty, layer`pixels, layer`dirty
      ensures Structure() && dirtyRegions == old(dirtyRegions)
      ensures forall i :: 0 <= i < |surfaces| ==> surfaces[i].dirty == old(surfaces[i].dirty)
      ensures layer.pixels.Keys == old(layer.pixels.Keys)
      ensures forall p :: p in layer.pixels ==>
                layer.pixels[p] == if dirtyRegion.Contains(p) then TRANSPARENT else old(layer.pixels[p])
    {
      assert layer.Attached();
      var intersection := layer.Bounds().Intersection(dirtyRegion);
      if layer.Bounds().Overlaps(dirtyRegion) {
        var drawn, ok := layer.Clear(intersection);
        assert drawn;
      }
    }

    /** Clear one region of the layer and blit the part of every surface that lies in it. */
    method RepaintRegion(toBlit: seq<Surface>, dirtyRegion: Rect)
      requires Structure() && (forall s :: s in toBlit ==> s in surfaces)
      modifies this`dirtyRegions, surfaces`dirty, layer`pixels, layer`mode, layer`dirty
      ensures Structure() && dirtyRegions == old(dirtyRegions)
      ensures forall i :: 0 <= i < |surfaces| ==> surfaces[i].dirty == old(surfaces[i].dirty)
      ensures SpritesOf(toBlit) == old(SpritesOf(toBlit)) && AllValid(SpritesOf(toBlit))
      ensures layer.pixels.Keys == old(layer.pixels.Keys)
      ensures forall p :: p in layer.pixels ==>
                layer.pixels[p] == if dirtyRegion.Contains(p) then Paint(SpritesOf(toBlit), p, TRANSPARENT, over)
                                   else old(layer.pixels[p])
    {
      hide Paint, FillPixels, Rect.Intersection, Rect.Overlaps;
      ghost var sprites := SpritesOf(toBlit);
      MembersValid(toBlit);
      ClearRegion(dirtyRegion);
      assert sprites[0..] == sprites;
      for k := 0 to |toBlit|
        invariant Structure() && dirtyRegions == old(dirtyRegions)
        invariant forall i :: 0 <= i < |surfaces| ==> surfaces[i].dirty == old(surfaces[i].dirty)
        invariant SpritesOf(toBlit) == sprites && AllValid(sprites)
        invariant layer.pixels.Keys == old(layer.pixels.Keys)
        invariant forall p :: p in layer.pixels && !dirtyRegion.Contains(p) ==> layer.pixels[p] == old(layer.pixels[p])
        invariant forall p :: p in layer.pixels && dirtyRegion.Contains(p) ==>
                    Paint(sprites[k..], p, layer.pixels[p], over) == Paint(sprites, p, TRANSPARENT, over)
      {
        ghost var under := layer.pixels;
        BlitOnto(toBlit[k], dirtyRegion);
        forall p | p in layer.pixels && dirtyRegion.Contains(p)
          ensures Paint(sprites[k + 1..], p, layer.pixels[p], over) == Paint(sprites, p, TRANSPARENT, over)
        {
          PaintStep(sprites, k, p, under[p], over);
        }
      }
      forall p | p in layer.pixels
        ensures Paint(sprites[|sprites|..], p, layer.pixels[p], over) == layer.pixels[p]
      {
        assert sprites[|sprites|..] == [];
        PaintNothing(p, layer.pixels[p], over);
      }
      layer.mode := SourceOver;
    }

    /** One blit of the flush: inside the region the surface goes on top, outside nothing changes. */
    method BlitOnto(surface: Surface, dirtyRegion: Rect)
      requires Structure() && surface in surfaces
      modifies this`dirtyRegions, surfaces`dirty, layer`pixels, layer`mode, layer`dirty
      ensures Structure() && dirtyRegions == old(dirtyRegions)
      ensures forall i :: 0 <= i < |surfaces| ==> surfaces[i].dirty == old(surfaces[i].dirty)
      ensures surface.AsSprite().Valid()
      ensures layer.pixels.Keys == old(layer.pixels.Keys)
      ensures forall p :: p in layer.pixels ==>
                layer.pixels[p] == if dirtyRegion.Contains(p) && surface.Bounds().Contains(p)
                                   then over(surface.AsSprite().ColorAt(p), old(layer.pixels[p]))
                                   else old(layer.pixels[p])
    {
      hide BlitPixels, Rect.Intersection, Rect.Contains, Composite, Sprite.ColorAt;
      assert layer.Attached();
      var blitRect := dirtyRegion.Intersection(surface.Bounds());
      BlitInRegion(layer.pixels, dirtyRegion, surface.AsSprite(), over);
      if dirtyRegion.Overlaps(surface.Bounds()) {
        BlitIsInBounds(dirtyRegion, surface.pos, surface.size);
        layer.mode := SourceOver;
        var point := Point(blitRect.x, blitRect.y);
        var source := Rect(blitRect.x - surface.pos.x, blitRect.y - surface.pos.y, blitRect.w, blitRect.h);
        var drawn, ok := layer.Blit(point, surface, source);
        assert drawn;
      }
    }

    lemma MembersValid(ss: seq<Surface>)
      requires Structure() && (forall s :: s in ss ==> s in surfaces)
      ensures AllValid(SpritesOf(ss))
    {
      forall i | 0 <= i < |ss|
        ensures ss[i].AsSprite().Valid()
      {
        assert ss[i] in surfaces;
      }
    }

    method RepaintRegions(toBlit: seq<Surface>)
      requires Structure() && (forall s :: s in toBlit ==> s in surfaces)
      modifies this`dirtyRegions, surfaces`dirty, layer`pixels, layer`mode, layer`dirty
      ensures Structure() && dirtyRegions == old(dirtyRegions)
      ensures forall i :: 0 <= i < |surfaces| ==> surfaces[i].dirty == old(surfaces[i].dirty)
      ensures SpritesOf(toBlit) == old(SpritesOf(toBlit)) && AllValid(SpritesOf(toBlit))
      ensures layer.pixels.Keys == old(layer.pixels.Keys)
      ensures forall p :: p in layer.pixels ==>
                layer.pixels[p] == if CoveredBy(p, dirtyRegions) then Paint(SpritesOf(toBlit), p, TRANSPARENT, over)
                                   else old(layer.pixels[p])
    {
      ghost var sprites := SpritesOf(toBlit);
      MembersValid(toBlit);
      for k := 0 to |dirtyRegions|
        invariant Structure() && dirtyRegions == old(dirtyRegions)
        invariant forall i :: 0 <= i < |surfaces| ==> surfaces[i].dirty == old(surfaces[i].dirty)
        invariant SpritesOf(toBlit) == sprites && AllValid(sprites)
        invariant layer.pixels.Keys == old(layer.pixels.Keys)
        invariant forall p :: p in layer.pixels ==>
                    layer.pixels[p] == if CoveredBy(p, dirtyRegions[..k]) then Paint(sprites, p, TRANSPARENT, over)
                                       else old(layer.pixels[p])
      {
        RepaintRegion(toBlit, dirtyRegions[k]);
        forall p
          ensures CoveredBy(p, dirtyRegions[..k + 1]) <==>
                  CoveredBy(p, dirtyRegions[..k]) || dirtyRegions[k].Contains(p)
        {
          CoveredBySnoc(p, dirtyRegions, k);
        }
      }
      assert dirtyRegions[..|dirtyRegions|] == dirtyRegions;
    }

    /** Stack the surfaces and repaint the regions from them; the scene itself is not touched. */
    method Repaint(toBlit: seq<Surface>)
      requires Structure() && (forall s :: s in toBlit ==> s in surfaces)
      modifies this`dirtyRegions, surfaces`dirty, layer`pixels, layer`mode, layer`dirty
      ensures Structure() && dirtyRegions == old(dirtyRegions) && Scene() == old(Scene())
      ensures forall i :: 0 <= i < |surfaces| ==> surfaces[i].dirty == old(surfaces[i].dirty)
      ensures layer.pixels.Keys == old(layer.pixels.Keys)
      ensures var sorted := StableSort(old(SpritesOf(toBlit)), ByZ());
              AllValid(sorted) && forall p :: p in layer.pixels ==>
                layer.pixels[p] == if CoveredBy(p, dirtyRegions) then Paint(sorted, p, TRANSPARENT, over)
                                   else old(layer.pixels[p])
    {
      hide Paint, StableSort, ByZ, CoveredBy;
      var sorted := SortByZ(toBlit);
      ghost var sprites := SpritesOf(sorted);
      RepaintRegions(sorted);
      assert SpritesOf(sorted) == sprites;
      assert Scene() == old(Scene());
    }

    lemma FlushedIsValid()
      requires Structure() && Distinct() && Flushed()
      ensures Valid()
    {
      hide Composite;
      assert forall b :: !Hits([], b);
    }

    /** Repaint the dirty regions only, from the flagged surfaces only: the layer is the full repaint. */
    method FlushImpl()
      requires Valid()
      modifies this`dirtyRegions, surfaces`dirty, layer`pixels, layer`mode, layer`dirty
      ensures Valid() && Scene() == old(Scene()) && Flushed()
      ensures dirtyRegions == [] && forall i :: 0 <= i < |surfaces| ==> !surfaces[i].dirty
      ensures forall p :: p in layer.pixels ==> layer.pixels[p] == Composite(Scene(), p, over)
    {
      hide Composite, Paint, StableSort, Shown, Keep, Current, ByZ, CoveredBy, Hits, Rect.Intersects, Rect.Contains;
      ghost var scene, flags, before := Scene(), Flags(), layer.pixels;
      var isDirty, toBlit := TakeDirty();
      if isDirty || dirtyRegions != [] {
        Repaint(toBlit);
        RepaintIsFull(scene, flags, dirtyRegions, before, layer.pixels, over);
        dirtyRegions := [];
        assert Scene() == scene;
      }
      NothingDirty(layer.pixels, scene, over);
      FlushedIsValid();
    }
  }
}
