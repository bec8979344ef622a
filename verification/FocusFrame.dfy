/**
 The frame around a focused media object, after `calculateBounds` and `drawBorder` in
 lib/dtv-gingaplayer/src/player/focusproperties.cpp: the surface that holds it, and the four
 strips that are filled on it.
 */
module FocusFrame {
  import opened Geometry
  import opened Compositing
  import opened CanvasEngine

  function Screen(max: Size): Rect {
    Rect(0, 0, max.w, max.h)
  }

  /** `calculateBounds`: the bounds grow by the width on every side, as far as the canvas goes. */
  method CalculateBounds(original: Rect, width: int, max: Size) returns (bounds: Rect)
    ensures width <= 0 ==> bounds == original
    ensures width > 0 && original.Proper() && Screen(max).Includes(original) ==>
              && bounds == Screen(max).Intersection(Rect(original.x - width, original.y - width,
                                                         original.w + 2 * width, original.h + 2 * width))
              && bounds.Includes(original) && Screen(max).Includes(bounds)
  {
    bounds := original;
    if width > 0 {
      var x := Max(0, bounds.x - width);
      var y := Max(0, bounds.y - width);

      var linesLeft := bounds.x - x;
      bounds := bounds.(w := bounds.w + width + linesLeft);
      if bounds.w + x > max.w {
        bounds := bounds.(w := max.w - x);
      }

      var linesUp := bounds.y - y;
      bounds := bounds.(h := bounds.h + width + linesUp);
      if bounds.h + y > max.h {
        bounds := bounds.(h := max.h - y);
      }

      bounds := bounds.(x := x, y := y);
    }
  }

  /** The strips above, below, left and right of the original, on a surface with the bounds of the frame. */
  function Strips(frame: Rect, original: Rect): seq<Rect> {
    var up, left := original.y - frame.y, original.x - frame.x;
    var down, right := frame.h - original.h - up, frame.w - original.w - left;
    [Rect(0, 0, frame.w, up), Rect(0, frame.h - down, frame.w, down),
     Rect(0, 0, left, frame.h), Rect(frame.w - right, 0, right, frame.h)]
  }

  /** How many of the strips have the cell. */
  function Coats(strips: seq<Rect>, p: Point): nat {
    if strips == [] then 0 else (if strips[0].Contains(p) then 1 else 0) + Coats(strips[1..], p)
  }

  /** The strips fill exactly the cells of the frame outside the original; those at a corner twice. */
  lemma StripsCoverFrame(frame: Rect, original: Rect, p: Point)
    requires frame.Includes(original) && original.Proper() && Rect(0, 0, frame.w, frame.h).Contains(p)
    ensures var at := Point(frame.x + p.x, frame.y + p.y);
            var coats := Coats(Strips(frame, original), p);
            && (coats == 0 <==> original.Contains(at))
            && coats <= 2
            && (coats == 2 <==> !(original.x <= at.x < original.x + original.w)
                                && !(original.y <= at.y < original.y + original.h))
  {
    var strips := Strips(frame, original);
    CoatsOfFour(strips[0], strips[1], strips[2], strips[3], p);
  }

  lemma CoatsOfFour(a: Rect, b: Rect, c: Rect, d: Rect, p: Point)
    ensures Coats([a, b, c, d], p) == (if a.Contains(p) then 1 else 0) + (if b.Contains(p) then 1 else 0)
                                      + (if c.Contains(p) then 1 else 0) + (if d.Contains(p) then 1 else 0)
  {
    var s, s1, s2, s3 := [a, b, c, d], [b, c, d], [c, d], [d];
    assert s[1..] == s1 && s1[1..] == s2 && s2[1..] == s3 && s3[1..] == [];
    assert Coats(s, p) == (if a.Contains(p) then 1 else 0) + Coats(s1, p);
    assert Coats(s1, p) == (if b.Contains(p) then 1 else 0) + Coats(s2, p);
    assert Coats(s2, p) == (if c.Contains(p) then 1 else 0) + Coats(s3, p);
  }

  // ----- Painting them

  function FillAll(pixels: Pixels, rects: seq<Rect>, mode: Mode, color: Color, over: Blend): Pixels {
    if rects == [] then pixels
    else FillAll(FillPixels(pixels, rects[0], mode, color, over), rects[1..], mode, color, over)
  }

  /** A color put on a pixel so many times. */
  function PutTimes(n: nat, mode: Mode, color: Color, under: Color, over: Blend): Color {
    if n == 0 then under else PutTimes(n - 1, mode, color, Put(mode, color, under, over), over)
  }

  lemma {:induction false} FillAllPaints(pixels: Pixels, rects: seq<Rect>, mode: Mode, color: Color, over: Blend,
                                         p: Point)
    requires p in pixels
    ensures p in FillAll(pixels, rects, mode, color, over)
    ensures FillAll(pixels, rects, mode, color, over)[p] == PutTimes(Coats(rects, p), mode, color, pixels[p], over)
    decreases |rects|
  {
    if rects != [] {
      FillAllPaints(FillPixels(pixels, rects[0], mode, color, over), rects[1..], mode, color, over, p);
    }
  }

  /** The border leaves the pixels over the original as they are, and paints all the others. */
  lemma BorderPaintsFrame(pixels: Pixels, frame: Rect, original: Rect, mode: Mode, color: Color, over: Blend, p: Point)
    requires frame.Includes(original) && original.Proper() && p in pixels
    requires Rect(0, 0, frame.w, frame.h).Contains(p)
    ensures var after := FillAll(pixels, Strips(frame, original), mode, color, over);
            && p in after
            && if original.Contains(Point(frame.x + p.x, frame.y + p.y)) then after[p] == pixels[p]
               else exists n :: 1 <= n <= 2 && after[p] == PutTimes(n, mode, color, pixels[p], over)
  {
    var strips := Strips(frame, original);
    FillAllPaints(pixels, strips, mode, color, over, p);
    StripsCoverFrame(frame, original, p);
    var n := Coats(strips, p);
    assert n == 0 || (1 <= n <= 2 &&
                      FillAll(pixels, strips, mode, color, over)[p] == PutTimes(n, mode, color, pixels[p], over));
  }

  /** An empty rectangle fills nothing. */
  lemma FillNothing(pixels: Pixels, rect: Rect, mode: Mode, color: Color, over: Blend)
    requires rect.IsEmpty()
    ensures FillPixels(pixels, rect, mode, color, over) == pixels
  {
  }

  /**
   `drawBorder` for a width that is not negative.  `ok` says that no call ran out of stack, as for
   the other drawing operations.
   */
  method DrawBorder(surface: Surface, original: Rect) returns (ok: bool)
    requires surface.Attached() && (surface in surface.canvas.surfaces ==> surface.canvas.Valid())
    requires surface.Bounds().Includes(original) && original.Proper() && surface.AsSprite().Valid()
    modifies surface`pixels, surface`dirty, surface.canvas`dirtyRegions, surface.canvas.surfaces`dirty
    ensures surface.Attached() && (surface in surface.canvas.surfaces && ok ==> surface.canvas.Valid())
    ensures ok ==> surface.pixels == FillAll(old(surface.pixels), Strips(surface.Bounds(), original),
                                             surface.mode, surface.color, surface.canvas.over)
    ensures !surface.autoFlush ==> ok
  {
    hide FillPixels, Canvas.Valid;
    var frame := surface.Bounds();
    ghost var before, strips := surface.pixels, Strips(frame, original);
    var linesUp := original.y - frame.y;
    var linesDown := frame.h - original.h - linesUp;
    var linesLeft := original.x - frame.x;
    var linesRight := frame.w - original.w - linesLeft;

    ok := FillStrip(surface, Rect(0, 0, frame.w, linesUp), linesUp != 0);
    if !ok { return; }
    ok := FillStrip(surface, Rect(0, frame.h - linesDown, frame.w, linesDown), true);
    if !ok { return; }
    ok := FillStrip(surface, Rect(0, 0, linesLeft, frame.h), linesLeft != 0);
    if !ok { return; }
    ok := FillStrip(surface, Rect(frame.w - linesRight, 0, linesRight, frame.h), linesRight != 0);
    if !ok { return; }
    FillFour(before, strips[0], strips[1], strips[2], strips[3], surface.mode, surface.color, surface.canvas.over);
  }

  /** One strip; when it is empty nothing is filled, whether it is asked for or not. */
  method FillStrip(surface: Surface, rect: Rect, wanted: bool) returns (ok: bool)
    requires surface.Attached() && (surface in surface.canvas.surfaces ==> surface.canvas.Valid())
    requires wanted || rect.IsEmpty()
    requires Rect(0, 0, surface.size.w, surface.size.h).Includes(rect) && rect.w >= 0 && rect.h >= 0
    modifies surface`pixels, surface`dirty, surface.canvas`dirtyRegions, surface.canvas.surfaces`dirty
    ensures surface.Attached() && (surface in surface.canvas.surfaces && ok ==> surface.canvas.Valid())
    ensures surface.pixels == FillPixels(old(surface.pixels), rect, surface.mode, surface.color, surface.canvas.over)
    ensures ok == (rect.Proper() ==> surface.Ends(old(surface.canvas.dirtyRegions), surface.InCanvas(rect)))
  {
    hide FillPixels, Canvas.Valid;
    ok := true;
    if wanted {
      var drawn;
      drawn, ok := surface.FillRect(rect);
    }
    if rect.IsEmpty() {
      FillNothing(old(surface.pixels), rect, surface.mode, surface.color, surface.canvas.over);
    }
  }

  lemma FillFour(pixels: Pixels, a: Rect, b: Rect, c: Rect, d: Rect, mode: Mode, color: Color, over: Blend)
    ensures FillAll(pixels, [a, b, c, d], mode, color, over) ==
            FillPixels(FillPixels(FillPixels(FillPixels(pixels, a, mode, color, over), b, mode, color, over),
                                  c, mode, color, over), d, mode, color, over)
  {
    hide FillPixels;
    var s, s1, s2, s3 := [a, b, c, d], [b, c, d], [c, d], [d];
    assert s[1..] == s1 && s1[1..] == s2 && s2[1..] == s3 && s3[1..] == [];
    var p1 := FillPixels(pixels, a, mode, color, over);
    var p2 := FillPixels(p1, b, mode, color, over);
    assert FillAll(pixels, s, mode, color, over) == FillAll(p1, s1, mode, color, over);
    assert FillAll(p1, s1, mode, color, over) == FillAll(p2, s2, mode, color, over);
    var p3 := FillPixels(p2, c, mode, color, over);
    assert FillAll(p2, s2, mode, color, over) == FillAll(p3, s3, mode, color, over);
    assert FillAll(p3, s3, mode, color, over) == FillAll(FillPixels(p3, d, mode, color, over), [], mode, color, over);
  }
}
