/**
 The simple picture that the dirty-region engine caches: every shown surface painted over a
 transparent canvas in stable z-order.
 */
module Compositing {
  import opened Geometry
  import opened Sorting

  datatype Color = Color(r: int, g: int, b: int, alpha: int)

  const TRANSPARENT := Color(0, 0, 0, 0)

  /** Source-over, or any other way to put one color on another. */
  type Blend = (Color, Color) -> Color

  type Pixels = map<Point, Color>

  /** What a surface contributes to the picture; the dirty flag is not part of it. */
  datatype Sprite = Sprite(pos: Point, size: Size, zIndex: int, visible: bool, autoFlush: bool, pixels: Pixels) {

    ghost predicate Valid() {
      && size.w > 0 && size.h > 0
      && forall p: Point :: p in pixels <==> Rect(0, 0, size.w, size.h).Contains(p)
    }

    function Bounds(): Rect {
      Rect(pos.x, pos.y, size.w, size.h)
    }

    predicate Shown() {
      visible && autoFlush
    }

    function ColorAt(p: Point): Color
      requires Valid() && Bounds().Contains(p)
    {
      pixels[Point(p.x - pos.x, p.y - pos.y)]
    }
  }

  ghost predicate AllValid(sprites: seq<Sprite>) {
    forall i :: 0 <= i < |sprites| ==> sprites[i].Valid()
  }

  // ----- The picture

  function Shown(sprites: seq<Sprite>): seq<Sprite> {
    if sprites == [] then []
    else (if sprites[0].Shown() then [sprites[0]] else []) + Shown(sprites[1..])
  }

  function ByZ(): Sprite -> int {
    (s: Sprite) => s.zIndex
  }

  lemma {:induction false} InsertAt(x: Sprite, sprites: seq<Sprite>, at: nat)
    requires at <= |sprites| && forall k :: 0 <= k < at ==> sprites[k].zIndex < x.zIndex
    requires at < |sprites| ==> x.zIndex <= sprites[at].zIndex
    ensures Insert(x, sprites, ByZ()) == sprites[..at] + [x] + sprites[at..]
  {
    if at == 0 {
      assert sprites[..0] + [x] + sprites[0..] == [x] + sprites;
    } else {
      var tail := sprites[1..];
      InsertAt(x, tail, at - 1);
      assert sprites[..at] == [sprites[0]] + tail[..at - 1] && sprites[at..] == tail[at - 1..];
      assert [sprites[0]] + (tail[..at - 1] + [x] + tail[at - 1..]) == sprites[..at] + [x] + sprites[at..];
    }
  }

  /** Paint the sprites that have the cell, first to last, over `base`. */
  function Paint(sprites: seq<Sprite>, p: Point, base: Color, over: Blend): Color
    requires AllValid(sprites)
  {
    if sprites == [] then base
    else
      Paint(sprites[1..], p,
            if sprites[0].Bounds().Contains(p) then over(sprites[0].ColorAt(p), base) else base, over)
  }

  lemma {:induction false} ShownValid(sprites: seq<Sprite>)
    requires AllValid(sprites)
    ensures AllValid(Shown(sprites)) && AllValid(StableSort(Shown(sprites), ByZ()))
  {
    ShownMembers(sprites);
    StableSortSorted(Shown(sprites), ByZ());
    forall i | 0 <= i < |Shown(sprites)|
      ensures Shown(sprites)[i].Valid()
    {
      assert Shown(sprites)[i] in sprites;
    }
    var sorted := StableSort(Shown(sprites), ByZ());
    forall i | 0 <= i < |sorted|
      ensures sorted[i].Valid()
    {
      assert sorted[i] in Shown(sprites);
    }
  }

  lemma {:induction false} ShownMembers(sprites: seq<Sprite>)
    ensures forall s :: s in Shown(sprites) <==> s in sprites && s.Shown()
  {
    if sprites != [] {
      assert sprites == [sprites[0]] + sprites[1..];
      ShownMembers(sprites[1..]);
    }
  }

  /** The full repaint of one cell. */
  function Composite(sprites: seq<Sprite>, p: Point, over: Blend): Color
    requires AllValid(sprites)
  {
    ShownValid(sprites);
    Paint(StableSort(Shown(sprites), ByZ()), p, TRANSPARENT, over)
  }

  // ----- The picture of one cell depends only on what the shown surfaces have there

  datatype Touch = Touch(zIndex: int, color: Color)

  function ByTouchZ(): Touch -> int {
    (t: Touch) => t.zIndex
  }

  /** What a surface puts on the cell: nothing, or one colored layer. */
  function TouchOf(s: Sprite, p: Point): seq<Touch>
    requires s.Valid()
  {
    if s.Bounds().Contains(p) then [Touch(s.zIndex, s.ColorAt(p))] else []
  }

  function Touches(sprites: seq<Sprite>, p: Point): seq<Touch>
    requires AllValid(sprites)
  {
    if sprites == [] then [] else TouchOf(sprites[0], p) + Touches(sprites[1..], p)
  }

  function PaintTouches(touches: seq<Touch>, base: Color, over: Blend): Color {
    if touches == [] then base else PaintTouches(touches[1..], over(touches[0].color, base), over)
  }

  lemma {:induction false} PaintIsPaintTouches(sprites: seq<Sprite>, p: Point, base: Color, over: Blend)
    requires AllValid(sprites)
    ensures Paint(sprites, p, base, over) == PaintTouches(Touches(sprites, p), base, over)
  {
    if sprites != [] {
      var t := TouchOf(sprites[0], p);
      var next := if sprites[0].Bounds().Contains(p) then over(sprites[0].ColorAt(p), base) else base;
      PaintIsPaintTouches(sprites[1..], p, next, over);
      if t != [] {
        assert (t + Touches(sprites[1..], p))[1..] == Touches(sprites[1..], p);
      } else {
        assert t + Touches(sprites[1..], p) == Touches(sprites[1..], p);
      }
    }
  }

  lemma {:induction false} TouchKeys(sprites: seq<Sprite>, p: Point)
    requires AllValid(sprites)
    ensures forall t :: t in Touches(sprites, p) ==> exists s :: s in sprites && s.zIndex == t.zIndex
  {
    if sprites != [] {
      assert sprites == [sprites[0]] + sprites[1..];
      TouchKeys(sprites[1..], p);
      forall t | t in Touches(sprites, p)
        ensures exists s :: s in sprites && s.zIndex == t.zIndex
      {
        if t in Touches(sprites[1..], p) {
          var s :| s in sprites[1..] && s.zIndex == t.zIndex;
          assert s in sprites;
        } else {
          assert sprites[0] in sprites;
        }
      }
    }
  }

  /** Inserting in z-order and looking at one cell commute. */
  lemma {:induction false} TouchesOfInsert(x: Sprite, sprites: seq<Sprite>, p: Point)
    requires x.Valid() && AllValid(sprites) && Sorted(sprites, ByZ())
    ensures AllValid(Insert(x, sprites, ByZ()))
    ensures Touches(Insert(x, sprites, ByZ()), p) ==
            if TouchOf(x, p) == [] then Touches(sprites, p)
            else Insert(TouchOf(x, p)[0], Touches(sprites, p), ByTouchZ())
  {
    var t := TouchOf(x, p);
    if sprites == [] || x.zIndex <= sprites[0].zIndex {
      assert ([x] + sprites)[1..] == sprites;
      if t != [] {
        InsertBeforeAll(x, sprites, p);
      }
    } else {
      TouchesOfInsert(x, sprites[1..], p);
      var tail := Insert(x, sprites[1..], ByZ());
      assert ([sprites[0]] + tail)[1..] == tail;
      assert Insert(x, sprites, ByZ()) == [sprites[0]] + tail;
      assert Touches(Insert(x, sprites, ByZ()), p) == TouchOf(sprites[0], p) + Touches(tail, p);
      if t != [] {
        var first, rest := TouchOf(sprites[0], p), Touches(sprites[1..], p);
        assert Touches(sprites, p) == first + rest;
        if first == [] {
          assert first + rest == rest;
          assert first + Touches(tail, p) == Touches(tail, p);
        } else {
          assert (first + rest)[0] == first[0] && (first + rest)[1..] == rest;
          assert ByTouchZ()(t[0]) > ByTouchZ()(first[0]);
          assert [first[0]] == first;
        }
      }
    }
  }

  lemma InsertBeforeAll(x: Sprite, sprites: seq<Sprite>, p: Point)
    requires x.Valid() && AllValid(sprites) && Sorted(sprites, ByZ())
    requires sprites == [] || x.zIndex <= sprites[0].zIndex
    requires TouchOf(x, p) != []
    ensures Insert(TouchOf(x, p)[0], Touches(sprites, p), ByTouchZ()) == TouchOf(x, p) + Touches(sprites, p)
  {
    var t, rest := TouchOf(x, p), Touches(sprites, p);
    assert t == [t[0]];
    if rest != [] {
      TouchKeys(sprites, p);
      assert rest[0] in rest;
      var s :| s in sprites && s.zIndex == rest[0].zIndex;
      assert s == sprites[0] || s in sprites[1..];
      assert ByZ()(sprites[0]) <= ByZ()(s);
      assert ByTouchZ()(t[0]) <= ByTouchZ()(rest[0]);
    }
  }

  lemma {:induction false} TouchesOfSort(sprites: seq<Sprite>, p: Point)
    requires AllValid(sprites)
    ensures AllValid(StableSort(sprites, ByZ()))
    ensures Touches(StableSort(sprites, ByZ()), p) == StableSort(Touches(sprites, p), ByTouchZ())
  {
    if sprites != [] {
      TouchesOfSort(sprites[1..], p);
      StableSortSorted(sprites[1..], ByZ());
      TouchesOfInsert(sprites[0], StableSort(sprites[1..], ByZ()), p);
      var t := TouchOf(sprites[0], p);
      if t == [] {
        assert t + Touches(sprites[1..], p) == Touches(sprites[1..], p);
      } else {
        assert (t + Touches(sprites[1..], p))[1..] == Touches(sprites[1..], p);
      }
    }
  }

  /** Sorting the surfaces and painting them is sorting and painting what they have at the cell. */
  lemma PaintSortedTouches(sprites: seq<Sprite>, p: Point, over: Blend)
    requires AllValid(sprites)
    ensures AllValid(StableSort(sprites, ByZ()))
    ensures Paint(StableSort(sprites, ByZ()), p, TRANSPARENT, over)
            == PaintTouches(StableSort(Touches(sprites, p), ByTouchZ()), TRANSPARENT, over)
  {
    TouchesOfSort(sprites, p);
    PaintIsPaintTouches(StableSort(sprites, ByZ()), p, TRANSPARENT, over);
  }

  /** What a surface puts on the cell if it is shown at all. */
  function ShownTouchOf(s: Sprite, p: Point): seq<Touch>
    requires s.Valid()
  {
    if s.Shown() then TouchOf(s, p) else []
  }

  /** Two scenes whose surfaces put the same things on the cell show the same color there. */
  lemma CompositeIsLocal(before: seq<Sprite>, after: seq<Sprite>, p: Point, over: Blend)
    requires AllValid(before) && AllValid(after) && |before| == |after|
    requires forall i :: 0 <= i < |before| ==> ShownTouchOf(before[i], p) == ShownTouchOf(after[i], p)
    ensures Composite(before, p, over) == Composite(after, p, over)
  {
    ShownValid(before);
    ShownValid(after);
    SameTouches(before, after, p);
    PaintSortedTouches(Shown(before), p, over);
    PaintSortedTouches(Shown(after), p, over);
  }

  lemma {:induction false} TouchesOfShown(sprites: seq<Sprite>, p: Point)
    requires AllValid(sprites) && sprites != []
    ensures AllValid(Shown(sprites)) && AllValid(Shown(sprites[1..]))
    ensures Touches(Shown(sprites), p) == ShownTouchOf(sprites[0], p) + Touches(Shown(sprites[1..]), p)
  {
    ShownValid(sprites);
    ShownValid(sprites[1..]);
    if sprites[0].Shown() {
      assert ([sprites[0]] + Shown(sprites[1..]))[1..] == Shown(sprites[1..]);
    } else {
      assert [] + Shown(sprites[1..]) == Shown(sprites[1..]);
      assert [] + Touches(Shown(sprites[1..]), p) == Touches(Shown(sprites[1..]), p);
    }
  }

  lemma {:induction false} SameTouches(before: seq<Sprite>, after: seq<Sprite>, p: Point)
    requires AllValid(before) && AllValid(after) && |before| == |after|
    requires forall i :: 0 <= i < |before| ==> ShownTouchOf(before[i], p) == ShownTouchOf(after[i], p)
    ensures AllValid(Shown(before)) && AllValid(Shown(after))
    ensures Touches(Shown(before), p) == Touches(Shown(after), p)
  {
    ShownValid(before);
    ShownValid(after);
    if before != [] {
      TouchesOfShown(before, p);
      TouchesOfShown(after, p);
      assert ShownTouchOf(before[0], p) == ShownTouchOf(after[0], p);
      SameTouches(before[1..], after[1..], p);
    }
  }

  // ----- What is on top

  /** The surface shows and has a pixel for the cell. */
  predicate ShowsAt(s: Sprite, p: Point) {
    s.visible && s.autoFlush && Point(p.x - s.pos.x, p.y - s.pos.y) in s.pixels
  }

  /** It is stacked below the `k`th: by z-index, and among equals by the order of the list. */
  predicate IsBelow(sprites: seq<Sprite>, i: nat, k: nat)
    requires i < |sprites| && k < |sprites|
  {
    sprites[i].zIndex < sprites[k].zIndex || (sprites[i].zIndex == sprites[k].zIndex && i < k)
  }

  lemma {:induction false} PaintedLast(touches: seq<Touch>, t: Touch, base: Color, over: Blend)
    ensures PaintTouches(touches + [t], base, over) == over(t.color, PaintTouches(touches, base, over))
  {
    if touches == [] {
      assert [t][1..] == [] && [] + [t] == [t];
    } else {
      assert (touches + [t])[1..] == touches[1..] + [t];
      PaintedLast(touches[1..], t, over(touches[0].color, base), over);
    }
  }

  lemma {:induction false} InsertLast(x: Touch, touches: seq<Touch>)
    requires forall t :: t in touches ==> t.zIndex < x.zIndex
    ensures Insert(x, touches, ByTouchZ()) == touches + [x]
  {
    if touches != [] {
      assert touches[0] in touches;
      InsertLast(x, touches[1..]);
    }
  }

  lemma {:induction false} InsertBelow(x: Touch, touches: seq<Touch>, top: Touch)
    requires x.zIndex <= top.zIndex
    ensures Insert(x, touches + [top], ByTouchZ()) == Insert(x, touches, ByTouchZ()) + [top]
  {
    if touches == [] {
      assert [] + [top] == [top] && [x] + [top] == [x, top];
    } else if x.zIndex <= touches[0].zIndex {
      assert [x] + (touches + [top]) == ([x] + touches) + [top];
    } else {
      assert (touches + [top])[1..] == touches[1..] + [top];
      InsertBelow(x, touches[1..], top);
    }
  }

  function Without(sprites: seq<Sprite>, k: nat): seq<Sprite>
    requires k < |sprites|
  {
    sprites[..k] + sprites[k + 1..]
  }

  lemma ShowsMeansTouch(s: Sprite, p: Point)
    requires s.Valid()
    ensures ShowsAt(s, p) <==> ShownTouchOf(s, p) != []
    ensures ShowsAt(s, p) ==>
              ShownTouchOf(s, p) == [Touch(s.zIndex, s.pixels[Point(p.x - s.pos.x, p.y - s.pos.y)])]
  {
  }

  lemma {:induction false} TouchesAreOfShown(sprites: seq<Sprite>, p: Point)
    requires AllValid(sprites)
    ensures AllValid(Shown(sprites))
    ensures forall t :: t in Touches(Shown(sprites), p) ==>
              exists i :: 0 <= i < |sprites| && ShowsAt(sprites[i], p) && sprites[i].zIndex == t.zIndex
  {
    ShownValid(sprites);
    if sprites != [] {
      TouchesAreOfShown(sprites[1..], p);
      TouchesOfShown(sprites, p);
      ShowsMeansTouch(sprites[0], p);
      forall t | t in Touches(Shown(sprites), p)
        ensures exists i :: 0 <= i < |sprites| && ShowsAt(sprites[i], p) && sprites[i].zIndex == t.zIndex
      {
        if t in Touches(Shown(sprites[1..]), p) {
          var i :| 0 <= i < |sprites[1..]| && ShowsAt(sprites[1..][i], p) && sprites[1..][i].zIndex == t.zIndex;
          assert sprites[i + 1] == sprites[1..][i];
        } else {
          assert t in ShownTouchOf(sprites[0], p) && ShowsAt(sprites[0], p) && sprites[0].zIndex == t.zIndex;
        }
      }
    }
  }

  /** The layers at the cell, bottom to top. */
  function Layers(sprites: seq<Sprite>, p: Point): seq<Touch>
    requires AllValid(sprites)
  {
    ShownValid(sprites);
    StableSort(Touches(Shown(sprites), p), ByTouchZ())
  }

  lemma FirstLayer(sprites: seq<Sprite>, p: Point)
    requires AllValid(sprites) && sprites != []
    ensures Layers(sprites, p) ==
            if ShowsAt(sprites[0], p) then Insert(ShownTouchOf(sprites[0], p)[0], Layers(sprites[1..], p), ByTouchZ())
            else Layers(sprites[1..], p)
  {
    ShowsMeansTouch(sprites[0], p);
    TouchesOfShown(sprites, p);
    var t, rest := ShownTouchOf(sprites[0], p), Touches(Shown(sprites[1..]), p);
    if t == [] {
      assert t + rest == rest;
    } else {
      assert (t + rest)[0] == t[0] && (t + rest)[1..] == rest;
    }
  }

  lemma {:induction false} TopLayer(sprites: seq<Sprite>, k: nat, p: Point)
    requires AllValid(sprites) && k < |sprites| && ShowsAt(sprites[k], p)
    requires forall i :: 0 <= i < |sprites| && i != k && ShowsAt(sprites[i], p) ==> IsBelow(sprites, i, k)
    ensures AllValid(Without(sprites, k))
    ensures Layers(sprites, p) == Layers(Without(sprites, k), p) + ShownTouchOf(sprites[k], p)
  {
    hide Layers;
    var tail := sprites[1..];
    ShowsMeansTouch(sprites[k], p);
    FirstLayer(sprites, p);
    if k == 0 {
      assert Without(sprites, 0) == tail;
      TouchesAreOfShown(tail, p);
      LayersAreTouches(tail, p);
      forall t | t in Layers(tail, p)
        ensures t.zIndex < sprites[0].zIndex
      {
        var i :| 0 <= i < |tail| && ShowsAt(tail[i], p) && tail[i].zIndex == t.zIndex;
        assert tail[i] == sprites[i + 1] && IsBelow(sprites, i + 1, 0);
      }
      InsertLast(ShownTouchOf(sprites[0], p)[0], Layers(tail, p));
    } else {
      forall i | 0 <= i < |tail| && i != k - 1 && ShowsAt(tail[i], p)
        ensures IsBelow(tail, i, k - 1)
      {
        assert IsBelow(sprites, i + 1, k);
      }
      TopLayer(tail, k - 1, p);
      var rest := Without(sprites, k);
      assert rest[1..] == Without(tail, k - 1) && rest[0] == sprites[0];
      FirstLayer(rest, p);
      if ShowsAt(sprites[0], p) {
        assert IsBelow(sprites, 0, k);
        ShowsMeansTouch(sprites[0], p);
        InsertBelow(ShownTouchOf(sprites[0], p)[0], Layers(rest[1..], p), ShownTouchOf(sprites[k], p)[0]);
      }
    }
  }

  lemma LayersAreTouches(sprites: seq<Sprite>, p: Point)
    requires AllValid(sprites)
    ensures AllValid(Shown(sprites)) && forall t :: t in Layers(sprites, p) <==> t in Touches(Shown(sprites), p)
  {
    ShownValid(sprites);
    StableSortSorted(Touches(Shown(sprites), p), ByTouchZ());
  }

  lemma CompositeIsLayers(sprites: seq<Sprite>, p: Point, over: Blend)
    requires AllValid(sprites)
    ensures Composite(sprites, p, over) == PaintTouches(Layers(sprites, p), TRANSPARENT, over)
  {
    ShownValid(sprites);
    PaintSortedTouches(Shown(sprites), p, over);
  }

  /**
   A cell of the picture is the pixel of the topmost surface there, put on what the others show: of the
   surfaces that are visible, on auto-flush and have the cell, the one with the greatest z-index, and
   the last one created if there are several.
   */
  lemma TopmostIsOver(sprites: seq<Sprite>, k: nat, p: Point, over: Blend)
    requires AllValid(sprites) && k < |sprites|
    requires var s := sprites[k]; s.visible && s.autoFlush && Point(p.x - s.pos.x, p.y - s.pos.y) in s.pixels
    requires forall i | 0 <= i < |sprites| && i != k && sprites[i].visible && sprites[i].autoFlush
                        && Point(p.x - sprites[i].pos.x, p.y - sprites[i].pos.y) in sprites[i].pixels ::
               sprites[i].zIndex < sprites[k].zIndex || (sprites[i].zIndex == sprites[k].zIndex && i < k)
    ensures AllValid(sprites[..k] + sprites[k + 1..])
    ensures Composite(sprites, p, over) ==
            over(sprites[k].pixels[Point(p.x - sprites[k].pos.x, p.y - sprites[k].pos.y)],
                 Composite(sprites[..k] + sprites[k + 1..], p, over))
  {
    hide Layers, Composite;
    var rest := sprites[..k] + sprites[k + 1..];
    TopLayer(sprites, k, p);
    ShowsMeansTouch(sprites[k], p);
    CompositeIsLayers(sprites, p, over);
    CompositeIsLayers(rest, p, over);
    PaintedLast(Layers(rest, p), ShownTouchOf(sprites[k], p)[0], TRANSPARENT, over);
  }

  /** So where colors cover what is under them the topmost surface alone is seen. */
  lemma TopmostShows(sprites: seq<Sprite>, k: nat, p: Point)
    requires AllValid(sprites) && k < |sprites|
    requires var s := sprites[k]; s.visible && s.autoFlush && Point(p.x - s.pos.x, p.y - s.pos.y) in s.pixels
    requires forall i | 0 <= i < |sprites| && i != k && sprites[i].visible && sprites[i].autoFlush
                        && Point(p.x - sprites[i].pos.x, p.y - sprites[i].pos.y) in sprites[i].pixels ::
               sprites[i].zIndex < sprites[k].zIndex || (sprites[i].zIndex == sprites[k].zIndex && i < k)
    ensures Composite(sprites, p, (c: Color, under: Color) => c) ==
            sprites[k].pixels[Point(p.x - sprites[k].pos.x, p.y - sprites[k].pos.y)]
  {
    TopmostIsOver(sprites, k, p, (c: Color, under: Color) => c);
  }

  /** Where no surface shows the picture is transparent. */
  lemma NothingShows(sprites: seq<Sprite>, p: Point, over: Blend)
    requires AllValid(sprites)
    requires forall i | 0 <= i < |sprites| && sprites[i].visible && sprites[i].autoFlush ::
               Point(p.x - sprites[i].pos.x, p.y - sprites[i].pos.y) !in sprites[i].pixels
    ensures Composite(sprites, p, over) == Color(0, 0, 0, 0)
  {
    CompositeIsLayers(sprites, p, over);
    LayersAreTouches(sprites, p);
    TouchesAreOfShown(sprites, p);
    assert forall t :: t !in Layers(sprites, p);
    assert Layers(sprites, p) == [];
  }

  // ----- Leaving out surfaces that have nothing at the cell

  function Keep(sprites: seq<Sprite>, flags: seq<bool>): seq<Sprite>
    requires |sprites| == |flags|
  {
    if sprites == [] then []
    else (if flags[0] then [sprites[0]] else []) + Keep(sprites[1..], flags[1..])
  }

  lemma {:induction false} KeepTouches(sprites: seq<Sprite>, flags: seq<bool>, p: Point)
    requires AllValid(sprites) && |sprites| == |flags|
    requires forall i :: 0 <= i < |sprites| && !flags[i] ==> ShownTouchOf(sprites[i], p) == []
    ensures AllValid(Shown(sprites)) && AllValid(Shown(Keep(sprites, flags)))
    ensures Touches(Shown(Keep(sprites, flags)), p) == Touches(Shown(sprites), p)
  {
    ShownValid(sprites);
    if sprites == [] {
      ShownValid(Keep(sprites, flags));
    } else {
      KeepTouches(sprites[1..], flags[1..], p);
      var rest := Keep(sprites[1..], flags[1..]);
      TouchesOfShown(sprites, p);
      if flags[0] {
        var kept := [sprites[0]] + rest;
        assert kept[1..] == rest;
        KeepValid(sprites, flags);
        TouchesOfShown(kept, p);
      } else {
        assert [] + rest == rest;
        assert [] + Touches(Shown(rest), p) == Touches(Shown(rest), p);
      }
    }
  }

  lemma {:induction false} KeepValid(sprites: seq<Sprite>, flags: seq<bool>)
    requires AllValid(sprites) && |sprites| == |flags|
    ensures AllValid(Keep(sprites, flags))
    ensures forall s :: s in Keep(sprites, flags) ==> s in sprites
  {
    if sprites != [] {
      KeepValid(sprites[1..], flags[1..]);
    }
  }

  /**
   Repainting a cell from some of the surfaces only gives the full repaint, as long as every shown
   surface that has the cell is among them.
   */
  lemma PartialRepaint(sprites: seq<Sprite>, flags: seq<bool>, p: Point, over: Blend)
    requires AllValid(sprites) && |sprites| == |flags|
    requires forall i :: 0 <= i < |sprites| && sprites[i].Shown() && sprites[i].Bounds().Contains(p) ==> flags[i]
    ensures AllValid(Keep(sprites, flags))
    ensures Composite(Keep(sprites, flags), p, over) == Composite(sprites, p, over)
  {
    KeepValid(sprites, flags);
    KeepTouches(sprites, flags, p);
    ShownValid(sprites);
    ShownValid(Keep(sprites, flags));
    PaintSortedTouches(Shown(sprites), p, over);
    PaintSortedTouches(Shown(Keep(sprites, flags)), p, over);
  }

  /** A surface that is not shown changes nothing, wherever it is added. */
  lemma HiddenSprite(sprites: seq<Sprite>, s: Sprite, p: Point, over: Blend)
    requires AllValid(sprites) && s.Valid() && !s.Shown()
    ensures AllValid(sprites + [s]) && Composite(sprites + [s], p, over) == Composite(sprites, p, over)
  {
    ShownWithout(sprites, s);
  }

  lemma {:induction false} ShownWithout(sprites: seq<Sprite>, s: Sprite)
    requires !s.Shown()
    ensures Shown(sprites + [s]) == Shown(sprites)
  {
    if sprites == [] {
      assert [s][1..] == [];
      assert [] + [s] == [s];
    } else {
      assert (sprites + [s])[1..] == sprites[1..] + [s];
      ShownWithout(sprites[1..], s);
    }
  }

  // ----- A surface that stops showing

  /** Counts in its red part how many colors have been put on one another. */
  const COUNTING: Blend := (c: Color, under: Color) => Color(under.r + 1, under.g, under.b, under.alpha)

  lemma {:induction false} PaintCounts(touches: seq<Touch>, base: Color)
    ensures PaintTouches(touches, base, COUNTING).r == base.r + |touches|
  {
    if touches != [] {
      PaintCounts(touches[1..], COUNTING(touches[0].color, base));
    }
  }

  lemma CompositeCounts(sprites: seq<Sprite>, p: Point)
    requires AllValid(sprites)
    ensures AllValid(Shown(sprites)) && Composite(sprites, p, COUNTING).r == |Touches(Shown(sprites), p)|
  {
    ShownValid(sprites);
    PaintSortedTouches(Shown(sprites), p, COUNTING);
    var touches := Touches(Shown(sprites), p);
    StableSortSorted(touches, ByTouchZ());
    assert |multiset(StableSort(touches, ByTouchZ()))| == |multiset(touches)|;
    PaintCounts(StableSort(touches, ByTouchZ()), TRANSPARENT);
  }

  lemma {:induction false} OneTouchLess(before: seq<Sprite>, after: seq<Sprite>, k: nat, p: Point)
    requires AllValid(before) && AllValid(after) && |before| == |after| && k < |before|
    requires forall i :: 0 <= i < |before| && i != k ==> before[i] == after[i]
    requires before[k].Shown() && before[k].Bounds().Contains(p) && !after[k].Shown()
    ensures AllValid(Shown(before)) && AllValid(Shown(after))
    ensures |Touches(Shown(before), p)| == |Touches(Shown(after), p)| + 1
  {
    ShownValid(before);
    ShownValid(after);
    TouchesOfShown(before, p);
    TouchesOfShown(after, p);
    if k == 0 {
      assert before[1..] == after[1..];
    } else {
      OneTouchLess(before[1..], after[1..], k - 1, p);
    }
  }

  /** Hiding a surface changes the picture wherever the surface is, as a blend that counts can tell. */
  lemma HidingIsSeen(before: seq<Sprite>, after: seq<Sprite>, k: nat, p: Point)
    requires AllValid(before) && AllValid(after) && |before| == |after| && k < |before|
    requires forall i :: 0 <= i < |before| && i != k ==> before[i] == after[i]
    requires before[k].Shown() && before[k].Bounds().Contains(p) && !after[k].Shown()
    ensures Composite(before, p, COUNTING) != Composite(after, p, COUNTING)
  {
    CompositeCounts(before, p);
    CompositeCounts(after, p);
    OneTouchLess(before, after, k, p);
  }
}
