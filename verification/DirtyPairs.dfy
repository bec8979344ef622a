/**
 With two stored regions the recursion of `Canvas::invalidateRegion` always ends, whatever the join
 rule; `DirtyTermination` shows that three may be too many.

 The proof goes through the pairs of verdicts.  A join, or a region inside the rectangle, leaves a
 list of at most two.  A piece of a cut is clear of what it was cut by, so that few verdicts remain
 for it, and a region inside the rectangle has no say in what happens.  What is invalidated last is
 covered by the list and the pieces before it, and what two regions cover between them ends.
 */
module DirtyPairs {
  import opened Geometry
  import opened DirtyRegions
  import opened DirtyTermination

  /** The list that a call leaves, if it has the stack it needs. */
  function After(regions: seq<Rect>, rect: Rect, join: JoinRule, depth: nat): Option<seq<Rect>> {
    match Invalidate(regions, rect, join, depth)
    case None => None
    case Some(out) => Some(out.regions)
  }

  function AfterAll(regions: seq<Rect>, rects: seq<Rect>, join: JoinRule, depth: nat): Option<seq<Rect>> {
    match InvalidateEach(regions, rects, join, depth)
    case None => None
    case Some(out) => Some(out.regions)
  }

  lemma AfterAllCons(regions: seq<Rect>, rect: Rect, rest: seq<Rect>, join: JoinRule, depth: nat)
    ensures AfterAll(regions, [], join, depth) == Some(regions)
    ensures AfterAll(regions, [rect] + rest, join, depth) ==
            match After(regions, rect, join, depth)
            case None => None
            case Some(next) => AfterAll(next, rest, join, depth)
  {
    assert ([rect] + rest)[1..] == rest;
  }

  lemma AllOfOne(regions: seq<Rect>, a: Rect, join: JoinRule, depth: nat)
    ensures AfterAll(regions, [a], join, depth) == After(regions, a, join, depth)
  {
    hide After, AfterAll;
    AfterAllCons(regions, a, [], join, depth);
    assert [a] + [] == [a];
    if After(regions, a, join, depth).Some? {
      AfterAllCons(After(regions, a, join, depth).value, a, [], join, depth);
    }
  }

  /** The first of two rectangles leaves `next`. */
  lemma AllOfTwo(regions: seq<Rect>, a: Rect, b: Rect, next: seq<Rect>, join: JoinRule, depth: nat)
    requires After(regions, a, join, depth) == Some(next)
    ensures AfterAll(regions, [a, b], join, depth) == After(next, b, join, depth)
  {
    hide After, AfterAll;
    AfterAllCons(regions, a, [b], join, depth);
    assert [a] + [b] == [a, b];
    AllOfOne(next, b, join, depth);
  }

  lemma AllOfThree(regions: seq<Rect>, a: Rect, b: Rect, c: Rect, next: seq<Rect>, join: JoinRule, depth: nat)
    requires After(regions, a, join, depth) == Some(next)
    ensures AfterAll(regions, [a, b, c], join, depth) == AfterAll(next, [b, c], join, depth)
  {
    hide After, AfterAll;
    AfterAllCons(regions, a, [b, c], join, depth);
    assert [a] + [b, c] == [a, b, c];
  }

  lemma AllOfFour(regions: seq<Rect>, a: Rect, b: Rect, c: Rect, d: Rect, next: seq<Rect>, join: JoinRule, depth: nat)
    requires After(regions, a, join, depth) == Some(next)
    ensures AfterAll(regions, [a, b, c, d], join, depth) == AfterAll(next, [b, c, d], join, depth)
  {
    hide After, AfterAll;
    AfterAllCons(regions, a, [b, c, d], join, depth);
    assert [a] + [b, c, d] == [a, b, c, d];
  }

  // ----- Short lists

  lemma Zero(rect: Rect, join: JoinRule, depth: nat)
    requires depth >= 1 && rect.Proper()
    ensures After([], rect, join, depth) == Some([rect])
  {
    InvalidateEmptyList(rect, join, depth);
  }

  lemma One(region: Rect, rect: Rect, join: JoinRule, depth: nat)
    requires depth >= 2 && rect.Proper() && region.Proper()
    ensures After([region], rect, join, depth) == Some(PairResult(rect, region, join))
    ensures 1 <= |PairResult(rect, region, join)| <= 2
  {
    SingleRegionEnds(rect, region, join, depth);
  }

  // ----- What one pass erases

  /** The stored regions whose verdict does not erase them. */
  function Survivors(rect: Rect, regions: seq<Rect>, join: JoinRule): seq<Rect> {
    if regions == [] then []
    else
      var last := regions[|regions| - 1];
      Survivors(rect, regions[..|regions| - 1], join) + Kept(last, Judge(rect, last, join))
  }

  function Kept(region: Rect, v: Verdict): seq<Rect> {
    if Erases(v) then [] else [region]
  }

  lemma {:induction false} SurvivorsAreKept(rect: Rect, regions: seq<Rect>, join: JoinRule)
    ensures forall r :: r in Survivors(rect, regions, join) ==> !Erases(Judge(rect, r, join))
  {
    hide Judge;
    if regions != [] {
      SurvivorsAreKept(rect, regions[..|regions| - 1], join);
    }
  }

  lemma {:induction false} EraseFirstSkips(front: seq<Rect>, r: Rect, rest: seq<Rect>)
    requires r !in front
    ensures EraseFirst(front + [r] + rest, r) == front + rest
  {
    var all := front + [r] + rest;
    if front == [] {
      assert all[1..] == rest;
    } else {
      assert all[1..] == front[1..] + [r] + rest;
      EraseFirstSkips(front[1..], r, rest);
    }
  }

  /** Erasing by value, one match at a time, removes exactly the regions that were judged so. */
  lemma {:induction false} PassErases(rect: Rect, regions: seq<Rect>, join: JoinRule, k: nat)
    requires k <= |regions|
    ensures EraseEach(regions, ToErase(rect, regions[..k], join)) == Survivors(rect, regions[..k], join) + regions[k..]
  {
    hide Judge, EraseFirst;
    if k > 0 {
      var r := regions[k - 1];
      var before := Survivors(rect, regions[..k - 1], join);
      assert regions[..k][..k - 1] == regions[..k - 1];
      PassErases(rect, regions, join, k - 1);
      assert regions[k - 1..] == [r] + regions[k..];
      var toErase := ToErase(rect, regions[..k - 1], join);
      if Erases(Judge(rect, r, join)) {
        SurvivorsAreKept(rect, regions[..k - 1], join);
        EraseEachUnfolds(regions, toErase, r);
        assert before + regions[k - 1..] == before + [r] + regions[k..];
        EraseFirstSkips(before, r, regions[k..]);
      } else {
        assert toErase + [] == toErase;
        assert before + regions[k - 1..] == before + [r] + regions[k..];
      }
    }
  }

  lemma EraseEachUnfolds(regions: seq<Rect>, rects: seq<Rect>, last: Rect)
    ensures EraseEach(regions, rects + [last]) == EraseFirst(EraseEach(regions, rects), last)
  {
    assert (rects + [last])[..|rects|] == rects;
  }

  /** One pass: the regions that survive, and what is invalidated on top of them. */
  lemma Pass(regions: seq<Rect>, rect: Rect, join: JoinRule, depth: nat)
    requires depth >= 1 && rect.Proper()
    ensures After(regions, rect, join, depth) ==
            if IsCovered(rect, regions) then Some(regions)
            else if ToAdd(rect, regions, join) == [] then Some(Survivors(rect, regions, join) + [rect])
            else AfterAll(Survivors(rect, regions, join), ToAdd(rect, regions, join), join, depth - 1)
  {
    hide Judge, ToErase, ToAdd, EraseEach, IsCovered, Survivors;
    PassErases(rect, regions, join, |regions|);
    assert regions[..|regions|] == regions && regions[|regions|..] == [];
    assert Survivors(rect, regions, join) + [] == Survivors(rect, regions, join);
  }

  lemma Two(a: Rect, b: Rect, rect: Rect, join: JoinRule, depth: nat)
    requires depth >= 1 && rect.Proper()
    ensures var va, vb := Judge(rect, a, join), Judge(rect, b, join);
            var kept, toAdd := Kept(a, va) + Kept(b, vb), Additions(va, rect) + Additions(vb, rect);
            After([a, b], rect, join, depth) ==
            if va.Covered? || vb.Covered? then Some([a, b])
            else if toAdd == [] then Some(kept + [rect])
            else AfterAll(kept, toAdd, join, depth - 1)
  {
    hide Judge, ToErase, ToAdd, IsCovered, After, AfterAll, Kept, Additions;
    PassOverTwo(rect, a, b, join);
    Pass([a, b], rect, join, depth);
    SurvivorsOfTwo(rect, a, b, join);
  }

  lemma SurvivorsOfTwo(rect: Rect, a: Rect, b: Rect, join: JoinRule)
    ensures Survivors(rect, [a, b], join) == Kept(a, Judge(rect, a, join)) + Kept(b, Judge(rect, b, join))
  {
    hide Judge, Kept;
    assert [a, b][..1] == [a] && [a][..0] == [];
    assert Survivors(rect, [a], join) == [] + Kept(a, Judge(rect, a, join));
  }

  lemma Three(a: Rect, b: Rect, c: Rect, rect: Rect, join: JoinRule, depth: nat)
    requires depth >= 1 && rect.Proper()
    ensures var va, vb, vc := Judge(rect, a, join), Judge(rect, b, join), Judge(rect, c, join);
            var kept := Kept(a, va) + Kept(b, vb) + Kept(c, vc);
            var toAdd := Additions(va, rect) + Additions(vb, rect) + Additions(vc, rect);
            After([a, b, c], rect, join, depth) ==
            if va.Covered? || vb.Covered? || vc.Covered? then Some([a, b, c])
            else if toAdd == [] then Some(kept + [rect])
            else AfterAll(kept, toAdd, join, depth - 1)
  {
    hide Judge, ToErase, ToAdd, IsCovered, After, AfterAll, Kept, Additions;
    PassOverThree(rect, a, b, c, join);
    Pass([a, b, c], rect, join, depth);
    assert [a, b, c][..2] == [a, b];
    SurvivorsOfTwo(rect, a, b, join);
  }

  /** A pass over two regions that keeps `kept` and goes on with `toAdd`. */
  lemma Marks(a: Rect, b: Rect, rect: Rect, kept: seq<Rect>, toAdd: seq<Rect>, join: JoinRule, depth: nat)
    requires depth >= 1 && rect.Proper() && !Judge(rect, a, join).Covered? && !Judge(rect, b, join).Covered?
    requires kept == Kept(a, Judge(rect, a, join)) + Kept(b, Judge(rect, b, join))
    requires toAdd == Additions(Judge(rect, a, join), rect) + Additions(Judge(rect, b, join), rect)
    ensures After([a, b], rect, join, depth) ==
            if toAdd == [] then Some(kept + [rect]) else AfterAll(kept, toAdd, join, depth - 1)
  {
    hide Judge, After, AfterAll, Kept, Additions;
    Two(a, b, rect, join, depth);
  }

  // ----- What the verdicts say

  lemma Trims(rect: Rect, region: Rect, join: JoinRule)
    requires rect.Proper() && region.Proper() && Judge(rect, region, join).Trimmed?
    ensures var piece := Judge(rect, region, join).piece;
            && piece.Proper() && rect.Includes(piece) && !piece.Overlaps(region) && Judge(piece, region, join).Apart?
            && rect.GoesInto(region)
            && forall p: Point :: rect.Contains(p) ==> piece.Contains(p) || region.Contains(p)
  {
    TrimmedPiece(rect, region, join);
    CutIsFinal(rect, region, join);
  }

  lemma Splits(rect: Rect, region: Rect, join: JoinRule)
    requires rect.Proper() && region.Proper() && Judge(rect, region, join).Split?
    ensures var piece := Judge(rect, region, join).piece;
            && piece.Proper() && region.Includes(piece) && !piece.Overlaps(rect) && !rect.Overlaps(piece)
            && Judge(rect, piece, join).Apart? && Judge(piece, rect, join).Apart?
            && !rect.GoesInto(region)
            && forall p: Point :: region.Contains(p) ==> piece.Contains(p) || rect.Contains(p)
  {
    SplitPiece(rect, region, join);
    CutIsFinal(rect, region, join);
    OverlapHasArea(rect, Judge(rect, region, join).piece);
  }

  lemma Joins(rect: Rect, region: Rect, join: JoinRule)
    requires rect.Proper() && region.Proper() && Judge(rect, region, join).Joined?
    ensures var whole := Judge(rect, region, join).whole;
            whole.Proper() && whole.Includes(rect) && whole.Includes(region)
  {
  }

  lemma Disjoint(rect: Rect, region: Rect, join: JoinRule)
    requires rect.Proper() && region.Proper() && !rect.Overlaps(region)
    ensures Judge(rect, region, join).Apart? || Judge(rect, region, join).Joined?
    ensures Judge(rect, region, join).Apart? ==> Judge(region, rect, join).Apart?
  {
    OverlapHasArea(rect, region);
    DisjointVerdict(rect, region, join);
    DisjointVerdict(region, rect, join);
    assert rect.Encompass(region) == region.Encompass(rect);
  }

  lemma PartIsDisjoint(whole: Rect, part: Rect, other: Rect)
    requires whole.Includes(part) && (!whole.Overlaps(other) || !other.Overlaps(whole))
    ensures !part.Overlaps(other) && !other.Overlaps(part)
  {
  }

  lemma IncludesVerdict(rect: Rect, region: Rect, join: JoinRule)
    ensures rect.Includes(region) ==> Judge(rect, region, join).Covered? || Judge(rect, region, join).Absorbed?
    ensures region.Includes(rect) <==> Judge(rect, region, join).Covered?
    ensures Judge(rect, region, join).Absorbed? ==> rect.Includes(region)
  {
  }

  /** What is inside a rectangle and shares nothing with a region is inside what the region leaves of it. */
  lemma InsideTheRest(whole: Rect, region: Rect, rest: Rect, q: Rect)
    requires q.Proper() && whole.Includes(q) && !q.Overlaps(region)
    requires forall p: Point :: whole.Contains(p) ==> rest.Contains(p) || region.Contains(p)
    ensures rest.Includes(q)
  {
    IncludesIsSubset(whole, q);
    NoCommonCell(q, region);
    IncludesIsSubset(rest, q);
  }

  lemma NoCommonCell(a: Rect, b: Rect)
    requires !a.Overlaps(b)
    ensures forall p: Point :: a.Contains(p) ==> !b.Contains(p)
  {
  }

  // ----- Lists that a rectangle does not grow

  predicate Small(result: Option<seq<Rect>>) {
    result.Some? && |result.value| <= 2
  }

  lemma AlreadyIn(regions: seq<Rect>, r: Rect, rect: Rect, join: JoinRule, depth: nat)
    requires depth >= 1 && r in regions && r.Includes(rect)
    ensures After(regions, rect, join, depth) == Some(regions)
  {
    assert IsCovered(rect, regions);
  }

  /** The additions of a single region, once the pass over it is done. */
  lemma Alone(region: Rect, rect: Rect, join: JoinRule, depth: nat)
    requires depth >= 2 && rect.Proper() && region.Proper()
    ensures var v := Judge(rect, region, join);
            Additions(v, rect) != [] ==> Small(AfterAll(Kept(region, v), Additions(v, rect), join, depth))
  {
    hide Judge, After, AfterAll;
    var v := Judge(rect, region, join);
    if Additions(v, rect) != [] {
      One(region, rect, join, depth + 1);
      Pass([region], rect, join, depth + 1);
      PassOverOne(rect, region, join);
      IncludesVerdict(rect, region, join);
      assert [region][..0] == [];
      assert Survivors(rect, [region], join) == [] + Kept(region, v) == Kept(region, v);
    }
  }

  /** A rectangle that includes one of two regions. */
  lemma AbsorbsOne(a: Rect, b: Rect, rect: Rect, join: JoinRule, depth: nat)
    requires depth >= 3 && rect.Proper() && a.Proper() && b.Proper()
    requires rect.Includes(a) || rect.Includes(b)
    ensures Small(After([a, b], rect, join, depth))
  {
    hide Judge, After, AfterAll;
    IncludesVerdict(rect, a, join);
    IncludesVerdict(rect, b, join);
    var va, vb := Judge(rect, a, join), Judge(rect, b, join);
    if va.Covered? || vb.Covered? {
      Two(a, b, rect, join, depth);
    } else if va.Absorbed? {
      Alone(b, rect, join, depth - 1);
      Marks(a, b, rect, Kept(b, vb), Additions(vb, rect), join, depth);
    } else {
      Alone(a, rect, join, depth - 1);
      Marks(a, b, rect, Kept(a, va), Additions(va, rect), join, depth);
    }
  }

  /** A rectangle with no cell in common with either region. */
  lemma FreeOfBoth(a: Rect, b: Rect, rect: Rect, join: JoinRule, depth: nat)
    requires depth >= 3 && rect.Proper() && a.Proper() && b.Proper()
    requires !rect.Overlaps(a) && !rect.Overlaps(b)
    ensures var result := After([a, b], rect, join, depth); Small(result) || result == Some([a, b, rect])
  {
    hide Judge, After, AfterAll, PairResult, Rect.Overlaps;
    Disjoint(rect, a, join);
    Disjoint(rect, b, join);
    match (Judge(rect, a, join), Judge(rect, b, join))
    case (Apart, Apart) =>
      assert [a, b] + [rect] == [a, b, rect];
      Marks(a, b, rect, [a, b], [], join, depth);
    case (Apart, Joined(w)) =>
      Joins(rect, b, join);
      Marks(a, b, rect, [a], [w], join, depth);
      AllOfOne([a], w, join, depth - 1);
      One(a, w, join, depth - 1);
    case (Joined(w), Apart) =>
      Joins(rect, a, join);
      Marks(a, b, rect, [b], [w], join, depth);
      AllOfOne([b], w, join, depth - 1);
      One(b, w, join, depth - 1);
    case (Joined(v), Joined(w)) =>
      Joins(rect, a, join);
      Joins(rect, b, join);
      Zero(v, join, depth - 1);
      Marks(a, b, rect, [], [v, w], join, depth);
      AllOfTwo([], v, w, [v], join, depth - 1);
      One(v, w, join, depth - 1);
  }

  /** A list that can take `rect` without growing past two regions. */
  predicate Takes(regions: seq<Rect>, rect: Rect) {
    || (|regions| == 2 && exists r :: r in regions && r.Includes(rect))
    || (|regions| == 1 && regions[0].Proper())
  }

  lemma TakesIsSmall(regions: seq<Rect>, rect: Rect, join: JoinRule, depth: nat)
    requires depth >= 2 && rect.Proper() && Takes(regions, rect)
    ensures Small(After(regions, rect, join, depth))
  {
    hide After, PairResult;
    if |regions| == 2 && exists r :: r in regions && r.Includes(rect) {
      var r :| r in regions && r.Includes(rect);
      AlreadyIn(regions, r, rect, join, depth);
    } else {
      assert regions == [regions[0]];
      One(regions[0], rect, join, depth);
    }
  }

  /** What was inside one of two rectangles and outside the other still is, however they combine. */
  lemma InsideStays(whole: Rect, other: Rect, q: Rect, join: JoinRule)
    requires whole.Proper() && other.Proper() && q.Proper() && whole.Includes(q) && !q.Overlaps(other)
    ensures Takes(PairResult(whole, other, join), q) && Takes(PairResult(other, whole, join), q)
  {
    InsideStaysOnTop(whole, other, q, join);
    InsideStaysBelow(whole, other, q, join);
  }

  lemma InsideStaysOnTop(whole: Rect, other: Rect, q: Rect, join: JoinRule)
    requires whole.Proper() && other.Proper() && q.Proper() && whole.Includes(q) && !q.Overlaps(other)
    ensures Takes(PairResult(whole, other, join), q)
  {
    hide Judge, Rect.Overlaps;
    var result := PairResult(whole, other, join);
    match Judge(whole, other, join)
    case Trimmed(piece) =>
      Trims(whole, other, join);
      InsideTheRest(whole, other, piece, q);
      assert piece in result;
    case Joined(w) => Joins(whole, other, join);
    case _ => assert whole in result || |result| == 1;
  }

  lemma InsideStaysBelow(whole: Rect, other: Rect, q: Rect, join: JoinRule)
    requires whole.Proper() && other.Proper() && q.Proper() && whole.Includes(q) && !q.Overlaps(other)
    ensures Takes(PairResult(other, whole, join), q)
  {
    hide Judge, Rect.Overlaps;
    var result := PairResult(other, whole, join);
    match Judge(other, whole, join)
    case Split(piece) =>
      Splits(other, whole, join);
      InsideTheRest(whole, other, piece, q);
      assert piece in result;
    case Joined(w) => Joins(other, whole, join);
    case _ => assert whole in result || |result| == 1;
  }

  /** The first of two regions is joined. */
  lemma JoinsFirst(a: Rect, b: Rect, rect: Rect, join: JoinRule, depth: nat)
    requires depth >= 3 && rect.Proper() && a.Proper() && b.Proper() && Judge(rect, a, join).Joined?
    ensures Small(After([a, b], rect, join, depth))
  {
    hide Judge, After, AfterAll, PairResult, Rect.Overlaps;
    Joins(rect, a, join);
    var w := Judge(rect, a, join).whole;
    Zero(w, join, depth - 1);
    match Judge(rect, b, join)
    case Covered => Two(a, b, rect, join, depth);
    case Absorbed =>
      Marks(a, b, rect, [], [w], join, depth);
      AllOfOne([], w, join, depth - 1);
    case Apart =>
      Marks(a, b, rect, [b], [w], join, depth);
      AllOfOne([b], w, join, depth - 1);
      One(b, w, join, depth - 1);
    case Joined(v) =>
      Marks(a, b, rect, [], [w, v], join, depth);
      Joins(rect, b, join);
      AllOfTwo([], w, v, [w], join, depth - 1);
      One(w, v, join, depth - 1);
    case Trimmed(q) =>
      Marks(a, b, rect, [b], [w, q], join, depth);
      Trims(rect, b, join);
      One(b, w, join, depth - 1);
      AllOfTwo([b], w, q, PairResult(w, b, join), join, depth - 1);
      InsideStays(w, b, q, join);
      TakesIsSmall(PairResult(w, b, join), q, join, depth - 1);
    case Split(y) =>
      Marks(a, b, rect, [], [w, y, rect], join, depth);
      Splits(rect, b, join);
      One(w, y, join, depth - 1);
      AllOfThree([], w, y, rect, [w], join, depth - 1);
      AllOfTwo([w], y, rect, PairResult(y, w, join), join, depth - 1);
      InsideStays(w, y, rect, join);
      TakesIsSmall(PairResult(y, w, join), rect, join, depth - 1);
  }

  /** The second of two regions is joined. */
  lemma JoinsSecond(a: Rect, b: Rect, rect: Rect, join: JoinRule, depth: nat)
    requires depth >= 4 && rect.Proper() && a.Proper() && b.Proper() && Judge(rect, b, join).Joined?
    ensures Small(After([a, b], rect, join, depth))
  {
    hide Judge, After, AfterAll, PairResult, Rect.Overlaps;
    Joins(rect, b, join);
    var w := Judge(rect, b, join).whole;
    Zero(w, join, depth - 1);
    match Judge(rect, a, join)
    case Covered => Two(a, b, rect, join, depth);
    case Absorbed =>
      Marks(a, b, rect, [], [w], join, depth);
      AllOfOne([], w, join, depth - 1);
    case Apart =>
      Marks(a, b, rect, [a], [w], join, depth);
      AllOfOne([a], w, join, depth - 1);
      One(a, w, join, depth - 1);
    case Joined(v) => JoinsFirst(a, b, rect, join, depth);
    case Trimmed(p) =>
      Marks(a, b, rect, [a], [p, w], join, depth);
      Trims(rect, a, join);
      AddsPiece(a, p, join, depth - 1);
      AllOfTwo([a], p, w, [a, p], join, depth - 1);
      AbsorbsOne(a, p, w, join, depth - 1);
    case Split(x) =>
      Marks(a, b, rect, [], [x, rect, w], join, depth);
      Splits(rect, a, join);
      Zero(x, join, depth - 1);
      AddsPiece(x, rect, join, depth - 1);
      AllOfThree([], x, rect, w, [x], join, depth - 1);
      AllOfTwo([x], rect, w, [x, rect], join, depth - 1);
      AbsorbsOne(x, rect, w, join, depth - 1);
  }

  lemma AddsPiece(region: Rect, rect: Rect, join: JoinRule, depth: nat)
    requires depth >= 1 && rect.Proper() && Judge(rect, region, join).Apart?
    ensures After([region], rect, join, depth) == Some([region, rect])
  {
    ApartIsAdded(rect, region, join, depth);
  }

  lemma JoinsOne(a: Rect, b: Rect, rect: Rect, join: JoinRule, depth: nat)
    requires depth >= 4 && rect.Proper() && a.Proper() && b.Proper()
    requires Judge(rect, a, join).Joined? || Judge(rect, b, join).Joined?
    ensures Small(After([a, b], rect, join, depth))
  {
    hide Judge, After;
    if Judge(rect, a, join).Joined? {
      JoinsFirst(a, b, rect, join, depth);
    } else {
      JoinsSecond(a, b, rect, join, depth);
    }
  }

  // ----- A rectangle that is clear of one region

  /** The rest of a split region is put back, then the rectangle that split it. */
  lemma SplitThenRect(other: Rect, piece: Rect, rect: Rect, join: JoinRule, depth: nat)
    requires depth >= 3 && rect.Proper() && other.Proper() && piece.Proper()
    requires !rect.Overlaps(other) && !rect.Overlaps(piece)
    ensures After(PairResult(piece, other, join), rect, join, depth).Some?
  {
    hide Judge, After, AfterAll, Rect.Overlaps;
    match Judge(piece, other, join)
    case Trimmed(x) =>
      Trims(piece, other, join);
      PartIsDisjoint(piece, x, rect);
      FreeOfBoth(other, x, rect, join, depth);
    case Split(o) =>
      Splits(piece, other, join);
      PartIsDisjoint(other, o, rect);
      FreeOfBoth(o, piece, rect, join, depth);
    case Apart => FreeOfBoth(other, piece, rect, join, depth);
    case Joined(w) =>
      Joins(piece, other, join);
      One(w, rect, join, depth);
    case Absorbed => One(piece, rect, join, depth);
    case Covered => One(other, rect, join, depth);
  }

  /** Three regions: `b`, a part of `rect`, and in front of that part something else. */
  predicate Flanked(regions: seq<Rect>, b: Rect, rect: Rect, other: Rect, part: Rect) {
    && (regions == [other, b, part] || regions == [b, other, part])
    && other.Proper() && part.Proper() && rect.Includes(part)
  }

  /** A rectangle clear of the second region; if the first is too, the second region is not touched. */
  lemma FreeOfSecond(a: Rect, b: Rect, rect: Rect, join: JoinRule, depth: nat) returns (other: Rect, part: Rect)
    requires depth >= 4 && rect.Proper() && a.Proper() && b.Proper() && !rect.Overlaps(b)
    ensures var result := After([a, b], rect, join, depth);
            && result.Some?
            && (!a.Overlaps(b) ==> Small(result) || Flanked(result.value, b, rect, other, part))
  {
    hide Judge, After, AfterAll, PairResult, Rect.Overlaps, Rect.Includes;
    other, part := a, rect;
    Disjoint(rect, b, join);
    IncludesItself(rect);
    if Judge(rect, b, join).Joined? || Judge(rect, a, join).Joined? {
      JoinsOne(a, b, rect, join, depth);
    } else {
      match Judge(rect, a, join)
      case Covered => Two(a, b, rect, join, depth);
      case Absorbed => Marks(a, b, rect, [b], [], join, depth);
      case Apart =>
        Marks(a, b, rect, [a, b], [], join, depth);
        assert [a, b] + [rect] == [a, b, rect];
      case Trimmed(z) =>
        Trims(rect, a, join);
        PartIsDisjoint(rect, z, b);
        Marks(a, b, rect, [a, b], [z], join, depth);
        AllOfOne([a, b], z, join, depth - 1);
        FreeOfBoth(a, b, z, join, depth - 1);
        part := z;
      case Split(y) =>
        Splits(rect, a, join);
        Marks(a, b, rect, [b], [y, rect], join, depth);
        One(b, y, join, depth - 1);
        AllOfTwo([b], y, rect, PairResult(y, b, join), join, depth - 1);
        SplitThenRect(b, y, rect, join, depth - 1);
        if !a.Overlaps(b) {
          PartIsDisjoint(a, y, b);
          DisjointThenRect(b, y, rect, join, depth - 1);
        }
        other := y;
    }
  }

  lemma IncludesItself(rect: Rect)
    ensures rect.Includes(rect)
  {
  }

  /** `SplitThenRect`, when all three are clear of each other. */
  lemma DisjointThenRect(other: Rect, piece: Rect, rect: Rect, join: JoinRule, depth: nat)
    requires depth >= 3 && rect.Proper() && other.Proper() && piece.Proper()
    requires !rect.Overlaps(other) && !rect.Overlaps(piece) && !piece.Overlaps(other)
    ensures var result := After(PairResult(piece, other, join), rect, join, depth);
            Small(result) || result == Some([other, piece, rect])
  {
    hide Judge, After, AfterAll, Rect.Overlaps;
    Disjoint(piece, other, join);
    match Judge(piece, other, join)
    case Apart => FreeOfBoth(other, piece, rect, join, depth);
    case Joined(w) =>
      Joins(piece, other, join);
      One(w, rect, join, depth);
  }

  lemma FreeOfFirst(a: Rect, b: Rect, rect: Rect, join: JoinRule, depth: nat)
    requires depth >= 4 && rect.Proper() && a.Proper() && b.Proper() && !rect.Overlaps(a)
    ensures After([a, b], rect, join, depth).Some?
  {
    hide Judge, After, AfterAll, PairResult, Rect.Overlaps;
    Disjoint(rect, a, join);
    if Judge(rect, b, join).Joined? || Judge(rect, a, join).Joined? {
      JoinsOne(a, b, rect, join, depth);
    } else {
      match Judge(rect, b, join)
      case Covered => Two(a, b, rect, join, depth);
      case Absorbed => Marks(a, b, rect, [a], [], join, depth);
      case Apart => Marks(a, b, rect, [a, b], [], join, depth);
      case Trimmed(z) =>
        Trims(rect, b, join);
        PartIsDisjoint(rect, z, a);
        Marks(a, b, rect, [a, b], [z], join, depth);
        AllOfOne([a, b], z, join, depth - 1);
        FreeOfBoth(a, b, z, join, depth - 1);
      case Split(y) =>
        Splits(rect, b, join);
        Marks(a, b, rect, [a], [y, rect], join, depth);
        One(a, y, join, depth - 1);
        AllOfTwo([a], y, rect, PairResult(y, a, join), join, depth - 1);
        SplitThenRect(a, y, rect, join, depth - 1);
    }
  }

  /** The rest of a split region is put back, then the rectangle, which may overlap the other region. */
  lemma SplitBeside(other: Rect, piece: Rect, rect: Rect, join: JoinRule, depth: nat)
    requires depth >= 4 && rect.Proper() && other.Proper() && piece.Proper() && !rect.Overlaps(piece)
    ensures After(PairResult(piece, other, join), rect, join, depth).Some?
  {
    hide Judge, After, AfterAll, Rect.Overlaps;
    match Judge(piece, other, join)
    case Trimmed(x) =>
      Trims(piece, other, join);
      PartIsDisjoint(piece, x, rect);
      var _, _ := FreeOfSecond(other, x, rect, join, depth);
    case Split(o) =>
      Splits(piece, other, join);
      var _, _ := FreeOfSecond(o, piece, rect, join, depth);
    case Apart =>
      var _, _ := FreeOfSecond(other, piece, rect, join, depth);
    case Joined(w) =>
      Joins(piece, other, join);
      One(w, rect, join, depth);
    case Absorbed => One(piece, rect, join, depth);
    case Covered => One(other, rect, join, depth);
  }

  /** One of three regions is inside the rectangle: the call goes on as if it were not there. */
  lemma Forgotten(a: Rect, b: Rect, c: Rect, rect: Rect, join: JoinRule, depth: nat)
    requires depth >= 1 && rect.Proper()
    ensures rect.Includes(a) && After([b, c], rect, join, depth).Some? ==> After([a, b, c], rect, join, depth).Some?
    ensures rect.Includes(b) && After([a, c], rect, join, depth).Some? ==> After([a, b, c], rect, join, depth).Some?
    ensures rect.Includes(c) && After([a, b], rect, join, depth).Some? ==> After([a, b, c], rect, join, depth).Some?
  {
    hide Judge, After, AfterAll;
    Three(a, b, c, rect, join, depth);
    IncludesVerdict(rect, a, join);
    IncludesVerdict(rect, b, join);
    IncludesVerdict(rect, c, join);
    var va, vb, vc := Judge(rect, a, join), Judge(rect, b, join), Judge(rect, c, join);
    if !va.Covered? && !vb.Covered? && !vc.Covered? {
      var kept := Kept(a, va) + Kept(b, vb) + Kept(c, vc);
      var toAdd := Additions(va, rect) + Additions(vb, rect) + Additions(vc, rect);
      if va.Absorbed? {
        Marks(b, c, rect, kept, toAdd, join, depth);
      }
      if vb.Absorbed? {
        Marks(a, c, rect, kept, toAdd, join, depth);
      }
      if vc.Absorbed? {
        Marks(a, b, rect, kept, toAdd, join, depth);
      }
    }
  }

  // ----- A rectangle that two regions cover between them

  /** Two rectangles that cover a third, neither of them alone, leave it one strip each. */
  lemma TwoStrips(a: Rect, b: Rect, rect: Rect)
    requires rect.Proper() && !a.Includes(rect) && !b.Includes(rect)
    requires forall p: Point :: rect.Contains(p) ==> a.Contains(p) || b.Contains(p)
    ensures rect.GoesInto(a) && rect.Overlaps(a)
  {
    var right, bottom := rect.x + rect.w - 1, rect.y + rect.h - 1;
    assert rect.Contains(Point(rect.x, rect.y)) && rect.Contains(Point(right, rect.y));
    assert rect.Contains(Point(rect.x, bottom)) && rect.Contains(Point(right, bottom));
  }

  /** A rectangle that goes into a region never splits it, and stays apart only if it is clear of it. */
  lemma GoesIntoVerdict(rect: Rect, region: Rect, join: JoinRule)
    requires rect.GoesInto(region)
    ensures !Judge(rect, region, join).Split?
    ensures Judge(rect, region, join).Apart? ==> !rect.Overlaps(region)
  {
    OverlapHasArea(rect, region);
  }

  lemma FilledByTwo(a: Rect, b: Rect, rect: Rect, join: JoinRule, depth: nat)
    requires depth >= 4 && rect.Proper() && a.Proper() && b.Proper()
    requires forall p: Point :: rect.Contains(p) ==> a.Contains(p) || b.Contains(p)
    ensures Small(After([a, b], rect, join, depth))
  {
    hide Judge, After, AfterAll, Rect.Overlaps, Rect.GoesInto;
    if a.Includes(rect) {
      AlreadyIn([a, b], a, rect, join, depth);
    } else if b.Includes(rect) {
      AlreadyIn([a, b], b, rect, join, depth);
    } else if rect.Includes(a) || rect.Includes(b) {
      AbsorbsOne(a, b, rect, join, depth);
    } else {
      TwoStrips(a, b, rect);
      TwoStrips(b, a, rect);
      IncludesVerdict(rect, a, join);
      IncludesVerdict(rect, b, join);
      GoesIntoVerdict(rect, a, join);
      GoesIntoVerdict(rect, b, join);
      FilledByStrips(a, b, rect, join, depth);
    }
  }

  lemma FilledByStrips(a: Rect, b: Rect, rect: Rect, join: JoinRule, depth: nat)
    requires depth >= 4 && rect.Proper() && a.Proper() && b.Proper()
    requires forall p: Point :: rect.Contains(p) ==> a.Contains(p) || b.Contains(p)
    requires Judge(rect, a, join).Joined? || Judge(rect, a, join).Trimmed?
    requires Judge(rect, b, join).Joined? || Judge(rect, b, join).Trimmed?
    ensures Small(After([a, b], rect, join, depth))
  {
    hide Judge, After, AfterAll, Rect.Overlaps, Rect.GoesInto;
    var va, vb := Judge(rect, a, join), Judge(rect, b, join);
    if va.Joined? || vb.Joined? {
      JoinsOne(a, b, rect, join, depth);
    } else {
      Trims(rect, a, join);
      Trims(rect, b, join);
      InsideTheRest(rect, a, b, va.piece);
      InsideTheRest(rect, b, a, vb.piece);
      Marks(a, b, rect, [a, b], [va.piece, vb.piece], join, depth);
      AlreadyIn([a, b], b, va.piece, join, depth - 1);
      AllOfTwo([a, b], va.piece, vb.piece, [a, b], join, depth - 1);
      AlreadyIn([a, b], a, vb.piece, join, depth - 1);
    }
  }

  // ----- What a short list still covers

  ghost predicate Fills(q: Rect, regions: seq<Rect>) {
    forall p: Point :: q.Contains(p) ==> CoveredBy(p, regions)
  }

  predicate AllProper(regions: seq<Rect>) {
    forall r :: r in regions ==> r.Proper()
  }

  lemma {:induction false} HasBox(regions: seq<Rect>) returns (box: Rect)
    requires AllProper(regions)
    ensures Within(regions, box)
  {
    if regions == [] {
      box := Rect(0, 0, 1, 1);
    } else {
      var rest := HasBox(regions[1..]);
      box := regions[0].Encompass(rest);
      assert regions == [regions[0]] + regions[1..];
    }
  }

  /** After a call, every rectangle that the list and the argument covered is covered by the list. */
  lemma CoverStays(regions: seq<Rect>, rect: Rect, q: Rect, join: JoinRule, depth: nat)
    requires AllProper(regions) && rect.Proper() && After(regions, rect, join, depth).Some?
    requires forall p: Point :: q.Contains(p) ==> CoveredBy(p, regions) || rect.Contains(p)
    ensures var next := After(regions, rect, join, depth).value; AllProper(next) && Fills(q, next)
  {
    hide Invalidate, CoveredBy;
    assert AllProper([rect] + regions);
    var box := HasBox([rect] + regions);
    assert Within(regions, box) && Within([rect], box);
    InvalidateStaysWithin(regions, rect, join, depth, box);
    forall p: Point | q.Contains(p)
      ensures CoveredBy(p, After(regions, rect, join, depth).value)
    {
      InvalidateCovers(regions, rect, join, depth, p);
    }
  }

  lemma FilledBySmall(regions: seq<Rect>, q: Rect, join: JoinRule, depth: nat)
    requires depth >= 4 && q.Proper() && |regions| <= 2 && AllProper(regions) && Fills(q, regions)
    ensures After(regions, q, join, depth).Some?
  {
    hide After, Judge, PairResult;
    if |regions| == 0 {
      assert regions == [];
      Zero(q, join, depth);
    } else if |regions| == 1 {
      assert regions == [regions[0]];
      One(regions[0], q, join, depth);
    } else {
      assert regions == [regions[0], regions[1]];
      forall p: Point | q.Contains(p)
        ensures regions[0].Contains(p) || regions[1].Contains(p)
      {
        assert CoveredBy(p, regions);
      }
      FilledByTwo(regions[0], regions[1], q, join, depth);
    }
  }

  /** A second rectangle, inside what the list and the first one cover, when the first leaves a short list. */
  lemma SecondIsFilled(regions: seq<Rect>, first: Rect, second: Rect, join: JoinRule, depth: nat)
    requires depth >= 4 && AllProper(regions) && first.Proper() && second.Proper()
    requires forall p: Point :: second.Contains(p) ==> CoveredBy(p, regions) || first.Contains(p)
    requires Small(After(regions, first, join, depth))
    ensures AfterAll(regions, [first, second], join, depth).Some?
  {
    hide After, AfterAll;
    var next := After(regions, first, join, depth).value;
    AllOfTwo(regions, first, second, next, join, depth);
    CoverStays(regions, first, second, join, depth);
    FilledBySmall(next, second, join, depth);
  }

  // ----- Both verdicts cut

  lemma SplitsBoth(a: Rect, b: Rect, rect: Rect, join: JoinRule, depth: nat)
    requires depth >= 5 && rect.Proper() && a.Proper() && b.Proper()
    requires Judge(rect, a, join).Split? && Judge(rect, b, join).Split?
    ensures After([a, b], rect, join, depth).Some?
  {
    hide Judge, After, AfterAll, Rect.Overlaps, CoveredBy, Fills;
    var x, y := Judge(rect, a, join).piece, Judge(rect, b, join).piece;
    Splits(rect, a, join);
    Splits(rect, b, join);
    Marks(a, b, rect, [], [x, rect, y, rect], join, depth);
    Zero(x, join, depth - 1);
    AllOfFour([], x, rect, y, rect, [x], join, depth - 1);
    AddsPiece(x, rect, join, depth - 1);
    AllOfThree([x], rect, y, rect, [x, rect], join, depth - 1);
    var other, part := FreeOfSecond(x, rect, y, join, depth - 1);
    if Small(After([x, rect], y, join, depth - 1)) {
      InList(rect, [x, rect]);
      SecondIsFilled([x, rect], y, rect, join, depth - 1);
    } else {
      var next := After([x, rect], y, join, depth - 1).value;
      IncludesItself(rect);
      AllOfTwo([x, rect], y, rect, next, join, depth - 1);
      AlreadyIn(next, rect, rect, join, depth - 1);
    }
  }

  lemma InList(r: Rect, regions: seq<Rect>)
    requires r in regions
    ensures Fills(r, regions)
  {
  }

  lemma TrimsFirstSplitsSecond(a: Rect, b: Rect, rect: Rect, join: JoinRule, depth: nat)
    requires depth >= 5 && rect.Proper() && a.Proper() && b.Proper()
    requires Judge(rect, a, join).Trimmed? && Judge(rect, b, join).Split?
    ensures After([a, b], rect, join, depth).Some?
  {
    hide Judge, After, AfterAll, Rect.Overlaps, CoveredBy;
    var p, y := Judge(rect, a, join).piece, Judge(rect, b, join).piece;
    Trims(rect, a, join);
    Splits(rect, b, join);
    Marks(a, b, rect, [a], [p, y, rect], join, depth);
    AddsPiece(a, p, join, depth - 1);
    AllOfThree([a], p, y, rect, [a, p], join, depth - 1);
    PartIsDisjoint(rect, p, y);
    OverlapHasArea(a, p);
    var other, part := FreeOfSecond(a, p, y, join, depth - 1);
    if Small(After([a, p], y, join, depth - 1)) {
      FilledByParts(a, p, rect);
      SecondIsFilled([a, p], y, rect, join, depth - 1);
    } else {
      PartIsDisjoint(y, part, rect);
      var _, _ := FreeOfSecond(other, part, rect, join, depth - 1);
      Forgotten(other, p, part, rect, join, depth - 1);
      Forgotten(p, other, part, rect, join, depth - 1);
      AllOfTwo([a, p], y, rect, After([a, p], y, join, depth - 1).value, join, depth - 1);
    }
  }

  lemma FilledByParts(a: Rect, b: Rect, rect: Rect)
    requires forall p: Point :: rect.Contains(p) ==> a.Contains(p) || b.Contains(p)
    ensures Fills(rect, [a, b])
  {
    assert [a, b][0] == a && [a, b][1] == b;
  }

  /** A rectangle clear of the second region, and covered by the first and by `q`. */
  lemma NextToClear(b: Rect, x: Rect, rect: Rect, q: Rect, join: JoinRule, depth: nat)
    requires depth >= 4 && rect.Proper() && b.Proper() && x.Proper() && q.Proper()
    requires !rect.Overlaps(x) && rect.Includes(q) && !q.Overlaps(b)
    requires forall p: Point :: rect.Contains(p) ==> b.Contains(p) || q.Contains(p)
    ensures var result := After([b, x], rect, join, depth);
            Small(result) || (result.Some? && exists r :: r in result.value && r.Includes(q))
  {
    hide Judge, After, AfterAll, Rect.Overlaps, Rect.GoesInto;
    Disjoint(rect, x, join);
    IncludesVerdict(rect, b, join);
    if Judge(rect, b, join).Covered? {
      Two(b, x, rect, join, depth);
    } else if q.Includes(rect) {
      PartIsDisjoint(q, rect, b);
      FreeOfBoth(b, x, rect, join, depth);
    } else if Judge(rect, b, join).Joined? || Judge(rect, x, join).Joined? {
      JoinsOne(b, x, rect, join, depth);
    } else {
      TwoStrips(b, q, rect);
      GoesIntoVerdict(rect, b, join);
      match Judge(rect, b, join)
      case Absorbed => Marks(b, x, rect, [x], [], join, depth);
      case Trimmed(piece) =>
        Trims(rect, b, join);
        InsideTheRest(rect, b, piece, q);
        PartIsDisjoint(rect, piece, x);
        Marks(b, x, rect, [b, x], [piece], join, depth);
        AllOfOne([b, x], piece, join, depth - 1);
        FreeOfBoth(b, x, piece, join, depth - 1);
        assert piece in [b, x, piece];
    }
  }

  /** `NextToClear`, when the two regions are what a split piece and another region combine to. */
  lemma SplitNextToClear(b: Rect, x: Rect, rect: Rect, q: Rect, join: JoinRule, depth: nat)
    requires depth >= 4 && rect.Proper() && b.Proper() && x.Proper() && q.Proper()
    requires !rect.Overlaps(x) && rect.Includes(q) && !q.Overlaps(b)
    requires forall p: Point :: rect.Contains(p) ==> b.Contains(p) || q.Contains(p)
    ensures var result := After(PairResult(x, b, join), rect, join, depth);
            Small(result) || (result.Some? && exists r :: r in result.value && r.Includes(q))
  {
    hide Judge, After, AfterAll, Rect.Overlaps, Rect.GoesInto;
    match Judge(x, b, join)
    case Trimmed(z) =>
      Trims(x, b, join);
      PartIsDisjoint(x, z, rect);
      NextToClear(b, z, rect, q, join, depth);
    case Split(c) =>
      Splits(x, b, join);
      PartIsDisjoint(b, c, q);
      NoCommonCell(rect, x);
      NextToClear(c, x, rect, q, join, depth);
    case Apart => NextToClear(b, x, rect, q, join, depth);
    case Joined(w) =>
      Joins(x, b, join);
      One(w, rect, join, depth);
    case Absorbed => One(x, rect, join, depth);
    case Covered => One(b, rect, join, depth);
  }

  lemma SplitsFirstTrimsSecond(a: Rect, b: Rect, rect: Rect, join: JoinRule, depth: nat)
    requires depth >= 5 && rect.Proper() && a.Proper() && b.Proper()
    requires Judge(rect, a, join).Split? && Judge(rect, b, join).Trimmed?
    ensures After([a, b], rect, join, depth).Some?
  {
    hide Judge, After, AfterAll, Rect.Overlaps, CoveredBy, PairResult;
    var x, q := Judge(rect, a, join).piece, Judge(rect, b, join).piece;
    Splits(rect, a, join);
    Trims(rect, b, join);
    Marks(a, b, rect, [b], [x, rect, q], join, depth);
    One(b, x, join, depth - 1);
    var pair := PairResult(x, b, join);
    AllOfThree([b], x, rect, q, pair, join, depth - 1);
    SplitNextToClear(b, x, rect, q, join, depth - 1);
    IncludesCells(rect, q);
    if Small(After(pair, rect, join, depth - 1)) {
      PairResultIsProper(x, b, join);
      SecondIsFilled(pair, rect, q, join, depth - 1);
    } else {
      var next := After(pair, rect, join, depth - 1).value;
      var r :| r in next && r.Includes(q);
      AllOfTwo(pair, rect, q, next, join, depth - 1);
      AlreadyIn(next, r, q, join, depth - 1);
    }
  }

  lemma IncludesCells(outer: Rect, inner: Rect)
    requires outer.Includes(inner)
    ensures forall p: Point :: inner.Contains(p) ==> outer.Contains(p)
  {
  }

  lemma PairResultIsProper(rect: Rect, region: Rect, join: JoinRule)
    requires rect.Proper() && region.Proper()
    ensures AllProper(PairResult(rect, region, join))
  {
    hide Judge;
    match Judge(rect, region, join)
    case Joined(w) => Joins(rect, region, join);
    case Trimmed(piece) => Trims(rect, region, join);
    case Split(piece) => Splits(rect, region, join);
    case _ =>
  }

  /** The first piece of a rectangle that two regions trim: what is left of it is inside the second piece. */
  lemma FirstPiece(a: Rect, b: Rect, rect: Rect, join: JoinRule, depth: nat) returns (z: Rect)
    requires depth >= 4 && rect.Proper() && a.Proper() && b.Proper()
    requires Judge(rect, a, join).Trimmed? && Judge(rect, b, join).Trimmed?
    ensures var result := After([a, b], Judge(rect, a, join).piece, join, depth);
            Small(result) || (result == Some([a, b, z]) && Judge(rect, b, join).piece.Includes(z))
  {
    hide Judge, After, AfterAll, Rect.Overlaps, Rect.GoesInto;
    var p, q := Judge(rect, a, join).piece, Judge(rect, b, join).piece;
    z := p;
    Trims(rect, a, join);
    Trims(rect, b, join);
    PartGoesInto(rect, p, b);
    GoesIntoVerdict(p, b, join);
    match Judge(p, b, join)
    case Covered => Two(a, b, p, join, depth);
    case Absorbed => Marks(a, b, p, [a], [], join, depth);
    case Joined(_) => JoinsOne(a, b, p, join, depth);
    case Trimmed(rest) =>
      Trims(p, b, join);
      PartIsDisjoint(p, rest, a);
      Marks(a, b, p, [a, b], [rest], join, depth);
      AllOfOne([a, b], rest, join, depth - 1);
      FreeOfBoth(a, b, rest, join, depth - 1);
      InsideTheRest(rect, b, q, rest);
      z := rest;
    case Apart =>
      FreeOfBoth(a, b, p, join, depth);
      InsideTheRest(rect, b, q, p);
  }

  lemma PartGoesInto(whole: Rect, part: Rect, region: Rect)
    requires whole.Includes(part) && whole.GoesInto(region)
    ensures part.GoesInto(region)
  {
  }

  lemma TrimsBoth(a: Rect, b: Rect, rect: Rect, join: JoinRule, depth: nat)
    requires depth >= 5 && rect.Proper() && a.Proper() && b.Proper()
    requires Judge(rect, a, join).Trimmed? && Judge(rect, b, join).Trimmed?
    ensures After([a, b], rect, join, depth).Some?
  {
    hide Judge, After, AfterAll, Rect.Overlaps, Rect.GoesInto;
    var p, q := Judge(rect, a, join).piece, Judge(rect, b, join).piece;
    Trims(rect, a, join);
    Trims(rect, b, join);
    Marks(a, b, rect, [a, b], [p, q], join, depth);
    var z := FirstPiece(a, b, rect, join, depth - 1);
    if Small(After([a, b], p, join, depth - 1)) {
      IncludesCells(rect, q);
      assert [a, b][0] == a;
      SecondIsFilled([a, b], p, q, join, depth - 1);
    } else {
      AllOfTwo([a, b], p, q, [a, b, z], join, depth - 1);
      var _, _ := FreeOfSecond(a, b, q, join, depth - 1);
      Forgotten(a, b, z, q, join, depth - 1);
    }
  }

  // ----- Two regions

  lemma CutsBoth(a: Rect, b: Rect, rect: Rect, join: JoinRule, depth: nat)
    requires depth >= 5 && rect.Proper() && a.Proper() && b.Proper()
    requires Judge(rect, a, join).Trimmed? || Judge(rect, a, join).Split?
    requires Judge(rect, b, join).Trimmed? || Judge(rect, b, join).Split?
    ensures After([a, b], rect, join, depth).Some?
  {
    hide Judge, After;
    match (Judge(rect, a, join), Judge(rect, b, join))
    case (Trimmed(_), Trimmed(_)) => TrimsBoth(a, b, rect, join, depth);
    case (Trimmed(_), Split(_)) => TrimsFirstSplitsSecond(a, b, rect, join, depth);
    case (Split(_), Trimmed(_)) => SplitsFirstTrimsSecond(a, b, rect, join, depth);
    case (Split(_), Split(_)) => SplitsBoth(a, b, rect, join, depth);
  }

  /** One region is left alone, the other at most cuts or is cut. */
  lemma CutsOne(a: Rect, b: Rect, rect: Rect, join: JoinRule, depth: nat)
    requires depth >= 5 && rect.Proper() && a.Proper() && b.Proper()
    requires var va, vb := Judge(rect, a, join), Judge(rect, b, join);
             (va.Apart? && (vb.Apart? || vb.Trimmed? || vb.Split?)) || (vb.Apart? && (va.Trimmed? || va.Split?))
    ensures After([a, b], rect, join, depth).Some?
  {
    hide Judge, After, AfterAll, Rect.Overlaps, PairResult;
    match (Judge(rect, a, join), Judge(rect, b, join))
    case (Apart, Apart) => Marks(a, b, rect, [a, b], [], join, depth);
    case (Trimmed(p), Apart) =>
      Trims(rect, a, join);
      Marks(a, b, rect, [a, b], [p], join, depth);
      AllOfOne([a, b], p, join, depth - 1);
      FreeOfFirst(a, b, p, join, depth - 1);
    case (Apart, Trimmed(q)) =>
      Trims(rect, b, join);
      Marks(a, b, rect, [a, b], [q], join, depth);
      AllOfOne([a, b], q, join, depth - 1);
      var _, _ := FreeOfSecond(a, b, q, join, depth - 1);
    case (Split(x), Apart) =>
      Splits(rect, a, join);
      Marks(a, b, rect, [b], [x, rect], join, depth);
      One(b, x, join, depth - 1);
      AllOfTwo([b], x, rect, PairResult(x, b, join), join, depth - 1);
      SplitBeside(b, x, rect, join, depth - 1);
    case (Apart, Split(y)) =>
      Splits(rect, b, join);
      Marks(a, b, rect, [a], [y, rect], join, depth);
      One(a, y, join, depth - 1);
      AllOfTwo([a], y, rect, PairResult(y, a, join), join, depth - 1);
      SplitBeside(a, y, rect, join, depth - 1);
  }

  lemma PairEnds(a: Rect, b: Rect, rect: Rect, join: JoinRule, depth: nat)
    requires depth >= 5 && rect.Proper() && a.Proper() && b.Proper()
    ensures After([a, b], rect, join, depth).Some?
  {
    hide Judge, After;
    IncludesVerdict(rect, a, join);
    IncludesVerdict(rect, b, join);
    var va, vb := Judge(rect, a, join), Judge(rect, b, join);
    if va.Covered? || vb.Covered? {
      Two(a, b, rect, join, depth);
    } else if va.Joined? || vb.Joined? {
      JoinsOne(a, b, rect, join, depth);
    } else if va.Absorbed? || vb.Absorbed? {
      AbsorbsOne(a, b, rect, join, depth);
    } else if va.Apart? || vb.Apart? {
      CutsOne(a, b, rect, join, depth);
    } else {
      CutsBoth(a, b, rect, join, depth);
    }
  }

  /** With at most two stored regions the recursion ends within five nested calls, under any join rule. */
  lemma TwoRegionsEnd(regions: seq<Rect>, rect: Rect, join: JoinRule, depth: nat)
    requires depth >= 5 && |regions| <= 2 && AllProper(regions) && (rect.Proper() || rect.IsEmpty())
    ensures Invalidate(regions, rect, join, depth).Some?
  {
    hide Judge, PairResult;
    if rect.Proper() {
      if |regions| == 0 {
        assert regions == [];
        Zero(rect, join, depth);
      } else if |regions| == 1 {
        assert regions == [regions[0]];
        One(regions[0], rect, join, depth);
      } else {
        assert regions == [regions[0], regions[1]];
        PairEnds(regions[0], regions[1], rect, join, depth);
      }
    }
  }

  lemma ShortListGrowsByOne(regions: seq<Rect>, rect: Rect, join: JoinRule, depth: nat)
    requires depth >= 2 && |regions| <= 1 && AllProper(regions) && (rect.Proper() || rect.IsEmpty())
    ensures var next := Invalidate(regions, rect, join, depth);
            next.Some? && |next.value.regions| <= |regions| + 1 && AllProper(next.value.regions)
  {
    hide Judge, PairResult;
    if rect.Proper() {
      if |regions| == 0 {
        assert regions == [];
        Zero(rect, join, depth);
      } else {
        assert regions == [regions[0]];
        One(regions[0], rect, join, depth);
        PairResultIsProper(rect, regions[0], join);
      }
    }
  }

  /**
   After a flush the first three calls always return; `DefaultJoinCanRecurForever` is a fourth
   that does not.
   */
  lemma FirstThreeCallsEnd(a: Rect, b: Rect, c: Rect, join: JoinRule, depth: nat)
    requires depth >= 5 && (forall r :: r in [a, b, c] ==> r.Proper() || r.IsEmpty())
    ensures InvalidateEach([], [a, b, c], join, depth).Some?
  {
    hide Invalidate;
    assert a in [a, b, c] && b in [a, b, c] && c in [a, b, c];
    assert [a, b, c][1..] == [b, c];
    ShortListGrowsByOne([], a, join, depth);
    var one := Invalidate([], a, join, depth).value.regions;
    ShortListGrowsByOne(one, b, join, depth);
    TwoRegionsEnd(Invalidate(one, b, join, depth).value.regions, c, join, depth);
    EachOfTwo(one, b, c, join, depth);
  }
}
