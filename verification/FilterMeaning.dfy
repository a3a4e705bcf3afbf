/** What the filtered container says to a viewer that repeats its copies: when it
    describes the step from the old backup to the new one. */
module FilterMeaning {
  import opened Geometry
  import opened Frames
  import opened PixelDiffs
  import opened UpdateKeepers
  import opened KeeperMeaning
  import opened UpdateFilters

  // ---------- Where the moves take pixels from ----------

  function SourceIn(r: Rect, src: Point, screen: Region, p: Point): Point {
    var q := Plus(Minus(p, r.TopLeft()), src);
    if r.Contains(p) && q in screen then q else p
  }

  /** Where repeated moves take a pixel from. */
  function SourceOf(rects: seq<Rect>, src: Point, screen: Region, p: Point): Point {
    if rects == [] then p
    else SourceOf(rects[..|rects| - 1], src, screen, SourceIn(rects[|rects| - 1], src, screen, p))
  }

  lemma {:induction false} MovedFromSource(f: Frame, rects: seq<Rect>, src: Point, p: Point)
    requires p in f
    ensures SourceOf(rects, src, f.Keys, p) in f && MovedAll(f, rects, src)[p] == f[SourceOf(rects, src, f.Keys, p)]
  {
    if rects != [] {
      MovedFromSource(f, rects[..|rects| - 1], src, SourceIn(rects[|rects| - 1], src, f.Keys, p));
    }
  }

  /** One pixel has another colour than all others. */
  ghost function OneApart(screen: Region, q: Point, x: Pixel, y: Pixel): (f: Frame)
    ensures f.Keys == screen
  {
    map p | p in screen :: if p == q then x else y
  }

  ghost function OneLit(screen: Region, q: Point): Frame {
    OneApart(screen, q, [1], [0])
  }

  // ---------- The filtered container ----------

  /** Every unmarked pixel of the new picture is the old one at its origin. */
  ghost predicate DescribesStep(c: UpdateContainer, rects: seq<Rect>, before: Frame, after: Frame) {
    forall p :: p in after && p !in c.changedRegion ==>
      var q := OriginIn(rects, c.copySrc, p);
      q in before && after[p] == before[q]
  }

  /** Whatever backup and screen show and whatever the filter finds. */
  ghost predicate FilterDescribes(c: UpdateContainer, rects: seq<Rect>, screen: Region) {
    forall c': UpdateContainer, before: Frame, grabbed: Frame, after: Frame ::
      before.Keys == screen && Synchronized(c, c', rects, before, grabbed, after) ==>
      DescribesStep(c', rects, before, after)
  }

  /** Every piece comes from the screen, and from pixels that no earlier move has
      touched. */
  predicate MovesAreDirect(rects: seq<Rect>, src: Point, screen: Region) {
    forall p :: p in screen ==>
      OriginIn(rects, src, p) in screen && SourceOf(rects, src, screen, p) == OriginIn(rects, src, p)
  }

  /** The filtered container describes the step of the backup for all pictures if
      and only if the moves are direct. */
  lemma FilterDescribesIffDirect(c: UpdateContainer, rects: seq<Rect>, screen: Region)
    ensures FilterDescribes(c, rects, screen) <==> MovesAreDirect(rects, c.copySrc, screen)
  {
    hide Synchronized, DescribesStep, SourceOf, OriginIn;
    if MovesAreDirect(rects, c.copySrc, screen) {
      forall c': UpdateContainer, before: Frame, grabbed: Frame, after: Frame |
        before.Keys == screen && Synchronized(c, c', rects, before, grabbed, after)
        ensures DescribesStep(c', rects, before, after)
      {
        DirectMovesDescribe(c, c', rects, before, grabbed, after);
      }
    } else {
      var p :| p in screen &&
        !(OriginIn(rects, c.copySrc, p) in screen &&
          SourceOf(rects, c.copySrc, screen, p) == OriginIn(rects, c.copySrc, p));
      IndirectMoveFails(c, rects, screen, p);
    }
  }

  lemma DirectMovesDescribe(c: UpdateContainer, c': UpdateContainer, rects: seq<Rect>, before: Frame, grabbed: Frame,
                            after: Frame)
    requires MovesAreDirect(rects, c.copySrc, before.Keys) && Synchronized(c, c', rects, before, grabbed, after)
    ensures DescribesStep(c', rects, before, after)
  {
    hide MovedAll, SourceOf, OriginIn;
    forall p | p in after && p !in c'.changedRegion
      ensures var q := OriginIn(rects, c'.copySrc, p); q in before && after[p] == before[q]
    {
      MovedFromSource(before, rects, c.copySrc, p);
    }
  }

  /** The filter found nothing: the screen shows what the moves made. */
  lemma IndirectMoveFails(c: UpdateContainer, rects: seq<Rect>, screen: Region, p: Point)
    requires p in screen
    requires !(OriginIn(rects, c.copySrc, p) in screen &&
               SourceOf(rects, c.copySrc, screen, p) == OriginIn(rects, c.copySrc, p))
    ensures !FilterDescribes(c, rects, screen)
  {
    hide MovedAll, SourceOf, OriginIn, Synchronized;
    var before := OneLit(screen, SourceOf(rects, c.copySrc, screen, p));
    assert before.Keys == screen;
    var moved := MovedAll(before, rects, c.copySrc);
    var c' := c.(changedRegion := {});
    MovedFromSource(before, rects, c.copySrc, p);
    NothingFound(c, rects, before);
    assert !DescribesStep(c', rects, before, moved);
  }

  /** One rectangle moves directly exactly when all its pixels come from the screen. */
  lemma SingleMoveIsDirectIff(r: Rect, src: Point, screen: Region)
    ensures MovesAreDirect([r], src, screen) <==>
            forall p :: p in screen && r.Contains(p) ==> Plus(Minus(p, r.TopLeft()), src) in screen
  {
    forall p | p in screen
      ensures OriginIn([r], src, p) == if r.Contains(p) then Plus(Minus(p, r.TopLeft()), src) else p
      ensures SourceOf([r], src, screen, p) == SourceIn(r, src, screen, p)
    {
      assert [r][..0] == [] && [r][1..] == [];
      assert SourceOf([r][..0], src, screen, SourceIn(r, src, screen, p)) == SourceIn(r, src, screen, p);
    }
  }

  /** A copy that lands is such a one. */
  lemma LandedCopyIsDirect(border: Rect, rect: Rect, src: Point)
    requires !LandingRect(border, rect, src).IsEmpty()
    ensures var dst := LandingRect(border, rect, src);
            MovesAreDirect([dst], Minus(dst.TopLeft(), CopyShift(rect, src)), Pixels(border))
  {
    hide MovesAreDirect, LandingRect;
    var dst, d := LandingRect(border, rect, src), CopyShift(rect, src);
    LandingIsRect(border, rect, src);
    SingleMoveIsDirectIff(dst, Minus(dst.TopLeft(), d), Pixels(border));
    forall p | p in Pixels(border) && dst.Contains(p)
      ensures Plus(Minus(p, dst.TopLeft()), Minus(dst.TopLeft(), d)) in Pixels(border)
    {
      assert p in Pixels(dst) && Plus(Minus(p, dst.TopLeft()), Minus(dst.TopLeft(), d)) == Minus(p, d);
    }
  }

  // ---------- As a reply tells it ----------

  /** What a reply holds of the filter's changes: the changed region, and of the
      copied rectangles the first. */
  function Sent(c: UpdateContainer, rects: seq<Rect>): Region {
    c.changedRegion + if rects == [] then {} else Pixels(rects[0])
  }

  /** Whatever backup and screen show and whatever the filter finds, that is all
      that changed. */
  ghost predicate SentIsEnough(c: UpdateContainer, rects: seq<Rect>, screen: Region) {
    forall c': UpdateContainer, before: Frame, grabbed: Frame, after: Frame ::
      before.Keys == screen && Synchronized(c, c', rects, before, grabbed, after) ==>
      ChangedOnlyIn(before, after, Sent(c', rects))
  }

  /** Outside the first rectangle the moves bring every pixel back to its place. */
  predicate OnlyFirstMoves(rects: seq<Rect>, src: Point, screen: Region) {
    forall p :: p in screen && (rects == [] || !rects[0].Contains(p)) ==> SourceOf(rects, src, screen, p) == p
  }

  /** A single rectangle moves nothing outside itself. */
  lemma SingleOnlyFirst(rects: seq<Rect>, src: Point, screen: Region)
    requires |rects| <= 1
    ensures OnlyFirstMoves(rects, src, screen)
  {
    forall p | p in screen && (rects == [] || !rects[0].Contains(p)) ensures SourceOf(rects, src, screen, p) == p {
      if rects != [] {
        assert rects[..0] == [];
        assert SourceOf(rects[..0], src, screen, SourceIn(rects[0], src, screen, p)) == p;
      }
    }
  }

  /** A second one that starts at the source point stays where it is. */
  lemma SecondInPlace(first: Rect, second: Rect, screen: Region)
    ensures OnlyFirstMoves([first, second], second.TopLeft(), screen)
  {
    var rects, src := [first, second], second.TopLeft();
    assert rects[..1] == [first];
    forall p | p in screen && !first.Contains(p) ensures SourceOf(rects, src, screen, p) == p {
      assert SourceIn(second, src, screen, p) == p;
      SingleOnlyFirst([first], src, screen);
      assert SourceOf(rects[..1], src, screen, p) == p;
    }
  }

  /** The first rectangle is enough for all pictures if and only if the other
      ones move nothing. */
  lemma SentIsEnoughIff(c: UpdateContainer, rects: seq<Rect>, screen: Region)
    ensures SentIsEnough(c, rects, screen) <==> OnlyFirstMoves(rects, c.copySrc, screen)
  {
    hide ChangedOnlyIn, Sent, SourceOf, MovedAll, Diff;
    if OnlyFirstMoves(rects, c.copySrc, screen) {
      forall c': UpdateContainer, before: Frame, grabbed: Frame, after: Frame |
        before.Keys == screen && Synchronized(c, c', rects, before, grabbed, after)
        ensures ChangedOnlyIn(before, after, Sent(c', rects))
      {
        ChangesAreSent(c', rects, c.copySrc, before, after, grabbed);
      }
    } else {
      var p :| p in screen && (rects == [] || !rects[0].Contains(p)) && SourceOf(rects, c.copySrc, screen, p) != p;
      FurtherMoveIsNotSent(c, rects, screen, p);
    }
  }

  lemma ChangesAreSent(c: UpdateContainer, rects: seq<Rect>, src: Point, before: Frame, after: Frame, screen: Frame)
    requires OnlyFirstMoves(rects, src, before.Keys)
    requires after == Patched(MovedAll(before, rects, src), c.changedRegion, screen)
    ensures ChangedOnlyIn(before, after, Sent(c, rects))
  {
    hide MovedAll, SourceOf, OnlyFirstMoves, Sent;
    forall p | p in before && p !in Sent(c, rects) ensures after[p] == before[p] {
      NotSentStays(c, rects, src, before.Keys, p);
      MovedFromSource(before, rects, src, p);
    }
  }

  lemma NotSentStays(c: UpdateContainer, rects: seq<Rect>, src: Point, screen: Region, p: Point)
    requires OnlyFirstMoves(rects, src, screen) && p in screen && p !in Sent(c, rects)
    ensures SourceOf(rects, src, screen, p) == p && p !in c.changedRegion
  {
    hide SourceOf;
  }

  /** The filter may find nothing but what the moves made. */
  lemma NothingFound(c: UpdateContainer, rects: seq<Rect>, before: Frame)
    ensures var moved := MovedAll(before, rects, c.copySrc);
            Synchronized(c, c.(changedRegion := {}), rects, before, moved, moved)
  {
    hide MovedAll, Finds, Checked;
    var moved := MovedAll(before, rects, c.copySrc);
    PatchedNothing(moved, moved);
    FindsNothing(moved, moved, Checked(c));
  }

  /** Then the pixel that is moved shows in its new place, and nobody tells. */
  lemma MovedPixelShows(rects: seq<Rect>, src: Point, screen: Region, p: Point, x: Pixel, y: Pixel)
    requires p in screen && SourceOf(rects, src, screen, p) != p && x != y
    ensures var before := OneApart(screen, SourceOf(rects, src, screen, p), x, y);
            p in MovedAll(before, rects, src) && MovedAll(before, rects, src)[p] == x && before[p] == y
  {
    hide MovedAll, SourceOf;
    MovedFromSource(OneApart(screen, SourceOf(rects, src, screen, p), x, y), rects, src, p);
  }

  lemma FurtherMoveIsNotSent(c: UpdateContainer, rects: seq<Rect>, screen: Region, p: Point)
    requires p in screen && (rects == [] || !rects[0].Contains(p)) && SourceOf(rects, c.copySrc, screen, p) != p
    ensures !SentIsEnough(c, rects, screen)
  {
    hide MovedAll, SourceOf, Synchronized;
    var before := OneApart(screen, SourceOf(rects, c.copySrc, screen, p), [1], [0]);
    NothingFound(c, rects, before);
    MovedPixelShows(rects, c.copySrc, screen, p, [1], [0]);
    assert p !in Sent(c.(changedRegion := {}), rects);
  }

  // ---------- As a viewer's keeper sees it ----------

  /** A picture as an image: `value` tells the pixels apart. */
  function ImageOf(f: Frame, value: Pixel -> int): Image {
    (p: Point) => if p in f then value(f[p]) else 0
  }

  /** What describes the step of the backup can be merged into a viewer's keeper. */
  lemma StepAsImages(c: UpdateContainer, rects: seq<Rect>, border: Rect, before: Frame, after: Frame,
                     value: Pixel -> int)
    requires DescribesStep(c, rects, before, after) && after.Keys == Pixels(border)
    ensures DescribesEach(c, rects, border, ImageOf(before, value), ImageOf(after, value))
  {
    hide OriginIn;
    forall p | border.Contains(p) && p !in c.changedRegion
      ensures ImageOf(after, value)(p) == ImageOf(before, value)(OriginIn(rects, c.copySrc, p))
    {
      assert p in after;
    }
  }
}
