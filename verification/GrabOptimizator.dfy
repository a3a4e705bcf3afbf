/** The grab planner (desktop/GrabOptimizator.cpp): grab a region by its bounding
    rectangle or piece by piece, whichever the statistics call cheaper.

    Times are reals.  The readings of the clock are arbitrary: whether an hour of
    the timer is over, and how long a grab took, if the counter can be read. */
module GrabOptimizators {
  import opened Geometry
  import opened Regions
  import opened Frames
  import opened FrameBuffers
  import opened ScreenDrivers

  const MIN_ELEMENTS_SIZE := 3
  const MAX_ELEMENTS_SIZE := 10

  function Sum(s: seq<real>): real {
    if s == [] then 0.0 else Sum(s[..|s| - 1]) + s[|s| - 1]
  }

  lemma {:induction false} SumDropFirst(s: seq<real>)
    requires s != []
    ensures Sum(s[1..]) == Sum(s) - s[0]
  {
    if |s| == 1 {
      assert s[1..] == [] && s[..0] == [];
    } else {
      SumDropFirst(s[..|s| - 1]);
      assert s[1..][..|s| - 2] == s[..|s| - 1][1..];
    }
  }

  lemma SumPushed(s: seq<real>, x: real)
    ensures Sum(s + [x]) == Sum(s) + x
  {
    assert (s + [x])[..|s|] == s;
  }

  function Average(s: seq<real>): real
    requires s != []
  {
    Sum(s) / |s| as real
  }

  function AreaOf(rects: seq<Rect>): int {
    if rects == [] then 0 else AreaOf(rects[..|rects| - 1]) + rects[|rects| - 1].Area()
  }

  // ---------- The estimate ----------

  /** Grabbing the bounding rectangle: its share of a whole grab and one overhead. */
  function BoundsTime(wholeS: int, wholeT: seq<real>, g: seq<real>, boundsS: int): real
    requires wholeS > 0 && wholeT != [] && g != []
  {
    Average(wholeT) * boundsS as real / wholeS as real + Average(g)
  }

  /** Grabbing `n` pieces: their share of a whole grab and `n` overheads. */
  function FragmentsTime(wholeS: int, wholeT: seq<real>, g: seq<real>, fragS: int, n: nat): real
    requires wholeS > 0 && wholeT != [] && g != []
  {
    fragS as real * (Average(wholeT) / wholeS as real) + Average(g) * n as real
  }

  /** The bounding rectangle is preferred exactly when the extra area costs no
      more than the saved overheads. */
  lemma BoundsPreferredIff(wholeS: int, wholeT: seq<real>, g: seq<real>, boundsS: int, fragS: int, n: nat)
    requires wholeS > 0 && wholeT != [] && g != []
    ensures BoundsTime(wholeS, wholeT, g, boundsS) <= FragmentsTime(wholeS, wholeT, g, fragS, n) <==>
            Average(wholeT) * (boundsS - fragS) as real <= Average(g) * (n - 1) as real * wholeS as real
  {
    var t, o, w := Average(wholeT), Average(g), wholeS as real;
    var b, f, m := boundsS as real, fragS as real, n as real;
    assert t * b / w * w == t * b;
    assert f * (t / w) * w == f * t;
    var gap := BoundsTime(wholeS, wholeT, g, boundsS) - FragmentsTime(wholeS, wholeT, g, fragS, n);
    assert gap == t * b / w + o - f * (t / w) - o * m;
    assert gap * w == t * (b - f) - o * (m - 1.0) * w;
    SignOfProduct(gap, w);
  }

  lemma SignOfProduct(x: real, w: real)
    requires w > 0.0
    ensures x <= 0.0 <==> x * w <= 0.0
  {
  }

  /** The estimate for pieces is exact for the grab that a sample comes from. */
  lemma OverheadExplainsTime(wholeS: int, wholeT: seq<real>, whole: real, fragS: int, n: nat, time: int, g: real)
    requires wholeS > 0 && wholeT != [] && n > 0 && whole == Average(wholeT)
    requires g == (time as real - whole * fragS as real / wholeS as real) / n as real
    ensures FragmentsTime(wholeS, wholeT, [g], fragS, n) == time as real
  {
    assert Sum([g]) == g by {
      SumPushed([], g);
      assert [] + [g] == [g];
    }
    var t, f, w, m := whole, fragS as real, wholeS as real, n as real;
    assert f * (t / w) == t * f / w;
    assert (time as real - t * f / w) / m * m == time as real - t * f / w;
  }

  // ---------- The statistics ----------

  /** What is left of a window after it took one more sample. */
  function Pushed(window: seq<real>, x: real): seq<real> {
    if |window| < MAX_ELEMENTS_SIZE then window + [x] else window[|window| + 1 - MAX_ELEMENTS_SIZE..] + [x]
  }

  /** A window keeps its newest ten samples, in their order. */
  lemma PushedKeepsNewest(window: seq<real>, x: real)
    requires |window| <= 10
    ensures |window| < 10 ==> Pushed(window, x) == window + [x]
    ensures |window| == 10 ==> Pushed(window, x) == window[1..] + [x]
  {
  }

  datatype Plan = Nothing | OneRect | Pieces

  /** What the performance counter says of a grab; it can fail. */
  datatype Reading = Reading(timed: bool, time: int)

  datatype Statistics = Statistics(wholeS: int, wholeT: seq<real>, g: seq<real>) {
    predicate HasWhole() {
      |wholeT| >= MIN_ELEMENTS_SIZE
    }

    predicate HasFragments() {
      |g| >= MIN_ELEMENTS_SIZE
    }

    predicate Available() {
      HasWhole() && HasFragments()
    }

    /** The statistics that a plan is made with: none on a screen of another area,
        and without the oldest samples when the timer's time is over. */
    function Refreshed(area: int, elapsed: bool): Statistics {
      if wholeS != area then Statistics(area, [], [])
      else if elapsed && Available() then Statistics(area, wholeT[1..], g[1..])
      else this
    }

    /** What became of `at` in a grab: one more sample of the kind that the plan
        gives, if the grab was timed and is big enough. */
    ghost predicate Follows(at: Statistics, ok: bool, plan: Plan, bounds: Rect, rects: seq<Rect>, reading: Reading) {
      && wholeS == at.wholeS
      && (if ok && reading.timed && plan == OneRect && IsLarge(wholeS, bounds.Area())
          then exists x: real :: wholeT == Pushed(at.wholeT, x) &&
                                 x * bounds.Area() as real == reading.time as real * wholeS as real
          else wholeT == at.wholeT)
      && (if ok && reading.timed && plan == Pieces && IsFragmented(rects) && at.wholeT != [] && wholeS > 0
          then exists x: real :: g == Pushed(at.g, x) &&
                                 FragmentsTime(wholeS, at.wholeT, [x], AreaOf(rects), |rects|) == reading.time as real
          else g == at.g)
    }
  }

  /** At least a tenth of the screen. */
  predicate IsLarge(wholeS: int, area: int) {
    area >= 1 && wholeS / area <= 9
  }

  predicate IsFragmented(rects: seq<Rect>) {
    |rects| >= 10
  }

  /** The plan for a region with bounding rectangle `bounds` and pieces `rects`.
      On a screen without area the estimates compare as false. */
  function PlanFor(s: Statistics, bounds: Rect, rects: seq<Rect>): Plan {
    if s.Available() then
      if s.wholeS > 0 && BoundsTime(s.wholeS, s.wholeT, s.g, bounds.Area()) <=
                         FragmentsTime(s.wholeS, s.wholeT, s.g, AreaOf(rects), |rects|)
      then OneRect else Pieces
    else if IsLarge(s.wholeS, bounds.Area()) && !s.HasWhole() then OneRect
    else if IsFragmented(rects) && !s.HasFragments() then Pieces
    else if IsLarge(s.wholeS, AreaOf(rects)) then OneRect
    else Pieces
  }

  /** The extra area of one rectangle costs no more than the overheads that it saves. */
  predicate SavesTime(s: Statistics, bounds: Rect, rects: seq<Rect>)
    requires s.wholeT != [] && s.g != []
  {
    Average(s.wholeT) * (bounds.Area() - AreaOf(rects)) as real <=
    Average(s.g) * (|rects| - 1) as real * s.wholeS as real
  }

  /** What is decided.  With both windows long enough, one rectangle is taken
      exactly when the extra area costs no more than the saved overheads.  Until
      then the plan is the one whose statistics are missing, and else one
      rectangle exactly when the pieces are large together. */
  lemma PlanIsCheapest(s: Statistics, bounds: Rect, rects: seq<Rect>)
    ensures |s.wholeT| >= 3 && |s.g| >= 3 && s.wholeS > 0 ==>
              (PlanFor(s, bounds, rects) == OneRect <==>
                 Average(s.wholeT) * (bounds.Area() - AreaOf(rects)) as real <=
                 Average(s.g) * (|rects| - 1) as real * s.wholeS as real)
    ensures |s.wholeT| >= 3 && |s.g| >= 3 && s.wholeS <= 0 ==> PlanFor(s, bounds, rects) == Pieces
    ensures |s.wholeT| < 3 && bounds.Area() >= 1 && s.wholeS < 10 * bounds.Area() ==>
              PlanFor(s, bounds, rects) == OneRect
    ensures (|s.wholeT| >= 3 || bounds.Area() < 1 || s.wholeS >= 10 * bounds.Area()) && |s.g| < 3 && |rects| >= 10 ==>
              PlanFor(s, bounds, rects) == Pieces
    ensures (|s.wholeT| >= 3 || bounds.Area() < 1 || s.wholeS >= 10 * bounds.Area()) &&
            (|s.wholeT| < 3 || |s.g| < 3) && (|s.g| >= 3 || |rects| < 10) ==>
              (PlanFor(s, bounds, rects) == OneRect <==> AreaOf(rects) >= 1 && s.wholeS < 10 * AreaOf(rects))
    ensures PlanFor(s, bounds, rects) == OneRect || PlanFor(s, bounds, rects) == Pieces
  {
    hide BoundsTime, FragmentsTime, Average, AreaOf, Rect.Area;
    LargeIff(s.wholeS, bounds.Area());
    LargeIff(s.wholeS, AreaOf(rects));
    if s.Available() && s.wholeS > 0 {
      BoundsPreferredIff(s.wholeS, s.wholeT, s.g, bounds.Area(), AreaOf(rects), |rects|);
    }
  }

  lemma PlanSavesTime(s: Statistics, bounds: Rect, rects: seq<Rect>)
    ensures |s.wholeT| >= 3 && |s.g| >= 3 && s.wholeS > 0 ==>
              (PlanFor(s, bounds, rects) == OneRect <==> SavesTime(s, bounds, rects))
    ensures PlanFor(s, bounds, rects) == OneRect || PlanFor(s, bounds, rects) == Pieces
  {
    hide PlanFor, Average, AreaOf, Rect.Area;
    PlanIsCheapest(s, bounds, rects);
  }

  lemma AverageIs(s: seq<real>)
    requires s != []
    ensures Average(s) == Sum(s) / |s| as real
  {
  }

  lemma EstimatesAre(wholeS: int, wholeT: seq<real>, g: seq<real>, boundsS: int, fragS: int, n: nat, t: real, o: real)
    requires wholeS > 0 && wholeT != [] && g != [] && t == Average(wholeT) && o == Average(g)
    ensures t * boundsS as real / wholeS as real + o == BoundsTime(wholeS, wholeT, g, boundsS)
    ensures fragS as real * (t / wholeS as real) + o * n as real == FragmentsTime(wholeS, wholeT, g, fragS, n)
  {
    hide Average;
  }

  lemma LargeIff(wholeS: int, area: int)
    ensures IsLarge(wholeS, area) <==> area >= 1 && wholeS < 10 * area
  {
    if area >= 1 {
      QuotientBelow(wholeS, area, 10);
    }
  }

  lemma QuotientBelow(a: int, b: int, k: int)
    requires b >= 1
    ensures a / b < k <==> a < k * b
  {
    var q := a / b;
    assert q * b <= a < q * b + b;
    if q < k {
      MulMonotone(q + 1, k, b);
    } else {
      MulMonotone(k, q, b);
    }
  }

  /** `plan` is the right plan for the region, by the statistics `s`. */
  ghost predicate Planned(region: Region, plan: Plan, bounds: Rect, rects: seq<Rect>, s: Statistics, screenArea: int) {
    && IsRectVector(rects, region)
    && (region == {} <==> plan == Nothing)
    && (region != {} ==>
          && IsBounds(bounds, region) && bounds.Area() > 0 && |rects| > 0
          && s.wholeS == screenArea && plan == PlanFor(s, bounds, rects))
  }

  lemma PlannedIs(region: Region, plan: Plan, bounds: Rect, rects: seq<Rect>, s: Statistics, screenArea: int)
    requires Planned(region, plan, bounds, rects, s, screenArea)
    ensures region == {} <==> plan == Nothing
    ensures region != {} ==> IsBounds(bounds, region) && bounds.Area() > 0 && |rects| > 0
    ensures region != {} && |s.wholeT| >= 3 && |s.g| >= 3 && s.wholeS > 0 ==>
              (plan == OneRect <==> SavesTime(s, bounds, rects))
  {
    hide PlanFor, SavesTime, AreaOf, Rect.Area, IsRectVector, IsBounds;
    PlanSavesTime(s, bounds, rects);
  }

  lemma NothingFollows(s: Statistics, bounds: Rect, rects: seq<Rect>, reading: Reading)
    ensures s.Follows(s, true, Nothing, bounds, rects, reading)
  {
  }

  /** What a successful grab did to the screen's picture, by its plan. */
  ghost predicate CarriedOut(plan: Plan, bounds: Rect, region: Region, before: Frame, after: Frame, display: Frame) {
    match plan
    case Nothing => after == before
    case OneRect => Shows(after, Pixels(bounds), display) && ChangedOnlyIn(before, after, Pixels(bounds))
    case Pieces => Shows(after, region, display) && ChangedOnlyIn(before, after, region)
  }

  class GrabOptimizator {
    var wholeS: int
    var wholeTElements: seq<real>
    var wholeTSum: real
    var gElements: seq<real>
    var gSum: real

    /** Each stored sum is the sum of its window, and windows stay short. */
    ghost predicate Valid()
      reads this
    {
      && wholeS >= 0
      && wholeTSum == Sum(wholeTElements) && |wholeTElements| <= MAX_ELEMENTS_SIZE
      && gSum == Sum(gElements) && |gElements| <= MAX_ELEMENTS_SIZE
    }

    function Stats(): Statistics
      reads this
    {
      Statistics(wholeS, wholeTElements, gElements)
    }

    constructor ()
      ensures Valid() && Stats() == Statistics(0, [], [])
    {
      wholeS, wholeTElements, wholeTSum, gElements, gSum := 0, [], 0.0, [], 0.0;
    }

    method GetArea(rects: seq<Rect>) returns (area: int)
      ensures area == AreaOf(rects)
    {
      area := 0;
      for i := 0 to |rects|
        invariant area == AreaOf(rects[..i])
      {
        area := area + rects[i].Area();
        assert rects[..i + 1][..i] == rects[..i];
      }
      assert rects[..|rects|] == rects;
    }

    method GetOptimizationAvailable(driver: ScreenDriver) returns (available: bool)
      requires Valid() && driver.Valid()
      modifies this
      ensures Valid() && wholeS == driver.screen.dim.Area()
      ensures Stats() == if wholeS == old(wholeS) then old(Stats()) else Statistics(wholeS, [], [])
      ensures available <==> Stats().Available()
    {
      var current := driver.screen.dim.Area();
      AreaNotNegative(driver.screen.dim, 1);
      if wholeS != current {
        wholeS, wholeTSum, wholeTElements := current, 0.0, [];
        gSum, gElements := 0.0, [];
      }
      available := |wholeTElements| >= MIN_ELEMENTS_SIZE && |gElements| >= MIN_ELEMENTS_SIZE;
    }

    method RemoveFirstWholeTElement()
      requires wholeTElements != [] && wholeTSum == Sum(wholeTElements)
      modifies this`wholeTElements, this`wholeTSum
      ensures wholeTElements == old(wholeTElements)[1..] && wholeTSum == Sum(wholeTElements)
    {
      SumDropFirst(wholeTElements);
      wholeTSum := wholeTSum - wholeTElements[0];
      wholeTElements := wholeTElements[1..];
    }

    method RemoveFirstElementsFromFragmentStats()
      requires gElements != [] && gSum == Sum(gElements)
      modifies this`gElements, this`gSum
      ensures gElements == old(gElements)[1..] && gSum == Sum(gElements)
    {
      SumDropFirst(gElements);
      gSum := gSum - gElements[0];
      gElements := gElements[1..];
    }

    method AddWholeTElement(wholeT: real)
      requires Valid()
      modifies this`wholeTElements, this`wholeTSum
      ensures Valid() && wholeTElements == Pushed(old(wholeTElements), wholeT)
    {
      hide Sum;
      SumPushed(wholeTElements, wholeT);
      wholeTElements := wholeTElements + [wholeT];
      wholeTSum := wholeTSum + wholeT;
      ghost var all := wholeTElements;
      while |wholeTElements| > MAX_ELEMENTS_SIZE
        invariant wholeTSum == Sum(wholeTElements)
        invariant wholeTElements == all || (|all| > MAX_ELEMENTS_SIZE && wholeTElements == all[1..])
        decreases |wholeTElements|
      {
        RemoveFirstWholeTElement();
      }
    }

    method AddFragmentStats(g: real)
      requires Valid()
      modifies this`gElements, this`gSum
      ensures Valid() && gElements == Pushed(old(gElements), g)
    {
      hide Sum;
      SumPushed(gElements, g);
      gElements := gElements + [g];
      gSum := gSum + g;
      ghost var all := gElements;
      while |gElements| > MAX_ELEMENTS_SIZE
        invariant gSum == Sum(gElements)
        invariant gElements == all || (|all| > MAX_ELEMENTS_SIZE && gElements == all[1..])
        decreases |gElements|
      {
        RemoveFirstElementsFromFragmentStats();
      }
    }

    /** When the timer's time is over the oldest samples are dropped, so that new
        ones are taken. */
    method RefreshStatistic(driver: ScreenDriver, elapsed: bool)
      requires Valid() && driver.Valid()
      modifies this
      ensures Valid()
      ensures !elapsed ==> Stats() == old(Stats())
      ensures elapsed ==> wholeS == driver.screen.dim.Area()
      ensures elapsed && old(wholeS) != wholeS ==> wholeTElements == gElements == []
      ensures elapsed && old(wholeS) == wholeS && old(Stats()).Available() ==>
                wholeTElements == old(wholeTElements)[1..] && gElements == old(gElements)[1..]
      ensures elapsed && old(wholeS) == wholeS && !old(Stats()).Available() ==> Stats() == old(Stats())
    {
      if elapsed {
        var available := GetOptimizationAvailable(driver);
        if available {
          RemoveFirstWholeTElement();
          RemoveFirstElementsFromFragmentStats();
        }
      }
    }

    /** A large rectangle whose grab was timed gives a sample: the time of a whole
        grab that makes the measured time this rectangle's share of it. */
    method GrabOneRect(rect: Rect, driver: ScreenDriver, reading: Reading) returns (ok: bool, ghost sample: real)
      requires Valid() && driver.Valid() && rect.Area() != 0
      modifies this`wholeTElements, this`wholeTSum, driver.screen.buffer
      ensures Valid()
      ensures ok && reading.timed && IsLarge(wholeS, rect.Area()) ==>
                wholeTElements == Pushed(old(wholeTElements), sample) &&
                sample * rect.Area() as real == reading.time as real * wholeS as real
      ensures !(ok && reading.timed && IsLarge(wholeS, rect.Area())) ==> wholeTElements == old(wholeTElements)
      ensures ok ==> OnlyRefreshed(old(driver.screen.Content()), driver.screen.Content(), driver.desktop.Content())
      ensures ok ==> Shows(driver.screen.Content(), Pixels(rect), driver.desktop.Content())
      ensures ok ==> ChangedOnlyIn(old(driver.screen.Content()), driver.screen.Content(), Pixels(rect))
    {
      sample := 0.0;
      ok := driver.GrabFb(rect);
      if ok && reading.timed && IsLarge(wholeS, rect.Area()) {
        // The time is scaled to a grab of the whole screen.
        var wholeT := reading.time as real * wholeS as real / rect.Area() as real;
        sample := wholeT;
        AddWholeTElement(wholeT);
      }
    }

    /** Many pieces whose grab was timed give a sample, once there is one of a
        whole grab: the overhead per piece that makes the estimate equal to the
        measured time. */
    method GrabFragments(rects: seq<Rect>, driver: ScreenDriver, reading: Reading)
      returns (ok: bool, ghost sample: real)
      requires Valid() && driver.Valid() && |rects| > 0
      modifies this`gElements, this`gSum, driver.screen.buffer
      ensures Valid()
      ensures ok && reading.timed && IsFragmented(rects) && wholeTElements != [] && wholeS > 0 ==>
                gElements == Pushed(old(gElements), sample) &&
                FragmentsTime(wholeS, wholeTElements, [sample], AreaOf(rects), |rects|) == reading.time as real
      ensures !(ok && reading.timed && IsFragmented(rects) && wholeTElements != [] && wholeS > 0) ==>
                gElements == old(gElements)
      ensures ok ==> OnlyRefreshed(old(driver.screen.Content()), driver.screen.Content(), driver.desktop.Content())
      ensures ok ==> Shows(driver.screen.Content(), UnionOf(rects), driver.desktop.Content())
      ensures ok ==> ChangedOnlyIn(old(driver.screen.Content()), driver.screen.Content(), UnionOf(rects))
    {
      hide FragmentsTime, Sum, AreaOf;
      sample := 0.0;
      ok := GrabEach(rects, driver);
      if ok && reading.timed && IsFragmented(rects) && |wholeTElements| > 0 && wholeS > 0 {
        sample := SampleFragments(rects, reading.time);
      }
    }

    method SampleFragments(rects: seq<Rect>, time: int) returns (ghost sample: real)
      requires Valid() && |rects| > 0 && wholeTElements != [] && wholeS > 0
      modifies this`gElements, this`gSum
      ensures Valid() && gElements == Pushed(old(gElements), sample)
      ensures FragmentsTime(wholeS, wholeTElements, [sample], AreaOf(rects), |rects|) == time as real
    {
      hide Sum, FragmentsTime, AreaOf;
      var s := GetArea(rects);
      var whole := wholeTSum / |wholeTElements| as real;
      var g := (time as real - whole * s as real / wholeS as real) / |rects| as real;
      sample := g;
      OverheadExplainsTime(wholeS, wholeTElements, whole, s, |rects|, time, g);
      AddFragmentStats(g);
    }

    method GrabEach(rects: seq<Rect>, driver: ScreenDriver) returns (ok: bool)
      requires driver.Valid()
      modifies driver.screen.buffer
      ensures ok ==> OnlyRefreshed(old(driver.screen.Content()), driver.screen.Content(), driver.desktop.Content())
      ensures ok ==> Shows(driver.screen.Content(), UnionOf(rects), driver.desktop.Content())
      ensures ok ==> ChangedOnlyIn(old(driver.screen.Content()), driver.screen.Content(), UnionOf(rects))
    {
      for i := 0 to |rects|
        invariant OnlyRefreshed(old(driver.screen.Content()), driver.screen.Content(), driver.desktop.Content())
        invariant Shows(driver.screen.Content(), UnionOf(rects[..i]), driver.desktop.Content())
        invariant ChangedOnlyIn(old(driver.screen.Content()), driver.screen.Content(), UnionOf(rects[..i]))
      {
        ok := driver.GrabFb(rects[i]);
        if !ok {
          return;
        }
        assert rects[..i + 1][..i] == rects[..i];
      }
      assert rects[..|rects|] == rects;
      ok := true;
    }

    /** The first half of `grab`: measure the region and decide. */
    method PlanGrab(region: Region, driver: ScreenDriver, elapsed: bool)
      returns (plan: Plan, bounds: Rect, rects: seq<Rect>)
      requires Valid() && driver.Valid()
      modifies this
      ensures Valid() && rects == GetRectVector(region)
      ensures Planned(region, plan, bounds, rects, Stats(), driver.screen.dim.Area())
      ensures region == {} ==> Stats() == old(Stats())
      ensures region != {} ==> Stats() == old(Stats()).Refreshed(driver.screen.dim.Area(), elapsed)
    {
      hide PlanFor, Sum, IsRectVector, IsBounds, Rect.Area, Dimension.Area, GetRectVector;
      rects := GetRectVector(region);
      RectVectorLists(region);
      bounds := GetBounds(region);
      plan := Nothing;
      AreaNatural(bounds);
      if |rects| == 0 || bounds.Area() == 0 {
        EmptyRegion(region, bounds, rects);
      } else {
        NonEmptyRegion(region, rects);
        RefreshStatistic(driver, elapsed);
        plan := ChoosePlan(bounds, rects, driver);
      }
    }

    /** `at` are the statistics that the plan was made with. */
    method Grab(region: Region, driver: ScreenDriver)
      returns (ok: bool, ghost plan: Plan, ghost at: Statistics, ghost bounds: Rect, ghost elapsed: bool,
               ghost reading: Reading)
      requires Valid() && driver.Valid()
      modifies this, driver.screen.buffer
      ensures Valid()
      ensures at == if region == {} then old(Stats()) else old(Stats()).Refreshed(driver.screen.dim.Area(), elapsed)
      ensures Planned(region, plan, bounds, GetRectVector(region), at, driver.screen.dim.Area())
      ensures region != {} && |at.wholeT| >= 3 && |at.g| >= 3 && at.wholeS > 0 ==>
                (plan == OneRect <==> SavesTime(at, bounds, GetRectVector(region)))
      ensures Stats().Follows(at, ok, plan, bounds, GetRectVector(region), reading)
      ensures ok ==> CarriedOut(plan, bounds, region,
                                old(driver.screen.Content()), driver.screen.Content(), driver.desktop.Content())
      ensures ok ==> OnlyRefreshed(old(driver.screen.Content()), driver.screen.Content(), driver.desktop.Content())
      ensures ok ==> Shows(driver.screen.Content(), region, driver.desktop.Content())
    {
      hide PlanFor, OnlyRefreshed, Shows, Sum, IsRectVector, IsBounds, Rect.Area, Dimension.Area, GetRectVector,
           SavesTime, AreaOf, Statistics.Follows, Planned;
      var timeIsOver, time, timed := *, *, *;
      elapsed, reading := timeIsOver, Reading(timed, time);
      var choice, box, rects := PlanGrab(region, driver, timeIsOver);
      plan, at, bounds := choice, Stats(), box;
      PlannedIs(region, plan, bounds, rects, at, driver.screen.dim.Area());
      if choice == Nothing {
        NothingFollows(at, bounds, rects, reading);
        ShowsNothing(driver.screen.Content(), driver.desktop.Content());
        ok := true;
      } else {
        RectVectorLists(region);
        UnionOfRectVector(rects, region);
        BoundsCover(region, box);
        ok := CarryOut(choice, box, rects, region, driver, Reading(timed, time));
      }
    }

    method CarryOut(plan: Plan, bounds: Rect, rects: seq<Rect>, ghost region: Region, driver: ScreenDriver,
                    reading: Reading)
      returns (ok: bool)
      requires Valid() && driver.Valid() && plan != Nothing
      requires bounds.Area() > 0 && |rects| > 0 && region <= Pixels(bounds) && UnionOf(rects) == region
      modifies this, driver.screen.buffer
      ensures Valid() && Stats().Follows(old(Stats()), ok, plan, bounds, rects, reading)
      ensures ok ==> CarriedOut(plan, bounds, region,
                                old(driver.screen.Content()), driver.screen.Content(), driver.desktop.Content())
      ensures ok ==> OnlyRefreshed(old(driver.screen.Content()), driver.screen.Content(), driver.desktop.Content())
      ensures ok ==> Shows(driver.screen.Content(), region, driver.desktop.Content())
    {
      hide OnlyRefreshed, Shows, Sum, Rect.Area, FragmentsTime;
      ghost var sample;
      if plan == OneRect {
        ok, sample := GrabOneRect(bounds, driver, reading);
        if ok {
          ShowsLess(driver.screen.Content(), Pixels(bounds), region, driver.desktop.Content());
        }
      } else {
        ok, sample := GrabFragments(rects, driver, reading);
      }
    }

    /** The decision of `grab`, from the statistics for the current screen. */
    method ChoosePlan(bounds: Rect, rects: seq<Rect>, driver: ScreenDriver) returns (plan: Plan)
      requires Valid() && driver.Valid()
      modifies this
      ensures Valid() && wholeS == driver.screen.dim.Area()
      ensures Stats() == if wholeS == old(wholeS) then old(Stats()) else Statistics(wholeS, [], [])
      ensures plan == PlanFor(Stats(), bounds, rects) && plan != Nothing
      ensures |wholeTElements| >= 3 && |gElements| >= 3 && wholeS > 0 ==>
                (plan == OneRect <==> SavesTime(Stats(), bounds, rects))
    {
      hide Sum, AreaOf, BoundsTime, FragmentsTime, Average, Rect.Area, SavesTime;
      var oneRect := false;
      var available := GetOptimizationAvailable(driver);
      var area := GetArea(rects);
      if available {
        if wholeS > 0 {
          var avgWholeT := wholeTSum / |wholeTElements| as real;
          var boundsRectT := avgWholeT * bounds.Area() as real / wholeS as real;
          var grabF := avgWholeT / wholeS as real;
          var avgG := gSum / |gElements| as real;
          var estimatedFragTime := area as real * grabF + avgG * |rects| as real;
          boundsRectT := boundsRectT + avgG;
          AverageIs(wholeTElements);
          AverageIs(gElements);
          EstimatesAre(wholeS, wholeTElements, gElements, bounds.Area(), area, |rects|, avgWholeT, avgG);
          oneRect := boundsRectT <= estimatedFragTime;
        }
      } else if IsLarge(wholeS, bounds.Area()) && |wholeTElements| < MIN_ELEMENTS_SIZE {
        oneRect := true;
      } else if IsFragmented(rects) && |gElements| < MIN_ELEMENTS_SIZE {
        oneRect := false;
      } else {
        oneRect := IsLarge(wholeS, area);
      }
      plan := if oneRect then OneRect else Pieces;
      PlanSavesTime(Stats(), bounds, rects);
    }
  }

  lemma BoundsCover(region: Region, bounds: Rect)
    requires IsBounds(bounds, region)
    ensures region <= Pixels(bounds)
  {
  }

  lemma NonEmptyRegion(region: Region, rects: seq<Rect>)
    requires IsRectVector(rects, region) && |rects| > 0
    ensures region != {}
  {
    assert rects[0].Contains(rects[0].TopLeft());
  }

  lemma AreaNatural(r: Rect)
    ensures r.Area() >= 0
  {
    if !r.IsEmpty() {
      MulMonotone(0, r.Width(), r.Height());
    }
  }

  lemma EmptyRegion(region: Region, bounds: Rect, rects: seq<Rect>)
    requires |rects| == 0 || bounds.Area() == 0
    requires IsRectVector(rects, region) && (region != {} ==> IsBounds(bounds, region))
    ensures region == {}
  {
    if region != {} {
      var p :| p in region;
      assert bounds.Contains(p);
      MulMonotone(1, bounds.Width(), bounds.Height());
    }
  }
}
