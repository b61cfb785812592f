/** The path sampler of the renumbering tool: the points tested between the
    previous and the current cursor position, the pads hit there, and the
    de-duplication of that list (pcbnew/tools/pad_tool.cpp:311-330). */
module Sampling {
  import opened BoardModel

  /** A point in board internal units (nanometres). */
  datatype Point = Point(x: int, y: int)

  function Sub(a: Point, b: Point): Point
  {
    Point(a.x - b.x, a.y - b.y)
  }

  /** Internal units per millimetre in pcbnew. */
  const IU_PER_MM: nat := 1000000

  /** The search step, int(0.1 * IU_PER_MM): one test point every 0.1 mm. */
  const SearchStep: nat := 100000

  /** C++ integer division, which truncates toward zero: the quotient's
      magnitude is the largest q with q * b <= |a|, and it carries a's sign. */
  function TruncDiv(a: int, b: int): (q: int)
    requires b > 0
    ensures a >= 0 ==> 0 <= q && q * b <= a < q * b + b
    ensures a < 0 ==> q <= 0 && q * b - b < a <= q * b
  {
    FloorDivBounds(if a >= 0 then a else -a, b);
    if a >= 0 then a / b else -((-a) / b)
  }

  lemma FloorDivBounds(m: nat, b: int)
    requires b > 0
    ensures (m / b) * b <= m < (m / b) * b + b
  {
    var q, r := m / b, m % b;
    assert m == b * q + r && 0 <= r < b;
  }

  /** The number of test points for a move of the given length: distance / step + 1. */
  function SegmentCount(distance: nat, step: nat): nat
    requires step > 0
  {
    distance / step + 1
  }

  /** The vector between consecutive test points: (cursorPos - oldPos) / segments,
      divided component-wise with truncation. */
  function LineStep(oldPos: Point, cursorPos: Point, segments: nat): (r: Point)
    requires segments > 0
    ensures StepFits(cursorPos.x - oldPos.x, r.x, segments)
    ensures StepFits(cursorPos.y - oldPos.y, r.y, segments)
  {
    var d := Sub(cursorPos, oldPos);
    Point(TruncDiv(d.x, segments), TruncDiv(d.y, segments))
  }

  /** `n` steps of `s` cover the component `d` of a move short of less than
      one `n`, on the same side of zero: truncation toward zero. */
  predicate StepFits(d: int, s: int, n: nat)
  {
    && (d >= 0 ==> 0 <= s * n <= d < s * n + n)
    && (d < 0 ==> s * n - n < d <= s * n <= 0)
  }

  /** The j-th test point, walking back from the cursor toward the old position. */
  function TestPoint(cursorPos: Point, lineStep: Point, j: nat): Point
  {
    Point(cursorPos.x - j * lineStep.x, cursorPos.y - j * lineStep.y)
  }

  /** All test points of one move, in the order the tool tests them: the
      first is the cursor, none lies outside the move, and when the distance
      bounds the move's components neighbours are less than a step apart. */
  function SamplePoints(oldPos: Point, cursorPos: Point, distance: nat, step: nat): (r: seq<Point>)
    requires step > 0
    ensures |r| == SegmentCount(distance, step)
    ensures r[0] == cursorPos
    ensures forall j | 0 <= j < |r| :: InMoveBox(r[j], oldPos, cursorPos)
    ensures Abs(cursorPos.x - oldPos.x) <= distance && Abs(cursorPos.y - oldPos.y) <= distance ==>
      forall j | 0 <= j < |r| - 1 :: NeighboursWithin(r, j, step)
    ensures forall j | 0 <= j < |r| ::
      r[j] == TestPoint(cursorPos, LineStep(oldPos, cursorPos, SegmentCount(distance, step)), j)
  {
    var segments := SegmentCount(distance, step);
    TestPointsStayInMoveBox(oldPos, cursorPos, segments);
    TestPointsSpacing(oldPos, cursorPos, distance, step);
    TestPoints(cursorPos, LineStep(oldPos, cursorPos, segments), segments)
  }

  /** The first `n` points walking back from the cursor by `lineStep`. */
  function TestPoints(cursorPos: Point, lineStep: Point, n: nat): (r: seq<Point>)
    ensures |r| == n && forall j | 0 <= j < n :: r[j] == TestPoint(cursorPos, lineStep, j)
  {
    seq(n, j requires 0 <= j < n => TestPoint(cursorPos, lineStep, j))
  }

  /** Test points `j` and `j + 1` are less than `step` apart on each axis. */
  predicate NeighboursWithin(r: seq<Point>, j: nat, step: nat)
    requires j < |r| - 1
  {
    Abs(r[j].x - r[j + 1].x) < step && Abs(r[j].y - r[j + 1].y) < step
  }

  /** `p` lies in the bounding box of the old and the current cursor positions. */
  predicate InMoveBox(p: Point, oldPos: Point, cursorPos: Point)
  {
    && Min(oldPos.x, cursorPos.x) <= p.x <= Max(oldPos.x, cursorPos.x)
    && Min(oldPos.y, cursorPos.y) <= p.y <= Max(oldPos.y, cursorPos.y)
  }

  /** The pads reported by the hit test at each test point, concatenated in
      test order: nothing reported at a test point is missed. */
  function HitsAlong(points: seq<Point>, hit: Point -> seq<nat>): (r: seq<nat>)
    ensures forall j, x | 0 <= j < |points| && x in hit(points[j]) :: x in r
  {
    if |points| == 0 then []
    else
      var init := points[..|points| - 1];
      assert forall j | 0 <= j < |init| :: init[j] == points[j];
      HitsAlong(init, hit) + hit(points[|points| - 1])
  }

  /** std::list::unique: every run of equal adjacent entries collapses to one entry. */
  function AdjacentUnique(s: seq<nat>): (r: seq<nat>)
    ensures |s| > 0 ==> |r| > 0 && r[0] == s[0]
    ensures forall x :: x in r <==> x in s
    ensures forall k | 0 <= k < |r| - 1 :: r[k] != r[k + 1]
  {
    if |s| <= 1 then s
    else if s[0] == s[1] then AdjacentUnique(s[1..])
    else [s[0]] + AdjacentUnique(s[1..])
  }

  /** The hit test reports only pads of a board with padCount pads. */
  ghost predicate HitsInRange(hit: Point -> seq<nat>, padCount: nat)
  {
    forall p: Point, k | 0 <= k < |hit(p)| :: hit(p)[k] < padCount
  }

  /** The loop of lines 311-330: test every sample point, collect the pads hit,
      then drop adjacent repeats. */
  method CollectPads(oldPos: Point, cursorPos: Point, distance: nat, hit: Point -> seq<nat>)
    returns (selectedPads: seq<nat>)
    ensures selectedPads == AdjacentUnique(HitsAlong(SamplePoints(oldPos, cursorPos, distance, SearchStep), hit))
  {
    var segments := distance / SearchStep + 1;
    var lineStep := LineStep(oldPos, cursorPos, segments);
    ghost var points := SamplePoints(oldPos, cursorPos, distance, SearchStep);
    var hits: seq<nat> := [];
    var j := 0;
    while j < segments
      invariant 0 <= j <= segments
      invariant hits == HitsAlong(points[..j], hit)
    {
      var testpoint := Point(cursorPos.x - j * lineStep.x, cursorPos.y - j * lineStep.y);
      assert points[..j + 1][..j] == points[..j];
      hits := hits + hit(testpoint);
      j := j + 1;
    }
    assert points[..segments] == points;
    selectedPads := AdjacentUnique(hits);
  }

  // ---- Properties of the sampler ----

  /** There is always at least one test point, and the points are just dense
      enough: (segments - 1) * step <= distance < segments * step. */
  lemma SegmentCountBounds(distance: nat, step: nat)
    requires step > 0
    ensures SegmentCount(distance, step) >= 1
    ensures (SegmentCount(distance, step) - 1) * step <= distance < SegmentCount(distance, step) * step
  {
  }

  /** A one-millimetre move is tested at least ten times (eleven, in fact). */
  lemma OneMillimetreGetsTenSamples()
    ensures |SamplePoints(Point(0, 0), Point(IU_PER_MM as int, 0), IU_PER_MM, SearchStep)| == 11
  {
  }

  /** j * q lies between 0 and a when q = a / b (truncated) and 0 <= j <= b. */
  lemma ScaledStepWithin(a: int, b: int, j: nat)
    requires b > 0 && j <= b
    ensures var q := TruncDiv(a, b);
      (a >= 0 ==> 0 <= j * q <= a) && (a < 0 ==> a <= j * q <= 0)
  {
    var q := TruncDiv(a, b);
    if a >= 0 {
      assert j * q <= b * q;
    } else {
      assert j * (-q) <= b * (-q);
    }
  }

  /** Every test point lies in the box spanned by the old and the current
      cursor positions: the sampler never tests beyond the move. */
  lemma TestPointsStayInMoveBox(oldPos: Point, cursorPos: Point, segments: nat)
    requires segments > 0
    ensures var r := TestPoints(cursorPos, LineStep(oldPos, cursorPos, segments), segments);
      forall j | 0 <= j < |r| :: InMoveBox(r[j], oldPos, cursorPos)
  {
    var d := Sub(cursorPos, oldPos);
    var r := TestPoints(cursorPos, LineStep(oldPos, cursorPos, segments), segments);
    forall j | 0 <= j < |r| ensures InMoveBox(r[j], oldPos, cursorPos) {
      ScaledStepWithin(d.x, segments, j);
      ScaledStepWithin(d.y, segments, j);
    }
  }

  /** When the distance bounds the move's components, neighbouring test points
      are less than one step apart on each axis. */
  lemma TestPointsSpacing(oldPos: Point, cursorPos: Point, distance: nat, step: nat)
    requires step > 0
    ensures var n := SegmentCount(distance, step);
      var r := TestPoints(cursorPos, LineStep(oldPos, cursorPos, n), n);
      Abs(cursorPos.x - oldPos.x) <= distance && Abs(cursorPos.y - oldPos.y) <= distance ==>
        forall j | 0 <= j < |r| - 1 :: NeighboursWithin(r, j, step)
  {
    var n := SegmentCount(distance, step);
    var ls := LineStep(oldPos, cursorPos, n);
    var r := TestPoints(cursorPos, ls, n);
    SampleSpacingBelowStep(oldPos, cursorPos, distance, step);
    forall j | 0 <= j < |r| - 1 ensures r[j].x - r[j + 1].x == ls.x && r[j].y - r[j + 1].y == ls.y {
      assert (j + 1) * ls.x == j * ls.x + ls.x;
      assert (j + 1) * ls.y == j * ls.y + ls.y;
    }
  }

  /** The end of the move nearest the old position is not sampled at the step:
      the last test point lies one line step plus the truncation remainder
      from the old position, and that remainder, below the segment count on
      each axis, can make the stretch longer than the step (FinalStretchExample). */
  lemma FinalStretch(oldPos: Point, cursorPos: Point, distance: nat, step: nat)
    requires step > 0
    ensures var n := SegmentCount(distance, step);
      var ls := LineStep(oldPos, cursorPos, n);
      var last := SamplePoints(oldPos, cursorPos, distance, step)[n - 1];
      && last.x - oldPos.x == ls.x + (cursorPos.x - oldPos.x - n * ls.x)
      && last.y - oldPos.y == ls.y + (cursorPos.y - oldPos.y - n * ls.y)
      && Abs(cursorPos.x - oldPos.x - n * ls.x) < n
      && Abs(cursorPos.y - oldPos.y - n * ls.y) < n
  {
    var n := SegmentCount(distance, step);
    var ls := LineStep(oldPos, cursorPos, n);
    assert (n - 1) * ls.x == n * ls.x - ls.x;
    assert (n - 1) * ls.y == n * ls.y - ls.y;
  }

  /** A 999-unit move with a step of 10 is cut into 100 segments of 9. */
  lemma LongMoveSegments()
    ensures SegmentCount(999, 10) == 100
    ensures LineStep(Point(0, 0), Point(999, 0), 100) == Point(9, 0)
  {
    assert 999 / 10 == 99;
    assert TruncDiv(999, 100) == 9 && TruncDiv(0, 100) == 0;
    assert Sub(Point(999, 0), Point(0, 0)) == Point(999, 0);
    assert LineStep(Point(0, 0), Point(999, 0), 100) == Point(TruncDiv(999, 100), TruncDiv(0, 100));
  }

  /** Its last test point is 108 units from the old position: a stretch more
      than ten times the step that no test point falls in. */
  lemma FinalStretchExample()
    ensures var r := SamplePoints(Point(0, 0), Point(999, 0), 999, 10);
      |r| == 100 && r[|r| - 1] == Point(108, 0)
  {
    LongMoveSegments();
    FinalStretch(Point(0, 0), Point(999, 0), 999, 10);
  }

  /** When the move's length bounds both of its components (as a Euclidean norm
      does), consecutive test points are less than one search step apart on
      each axis. The stretch beyond the last test point is not bounded by
      this (FinalStretch). */
  lemma SampleSpacingBelowStep(oldPos: Point, cursorPos: Point, distance: nat, step: nat)
    requires step > 0
    ensures Abs(cursorPos.x - oldPos.x) <= distance && Abs(cursorPos.y - oldPos.y) <= distance ==>
      var s := LineStep(oldPos, cursorPos, SegmentCount(distance, step));
      Abs(s.x) < step && Abs(s.y) < step
  {
    if Abs(cursorPos.x - oldPos.x) <= distance && Abs(cursorPos.y - oldPos.y) <= distance {
      AxisStepBelow(cursorPos.x - oldPos.x, distance, step);
      AxisStepBelow(cursorPos.y - oldPos.y, distance, step);
    }
  }

  /** One axis of the spacing bound. */
  lemma AxisStepBelow(d: int, distance: nat, step: nat)
    requires step > 0 && Abs(d) <= distance
    ensures Abs(TruncDiv(d, SegmentCount(distance, step))) < step
  {
    var n := SegmentCount(distance, step);
    var q := TruncDiv(d, n);
    SegmentCountBounds(distance, step);
    if d >= 0 {
      StepBelow(q, n, step, distance);
    } else {
      assert (-q) * n == -(q * n);
      StepBelow(-q, n, step, distance);
    }
  }

  /** From q * n <= distance < n * step follows q < step. */
  lemma StepBelow(q: nat, n: nat, step: nat, distance: nat)
    requires n > 0 && q * n <= distance < n * step
    ensures q < step
  {
    MulMonotone(step, q, n);
  }

  lemma MulMonotone(a: int, b: int, n: nat)
    ensures a <= b ==> a * n <= b * n
  {
    if a <= b {
      assert b * n - a * n == (b - a) * n;
    }
  }

  /** Without a move, every test point is the cursor and the first event of a
      session tests exactly one point. */
  lemma NoMoveSamplesCursorOnly(p: Point, step: nat)
    requires step > 0
    ensures SamplePoints(p, p, 0, step) == [p]
  {
  }

  // ---- Properties of the hit list ----

  /** A pad is in the collected list exactly when the hit test reports it at some test point. */
  lemma {:induction false} HitsAlongMembership(points: seq<Point>, hit: Point -> seq<nat>, x: nat)
    ensures x in HitsAlong(points, hit) <==> exists j | 0 <= j < |points| :: x in hit(points[j])
    decreases |points|
  {
    if |points| > 0 {
      var init := points[..|points| - 1];
      HitsAlongMembership(init, hit, x);
      if x in HitsAlong(points, hit) && x !in hit(points[|points| - 1]) {
        var j :| 0 <= j < |init| && x in hit(init[j]);
        assert points[j] == init[j];
      }
      if exists j | 0 <= j < |points| :: x in hit(points[j]) {
        var j :| 0 <= j < |points| && x in hit(points[j]);
        if j < |init| {
          assert init[j] == points[j];
        }
      }
    }
  }

  /** The collected list only names pads of the board. */
  lemma {:induction false} HitsAlongInRange(points: seq<Point>, hit: Point -> seq<nat>, padCount: nat)
    requires HitsInRange(hit, padCount)
    ensures AllPadsIn(HitsAlong(points, hit), padCount)
    decreases |points|
  {
    if |points| > 0 {
      HitsAlongInRange(points[..|points| - 1], hit, padCount);
    }
  }

  /** std::list::unique is idempotent. */
  lemma AdjacentUniqueIdempotent(s: seq<nat>)
    ensures AdjacentUnique(AdjacentUnique(s)) == AdjacentUnique(s)
  {
    NoAdjacentRepeatsIsFixed(AdjacentUnique(s));
  }

  /** Appending to the input appends to the output unless the new entry
      repeats the last one: together with AdjacentUnique([]) == [] this fixes
      std::list::unique on every list. */
  lemma {:induction false} AdjacentUniqueSnoc(s: seq<nat>, x: nat)
    ensures AdjacentUnique(s + [x])
            == if |s| > 0 && s[|s| - 1] == x then AdjacentUnique(s) else AdjacentUnique(s) + [x]
    decreases |s|
  {
    var t := s + [x];
    if |s| == 0 {
      assert t == [x];
    } else if |s| == 1 {
      assert t == [s[0], x] && t[1..] == [x];
    } else {
      assert t[0] == s[0] && t[1] == s[1];
      assert t[1..] == s[1..] + [x];
      AdjacentUniqueSnoc(s[1..], x);
    }
  }

  /** A list without adjacent repeats is left as it is. */
  lemma {:induction false} NoAdjacentRepeatsIsFixed(s: seq<nat>)
    requires forall k | 0 <= k < |s| - 1 :: s[k] != s[k + 1]
    ensures AdjacentUnique(s) == s
    decreases |s|
  {
    if |s| > 1 {
      NoAdjacentRepeatsIsFixed(s[1..]);
      assert [s[0]] + s[1..] == s;
    }
  }

  /** Only adjacent repeats go: a pad hit, left and hit again stays in the list twice. */
  lemma UniqueKeepsSeparatedRepeats(a: nat, b: nat)
    requires a != b
    ensures AdjacentUnique([a, b, a]) == [a, b, a]
  {
    NoAdjacentRepeatsIsFixed([a, b, a]);
  }

  function Min(a: int, b: int): int { if a <= b then a else b }
  function Max(a: int, b: int): int { if a <= b then b else a }
  function Abs(a: int): nat { if a < 0 then -a else a }
}
