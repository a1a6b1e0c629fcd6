/** Station-free arcs on the circle of directions, and the closest station. */
module Geometry {
  import opened Wrappers

  // ---------------------------------------------------------------- arcs

  /** Direction a after some whole turns. */
  function Turned(a: real, turns: int): real { a + 360.0 * turns as real }

  /** Direction `a`, taken k turns further, lies strictly inside the arc. */
  ghost predicate Inside(a: real, k: int, start: real, size: real) {
    start < Turned(a, k) < start + size
  }

  ghost predicate EmptyArc(directions: seq<real>, start: real, size: real) {
    forall i: nat, k: int :: i < |directions| ==> !Inside(directions[i], k, start, size)
  }

  /** The azimuthal gap: the size of some empty arc, and of no smaller than any. */
  ghost predicate IsGap(directions: seq<real>, gap: real) {
    && (exists start :: EmptyArc(directions, start, gap))
    && (forall start, size :: EmptyArc(directions, start, size) ==> size <= gap)
  }

  ghost predicate SameDirection(a: real, b: real) {
    exists turns: int :: b == Turned(a, turns)
  }

  lemma GapUnique(directions: seq<real>, g: real, h: real)
    requires IsGap(directions, g) && IsGap(directions, h)
    ensures g == h
  {}

  /** Every direction is met within one turn of any starting point. */
  lemma Reach(a: real, start: real) returns (k: int)
    ensures start < Turned(a, k) <= start + 360.0
  {
    k := ((start - a) / 360.0).Floor + 1;
  }

  lemma GapAtMostOneTurn(directions: seq<real>, gap: real)
    requires directions != [] && IsGap(directions, gap)
    ensures gap <= 360.0
  {
    var start :| EmptyArc(directions, start, gap);
    var k := Reach(directions[0], start);
    assert !Inside(directions[0], k, start, gap);
  }

  /** The gap is a full turn exactly when all directions coincide. */
  lemma FullTurnIff(directions: seq<real>, gap: real)
    requires directions != [] && IsGap(directions, gap)
    ensures gap < 360.0 <==>
            exists i: nat, j: nat :: i < |directions| && j < |directions| && !SameDirection(directions[i], directions[j])
  {
    GapAtMostOneTurn(directions, gap);
    var a := directions[0];
    if gap == 360.0 {
      var start :| EmptyArc(directions, start, gap);
      forall i: nat, j: nat | i < |directions| && j < |directions|
        ensures SameDirection(directions[i], directions[j])
      {
        var k := Reach(directions[i], start);
        var m := Reach(directions[j], start);
        assert !Inside(directions[i], k, start, gap) && !Inside(directions[j], m, start, gap);
        assert directions[j] == Turned(directions[i], k - m);
      }
    } else if forall i: nat, j: nat :: i < |directions| && j < |directions| ==> SameDirection(directions[i], directions[j]) {
      forall i: nat, k: int | i < |directions| ensures !Inside(directions[i], k, a, 360.0) {
        assert SameDirection(directions[0], directions[i]);
        var turns: int :| directions[i] == Turned(a, turns);
        assert Turned(directions[i], k) == Turned(a, turns + k);
      }
      assert EmptyArc(directions, a, 360.0);
    }
  }

  // ---------------------------------------------------------------- invariance

  /** The directions `to` are `from` turned by one angle, each brought back by some whole turns. */
  ghost predicate Rotated(from: seq<real>, to: seq<real>, angle: real) {
    |from| == |to| && forall i :: 0 <= i < |from| ==> SameDirection(from[i] + angle, to[i])
  }

  lemma RotatedArc(from: seq<real>, to: seq<real>, angle: real, start: real, size: real)
    requires Rotated(from, to, angle) && EmptyArc(from, start, size)
    ensures EmptyArc(to, start + angle, size)
  {
    var turnedStart := start + angle;
    forall i: nat, k: int | i < |to| ensures !Inside(to[i], k, turnedStart, size) {
      assert SameDirection(from[i] + angle, to[i]);
      var turns: int :| to[i] == Turned(from[i] + angle, turns);
      assert !Inside(from[i], k + turns, start, size);
    }
  }

  lemma RotatedBack(from: seq<real>, to: seq<real>, angle: real)
    requires Rotated(from, to, angle)
    ensures Rotated(to, from, -angle)
  {
    forall i | 0 <= i < |to| ensures SameDirection(to[i] + -angle, from[i]) {
      assert SameDirection(from[i] + angle, to[i]);
      var turns: int :| to[i] == Turned(from[i] + angle, turns);
      assert from[i] == Turned(to[i] + -angle, -turns);
    }
  }

  /** Turning the whole picture does not change the gap. */
  lemma GapRotates(from: seq<real>, to: seq<real>, angle: real, gap: real)
    requires Rotated(from, to, angle) && IsGap(from, gap)
    ensures IsGap(to, gap)
  {
    var start :| EmptyArc(from, start, gap);
    RotatedArc(from, to, angle, start, gap);
    RotatedBack(from, to, angle);
    forall start, size | EmptyArc(to, start, size) ensures size <= gap {
      RotatedArc(to, from, -angle, start, size);
    }
  }

  /** More directions leave fewer arcs empty. */
  lemma ArcOfSubset(fewer: seq<real>, more: seq<real>, start: real, size: real)
    requires (forall i :: 0 <= i < |fewer| ==> fewer[i] in more) && EmptyArc(more, start, size)
    ensures EmptyArc(fewer, start, size)
  {
    forall i: nat, k: int | i < |fewer| ensures !Inside(fewer[i], k, start, size) {
      var j: nat :| j < |more| && more[j] == fewer[i];
      assert !Inside(more[j], k, start, size);
    }
  }

  /** The gap depends on which directions occur, not on their order or number. */
  lemma GapOfPermutation(directions: seq<real>, permuted: seq<real>, gap: real)
    requires multiset(directions) == multiset(permuted) && IsGap(directions, gap)
    ensures IsGap(permuted, gap)
  {
    forall i | 0 <= i < |permuted| ensures permuted[i] in directions {
      assert permuted[i] in multiset(permuted);
    }
    forall i | 0 <= i < |directions| ensures directions[i] in permuted {
      assert directions[i] in multiset(directions);
    }
    var start :| EmptyArc(directions, start, gap);
    ArcOfSubset(permuted, directions, start, gap);
    forall start, size | EmptyArc(permuted, start, size) ensures size <= gap {
      ArcOfSubset(directions, permuted, start, size);
    }
  }

  /** Further stations never widen the gap. */
  lemma GapShrinks(fewer: seq<real>, more: seq<real>, g: real, h: real)
    requires forall i :: 0 <= i < |fewer| ==> fewer[i] in more
    requires IsGap(fewer, g) && IsGap(more, h)
    ensures h <= g
  {
    var start :| EmptyArc(more, start, h);
    ArcOfSubset(fewer, more, start, h);
  }

  // ---------------------------------------------------------------- the computed gap

  ghost predicate Ascending(s: seq<real>) {
    forall i, j :: 0 <= i < j < |s| ==> s[i] <= s[j]
  }

  /** `std::sort`, of which only the order and the contents are used. */
  function Sort(s: seq<real>): (sorted: seq<real>)
    ensures Ascending(sorted) && multiset(sorted) == multiset(s) && |sorted| == |s|
  {
    if s == [] then []
    else
      assert s == s[..|s| - 1] + [s[|s| - 1]];
      Insert(Sort(s[..|s| - 1]), s[|s| - 1])
  }

  function Insert(s: seq<real>, x: real): (sorted: seq<real>)
    requires Ascending(s)
    ensures Ascending(sorted) && multiset(sorted) == multiset(s) + multiset{x} && |sorted| == |s| + 1
  {
    if s == [] || s[|s| - 1] <= x then s + [x]
    else
      var front, last := s[..|s| - 1], s[|s| - 1];
      assert s == front + [last];
      BoundedContents(Insert(front, x), multiset(front) + multiset{x}, last);
      Insert(front, x) + [last]
  }

  lemma BoundedContents(s: seq<real>, contents: multiset<real>, bound: real)
    requires multiset(s) == contents && forall y :: y in contents ==> y <= bound
    ensures forall i :: 0 <= i < |s| ==> s[i] <= bound
  {
    forall i | 0 <= i < |s| ensures s[i] <= bound {
      assert s[i] in multiset(s);
    }
  }

  /** Ascending directions within one turn, followed by the first one again a turn later. */
  ghost predicate Wrapped(b: seq<real>) {
    && |b| >= 2 && Ascending(b) && b[|b| - 1] == b[0] + 360.0
    && 0.0 <= b[0] && b[|b| - 2] <= 360.0
  }

  ghost predicate LargestStep(b: seq<real>, gap: real) {
    && (forall i :: 0 <= i < |b| - 1 ==> b[i + 1] - b[i] <= gap)
    && (exists i :: 0 <= i < |b| - 1 && b[i + 1] - b[i] == gap)
  }

  function SumOfSteps(b: seq<real>): real {
    if |b| < 2 then 0.0 else SumOfSteps(b[..|b| - 1]) + (b[|b| - 1] - b[|b| - 2])
  }

  lemma {:induction false} StepsTelescope(b: seq<real>)
    requires b != []
    ensures SumOfSteps(b) == b[|b| - 1] - b[0]
  {
    if |b| >= 2 {
      StepsTelescope(b[..|b| - 1]);
    }
  }

  /** The arcs between neighbours add up to the circle. */
  lemma ArcsSumToCircle(b: seq<real>)
    requires Wrapped(b)
    ensures SumOfSteps(b) == 360.0
  {
    StepsTelescope(b);
  }

  lemma {:induction false} StepsAtMost(b: seq<real>, gap: real, n: nat)
    requires n < |b| && forall i :: 0 <= i < |b| - 1 ==> b[i + 1] - b[i] <= gap
    ensures b[n] - b[0] <= n as real * gap
  {
    if n > 0 {
      StepsAtMost(b, gap, n - 1);
      assert n as real == (n - 1) as real + 1.0;
      assert n as real * gap == (n - 1) as real * gap + gap;
    }
  }

  /** The n arcs cannot all be smaller than their average. */
  lemma GapAtLeastAverage(b: seq<real>, gap: real)
    requires Wrapped(b) && LargestStep(b, gap)
    ensures (|b| - 1) as real * gap >= 360.0
    ensures gap > 0.0
  {
    StepsAtMost(b, gap, |b| - 1);
    PositiveFactor(|b| - 1, gap);
  }

  lemma PositiveFactor(n: nat, gap: real)
    requires n as real * gap > 0.0
    ensures gap > 0.0
  {}

  /** The arc between neighbours is empty. */
  lemma StepIsEmpty(b: seq<real>, i: nat)
    requires Wrapped(b) && i < |b| - 1
    ensures EmptyArc(b[..|b| - 1], b[i], b[i + 1] - b[i])
  {
    var directions, start, size := b[..|b| - 1], b[i], b[i + 1] - b[i];
    forall j: nat, k: int | j < |directions| ensures !Inside(directions[j], k, start, size) {
      assert b[0] <= b[j] <= 360.0 && b[i + 1] <= b[0] + 360.0;
      if k >= 1 {
        assert Turned(b[j], k) >= b[i + 1];
      } else if k <= -1 {
        assert Turned(b[j], k) <= b[i];
      } else {
        assert b[j] <= b[i] || b[i + 1] <= b[j];
      }
    }
  }

  /** The neighbours between which a point of the turn lies. */
  lemma {:induction false} Between(b: seq<real>, t: real, n: nat) returns (i: nat)
    requires 0 < n < |b| && b[0] <= t < b[n]
    ensures i < n && b[i] <= t < b[i + 1]
  {
    if b[n - 1] <= t {
      i := n - 1;
    } else {
      i := Between(b, t, n - 1);
    }
  }

  /** No empty arc is larger than the largest step. */
  lemma EmptyArcAtMostStep(b: seq<real>, gap: real, start: real, size: real)
    requires Wrapped(b) && LargestStep(b, gap) && EmptyArc(b[..|b| - 1], start, size)
    ensures size <= gap
  {
    var n := |b| - 1;
    var m := ((start - b[0]) / 360.0).Floor;
    var t := start - 360.0 * m as real;
    var i := Between(b, t, n);
    if i + 1 < n {
      assert !Inside(b[..n][i + 1], m, start, size);
    } else {
      assert !Inside(b[..n][0], m + 1, start, size);
    }
  }

  /** The largest step between sorted neighbours, the wraparound included, is the gap. */
  lemma LargestStepIsGap(b: seq<real>, gap: real)
    requires Wrapped(b) && LargestStep(b, gap)
    ensures IsGap(b[..|b| - 1], gap)
  {
    var i: nat :| i < |b| - 1 && b[i + 1] - b[i] == gap;
    StepIsEmpty(b, i);
    var directions := b[..|b| - 1];
    forall start, size | EmptyArc(directions, start, size) ensures size <= gap {
      EmptyArcAtMostStep(b, gap, start, size);
    }
  }

  // ---------------------------------------------------------------- computeDistanceAndAzimuth

  /** What the geodesic solver returns for a station: metres, and the back-azimuth before the half turn. */
  datatype Ray = Ray(distance: real, backAzimuth: real)

  function Kilometres(ray: Ray): real { ray.distance * 0.001 }

  /** The translation from [-180, 180] to [0, 360]. */
  function BackAzimuth(ray: Ray): real { ray.backAzimuth + 180.0 }

  type Solved = ray: Ray | -180.0 <= ray.backAzimuth <= 180.0 witness Ray(0.0, 0.0)

  function Directions(rays: seq<Option<Solved>>): (s: seq<real>)
    requires AllSolved(rays)
    ensures |s| == |rays|
  {
    seq(|rays|, i requires 0 <= i < |rays| => BackAzimuth(rays[i].value))
  }

  ghost predicate AllSolved(rays: seq<Option<Solved>>) {
    forall i :: 0 <= i < |rays| ==> rays[i].Some?
  }

  /** The least of the start value and the distances up to the first station that fails. */
  function Closest(rays: seq<Option<Solved>>, start: real): (closest: real)
    ensures closest <= start
  {
    if rays == [] || rays[0].None? then start
    else Closest(rays[1..], if Kilometres(rays[0].value) < start then Kilometres(rays[0].value) else start)
  }

  lemma {:induction false} ClosestIsLeast(rays: seq<Option<Solved>>, start: real)
    requires AllSolved(rays)
    ensures forall i :: 0 <= i < |rays| ==> Closest(rays, start) <= Kilometres(rays[i].value)
    ensures Closest(rays, start) == start || exists i :: 0 <= i < |rays| && Closest(rays, start) == Kilometres(rays[i].value)
  {
    if rays != [] {
      var next := if Kilometres(rays[0].value) < start then Kilometres(rays[0].value) else start;
      ClosestIsLeast(rays[1..], next);
      forall i | 0 <= i < |rays| ensures Closest(rays, start) <= Kilometres(rays[i].value) {
        assert i > 0 ==> rays[i] == rays[1..][i - 1];
      }
      if Closest(rays, start) != next {
        var i :| 0 <= i < |rays[1..]| && Closest(rays[1..], next) == Kilometres(rays[1..][i].value);
        assert rays[1..][i] == rays[i + 1];
      } else if next != start {
        assert Closest(rays, start) == Kilometres(rays[0].value);
      }
    }
  }

  /** In the solver's metres: the closest distance is a thousandth of the least, or the start value. */
  lemma ClosestInMetres(rays: seq<Option<Solved>>, start: real)
    requires AllSolved(rays)
    ensures forall i :: 0 <= i < |rays| ==> 1000.0 * Closest(rays, start) <= rays[i].value.distance
    ensures Closest(rays, start) == start || exists i :: 0 <= i < |rays| && 1000.0 * Closest(rays, start) == rays[i].value.distance
  {
    ClosestIsLeast(rays, start);
    if Closest(rays, start) != start {
      var i :| 0 <= i < |rays| && Closest(rays, start) == Kilometres(rays[i].value);
      assert 1000.0 * Closest(rays, start) == rays[i].value.distance;
    }
  }

  /** Further stations are never farther than the closest one. */
  lemma ClosestShrinks(fewer: seq<Option<Solved>>, more: seq<Option<Solved>>, start: real)
    requires AllSolved(more) && forall i :: 0 <= i < |fewer| ==> fewer[i] in more
    ensures Closest(more, start) <= Closest(fewer, start)
  {
    ClosestIsLeast(more, start);
    forall i | 0 <= i < |fewer| ensures fewer[i].Some? {
      assert fewer[i] in more;
    }
    ClosestIsLeast(fewer, start);
    if Closest(fewer, start) != start {
      var i :| 0 <= i < |fewer| && Closest(fewer, start) == Kilometres(fewer[i].value);
      var j :| 0 <= j < |more| && more[j] == fewer[i];
    }
  }

  lemma {:induction false} ClosestStep(rays: seq<Option<Solved>>, n: nat, start: real)
    requires n < |rays| && AllSolved(rays[..n])
    ensures rays[n].Some? ==>
      Closest(rays[..n + 1], start)
      == if Kilometres(rays[n].value) < Closest(rays[..n], start) then Kilometres(rays[n].value) else Closest(rays[..n], start)
    ensures rays[n].None? ==> Closest(rays, start) == Closest(rays[..n], start)
  {
    if n > 0 {
      assert rays[..n][0] == rays[0];
      var next := if Kilometres(rays[0].value) < start then Kilometres(rays[0].value) else start;
      assert rays[..n][1..] == rays[1..][..n - 1] && rays[..n + 1][1..] == rays[1..][..n];
      var rest := rays[1..][..n - 1];
      forall i | 0 <= i < |rest| ensures rest[i].Some? {
        assert rest[i] == rays[..n][i + 1];
      }
      ClosestStep(rays[1..], n - 1, next);
    }
  }

  /**
   * The closest distance and the gap, through reference parameters that keep what was assigned to them when
   * the solver throws: the gap its value at the call, the distance the least one so far.
   */
  method ComputeDistanceAndAzimuth(rays: seq<Option<Solved>>, greatest: real, gapBefore: real)
    returns (closest: real, gap: real, threw: bool)
    ensures threw <==> !AllSolved(rays)
    ensures rays == [] ==> closest == -1.0 && gap == -1.0
    ensures rays != [] ==> closest == Closest(rays, greatest)
    ensures threw ==> gap == gapBefore
    ensures !threw && rays != [] ==> IsGap(Directions(rays), gap) && |rays| as real * gap >= 360.0 && gap <= 360.0
  {
    gap := gapBefore;
    if |rays| == 0 {
      return -1.0, -1.0, false;
    }
    closest := greatest;
    var backAzimuths: seq<real> := [];
    for k := 0 to |rays|
      invariant AllSolved(rays[..k]) && closest == Closest(rays[..k], greatest)
      invariant backAzimuths == Directions(rays[..k])
      invariant gap == gapBefore
    {
      ClosestStep(rays, k, greatest);
      if rays[k].None? {
        return closest, gap, true;
      }
      var ray := rays[k].value;
      closest := if Kilometres(ray) < closest then Kilometres(ray) else closest;
      backAzimuths := backAzimuths + [BackAzimuth(ray)];
      assert rays[..k + 1] == rays[..k] + [rays[k]];
    }
    assert rays[..|rays|] == rays;
    threw := false;
    gap := MaximumGap(backAzimuths);
  }

  /** The running maximum over neighbours. */
  method LargestStepOf(b: seq<real>) returns (gap: real)
    requires Wrapped(b)
    ensures LargestStep(b, gap)
  {
    gap := 0.0;
    for i := 0 to |b| - 1
      invariant gap >= 0.0 && forall j :: 0 <= j < i ==> b[j + 1] - b[j] <= gap
      invariant gap == 0.0 || exists j :: 0 <= j < i && b[j + 1] - b[j] == gap
    {
      if b[i + 1] - b[i] > gap {
        gap := b[i + 1] - b[i];
      }
    }
    StepsAtMost(b, gap, |b| - 1);
    PositiveFactor(|b| - 1, gap);
  }

  predicate WithinTurn(backAzimuths: seq<real>) {
    forall i :: 0 <= i < |backAzimuths| ==> 0.0 <= backAzimuths[i] <= 360.0
  }

  /** The gap of at least one back-azimuth: a full turn for one, else the largest step of the sorted, wrapped list. */
  method MaximumGap(backAzimuths: seq<real>) returns (gap: real)
    requires backAzimuths != [] && WithinTurn(backAzimuths)
    ensures IsGap(backAzimuths, gap)
    ensures |backAzimuths| as real * gap >= 360.0 && gap <= 360.0
  {
    gap := 360.0;
    if |backAzimuths| > 1 {
      gap := GapOfSeveral(backAzimuths);
    } else {
      GapOfOne(backAzimuths);
    }
  }

  method GapOfSeveral(backAzimuths: seq<real>) returns (gap: real)
    requires backAzimuths != [] && WithinTurn(backAzimuths)
    ensures IsGap(backAzimuths, gap)
    ensures |backAzimuths| as real * gap >= 360.0 && gap <= 360.0
  {
    SortedWithin(backAzimuths);
    var sorted := Sort(backAzimuths);
    var b := sorted + [sorted[0] + 360.0];
    assert b[..|b| - 1] == sorted && Wrapped(b);
    gap := LargestStepOf(b);
    GapOfSorted(backAzimuths, sorted, b, gap);
  }

  lemma GapOfOne(backAzimuths: seq<real>)
    requires |backAzimuths| == 1 && WithinTurn(backAzimuths)
    ensures IsGap(backAzimuths, 360.0)
  {
    var b := backAzimuths + [backAzimuths[0] + 360.0];
    assert b[..|b| - 1] == backAzimuths;
    assert b[0 + 1] - b[0] == 360.0;
    LargestStepIsGap(b, 360.0);
  }

  lemma GapOfSorted(backAzimuths: seq<real>, sorted: seq<real>, b: seq<real>, gap: real)
    requires Wrapped(b) && LargestStep(b, gap) && b[..|b| - 1] == sorted
    requires multiset(sorted) == multiset(backAzimuths) && |sorted| == |backAzimuths|
    ensures IsGap(backAzimuths, gap)
    ensures |backAzimuths| as real * gap >= 360.0 && gap <= 360.0
  {
    LargestStepIsGap(b, gap);
    GapAtLeastAverage(b, gap);
    GapOfPermutation(sorted, backAzimuths, gap);
    GapAtMostOneTurn(backAzimuths, gap);
  }

  lemma SortedWithin(s: seq<real>)
    requires WithinTurn(s)
    ensures WithinTurn(Sort(s))
  {
    forall i | 0 <= i < |Sort(s)| ensures 0.0 <= Sort(s)[i] <= 360.0 {
      assert Sort(s)[i] in multiset(Sort(s));
      assert Sort(s)[i] in multiset(s);
    }
  }
}
