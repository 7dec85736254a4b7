/** How the antenna tool picks eps for DBSCAN: sorted k-distances and the elbow of their curve. */
module EpsChooser {
  import opened Geometry
  import opened FiniteSets
  import opened Options
  import opened Ordering
  import opened Dbscan

  /** sqrt is a library call: all that is known is that it returns the non-negative root. */
  ghost predicate IsSqrt(sqrt: real -> real) {
    forall x :: x >= 0.0 ==> sqrt(x) >= 0.0 && Sq(sqrt(x)) == x
  }

  function Dist(sqrt: real -> real, a: Point, b: Point): real {
    sqrt(DistSq(a, b))
  }

  lemma DistNonNegative(sqrt: real -> real, a: Point, b: Point)
    requires IsSqrt(sqrt)
    ensures Dist(sqrt, a, b) >= 0.0 && Sq(Dist(sqrt, a, b)) == DistSq(a, b)
  {
  }

  /** The squared comparison of Scan.Near is the comparison of lengths the tool makes. */
  lemma NearIsLengthAtMostEps(sqrt: real -> real, d: Scan, i: nat, j: nat)
    requires IsSqrt(sqrt) && i < |d.points| && j < |d.points|
    ensures d.Near(i, j) <==> Dist(sqrt, d.points[i], d.points[j]) <= d.eps
  {
    DistNonNegative(sqrt, d.points[i], d.points[j]);
    if d.eps >= 0.0 {
      SqMonotone(Dist(sqrt, d.points[i], d.points[j]), d.eps);
    }
  }

  /** Comparing squares is comparing lengths, as the k-means assignment does. */
  lemma SquaresOrderAsLengths(sqrt: real -> real, a: Point, b: Point, c: Point, e: Point)
    requires IsSqrt(sqrt)
    ensures Dist(sqrt, a, b) < Dist(sqrt, c, e) <==> DistSq(a, b) < DistSq(c, e)
    ensures Dist(sqrt, a, b) == Dist(sqrt, c, e) <==> DistSq(a, b) == DistSq(c, e)
  {
    DistNonNegative(sqrt, a, b);
    DistNonNegative(sqrt, c, e);
    SqMonotone(Dist(sqrt, a, b), Dist(sqrt, c, e));
  }

  ghost predicate HasDistinct(points: seq<Point>) {
    exists i, j :: 0 <= i < j < |points| && points[i] != points[j]
  }

  /** The points below n that differ from p and whose distance to p satisfies f. */
  ghost function Others(sqrt: real -> real, points: seq<Point>, n: nat, p: Point, f: real -> bool): set<nat>
    requires n <= |points|
  {
    set j: nat | j < n && points[j] != p && f(Dist(sqrt, points[j], p))
  }

  /** The points below n that differ from p. */
  ghost function Different(points: seq<Point>, n: nat, p: Point): set<nat>
    requires n <= |points|
  {
    set j: nat | j < n && points[j] != p
  }

  /** v is the k-th smallest distance from p to the points unequal to p, or the largest if they are fewer. */
  ghost predicate IsKDistance(sqrt: real -> real, points: seq<Point>, k: nat, p: Point, v: real) {
    var m := |Different(points, |points|, p)|;
    var r := if k <= m then k else m;
    && (exists j :: 0 <= j < |points| && points[j] != p && Dist(sqrt, points[j], p) == v)
    && |Others(sqrt, points, |points|, p, Below(v))| < r
    && r <= |Others(sqrt, points, |points|, p, AtMost(v))|
  }

  /** The distances from p to the points below n unequal to p, in order. */
  ghost function DistancesTo(sqrt: real -> real, points: seq<Point>, n: nat, p: Point): seq<real>
    requires n <= |points|
  {
    if n == 0 then [] else
      DistancesTo(sqrt, points, n - 1, p)
        + if points[n - 1] != p then [Dist(sqrt, points[n - 1], p)] else []
  }

  lemma {:induction false} DistancesLength(sqrt: real -> real, points: seq<Point>, n: nat, p: Point)
    requires n <= |points|
    ensures |DistancesTo(sqrt, points, n, p)| == |Different(points, n, p)|
  {
    if n == 0 {
    } else {
      DistancesLength(sqrt, points, n - 1, p);
      var before := Different(points, n - 1, p);
      assert Different(points, n, p) == if points[n - 1] != p then before + {n - 1} else before;
    }
  }

  lemma OthersStep(sqrt: real -> real, points: seq<Point>, n: nat, p: Point, f: real -> bool)
    requires 0 < n <= |points|
    ensures |Others(sqrt, points, n, p, f)| == |Others(sqrt, points, n - 1, p, f)|
      + if points[n - 1] != p && f(Dist(sqrt, points[n - 1], p)) then 1 else 0
  {
    var before := Others(sqrt, points, n - 1, p, f);
    assert Others(sqrt, points, n, p, f) ==
      if points[n - 1] != p && f(Dist(sqrt, points[n - 1], p)) then before + {n - 1} else before;
  }

  lemma {:induction false} DistancesCount(sqrt: real -> real, points: seq<Point>, n: nat, p: Point, f: real -> bool)
    requires n <= |points|
    ensures Count(DistancesTo(sqrt, points, n, p), f) == |Others(sqrt, points, n, p, f)|
  {
    if n == 0 {
    } else {
      DistancesCount(sqrt, points, n - 1, p, f);
      OthersStep(sqrt, points, n, p, f);
      hide Others, Dist, Count;
      var before := DistancesTo(sqrt, points, n - 1, p);
      if points[n - 1] != p {
        CountAppend(before, Dist(sqrt, points[n - 1], p), f);
      } else {
        assert DistancesTo(sqrt, points, n, p) == before;
      }
    }
  }

  lemma {:induction false} DistancesMembers(sqrt: real -> real, points: seq<Point>, n: nat, p: Point, v: real)
    requires n <= |points| && v in DistancesTo(sqrt, points, n, p)
    ensures exists j :: 0 <= j < n && points[j] != p && Dist(sqrt, points[j], p) == v
  {
    if v in DistancesTo(sqrt, points, n - 1, p) {
      DistancesMembers(sqrt, points, n - 1, p, v);
    }
  }

  lemma RankIsKDistance(sqrt: real -> real, points: seq<Point>, k: nat, p: Point, sorted: seq<real>)
    requires k >= 1 && Sorted(sorted) && sorted != []
    requires multiset(sorted) == multiset(DistancesTo(sqrt, points, |points|, p))
    ensures IsKDistance(sqrt, points, k, p, sorted[if |sorted| >= k then k - 1 else |sorted| - 1])
  {
    var n := |points|;
    var r := if |sorted| >= k then k else |sorted|;
    var v := sorted[r - 1];
    var raw := DistancesTo(sqrt, points, n, p);
    PermutationFacts(sorted, raw);
    RankInSorted(sorted, r, v);
    CountPermutation(sorted, raw, Below(v));
    CountPermutation(sorted, raw, AtMost(v));
    DistancesCount(sqrt, points, n, p, Below(v));
    DistancesCount(sqrt, points, n, p, AtMost(v));
    DistancesLength(sqrt, points, n, p);
    assert v in sorted;
    DistancesMembers(sqrt, points, n, p, v);
  }

  lemma DifferentIsEmpty(points: seq<Point>, p: Point)
    ensures |Different(points, |points|, p)| == 0 <==> forall j :: 0 <= j < |points| ==> points[j] == p
  {
    var different := Different(points, |points|, p);
    if j :| 0 <= j < |points| && points[j] != p {
      assert j in different;
    } else {
      assert different == {};
    }
  }

  /**
   One pass of the outer loop: collect, sort, pick the k-th or fall back to the last.  With no
   unequal point the source reads the last entry of an empty list; here there is then no result.
   */
  method KDistance(points: seq<Point>, k: nat, p: Point, sqrt: real -> real) returns (v: Option<real>)
    requires k >= 1
    ensures v.Some? <==> exists j :: 0 <= j < |points| && points[j] != p
    ensures v.Some? ==> IsKDistance(sqrt, points, k, p, v.value)
  {
    var distances := [];
    for j := 0 to |points|
      invariant distances == DistancesTo(sqrt, points, j, p)
    {
      if points[j] != p {
        distances := distances + [Dist(sqrt, points[j], p)];
      }
    }
    DistancesLength(sqrt, points, |points|, p);
    DifferentIsEmpty(points, p);
    if distances == [] {
      return None;
    }
    var sorted := Sort(distances, x => x);
    PermutationFacts(distances, sorted);
    RankIsKDistance(sqrt, points, k, p, sorted);
    return Some(if |sorted| >= k then sorted[k - 1] else sorted[|sorted| - 1]);
  }

  lemma DistinctIffDiffers(points: seq<Point>, i: nat)
    requires i < |points|
    ensures HasDistinct(points) <==> exists j :: 0 <= j < |points| && points[j] != points[i]
  {
    if HasDistinct(points) {
      var a: nat, b: nat :| a < b < |points| && points[a] != points[b];
      assert points[a] != points[i] || points[b] != points[i];
    }
    if j :| 0 <= j < |points| && points[j] != points[i] {
      assert if i < j then points[i] != points[j] else points[j] != points[i];
    }
  }

  /** Each point has a non-empty list of distances exactly when two points differ. */
  lemma ListsFilledIffDistinct(sqrt: real -> real, points: seq<Point>)
    requires points != []
    ensures (forall i :: 0 <= i < |points| ==> DistancesTo(sqrt, points, |points|, points[i]) != [])
      <==> HasDistinct(points)
  {
    forall i | 0 <= i < |points|
      ensures DistancesTo(sqrt, points, |points|, points[i]) != [] <==> HasDistinct(points)
    {
      DistancesLength(sqrt, points, |points|, points[i]);
      DifferentIsEmpty(points, points[i]);
      DistinctIffDiffers(points, i);
    }
    assert DistancesTo(sqrt, points, |points|, points[0]) != [] <==> HasDistinct(points);
    hide HasDistinct, DistancesTo;
  }

  /** `raw` holds each point's k-distance, by point. */
  ghost predicate AreKDistances(sqrt: real -> real, points: seq<Point>, k: nat, raw: seq<real>) {
    |raw| == |points| && forall i :: 0 <= i < |points| ==> IsKDistance(sqrt, points, k, points[i], raw[i])
  }

  /** Each point's k-distance (in `raw`, by point), then sorted. */
  method ComputeKDistances(points: seq<Point>, k: nat, sqrt: real -> real)
    returns (kDistances: Option<seq<real>>, ghost raw: seq<real>)
    requires k >= 1
    ensures kDistances.Some? <==> points == [] || HasDistinct(points)
    ensures kDistances.Some? ==> AreKDistances(sqrt, points, k, raw)
    ensures kDistances.Some? ==> Sorted(kDistances.value) && multiset(kDistances.value) == multiset(raw)
  {
    hide IsKDistance;
    var found := [];
    for i := 0 to |points|
      invariant |found| == i
      invariant i > 0 ==> HasDistinct(points)
      invariant forall m :: 0 <= m < i ==> IsKDistance(sqrt, points, k, points[m], found[m])
    {
      var v := KDistance(points, k, points[i], sqrt);
      DistinctIffDiffers(points, i);
      if v.None? {
        return None, found;
      }
      found := found + [v.value];
    }
    raw := found;
    found := Sort(found, x => x);
    return Some(found), raw;
  }

  // ----- the elbow

  function Abs(x: real): real {
    if x < 0.0 then -x else x
  }

  /** The numerator of the distance from (i, s[i]) to the line through the first and last points. */
  function Deviation(s: seq<real>, i: nat): real
    requires i < |s|
  {
    var last := (|s| - 1) as real;
    var dy := s[|s| - 1] - s[0];
    Abs(dy * (i as real) - last * s[i] + last * s[0])
  }

  /** The length of the segment from the first to the last point. */
  function BaseLength(s: seq<real>, sqrt: real -> real): real
    requires s != []
  {
    sqrt(Sq((|s| - 1) as real) + Sq(s[|s| - 1] - s[0]))
  }

  lemma BaseLengthPositive(s: seq<real>, sqrt: real -> real)
    requires IsSqrt(sqrt) && |s| >= 2
    ensures BaseLength(s, sqrt) > 0.0
  {
  }

  /** The point at parameter t on the line through the first and last points of the curve. */
  function OnLine(s: seq<real>, t: real): Point
    requires s != []
  {
    Point(Mul(t, (|s| - 1) as real), s[0] + Mul(t, s[|s| - 1] - s[0]))
  }

  function Cross(a: Point, b: Point): real {
    Mul(a.x, b.y) - Mul(a.y, b.x)
  }

  lemma Lagrange(a: Point, b: Point)
    ensures Mul(Dot(a, a), Dot(b, b)) == Sq(Cross(a, b)) + Sq(Dot(a, b))
  {
  }

  /** The direction of the line, and the offset of a point from the line's point at t. */
  function Base(s: seq<real>): Point
    requires s != []
  {
    Point((|s| - 1) as real, s[|s| - 1] - s[0])
  }

  function Offset(s: seq<real>, i: nat, t: real): Point
    requires i < |s|
  {
    var on := OnLine(s, t);
    Point(i as real - on.x, s[i] - on.y)
  }

  lemma CrossIsDeviation(s: seq<real>, i: nat, t: real)
    requires i < |s|
    ensures Sq(Cross(Base(s), Offset(s, i, t))) == Sq(Deviation(s, i))
  {
  }

  lemma BaseIsLong(s: seq<real>)
    requires |s| >= 2
    ensures Dot(Base(s), Base(s)) > 0.0
  {
  }

  /** The parameter of the foot of the perpendicular from a point. */
  function Foot(s: seq<real>, i: nat): real
    requires |s| >= 2 && i < |s|
  {
    var b := Base(s);
    BaseIsLong(s);
    Dot(b, Point(i as real, s[i] - s[0])) / Dot(b, b)
  }

  lemma OffsetIsAffine(s: seq<real>, i: nat, t: real)
    requires i < |s|
    ensures var b := Base(s);
      Dot(b, Offset(s, i, t)) == Dot(b, Point(i as real, s[i] - s[0])) - Mul(t, Dot(b, b))
  {
  }

  lemma FootIsPerpendicular(s: seq<real>, i: nat)
    requires |s| >= 2 && i < |s|
    ensures Dot(Base(s), Offset(s, i, Foot(s, i))) == 0.0
  {
    OffsetIsAffine(s, i, Foot(s, i));
    BaseIsLong(s);
    hide Base, Dot, Offset, OnLine;
  }

  lemma OffsetLength(s: seq<real>, i: nat, t: real)
    requires i < |s|
    ensures DistSq(Point(i as real, s[i]), OnLine(s, t)) == Dot(Offset(s, i, t), Offset(s, i, t))
  {
  }

  /**
   The deviation over the base length is the distance from the point to the line: no point of the
   line is nearer, and the foot of the perpendicular is exactly that near.
   */
  lemma DeviationIsDistanceToLine(s: seq<real>, i: nat, t: real)
    requires |s| >= 2 && i < |s|
    ensures var base := Dot(Base(s), Base(s)); var p := Point(i as real, s[i]);
      && Mul(base, DistSq(p, OnLine(s, t))) >= Sq(Deviation(s, i))
      && Mul(base, DistSq(p, OnLine(s, Foot(s, i)))) == Sq(Deviation(s, i))
  {
    Lagrange(Base(s), Offset(s, i, t));
    Lagrange(Base(s), Offset(s, i, Foot(s, i)));
    CrossIsDeviation(s, i, t);
    CrossIsDeviation(s, i, Foot(s, i));
    FootIsPerpendicular(s, i);
    OffsetLength(s, i, t);
    OffsetLength(s, i, Foot(s, i));
    SqNonNegative(Dot(Base(s), Offset(s, i, t)));
    SqNonNegative(0.0);
    hide Sq, Dot, Cross, Base, Offset, Foot, OnLine, DistSq, Deviation, Mul;
  }

  /** The first of the points 1 .. upto - 1 that is farthest from the line. */
  ghost predicate Farthest(s: seq<real>, upto: nat, e: nat) {
    && 1 <= e < upto <= |s|
    && (forall i: nat :: 1 <= i < upto ==> Deviation(s, i) <= Deviation(s, e))
    && (forall i: nat :: 1 <= i < e ==> Deviation(s, i) < Deviation(s, e))
  }

  ghost predicate IsElbow(s: seq<real>, e: nat) {
    |s| >= 3 && Farthest(s, |s| - 1, e)
  }

  lemma DivideMonotone(a: real, b: real, c: real)
    requires c > 0.0
    ensures a / c > b / c <==> a > b
    ensures a >= 0.0 ==> a / c >= 0.0
  {
  }

  /** The value at the elbow of a sorted curve, or the last value of a curve too short to have one. */
  ghost predicate AtElbow(sorted: seq<real>, v: real) {
    if |sorted| < 3 then sorted != [] && v == sorted[|sorted| - 1]
    else exists e: nat :: IsElbow(sorted, e) && v == sorted[e]
  }

  /** There is no result where the source reads the last entry of an empty list. */
  method DetectElbow(sortedDistances: seq<real>, sqrt: real -> real) returns (eps: Option<real>)
    requires IsSqrt(sqrt)
    ensures eps.Some? <==> sortedDistances != []
    ensures eps.Some? ==> AtElbow(sortedDistances, eps.value)
  {
    var s, n := sortedDistances, |sortedDistances|;
    if n < 3 {
      return if n == 0 then None else Some(s[n - 1]);
    }
    BaseLengthPositive(s, sqrt);
    var maxDistance := -1.0;
    var elbowIndex := -1;
    for i := 1 to n - 1
      invariant i == 1 ==> maxDistance == -1.0
      invariant i > 1 ==> elbowIndex >= 1 && Farthest(s, i, elbowIndex)
      invariant i > 1 ==> maxDistance == Deviation(s, elbowIndex) / BaseLength(s, sqrt)
    {
      var distance := Deviation(s, i) / BaseLength(s, sqrt);
      DivideMonotone(Deviation(s, i), if i == 1 then 0.0 else Deviation(s, elbowIndex), BaseLength(s, sqrt));
      if distance > maxDistance {
        maxDistance := distance;
        elbowIndex := i;
      }
    }
    return Some(s[elbowIndex]);
  }

  // ----- the chosen eps always yields a cluster

  lemma NearOrSame(sqrt: real -> real, d: Scan, i: nat)
    requires IsSqrt(sqrt) && i < |d.points| && d.eps >= 0.0
    ensures Others(sqrt, d.points, |d.points|, d.points[i], AtMost(d.eps)) <= d.NearSet(i)
    ensures (set m: nat | m < |d.points| && d.points[m] == d.points[i]) <= d.NearSet(i)
  {
  }

  lemma EqualAndDifferent(points: seq<Point>, p: Point)
    ensures |set m: nat | m < |points| && points[m] == p| + |Different(points, |points|, p)| == |points|
  {
    var same := set m: nat | m < |points| && points[m] == p;
    assert Range(|points|) == same + Different(points, |points|, p);
  }

  /** A point whose own k-distance is eps has at least min(k, n) points in its neighbourhood. */
  lemma KDistanceFillsNeighbourhood(sqrt: real -> real, d: Scan, k: nat, i: nat)
    requires IsSqrt(sqrt) && k >= 1 && i < |d.points|
    requires IsKDistance(sqrt, d.points, k, d.points[i], d.eps)
    ensures d.eps >= 0.0
    ensures |d.NearSet(i)| >= if k <= |d.points| then k else |d.points|
  {
    var points, p, n := d.points, d.points[i], |d.points|;
    var j :| 0 <= j < n && points[j] != p && Dist(sqrt, points[j], p) == d.eps;
    DistNonNegative(sqrt, points[j], p);
    var near := Others(sqrt, points, n, p, AtMost(d.eps));
    var same := set m: nat | m < n && points[m] == p;
    NearOrSame(sqrt, d, i);
    SubsetSize(near + same, d.NearSet(i));
    EqualAndDifferent(points, p);
    assert i in same;
    assert same !! near;
    assert |near + same| == |near| + |same|;
  }

  /**
   Whatever k-distance is taken as eps, a scan with minPts == k finds a cluster exactly when
   there are at least k points.
   */
  lemma AutomaticEpsFindsACluster(sqrt: real -> real, d: Scan, k: nat, i: nat)
    requires IsSqrt(sqrt) && k >= 1 && d.minPts == k && i < |d.points|
    requires IsKDistance(sqrt, d.points, k, d.points[i], d.eps)
    ensures (exists j: nat :: j < |d.points| && Labels(d)[j] >= 0) <==> k <= |d.points|
  {
    KDistanceFillsNeighbourhood(sqrt, d, k, i);
    if k <= |d.points| {
      CoreLabel(d, i);
    } else {
      forall j: nat | j < |d.points| ensures Labels(d)[j] < 0 {
        if Labels(d)[j] >= 0 {
          BorderJoinsANearCore(d, j);
          var x: nat :| d.Core(x) && d.Near(x, j);
          SubsetSize(d.NearSet(x), Range(|d.points|));
        }
      }
    }
  }

  lemma AtElbowIsMember(sorted: seq<real>, v: real)
    requires AtElbow(sorted, v)
    ensures v in sorted
  {
    if |sorted| >= 3 {
      var e: nat :| IsElbow(sorted, e) && v == sorted[e];
    }
  }

  /** v is the elbow of the curve of the points' sorted k-distances. */
  ghost predicate ElbowOfKDistances(sqrt: real -> real, points: seq<Point>, k: nat, v: real) {
    exists sorted, raw ::
      Sorted(sorted) && multiset(sorted) == multiset(raw)
      && AreKDistances(sqrt, points, k, raw) && AtElbow(sorted, v)
  }

  lemma ElbowIsAKDistance(sqrt: real -> real, points: seq<Point>, k: nat, v: real) returns (i: nat)
    requires ElbowOfKDistances(sqrt, points, k, v)
    ensures i < |points| && IsKDistance(sqrt, points, k, points[i], v)
  {
    hide IsKDistance, Farthest, SortedBy;
    var sorted, raw :|
      Sorted(sorted) && multiset(sorted) == multiset(raw)
      && AreKDistances(sqrt, points, k, raw) && AtElbow(sorted, v);
    PermutationFacts(sorted, raw);
    AtElbowIsMember(sorted, v);
    i :| i < |raw| && raw[i] == v;
  }

  lemma OneKDistance(sqrt: real -> real, points: seq<Point>, k: nat, p: Point, v: real, w: real)
    requires IsKDistance(sqrt, points, k, p, v) && IsKDistance(sqrt, points, k, p, w)
    ensures v >= w
  {
    if v < w {
      SubsetSize(Others(sqrt, points, |points|, p, AtMost(v)), Others(sqrt, points, |points|, p, Below(w)));
    }
  }

  lemma OneElbow(sorted: seq<real>, v: real, w: real)
    requires AtElbow(sorted, v) && AtElbow(sorted, w)
    ensures v == w
  {
    if |sorted| >= 3 {
      var e: nat :| IsElbow(sorted, e) && v == sorted[e];
      var f: nat :| IsElbow(sorted, f) && w == sorted[f];
      assert Deviation(sorted, e) == Deviation(sorted, f);
    }
  }

  /** The points alone determine the elbow of their k-distances. */
  lemma EpsIsDetermined(sqrt: real -> real, points: seq<Point>, k: nat, v: real, w: real)
    requires ElbowOfKDistances(sqrt, points, k, v) && ElbowOfKDistances(sqrt, points, k, w)
    ensures v == w
  {
    hide IsKDistance, AtElbow, SortedBy;
    var sorted, raw :|
      Sorted(sorted) && multiset(sorted) == multiset(raw)
      && AreKDistances(sqrt, points, k, raw) && AtElbow(sorted, v);
    var sorted', raw' :|
      Sorted(sorted') && multiset(sorted') == multiset(raw')
      && AreKDistances(sqrt, points, k, raw') && AtElbow(sorted', w);
    forall i | 0 <= i < |points| ensures raw[i] == raw'[i] {
      OneKDistance(sqrt, points, k, points[i], raw[i], raw'[i]);
      OneKDistance(sqrt, points, k, points[i], raw'[i], raw[i]);
    }
    assert raw == raw';
    SortedUnique(sorted, sorted');
    OneElbow(sorted, v, w);
  }

  /** The eps wiring: minPts from the number of points, eps from the elbow of the k-distances. */
  method ChooseEps(points: seq<Point>, sqrt: real -> real) returns (eps: Option<real>, minPts: nat)
    requires IsSqrt(sqrt)
    ensures minPts == if |points| <= 4 then 2 else 1
    ensures eps.Some? <==> HasDistinct(points)
    ensures eps.Some? ==> ElbowOfKDistances(sqrt, points, minPts, eps.value)
  {
    hide IsKDistance, AtElbow, SortedBy;
    minPts := 1;
    if |points| <= 4 {
      minPts := 2;
    }
    var kDistances;
    ghost var raw;
    kDistances, raw := ComputeKDistances(points, minPts, sqrt);
    if kDistances.None? {
      return None, minPts;
    }
    PermutationFacts(kDistances.value, raw);
    eps := DetectElbow(kDistances.value, sqrt);
  }

  datatype Clustering = Clustering(labels: seq<int>, eps: real, minPts: nat)

  /** What the branch promises of a result. */
  ghost predicate ClusteredWell(sqrt: real -> real, points: seq<Point>, c: Clustering) {
    && c.minPts == (if |points| <= 4 then 2 else 1)
    && ElbowOfKDistances(sqrt, points, c.minPts, c.eps)
    && c.eps >= 0.0
    && c.labels == Labels(Scan(points, c.eps, c.minPts))
    && exists j: nat :: j < |points| && c.labels[j] >= 0
  }

  /** The DBSCAN branch of the calculation: a clustering exactly when two points differ. */
  method ClusterAutomatically(points: seq<Point>, sqrt: real -> real) returns (result: Option<Clustering>)
    requires IsSqrt(sqrt)
    ensures result.Some? <==> HasDistinct(points)
    ensures result.Some? ==> ClusteredWell(sqrt, points, result.value)
  {
    hide IsKDistance, ElbowOfKDistances;
    var eps, minPts := ChooseEps(points, sqrt);
    if eps.None? {
      return None;
    }
    var labels := DbScan(points, eps.value, minPts);
    ghost var d := Scan(points, eps.value, minPts);
    var i := ElbowIsAKDistance(sqrt, points, minPts, eps.value);
    KDistanceFillsNeighbourhood(sqrt, d, minPts, i);
    AutomaticEpsFindsACluster(sqrt, d, minPts, i);
    return Some(Clustering(labels, eps.value, minPts));
  }
}
