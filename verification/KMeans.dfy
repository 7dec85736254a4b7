/** Lloyd's k-means as the antenna tool runs it: a fixed number of assign-then-update passes. */
module KMeans {
  import opened Geometry
  import opened Options

  function Plus(a: Point, b: Point): Point {
    Point(a.x + b.x, a.y + b.y)
  }

  function Over(a: Point, n: nat): Point
    requires n > 0
  {
    Point(a.x / (n as real), a.y / (n as real))
  }

  const ORIGIN := Point(0.0, 0.0)

  ghost predicate Labelling(labels: seq<nat>, n: nat, k: nat) {
    |labels| == n && forall i :: 0 <= i < n ==> labels[i] < k
  }

  // ----- one pass, as functions of the points

  /** c is the first centroid nearest to p among the first m. */
  ghost predicate FirstNearest(p: Point, centroids: seq<Point>, m: nat, c: nat)
    requires m <= |centroids|
  {
    && c < m
    && (forall o: nat :: o < m ==> DistSq(p, centroids[c]) <= DistSq(p, centroids[o]))
    && (forall o: nat :: o < c ==> DistSq(p, centroids[c]) < DistSq(p, centroids[o]))
  }

  function Nearest(p: Point, centroids: seq<Point>, m: nat): (c: nat)
    requires 0 < m <= |centroids|
    ensures FirstNearest(p, centroids, m, c)
  {
    if m == 1 then 0 else
      var best := Nearest(p, centroids, m - 1);
      if DistSq(p, centroids[m - 1]) < DistSq(p, centroids[best]) then m - 1 else best
  }

  function Assign(points: seq<Point>, centroids: seq<Point>): (labels: seq<nat>)
    requires points != [] ==> centroids != []
    ensures |labels| == |points|
    ensures forall i :: 0 <= i < |labels| ==> FirstNearest(points[i], centroids, |centroids|, labels[i])
  {
    if points == [] then [] else
      Assign(points[..|points| - 1], centroids) + [Nearest(points[|points| - 1], centroids, |centroids|)]
  }

  function Size(labels: seq<nat>, g: nat): nat {
    if labels == [] then 0 else
      Size(labels[..|labels| - 1], g) + if labels[|labels| - 1] == g then 1 else 0
  }

  function Sum(points: seq<Point>, labels: seq<nat>, g: nat): Point
    requires |labels| == |points|
  {
    if labels == [] then ORIGIN else
      var n := |labels| - 1;
      var before := Sum(points[..n], labels[..n], g);
      if labels[n] == g then Plus(before, points[n]) else before
  }

  /** The mean of each non-empty cluster; an empty cluster keeps its centroid. */
  function Update(points: seq<Point>, labels: seq<nat>, centroids: seq<Point>): (r: seq<Point>)
    requires |labels| == |points|
    ensures |r| == |centroids|
  {
    seq(|centroids|, (g: nat) requires g < |centroids| =>
      if Size(labels, g) > 0 then Over(Sum(points, labels, g), Size(labels, g)) else centroids[g])
  }

  datatype State = State(labels: seq<nat>, centroids: seq<Point>)

  ghost predicate Valid(points: seq<Point>, s: State) {
    Labelling(s.labels, |points|, |s.centroids|)
  }

  function Start(points: seq<Point>, k: nat): State
    requires k <= |points|
  {
    State(seq(|points|, _ => 0), points[..k])
  }

  function Pass(points: seq<Point>, s: State): (r: State)
    requires points != [] ==> s.centroids != []
    ensures Valid(points, r) && |r.centroids| == |s.centroids|
  {
    var labels := Assign(points, s.centroids);
    State(labels, Update(points, labels, s.centroids))
  }

  function Run(points: seq<Point>, s: State, passes: nat): (r: State)
    requires points != [] ==> s.centroids != []
    ensures |r.centroids| == |s.centroids|
    decreases passes
  {
    if passes == 0 then s else Run(points, Pass(points, s), passes - 1)
  }

  // ----- what a run is, step by step

  function Scaled(c: real, p: Point): Point {
    Point(Mul(c, p.x), Mul(c, p.y))
  }

  /** Each non-empty cluster's new centroid is its mean: as often as it has points, it is their sum. */
  ghost predicate Means(points: seq<Point>, labels: seq<nat>, before: seq<Point>, after: seq<Point>)
    requires |labels| == |points| && |before| == |after|
  {
    forall g :: 0 <= g < |after| ==>
      var n := Size(labels, g);
      if n == 0 then after[g] == before[g]
      else Scaled(n as real, after[g]) == Sum(points, labels, g)
  }

  /** From one state to the next: every point takes its first nearest centroid, then the means are taken. */
  ghost predicate LloydStep(points: seq<Point>, s: State, t: State) {
    && |t.labels| == |points| && |t.centroids| == |s.centroids|
    && (forall i :: 0 <= i < |points| ==> FirstNearest(points[i], s.centroids, |s.centroids|, t.labels[i]))
    && Means(points, t.labels, s.centroids, t.centroids)
  }

  /** The states of a run: all labels 0 and the first k points as centroids, then step by step. */
  ghost predicate Lloyd(points: seq<Point>, k: nat, history: seq<State>) {
    && k <= |points| && |history| > 0
    && history[0].centroids == points[..k]
    && |history[0].labels| == |points| && (forall i :: 0 <= i < |points| ==> history[0].labels[i] == 0)
    && forall t :: 0 < t < |history| ==> LloydStep(points, history[t - 1], history[t])
  }

  lemma ScaledBack(s: Point, n: nat)
    requires n > 0
    ensures Scaled(n as real, Over(s, n)) == s
  {
  }

  lemma PassIsLloydStep(points: seq<Point>, s: State)
    requires points != [] ==> s.centroids != []
    ensures LloydStep(points, s, Pass(points, s))
  {
    hide Size, Sum, FirstNearest, Over, Scaled;
    var t := Pass(points, s);
    forall g: nat | g < |t.centroids| && Size(t.labels, g) > 0
      ensures Scaled(Size(t.labels, g) as real, t.centroids[g]) == Sum(points, t.labels, g)
    {
      ScaledBack(Sum(points, t.labels, g), Size(t.labels, g));
    }
  }

  /** The first pass compares each point with the first k points. */
  lemma FirstPassLabels(points: seq<Point>, k: nat)
    requires 0 < k <= |points|
    ensures var labels := Run(points, Start(points, k), 1).labels;
      forall i :: 0 <= i < |points| ==> FirstNearest(points[i], points[..k], k, labels[i])
  {
    assert Run(points, Start(points, k), 1) == Run(points, Pass(points, Start(points, k)), 0);
  }

  lemma LloydGrows(points: seq<Point>, k: nat, history: seq<State>, s: State)
    requires Lloyd(points, k, history) && LloydStep(points, history[|history| - 1], s)
    ensures Lloyd(points, k, history + [s])
  {
  }

  lemma OneFirstNearest(p: Point, z: seq<Point>, c: nat, e: nat)
    requires FirstNearest(p, z, |z|, c) && FirstNearest(p, z, |z|, e)
    ensures c == e
  {
    hide DistSq;
    assert DistSq(p, z[c]) <= DistSq(p, z[e]) <= DistSq(p, z[c]);
  }

  lemma SameFactor(n: real, a: Point, b: Point)
    requires n > 0.0 && Scaled(n, a) == Scaled(n, b)
    ensures a == b
  {
  }

  lemma OneLloydStep(points: seq<Point>, s: State, t: State, u: State)
    requires LloydStep(points, s, t) && LloydStep(points, s, u)
    ensures t == u
  {
    hide Size, Sum, Scaled, DistSq;
    forall i | 0 <= i < |points| ensures t.labels[i] == u.labels[i] {
      OneFirstNearest(points[i], s.centroids, t.labels[i], u.labels[i]);
    }
    assert t.labels == u.labels;
    forall g | 0 <= g < |t.centroids| ensures t.centroids[g] == u.centroids[g] {
      if Size(t.labels, g) > 0 {
        SameFactor(Size(t.labels, g) as real, t.centroids[g], u.centroids[g]);
      }
    }
    assert t.centroids == u.centroids;
  }

  /** Any two runs are the same, so the steps determine the labels. */
  lemma {:induction false} OneLloyd(points: seq<Point>, k: nat, g: seq<State>, h: seq<State>)
    requires Lloyd(points, k, g) && Lloyd(points, k, h) && |g| == |h|
    ensures g == h
    decreases |g|
  {
    var n := |g| - 1;
    if n == 0 {
      assert g[0].labels == h[0].labels;
    } else {
      OneLloyd(points, k, g[..n], h[..n]);
      assert g[n - 1] == g[..n][n - 1] && h[n - 1] == h[..n][n - 1];
      OneLloydStep(points, g[n - 1], g[n], h[n]);
      assert g == g[..n] + [g[n]] && h == h[..n] + [h[n]];
    }
  }

  // ----- the imperative code

  method NearestCluster(p: Point, centroids: array<Point>) returns (bestCluster: nat)
    requires centroids.Length > 0
    ensures bestCluster == Nearest(p, centroids[..], centroids.Length)
  {
    bestCluster := 0;
    var minDist: Option<real> := None;
    for c := 0 to centroids.Length
      invariant c == 0 ==> bestCluster == 0 && minDist == None
      invariant c > 0 ==>
        bestCluster == Nearest(p, centroids[..], c) && minDist == Some(DistSq(p, centroids[bestCluster]))
    {
      var dist := DistSq(p, centroids[c]);
      if minDist.None? || dist < minDist.value {
        minDist := Some(dist);
        bestCluster := c;
      }
    }
  }

  method AssignAll(points: seq<Point>, centroids: array<Point>, labels: array<nat>)
    requires labels.Length == |points| && (points != [] ==> centroids.Length > 0)
    requires labels as object != centroids
    modifies labels
    ensures labels[..] == Assign(points, centroids[..])
  {
    for i := 0 to |points|
      invariant labels[..i] == Assign(points[..i], centroids[..])
    {
      labels[i] := NearestCluster(points[i], centroids);
      assert points[..i + 1][..i] == points[..i];
      assert labels[..i + 1] == labels[..i] + [labels[i]];
    }
    assert points[..|points|] == points && labels[..labels.Length] == labels[..];
  }

  method UpdateAll(points: seq<Point>, labels: array<nat>, centroids: array<Point>)
    requires Labelling(labels[..], |points|, centroids.Length)
    requires labels as object != centroids
    modifies centroids
    ensures centroids[..] == Update(points, labels[..], old(centroids[..]))
  {
    var k := centroids.Length;
    var newCentroids := new Point[k](_ => ORIGIN);
    var counts := new nat[k](_ => 0);
    ghost var L := labels[..];
    for i := 0 to |points|
      invariant labels[..] == L && centroids[..] == old(centroids[..])
      invariant forall g :: 0 <= g < k ==> counts[g] == Size(L[..i], g)
      invariant forall g :: 0 <= g < k ==> newCentroids[g] == Sum(points[..i], L[..i], g)
    {
      var c := labels[i];
      assert L[..i + 1][..i] == L[..i] && points[..i + 1][..i] == points[..i];
      newCentroids[c] := Plus(newCentroids[c], points[i]);
      counts[c] := counts[c] + 1;
    }
    assert L[..|points|] == L && points[..|points|] == points;
    for c := 0 to k
      invariant labels[..] == L
      invariant forall g :: 0 <= g < k ==> counts[g] == Size(L, g)
      invariant forall g :: 0 <= g < k ==> newCentroids[g] == Sum(points, L, g)
      invariant forall g :: 0 <= g < k ==>
        centroids[g] == if g < c then Update(points, L, old(centroids[..]))[g] else old(centroids[g])
    {
      if counts[c] > 0 {
        centroids[c] := Over(newCentroids[c], counts[c]);
      }
    }
  }

  method OnePass(points: seq<Point>, labels: array<nat>, centroids: array<Point>)
    requires labels.Length == |points| && (points != [] ==> centroids.Length > 0)
    requires labels as object != centroids
    modifies labels, centroids
    ensures State(labels[..], centroids[..]) == Pass(points, old(State(labels[..], centroids[..])))
  {
    AssignAll(points, centroids, labels);
    UpdateAll(points, labels, centroids);
  }

  /** More clusters than points, or points without a cluster, would index out of range. */
  method KMeansCluster(points: seq<Point>, k: nat, maxIter: nat)
    returns (result: seq<nat>, ghost history: seq<State>)
    requires k <= |points| && (points != [] ==> k > 0)
    ensures result == Run(points, Start(points, k), maxIter).labels
    ensures Lloyd(points, k, history) && |history| == maxIter + 1 && result == history[maxIter].labels
  {
    var centroids := new Point[k]((i: nat) requires i < |points| => points[i]);
    var labels := new nat[|points|](_ => 0);
    assert centroids[..] == points[..k];
    ghost var s := Start(points, k);
    history := [s];
    for iter := 0 to maxIter
      invariant s == State(labels[..], centroids[..])
      invariant Run(points, s, maxIter - iter) == Run(points, Start(points, k), maxIter)
      invariant Lloyd(points, k, history) && |history| == iter + 1 && history[iter] == s
    {
      OnePass(points, labels, centroids);
      PassIsLloydStep(points, s);
      s := Pass(points, s);
      LloydGrows(points, k, history, s);
      history := history + [s];
    }
    result := labels[..];
  }
}
