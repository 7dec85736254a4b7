/** Why Lloyd's passes never get worse, and why they settle. */
module KMeansDescent {
  import opened FiniteSets
  import opened Geometry
  import opened KMeans

  /** Total squared distance of the points to the centroids they are assigned to. */
  ghost function Cost(points: seq<Point>, labels: seq<nat>, z: seq<Point>): real
    requires Labelling(labels, |points|, |z|)
  {
    if points == [] then 0.0 else
      var n := |points| - 1;
      Cost(points[..n], labels[..n], z) + DistSq(points[n], z[labels[n]])
  }

  ghost function LabelSum(labels: seq<nat>): nat {
    if labels == [] then 0 else LabelSum(labels[..|labels| - 1]) + labels[|labels| - 1]
  }

  // ----- assignment is optimal for the centroids

  /** a[i] is at least as near as b[i], and not larger when it is equally near. */
  ghost predicate NearerLabel(points: seq<Point>, z: seq<Point>, a: seq<nat>, b: seq<nat>, i: nat)
    requires Labelling(a, |points|, |z|) && Labelling(b, |points|, |z|) && i < |points|
  {
    var da, db := DistSq(points[i], z[a[i]]), DistSq(points[i], z[b[i]]);
    da < db || (da == db && a[i] <= b[i])
  }

  lemma SameByPrefix(a: seq<nat>, b: seq<nat>, n: nat)
    requires |a| == |b| == n + 1
    ensures a == b <==> a[..n] == b[..n] && a[n] == b[n]
  {
  }

  lemma {:induction false} NearerIsCheaper(points: seq<Point>, z: seq<Point>, a: seq<nat>, b: seq<nat>)
    requires Labelling(a, |points|, |z|) && Labelling(b, |points|, |z|)
    requires forall i :: 0 <= i < |points| ==> NearerLabel(points, z, a, b, i)
    ensures Cost(points, a, z) <= Cost(points, b, z)
    ensures Cost(points, a, z) == Cost(points, b, z) ==>
      LabelSum(a) <= LabelSum(b) && (LabelSum(a) == LabelSum(b) ==> a == b)
  {
    hide DistSq;
    if points == [] {
    } else {
      var n := |points| - 1;
      forall i | 0 <= i < n ensures NearerLabel(points[..n], z, a[..n], b[..n], i) {
        assert NearerLabel(points, z, a, b, i);
      }
      NearerIsCheaper(points[..n], z, a[..n], b[..n]);
      assert NearerLabel(points, z, a, b, n);
      SameByPrefix(a, b, n);
    }
  }

  /** No labelling is cheaper; one that is equally cheap and different has a larger label sum. */
  lemma AssignIsOptimal(points: seq<Point>, labels: seq<nat>, z: seq<Point>)
    requires Labelling(labels, |points|, |z|) && (points != [] ==> z != [])
    ensures var best := Assign(points, z);
      && Cost(points, best, z) <= Cost(points, labels, z)
      && (Cost(points, best, z) == Cost(points, labels, z) ==>
        LabelSum(best) <= LabelSum(labels) && (LabelSum(best) == LabelSum(labels) ==> best == labels))
  {
    hide DistSq;
    var best := Assign(points, z);
    forall i | 0 <= i < |points| ensures NearerLabel(points, z, best, labels, i) {
      assert FirstNearest(points[i], z, |z|, best[i]);
    }
    NearerIsCheaper(points, z, best, labels);
  }

  // ----- the update is optimal for the labels

  ghost function ClusterCost(points: seq<Point>, labels: seq<nat>, g: nat, z: Point): real
    requires |labels| == |points|
  {
    if points == [] then 0.0 else
      var n := |points| - 1;
      ClusterCost(points[..n], labels[..n], g, z) + if labels[n] == g then DistSq(points[n], z) else 0.0
  }

  ghost function ClusterCosts(points: seq<Point>, labels: seq<nat>, z: seq<Point>, k: nat): real
    requires |labels| == |points| && k <= |z|
  {
    if k == 0 then 0.0 else
      ClusterCosts(points, labels, z, k - 1) + ClusterCost(points, labels, k - 1, z[k - 1])
  }

  lemma {:induction false} ClusterCostsStep(points: seq<Point>, labels: seq<nat>, z: seq<Point>, k: nat)
    requires |labels| == |points| > 0 && k <= |z|
    ensures var n := |points| - 1;
      ClusterCosts(points, labels, z, k) ==
      ClusterCosts(points[..n], labels[..n], z, k)
        + if labels[n] < k then DistSq(points[n], z[labels[n]]) else 0.0
  {
    if k == 0 {
    } else {
      ClusterCostsStep(points, labels, z, k - 1);
    }
  }

  lemma {:induction false} NoPointsNoCost(z: seq<Point>, k: nat)
    requires k <= |z|
    ensures ClusterCosts([], [], z, k) == 0.0
  {
    if k == 0 {
    } else {
      NoPointsNoCost(z, k - 1);
    }
  }

  /** The total is the sum over the clusters. */
  lemma {:induction false} CostByCluster(points: seq<Point>, labels: seq<nat>, z: seq<Point>)
    requires Labelling(labels, |points|, |z|)
    ensures Cost(points, labels, z) == ClusterCosts(points, labels, z, |z|)
  {
    if points == [] {
      NoPointsNoCost(z, |z|);
    } else {
      var n := |points| - 1;
      CostByCluster(points[..n], labels[..n], z);
      ClusterCostsStep(points, labels, z, |z|);
    }
  }

  ghost function NormSum(points: seq<Point>, labels: seq<nat>, g: nat): real
    requires |labels| == |points|
  {
    if points == [] then 0.0 else
      var n := |points| - 1;
      NormSum(points[..n], labels[..n], g) + if labels[n] == g then Dot(points[n], points[n]) else 0.0
  }

  lemma DotOrigin(z: Point)
    ensures Dot(ORIGIN, z) == 0.0
  {
  }

  ghost function Expansion(q: real, sum: Point, c: nat, z: Point): real {
    q - 2.0 * Dot(sum, z) + (c as real) * Dot(z, z)
  }

  lemma ExpansionStep(q: real, sum: Point, c: nat, z: Point, p: Point)
    ensures Expansion(q + Dot(p, p), Plus(sum, p), c + 1, z) == Expansion(q, sum, c, z) + DistSq(p, z)
  {
  }

  /** Sum of |p - z|^2 over a cluster, expanded. */
  lemma {:induction false} ClusterCostExpanded(points: seq<Point>, labels: seq<nat>, g: nat, z: Point)
    requires |labels| == |points|
    ensures ClusterCost(points, labels, g, z) ==
      Expansion(NormSum(points, labels, g), Sum(points, labels, g), Size(labels, g), z)
  {
    hide Dot, DistSq;
    if points == [] {
      DotOrigin(z);
    } else {
      hide Expansion;
      var n := |points| - 1;
      ClusterCostExpanded(points[..n], labels[..n], g, z);
      if labels[n] == g {
        ExpansionStep(NormSum(points[..n], labels[..n], g), Sum(points[..n], labels[..n], g),
                      Size(labels[..n], g), z, points[n]);
      }
    }
  }

  lemma ExpansionAtMean(q: real, sum: Point, n: nat, z: Point)
    requires n > 0
    ensures var m := Over(sum, n);
      Expansion(q, sum, n, z) == Expansion(q, sum, n, m) + (n as real) * DistSq(z, m)
  {
  }

  /** Moving away from the mean m of a cluster costs its size times the squared move. */
  lemma MeanIsBest(points: seq<Point>, labels: seq<nat>, g: nat, z: Point)
    requires |labels| == |points| && Size(labels, g) > 0
    ensures var m := Over(Sum(points, labels, g), Size(labels, g));
      ClusterCost(points, labels, g, z) == ClusterCost(points, labels, g, m) + (Size(labels, g) as real) * DistSq(z, m)
  {
    hide Expansion, Sum, Size, NormSum, DistSq, Over, ClusterCost;
    ClusterCostExpanded(points, labels, g, z);
    var n := Size(labels, g);
    var m := Over(Sum(points, labels, g), n);
    ClusterCostExpanded(points, labels, g, m);
    ExpansionAtMean(NormSum(points, labels, g), Sum(points, labels, g), n, z);
  }

  lemma {:induction false} EmptyClusterIsFree(points: seq<Point>, labels: seq<nat>, g: nat, z: Point)
    requires |labels| == |points| && Size(labels, g) == 0
    ensures ClusterCost(points, labels, g, z) == 0.0
  {
    if points == [] {
    } else {
      var n := |points| - 1;
      EmptyClusterIsFree(points[..n], labels[..n], g, z);
    }
  }

  lemma ScaledNonNegative(c: nat, a: real)
    requires a >= 0.0
    ensures (c as real) * a >= 0.0
  {
  }

  lemma {:induction false} UpdateIsOptimalUpTo(points: seq<Point>, labels: seq<nat>, old': seq<Point>, z: seq<Point>,
                                               k: nat)
    requires |labels| == |points| && |z| == |old'| && k <= |z|
    ensures ClusterCosts(points, labels, Update(points, labels, old'), k) <= ClusterCosts(points, labels, z, k)
  {
    if k == 0 {
    } else {
      UpdateIsOptimalUpTo(points, labels, old', z, k - 1);
      var g := k - 1;
      if Size(labels, g) > 0 {
        var m := Over(Sum(points, labels, g), Size(labels, g));
        MeanIsBest(points, labels, g, z[g]);
        DistSqFacts(z[g], m);
        ScaledNonNegative(Size(labels, g), DistSq(z[g], m));
      } else {
        EmptyClusterIsFree(points, labels, g, z[g]);
        EmptyClusterIsFree(points, labels, g, old'[g]);
      }
    }
  }

  /** No other centroids are cheaper for these labels, empty clusters included. */
  lemma UpdateIsOptimal(points: seq<Point>, labels: seq<nat>, old': seq<Point>, z: seq<Point>)
    requires Labelling(labels, |points|, |z|) && |z| == |old'|
    ensures Cost(points, labels, Update(points, labels, old')) <= Cost(points, labels, z)
  {
    UpdateIsOptimalUpTo(points, labels, old', z, |z|);
    CostByCluster(points, labels, z);
    CostByCluster(points, labels, Update(points, labels, old'));
  }

  // ----- a pass never makes the clustering worse

  ghost function StateCost(points: seq<Point>, s: State): real
    requires Valid(points, s)
  {
    Cost(points, s.labels, s.centroids)
  }

  /** Each assign-then-update pass leaves the total squared distance no larger than before. */
  lemma PassNeverWorse(points: seq<Point>, s: State)
    requires Valid(points, s)
    ensures points != [] ==> s.centroids != []
    ensures StateCost(points, Pass(points, s)) <= StateCost(points, s)
  {
    if points != [] {
      assert s.labels[0] < |s.centroids|;
    }
    AssignIsOptimal(points, s.labels, s.centroids);
    UpdateIsOptimal(points, Assign(points, s.centroids), s.centroids, s.centroids);
  }

  lemma {:induction false} RunNeverWorse(points: seq<Point>, s: State, passes: nat)
    requires Valid(points, s)
    ensures points != [] ==> s.centroids != []
    ensures Valid(points, Run(points, s, passes))
    ensures StateCost(points, Run(points, s, passes)) <= StateCost(points, s)
    decreases passes
  {
    PassNeverWorse(points, s);
    if passes == 0 {
    } else {
      RunNeverWorse(points, Pass(points, s), passes - 1);
    }
  }

  // ----- a repeated labelling is a fixed point

  /** The centroids are up to date with the labels, as they are after any pass. */
  ghost predicate Updated(points: seq<Point>, s: State) {
    Valid(points, s) && s.centroids == Update(points, s.labels, s.centroids)
  }

  lemma PassUpdates(points: seq<Point>, s: State)
    requires points != [] ==> s.centroids != []
    ensures Updated(points, Pass(points, s))
  {
  }

  /** Once a pass repeats the labels nothing changes any more, however many passes follow. */
  lemma {:induction false} RepeatedLabelsAreFinal(points: seq<Point>, s: State, passes: nat)
    requires Updated(points, s) && (points != [] ==> s.centroids != [])
    requires Pass(points, s).labels == s.labels
    ensures Run(points, s, passes) == s
    decreases passes
  {
    assert Pass(points, s) == s;
    if passes == 0 {
    } else {
      RepeatedLabelsAreFinal(points, s, passes - 1);
    }
  }

  /** What a labelling costs with its own means; it does not depend on the other centroids. */
  lemma CostOfUpdated(points: seq<Point>, s: State, t: State)
    requires Updated(points, s) && Updated(points, t)
    requires s.labels == t.labels && |s.centroids| == |t.centroids|
    ensures StateCost(points, s) == StateCost(points, t)
  {
    UpdateIsOptimal(points, s.labels, s.centroids, t.centroids);
    UpdateIsOptimal(points, s.labels, t.centroids, s.centroids);
  }

  /** t comes strictly before s: cheaper, or as cheap with a smaller label sum. */
  ghost predicate Better(points: seq<Point>, t: State, s: State)
    requires Valid(points, t) && Valid(points, s)
  {
    StateCost(points, t) < StateCost(points, s)
    || (StateCost(points, t) == StateCost(points, s) && LabelSum(t.labels) < LabelSum(s.labels))
  }

  /** A pass either repeats the labels or makes strict progress. */
  lemma PassProgresses(points: seq<Point>, s: State)
    requires Valid(points, s) && (points != [] ==> s.centroids != [])
    ensures Pass(points, s).labels == s.labels || Better(points, Pass(points, s), s)
  {
    AssignIsOptimal(points, s.labels, s.centroids);
    UpdateIsOptimal(points, Assign(points, s.centroids), s.centroids, s.centroids);
  }

  // ----- there are only k^n labellings, so the passes settle

  ghost function Pow(k: nat, n: nat): nat {
    if n == 0 then 1 else k * Pow(k, n - 1)
  }

  ghost function Appended(base: set<seq<nat>>, c: nat): set<seq<nat>> {
    set l | l in base :: l + [c]
  }

  ghost function Extended(base: set<seq<nat>>, k: nat): set<seq<nat>> {
    if k == 0 then {} else Extended(base, k - 1) + Appended(base, k - 1)
  }

  ghost function Labellings(n: nat, k: nat): set<seq<nat>> {
    if n == 0 then {[]} else Extended(Labellings(n - 1, k), k)
  }

  lemma {:induction false} ExtendedMembers(base: set<seq<nat>>, k: nat, l: seq<nat>)
    ensures l in Extended(base, k) <==> l != [] && l[|l| - 1] < k && l[..|l| - 1] in base
  {
    if k == 0 {
    } else {
      ExtendedMembers(base, k - 1, l);
      if l != [] {
        assert l == l[..|l| - 1] + [l[|l| - 1]];
      }
      forall b | b in base && b + [k - 1] == l ensures l[..|l| - 1] == b {
      }
    }
  }

  lemma {:induction false} AppendSize(base: set<seq<nat>>, c: nat)
    ensures |Appended(base, c)| == |base|
  {
    if base == {} {
      assert Appended(base, c) == {};
    } else {
      var b :| b in base;
      var rest := base - {b};
      AppendSize(rest, c);
      assert Appended(base, c) == Appended(rest, c) + {b + [c]};
      forall l | l in rest ensures l + [c] != b + [c] {
        assert (l + [c])[..|l|] == l && (b + [c])[..|b|] == b;
      }
    }
  }

  lemma OneMoreTime(before: nat, after: nat, k: nat, n: nat)
    requires k > 0 && before == (k - 1) * n && after == before + n
    ensures after == k * n
  {
  }

  lemma AppendedIsNew(base: set<seq<nat>>, k: nat)
    ensures |Extended(base, k) + Appended(base, k)| == |Extended(base, k)| + |Appended(base, k)|
  {
    forall l | l in Appended(base, k) ensures l !in Extended(base, k) {
      ExtendedMembers(base, k, l);
    }
    assert Extended(base, k) !! Appended(base, k);
  }

  lemma ExtendedGrows(base: set<seq<nat>>, k: nat)
    requires k > 0
    ensures |Extended(base, k)| == |Extended(base, k - 1)| + |base|
  {
    hide Appended;
    AppendSize(base, k - 1);
    AppendedIsNew(base, k - 1);
  }

  lemma {:induction false} ExtendedSize(base: set<seq<nat>>, k: nat)
    ensures |Extended(base, k)| == k * |base|
  {
    if k == 0 {
      assert Extended(base, k) == {};
    } else {
      hide Extended;
      ExtendedSize(base, k - 1);
      ExtendedGrows(base, k);
      OneMoreTime(|Extended(base, k - 1)|, |Extended(base, k)|, k, |base|);
    }
  }

  lemma {:induction false} LabellingsComplete(n: nat, k: nat, l: seq<nat>)
    requires Labelling(l, n, k)
    ensures l in Labellings(n, k)
  {
    if n == 0 {
    } else {
      LabellingsComplete(n - 1, k, l[..n - 1]);
      ExtendedMembers(Labellings(n - 1, k), k, l);
    }
  }

  lemma {:induction false} LabellingsSize(n: nat, k: nat)
    ensures |Labellings(n, k)| == Pow(k, n)
  {
    if n == 0 {
    } else {
      LabellingsSize(n - 1, k);
      ExtendedSize(Labellings(n - 1, k), k);
    }
  }

  /** `seen` holds labellings already left behind, each strictly worse than the present one. */
  ghost predicate LeftBehind(points: seq<Point>, s: State, seen: set<seq<nat>>)
    requires Updated(points, s)
  {
    forall l :: l in seen ==>
      (Labelling(l, |points|, |s.centroids|) && Better(points, s, State(l, Update(points, l, s.centroids))))
  }

  lemma LeftBehindStep(points: seq<Point>, s: State, seen: set<seq<nat>>)
    requires Updated(points, s) && (points != [] ==> s.centroids != [])
    requires LeftBehind(points, s, seen) && Pass(points, s).labels != s.labels
    ensures Updated(points, Pass(points, s))
    ensures LeftBehind(points, Pass(points, s), seen + {s.labels})
  {
    var t := Pass(points, s);
    PassProgresses(points, s);
    forall l | l in seen + {s.labels}
      ensures Labelling(l, |points|, |t.centroids|) && Better(points, t, State(l, Update(points, l, t.centroids)))
    {
      CostOfUpdated(points, State(l, Update(points, l, t.centroids)), State(l, Update(points, l, s.centroids)));
    }
  }

  /** The present labelling is none of those left behind. */
  lemma NotLeftBehind(points: seq<Point>, s: State, seen: set<seq<nat>>)
    requires Updated(points, s) && LeftBehind(points, s, seen)
    ensures s.labels !in seen
  {
  }

  lemma LeftBehindBound(points: seq<Point>, s: State, seen: set<seq<nat>>)
    requires Updated(points, s) && LeftBehind(points, s, seen)
    ensures |seen| < Pow(|s.centroids|, |points|)
  {
    hide Better, Update;
    NotLeftBehind(points, s, seen);
    var all := Labellings(|points|, |s.centroids|);
    forall l | l in seen + {s.labels} ensures l in all {
      LabellingsComplete(|points|, |s.centroids|, l);
    }
    LabellingsSize(|points|, |s.centroids|);
    SubsetSize(seen + {s.labels}, all);
  }

  lemma {:induction false} SettlesFrom(points: seq<Point>, s: State, seen: set<seq<nat>>, passes: nat)
    requires Updated(points, s) && (points != [] ==> s.centroids != [])
    requires LeftBehind(points, s, seen)
    requires |seen| + passes + 1 >= Pow(|s.centroids|, |points|)
    ensures var r := Run(points, s, passes); Pass(points, r) == r
    decreases passes
  {
    hide LeftBehind, Assign, Update;
    var t := Pass(points, s);
    if t.labels == s.labels {
      RepeatedLabelsAreFinal(points, s, passes);
      RepeatedLabelsAreFinal(points, s, 1);
      assert Run(points, s, 1) == Run(points, t, 0) == t;
    } else {
      NotLeftBehind(points, s, seen);
      LeftBehindStep(points, s, seen);
      LeftBehindBound(points, t, seen + {s.labels});
      assert passes > 0;
      SettlesFrom(points, t, seen + {s.labels}, passes - 1);
    }
  }

  lemma {:induction false} FixedPointStays(points: seq<Point>, s: State, passes: nat)
    requires (points != [] ==> s.centroids != []) && Pass(points, s) == s
    ensures Run(points, s, passes) == s
    decreases passes
  {
    hide Pass;
    if passes == 0 {
    } else {
      FixedPointStays(points, s, passes - 1);
    }
  }

  lemma {:induction false} PowPositive(k: nat, n: nat)
    requires k > 0 || n == 0
    ensures Pow(k, n) > 0
  {
    if n == 0 {
    } else {
      PowPositive(k, n - 1);
    }
  }

  lemma {:induction false} RunSplits(points: seq<Point>, s: State, a: nat, b: nat)
    requires points != [] ==> s.centroids != []
    ensures Run(points, s, a + b) == Run(points, Run(points, s, a), b)
    decreases a
  {
    if a == 0 {
    } else {
      RunSplits(points, Pass(points, s), a - 1, b);
    }
  }

  /** Running k^n passes or more always ends in a state that no further pass changes. */
  lemma KMeansSettles(points: seq<Point>, s: State, passes: nat, more: nat)
    requires points != [] ==> s.centroids != []
    requires passes >= Pow(|s.centroids|, |points|)
    ensures Run(points, s, passes + more) == Run(points, s, passes)
  {
    hide Assign, Update;
    PowPositive(|s.centroids|, |points|);
    var t := Pass(points, s);
    PassUpdates(points, s);
    SettlesFrom(points, t, {}, passes - 1);
    RunSplits(points, s, passes, more);
    FixedPointStays(points, Run(points, s, passes), more);
  }

  // ----- when the passes asked for are enough

  /** No number of further passes changes the labels. */
  ghost predicate Final(points: seq<Point>, s: State, passes: nat)
    requires points != [] ==> s.centroids != []
  {
    forall n: nat :: n >= passes ==> Run(points, s, n).labels == Run(points, s, passes).labels
  }

  /**
   The labels are final exactly when one more pass repeats them; with no pass made at all, when two
   more do, as the centroids then do not yet belong to the labels.
   */
  lemma FinalIffRepeated(points: seq<Point>, s: State, passes: nat)
    requires points != [] ==> s.centroids != []
    ensures Final(points, s, passes) <==>
      Run(points, s, passes + 1).labels == Run(points, s, passes).labels
      && (passes == 0 ==> Run(points, s, 2).labels == s.labels)
  {
    hide Pass;
    var first := if passes == 0 then 1 else passes;
    RunSplits(points, s, first - 1, 1);
    RunSplits(points, s, first, 1);
    var before := Run(points, s, first - 1);
    var r := Run(points, s, first);
    assert r == Run(points, Pass(points, before), 0) == Pass(points, before);
    assert Run(points, s, first + 1) == Run(points, Pass(points, r), 0) == Pass(points, r);
    PassUpdates(points, before);
    if Pass(points, r).labels == r.labels {
      forall n: nat | n >= first ensures Run(points, s, n).labels == r.labels {
        RunSplits(points, s, first, n - first);
        RepeatedLabelsAreFinal(points, r, n - first);
      }
    }
  }

  ghost function NearerOf(p: Point, z: seq<Point>): nat
    requires |z| == 2
  {
    if DistSq(p, z[1]) < DistSq(p, z[0]) then 1 else 0
  }

  lemma NearestOfTwo(p: Point, z: seq<Point>)
    requires |z| == 2
    ensures Nearest(p, z, 2) == NearerOf(p, z)
  {
    assert Nearest(p, z, 1) == 0;
  }

  lemma AssignLast(points: seq<Point>, p: Point, z: seq<Point>)
    requires |z| == 2
    ensures Assign(points + [p], z) == Assign(points, z) + [NearerOf(p, z)]
  {
    hide Nearest, NearerOf;
    assert (points + [p])[..|points|] == points;
    NearestOfTwo(p, z);
  }

  lemma LabelsOfThree(points: seq<Point>, z: seq<Point>)
    requires |points| == 3 && |z| == 2
    ensures Assign(points, z) == [NearerOf(points[0], z), NearerOf(points[1], z), NearerOf(points[2], z)]
  {
    var a, b, c := points[0], points[1], points[2];
    assert [] + [a] + [b] + [c] == points;
    AssignLast([], a, z);
    AssignLast([] + [a], b, z);
    AssignLast([] + [a] + [b], c, z);
    assert Assign([], z) == [];
    hide Assign, NearerOf;
  }

  lemma Halves(points: seq<Point>)
    requires |points| == 3
    ensures var labels := [0, 1, 1];
      Size(labels, 0) == 1 && Size(labels, 1) == 2
      && Sum(points, labels, 0) == Plus(ORIGIN, points[0])
      && Sum(points, labels, 1) == Plus(Plus(ORIGIN, points[1]), points[2])
  {
    var labels: seq<nat> := [0, 1, 1];
    var l2, l1 := labels[..2], labels[..1];
    var p2, p1 := points[..2], points[..1];
    assert l2[..1] == l1 == [0] && l1[..0] == [] && p2[..1] == p1 && p1[..0] == [];
    assert Size(l1, 0) == 1 && Size(l1, 1) == 0;
    assert Size(l2, 0) == 1 && Size(l2, 1) == 1;
    assert Sum(p1, l1, 0) == Plus(ORIGIN, points[0]) && Sum(p1, l1, 1) == ORIGIN;
    assert Sum(p2, l2, 0) == Plus(ORIGIN, points[0]) && Sum(p2, l2, 1) == Plus(ORIGIN, points[1]);
  }

  const THREE := [Point(0.0, 0.0), Point(1.0, 0.0), Point(10.0, 0.0)]
  const EARLY := State([0, 1, 1], [Point(0.0, 0.0), Point(5.5, 0.0)])

  lemma OnALine(a: real, b: real)
    ensures DistSq(Point(a, 0.0), Point(b, 0.0)) == (a - b) * (a - b)
  {
  }

  lemma FirstLabels()
    ensures Assign(THREE, THREE[..2]) == EARLY.labels
  {
    hide Assign, DistSq;
    LabelsOfThree(THREE, THREE[..2]);
    OnALine(0.0, 0.0);
    OnALine(0.0, 1.0);
    OnALine(1.0, 0.0);
    OnALine(1.0, 1.0);
    OnALine(10.0, 0.0);
    OnALine(10.0, 1.0);
  }

  lemma FirstMeans()
    ensures Update(THREE, EARLY.labels, THREE[..2]) == EARLY.centroids
  {
    hide Size, Sum;
    Halves(THREE);
  }

  lemma FirstPass()
    ensures Pass(THREE, Start(THREE, 2)) == EARLY
  {
    hide Assign, Update;
    FirstLabels();
    FirstMeans();
  }

  lemma SecondPass()
    ensures Pass(THREE, EARLY).labels == [0, 0, 1]
  {
    hide Assign, Size, Sum, Update;
    LabelsOfThree(THREE, EARLY.centroids);
  }

  lemma TwoPasses(points: seq<Point>, s: State)
    requires points != [] ==> s.centroids != []
    ensures Run(points, s, 1) == Pass(points, s)
    ensures Run(points, s, 2) == Pass(points, Pass(points, s))
  {
    hide Pass;
    var t := Pass(points, s);
    assert Run(points, s, 1) == Run(points, t, 0);
    assert Run(points, s, 2) == Run(points, t, 1) == Run(points, Pass(points, t), 0);
  }

  /** One pass may be too few: 1 starts its own cluster, takes 10 in, and then belongs to 0. */
  lemma OnePassNotEnough()
    ensures Run(THREE, Start(THREE, 2), 1).labels == [0, 1, 1]
    ensures Run(THREE, Start(THREE, 2), 2).labels == [0, 0, 1]
    ensures !Final(THREE, Start(THREE, 2), 1)
  {
    hide Pass, Run;
    FirstPass();
    SecondPass();
    TwoPasses(THREE, Start(THREE, 2));
  }

  // ----- what every pass conserves

  ghost function SizeTotal(labels: seq<nat>, k: nat): nat {
    if k == 0 then 0 else SizeTotal(labels, k - 1) + Size(labels, k - 1)
  }

  /** The sum over the clusters of size times mean, an empty cluster adding nothing. */
  ghost function WeightedMeans(points: seq<Point>, labels: seq<nat>, means: seq<Point>, k: nat): Point
    requires |labels| == |points| && k <= |means|
  {
    if k == 0 then ORIGIN else
      var before := WeightedMeans(points, labels, means, k - 1);
      var c := Size(labels, k - 1) as real;
      if c > 0.0 then Plus(before, Scaled(c, means[k - 1])) else before
  }

  ghost function Total(points: seq<Point>): Point {
    if points == [] then ORIGIN else Plus(Total(points[..|points| - 1]), points[|points| - 1])
  }

  ghost function SumTotal(points: seq<Point>, labels: seq<nat>, k: nat): Point
    requires |labels| == |points|
  {
    if k == 0 then ORIGIN else Plus(SumTotal(points, labels, k - 1), Sum(points, labels, k - 1))
  }

  lemma {:induction false} TotalsStep(points: seq<Point>, labels: seq<nat>, k: nat)
    requires |labels| == |points| > 0
    ensures var n := |points| - 1;
      && SizeTotal(labels, k) == SizeTotal(labels[..n], k) + (if labels[n] < k then 1 else 0)
      && SumTotal(points, labels, k) ==
         Plus(SumTotal(points[..n], labels[..n], k), if labels[n] < k then points[n] else ORIGIN)
  {
    if k == 0 {
    } else {
      TotalsStep(points, labels, k - 1);
    }
  }

  lemma {:induction false} NoPointsTotals(k: nat)
    ensures SizeTotal([], k) == 0 && SumTotal([], [], k) == ORIGIN
  {
    if k == 0 {
    } else {
      NoPointsTotals(k - 1);
    }
  }

  lemma {:induction false} Totals(points: seq<Point>, labels: seq<nat>, k: nat)
    requires Labelling(labels, |points|, k)
    ensures SizeTotal(labels, k) == |points| && SumTotal(points, labels, k) == Total(points)
  {
    if points == [] {
      NoPointsTotals(k);
    } else {
      var n := |points| - 1;
      Totals(points[..n], labels[..n], k);
      TotalsStep(points, labels, k);
    }
  }

  lemma {:induction false} EmptyClusterSum(points: seq<Point>, labels: seq<nat>, g: nat)
    requires |labels| == |points| && Size(labels, g) == 0
    ensures Sum(points, labels, g) == ORIGIN
  {
    if points == [] {
    } else {
      EmptyClusterSum(points[..|points| - 1], labels[..|points| - 1], g);
    }
  }

  lemma {:induction false} MeansTimesSizes(points: seq<Point>, labels: seq<nat>, old': seq<Point>, k: nat)
    requires |labels| == |points| && k <= |old'|
    ensures WeightedMeans(points, labels, Update(points, labels, old'), k) == SumTotal(points, labels, k)
  {
    hide Over, Scaled;
    if k == 0 {
    } else {
      MeansTimesSizes(points, labels, old', k - 1);
      var s, c := Sum(points, labels, k - 1), Size(labels, k - 1);
      if c > 0 {
        ScaledBack(s, c);
      } else {
        EmptyClusterSum(points, labels, k - 1);
      }
    }
  }

  /** After every pass the counts add up to n and the weighted means to the sum of the points. */
  lemma PassConserves(points: seq<Point>, s: State)
    requires points != [] ==> s.centroids != []
    ensures var t := Pass(points, s); var k := |s.centroids|;
      SizeTotal(t.labels, k) == |points| && WeightedMeans(points, t.labels, t.centroids, k) == Total(points)
  {
    var t := Pass(points, s);
    Totals(points, t.labels, |s.centroids|);
    MeansTimesSizes(points, t.labels, s.centroids, |s.centroids|);
  }

  ghost predicate InBox(p: Point, lo: Point, hi: Point) {
    lo.x <= p.x <= hi.x && lo.y <= p.y <= hi.y
  }

  lemma MulZero(lo: Point, hi: Point)
    ensures Mul(0.0, lo.x) == Mul(0.0, lo.y) == Mul(0.0, hi.x) == Mul(0.0, hi.y) == 0.0
  {
  }

  lemma MulOneMore(c: nat, p: Point)
    ensures Mul((c + 1) as real, p.x) == Mul(c as real, p.x) + p.x
    ensures Mul((c + 1) as real, p.y) == Mul(c as real, p.y) + p.y
  {
  }

  lemma {:induction false} SumInBox(points: seq<Point>, labels: seq<nat>, g: nat, lo: Point, hi: Point)
    requires |labels| == |points| && forall i :: 0 <= i < |points| ==> InBox(points[i], lo, hi)
    ensures var s := Sum(points, labels, g); var c := Size(labels, g) as real;
      Mul(c, lo.x) <= s.x <= Mul(c, hi.x) && Mul(c, lo.y) <= s.y <= Mul(c, hi.y)
  {
    hide Mul;
    if points == [] {
      MulZero(lo, hi);
    } else {
      var n := |points| - 1;
      SumInBox(points[..n], labels[..n], g, lo, hi);
      assert InBox(points[n], lo, hi);
      MulOneMore(Size(labels[..n], g), lo);
      MulOneMore(Size(labels[..n], g), hi);
    }
  }

  lemma MeanInBox(s: real, c: real, lo: real, hi: real)
    requires c > 0.0 && Mul(c, lo) <= s <= Mul(c, hi)
    ensures lo <= s / c <= hi
  {
  }

  /** Centroids never leave a box that holds all the points, over any number of passes. */
  lemma {:induction false} CentroidsStayInBox(points: seq<Point>, s: State, passes: nat, lo: Point, hi: Point)
    requires points != [] ==> s.centroids != []
    requires forall i :: 0 <= i < |points| ==> InBox(points[i], lo, hi)
    requires forall g :: 0 <= g < |s.centroids| ==> InBox(s.centroids[g], lo, hi)
    ensures forall g :: 0 <= g < |s.centroids| ==> InBox(Run(points, s, passes).centroids[g], lo, hi)
    decreases passes
  {
    if passes == 0 {
    } else {
      var t := Pass(points, s);
      forall g | 0 <= g < |s.centroids| ensures InBox(t.centroids[g], lo, hi) {
        if Size(t.labels, g) > 0 {
          SumInBox(points, t.labels, g, lo, hi);
          var m, c := Sum(points, t.labels, g), Size(t.labels, g) as real;
          MeanInBox(m.x, c, lo.x, hi.x);
          MeanInBox(m.y, c, lo.y, hi.y);
        }
      }
      CentroidsStayInBox(points, t, passes - 1, lo, hi);
    }
  }
}
