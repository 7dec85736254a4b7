/**
 DBSCAN as the antenna tool runs it: a scan over the points that grows one cluster from every
 core point it still finds unclassified.  A DBPoint's position never changes, so the positions
 live in Scan and only the labels form a mutable array.
 */
module Dbscan {
  import opened Geometry

  const UNCLASSIFIED := -1
  const NOISE := -2

  predicate Unclaimed(l: int) {
    l == UNCLASSIFIED || l == NOISE
  }

  ghost predicate NoDup(s: seq<nat>) {
    forall i, j :: 0 <= i < j < |s| ==> s[i] != s[j]
  }

  /** The fixed input of one run. */
  datatype Scan = Scan(points: seq<Point>, eps: real, minPts: int) {

    /** `length() <= eps`, squared; no length is at most a negative eps. */
    predicate Near(i: nat, j: nat) {
      i < |points| && j < |points| && eps >= 0.0 && DistSq(points[i], points[j]) <= Sq(eps)
    }

    ghost function NearSet(i: nat): set<nat> {
      set j: nat | j < |points| && Near(i, j)
    }

    ghost predicate Core(i: nat) {
      i < |points| && |NearSet(i)| >= minPts
    }

    /** A non-empty walk over core points, each within eps of the next. */
    ghost predicate Chain(path: seq<nat>) {
      && |path| > 0
      && (forall k :: 0 <= k < |path| ==> Core(path[k]))
      && (forall k :: 0 < k < |path| ==> Near(path[k - 1], path[k]))
    }

    ghost predicate Joins(path: seq<nat>, i: nat, j: nat) {
      Chain(path) && path[0] == i && path[|path| - 1] == j
    }

    /** Two core points belong to one cluster. */
    ghost predicate Connected(i: nat, j: nat) {
      exists path :: Joins(path, i, j)
    }

    /** Point j lies within eps of some core of the cluster of i. */
    ghost predicate Touches(i: nat, j: nat) {
      exists x: nat :: Connected(i, x) && Near(x, j)
    }

    /** The smallest core of its cluster, the point a cluster is grown from. */
    ghost predicate Leader(i: nat) {
      Core(i) && forall x: nat :: x < i ==> !Connected(x, i)
    }

    /** The leaders below n, in increasing order. */
    ghost function Leaders(n: nat): seq<nat> {
      if n == 0 then [] else Leaders(n - 1) + if Leader(n - 1) then [n - 1] else []
    }

    /**
     The effect of growing cluster id from a core: every neighbour of the core takes id whatever
     it was before; a point touched through further cores takes id only if it was unclaimed.
     */
    ghost function Expanded(labels: seq<int>, index: nat, id: int): (r: seq<int>)
      ensures |r| == |labels|
    {
      seq(|labels|, (j: nat) requires j < |labels| =>
        if Core(index) then
          if Near(index, j) || (Unclaimed(labels[j]) && Touches(index, j)) then id else labels[j]
        else if j == index then NOISE else labels[j])
    }

    /** The cluster that owns j after clusters 0, 1, ... were grown from the given leaders. */
    ghost function Claim(ls: seq<nat>, j: nat): (c: int)
      ensures UNCLASSIFIED <= c < |ls|
    {
      if ls == [] then UNCLASSIFIED else
        var k := |ls| - 1;
        var before := Claim(ls[..k], j);
        if Near(ls[k], j) || (before == UNCLASSIFIED && Touches(ls[k], j)) then k else before
    }

    /** The label of j once the scan has passed the points below `seen`. */
    ghost function LabelOf(seen: nat, j: nat): int {
      var c := Claim(Leaders(seen), j);
      if c >= 0 then c else if j < seen && !Core(j) then NOISE else UNCLASSIFIED
    }
  }

  // ----- neighbourhood and connectedness

  lemma NearFacts(d: Scan, i: nat, j: nat)
    ensures d.Near(i, j) == d.Near(j, i)
    ensures i < |d.points| ==> (d.Near(i, i) <==> d.eps >= 0.0)
  {
  }

  lemma ConnectedToSelf(d: Scan, i: nat)
    requires d.Core(i)
    ensures d.Connected(i, i)
  {
    assert d.Joins([i], i, i);
  }

  lemma ConnectedCores(d: Scan, i: nat, j: nat)
    requires d.Connected(i, j)
    ensures d.Core(i) && d.Core(j)
  {
  }

  lemma ConnectedTransitive(d: Scan, i: nat, j: nat, k: nat)
    requires d.Connected(i, j) && d.Connected(j, k)
    ensures d.Connected(i, k)
  {
    var p :| d.Joins(p, i, j);
    var q :| d.Joins(q, j, k);
    assert d.Joins(p + q[1..], i, k);
  }

  lemma ConnectedByStep(d: Scan, i: nat, j: nat)
    requires d.Core(i) && d.Core(j) && d.Near(i, j)
    ensures d.Connected(i, j)
  {
    assert d.Joins([i, j], i, j);
  }

  lemma ConnectedSymmetric(d: Scan, i: nat, j: nat)
    requires d.Connected(i, j)
    ensures d.Connected(j, i)
  {
    var path :| d.Joins(path, i, j);
    var back := seq(|path|, (k: nat) requires k < |path| => path[|path| - 1 - k]);
    forall k | 0 < k < |back| ensures d.Near(back[k - 1], back[k]) {
      NearFacts(d, path[|path| - 1 - k], path[|path| - k]);
    }
    assert d.Joins(back, j, i);
  }

  lemma CoreTouched(d: Scan, i: nat, j: nat)
    requires d.Core(i) && d.Core(j) && d.Touches(i, j)
    ensures d.Connected(i, j)
  {
    var x: nat :| d.Connected(i, x) && d.Near(x, j);
    ConnectedCores(d, i, x);
    ConnectedByStep(d, x, j);
    ConnectedTransitive(d, i, x, j);
  }

  lemma ConnectedTouches(d: Scan, i: nat, j: nat)
    requires d.Connected(i, j) && d.eps >= 0.0
    ensures d.Touches(i, j)
  {
  }

  // ----- growing one cluster

  ghost function UnclaimedSet(labels: seq<int>): set<nat> {
    set j: nat | j < |labels| && Unclaimed(labels[j])
  }

  /** Work left: points a cluster may still absorb, plus queued points. */
  ghost function Work(labels: seq<int>, seeds: seq<nat>): nat {
    |UnclaimedSet(labels)| + |seeds|
  }

  method RegionQuery(d: Scan, index: nat) returns (neighbors: seq<nat>)
    requires index < |d.points|
    ensures NoDup(neighbors)
    ensures forall j: nat :: j in neighbors <==> d.Near(index, j)
    ensures |neighbors| == |d.NearSet(index)|
  {
    neighbors := [];
    ghost var found: set<nat> := {};
    for i := 0 to |d.points|
      invariant NoDup(neighbors)
      invariant forall j: nat :: j in neighbors <==> j < i && d.Near(index, j)
      invariant found == set j: nat | j < i && d.Near(index, j)
      invariant |neighbors| == |found|
    {
      if d.Near(index, i) {
        neighbors := neighbors + [i];
        found := found + {i};
      }
    }
    assert found == d.NearSet(index);
  }

  function RemoveAll(s: seq<nat>, x: nat): seq<nat> {
    if s == [] then [] else
      (if s[0] == x then [] else [s[0]]) + RemoveAll(s[1..], x)
  }

  lemma {:induction false} RemoveAllFacts(s: seq<nat>, x: nat)
    ensures forall y: nat :: y in RemoveAll(s, x) <==> y in s && y != x
    ensures NoDup(s) ==> NoDup(RemoveAll(s, x))
  {
    if s == [] {
    } else {
      RemoveAllFacts(s[1..], x);
      assert s[0] !in s[1..] || !NoDup(s);
    }
  }

  /** The inner loop of a cluster expansion: claim and queue the unclaimed neighbours. */
  method Absorb(labels: array<int>, neighbors: seq<nat>, queued: seq<nat>, id: int) returns (seeds: seq<nat>)
    requires id >= 0 && NoDup(queued)
    requires forall j :: j in neighbors ==> j < labels.Length
    requires forall q :: q in queued ==> q < labels.Length && labels[q] == id
    modifies labels
    ensures forall j :: 0 <= j < labels.Length ==>
      labels[j] == if j in neighbors && Unclaimed(old(labels[j])) then id else old(labels[j])
    ensures NoDup(seeds)
    ensures forall q :: q in seeds <==>
      q in queued || (q in neighbors && Unclaimed(old(labels[..])[q]))
    ensures Work(labels[..], seeds) == old(Work(labels[..], queued))
  {
    seeds := queued;
    ghost var before := labels[..];
    for n := 0 to |neighbors|
      invariant forall j :: 0 <= j < labels.Length ==>
        labels[j] == if j in neighbors[..n] && Unclaimed(before[j]) then id else before[j]
      invariant NoDup(seeds)
      invariant forall q :: q in seeds <==>
        q in queued || (q in neighbors[..n] && q < |before| && Unclaimed(before[q]))
      invariant Work(labels[..], seeds) == Work(before, queued)
    {
      var i := neighbors[n];
      assert i in neighbors;
      if Unclaimed(labels[i]) {
        ghost var was := labels[..];
        labels[i] := id;
        assert UnclaimedSet(labels[..]) == UnclaimedSet(was) - {i};
        assert i !in seeds;
        if i !in seeds {
          seeds := seeds + [i];
        }
      }
    }
  }

  /** A changed label is the new one, on a neighbour of index or on a touched unclaimed point. */
  ghost predicate OnlyClaims(d: Scan, L0: seq<int>, L: seq<int>, index: nat, id: int)
    requires |L0| == |L| == |d.points|
  {
    && (forall j: nat :: j < |L| && L[j] != L0[j] ==>
      L[j] == id && (d.Near(index, j) || (Unclaimed(L0[j]) && d.Touches(index, j))))
    && (forall j: nat :: d.Near(index, j) ==> L[j] == id)
  }

  /** Queued points are distinct and already carry the new label. */
  ghost predicate Queued(L: seq<int>, seeds: seq<nat>, id: int) {
    NoDup(seeds) && forall q :: q in seeds ==> q < |L| && L[q] == id
  }

  /** A core of the new cluster that is not queued any more has no unclaimed neighbour. */
  ghost predicate Settled(d: Scan, L: seq<int>, seeds: seq<nat>, id: int)
    requires |L| == |d.points|
  {
    forall x: nat, y: nat ::
      d.Core(x) && L[x] == id && d.Near(x, y) ==> x in seeds || !Unclaimed(L[y])
  }

  /** A partly grown cluster; L0 are the labels before, L the labels now. */
  ghost predicate Growing(d: Scan, L0: seq<int>, L: seq<int>, seeds: seq<nat>, index: nat, id: int)
    requires |L0| == |L| == |d.points|
  {
    OnlyClaims(d, L0, L, index, id) && Queued(L, seeds, id) && Settled(d, L, seeds, id)
  }

  lemma ClaimedCoresAreConnected(d: Scan, L0: seq<int>, L: seq<int>, index: nat, id: int, x: nat)
    requires |L0| == |L| == |d.points| && OnlyClaims(d, L0, L, index, id)
    requires forall j :: 0 <= j < |L0| ==> L0[j] != id
    requires d.Core(index) && d.Core(x) && L[x] == id
    ensures d.Connected(index, x)
  {
    if d.Near(index, x) {
      ConnectedByStep(d, index, x);
    } else {
      CoreTouched(d, index, x);
    }
  }

  lemma SettledStep(d: Scan, L: seq<int>, seeds: seq<nat>, id: int, L': seq<int>, seeds': seq<nat>)
    requires |L| == |L'| == |d.points| && id >= 0
    requires Settled(d, L, seeds, id) && seeds != []
    requires forall j: nat :: j < |L| ==> L'[j] == if d.Near(seeds[0], j) && Unclaimed(L[j]) then id else L[j]
    requires forall q: nat :: q in seeds' <==> q in seeds[1..] || (d.Near(seeds[0], q) && Unclaimed(L[q]))
    ensures Settled(d, L', seeds', id)
  {
  }

  lemma OnlyClaimsStep(d: Scan, L0: seq<int>, L: seq<int>, index: nat, id: int, q: nat, L': seq<int>)
    requires |L0| == |L| == |L'| == |d.points| && id >= 0
    requires OnlyClaims(d, L0, L, index, id)
    requires d.Connected(index, q)
    requires forall j: nat :: j < |L| ==> L'[j] == if d.Near(q, j) && Unclaimed(L[j]) then id else L[j]
    ensures OnlyClaims(d, L0, L', index, id)
  {
    forall j: nat | j < |L'| && L'[j] != L0[j]
      ensures L'[j] == id && (d.Near(index, j) || (Unclaimed(L0[j]) && d.Touches(index, j)))
    {
      if L[j] == L0[j] {
        assert d.Connected(index, q) && d.Near(q, j);
      }
    }
  }

  lemma SettledSkip(d: Scan, L: seq<int>, seeds: seq<nat>, id: int)
    requires |L| == |d.points| && seeds != []
    requires Settled(d, L, seeds, id) && !d.Core(seeds[0])
    ensures Settled(d, L, seeds[1..], id)
  {
  }

  lemma {:induction false} ChainIsClaimed(d: Scan, L0: seq<int>, L: seq<int>, index: nat, id: int, path: seq<nat>)
    requires |L0| == |L| == |d.points| && d.eps >= 0.0
    requires Growing(d, L0, L, [], index, id)
    requires forall x: nat :: d.Connected(index, x) ==> Unclaimed(L0[x])
    requires d.Chain(path) && path[0] == index
    ensures L[path[|path| - 1]] == id
    decreases |path|
  {
    var last := path[|path| - 1];
    if |path| == 1 {
      NearFacts(d, index, index);
    } else {
      ChainIsClaimed(d, L0, L, index, id, path[..|path| - 1]);
      assert d.Joins(path, index, last);
      assert d.Near(path[|path| - 2], last);
    }
  }

  lemma GrownIsExpanded(d: Scan, L0: seq<int>, L: seq<int>, index: nat, id: int)
    requires |L0| == |L| == |d.points| && d.Core(index)
    requires Growing(d, L0, L, [], index, id)
    requires forall x: nat :: d.Connected(index, x) ==> Unclaimed(L0[x])
    ensures L == d.Expanded(L0, index, id)
  {
    forall j: nat | j < |L| ensures L[j] == d.Expanded(L0, index, id)[j] {
      if d.Touches(index, j) && Unclaimed(L0[j]) {
        var x: nat :| d.Connected(index, x) && d.Near(x, j);
        var path :| d.Joins(path, index, x);
        ChainIsClaimed(d, L0, L, index, id, path);
      }
    }
  }

  /** The first labelling loop: every seed takes the new label, whatever it carried before. */
  method ClaimAll(labels: array<int>, seeds: seq<nat>, id: int)
    requires forall j :: j in seeds ==> j < labels.Length
    modifies labels
    ensures forall j :: 0 <= j < labels.Length ==>
      labels[j] == if j in seeds then id else old(labels[j])
  {
    for n := 0 to |seeds|
      invariant forall j :: 0 <= j < labels.Length ==>
        labels[j] == if j in seeds[..n] then id else old(labels[j])
    {
      assert seeds[n] in seeds;
      labels[seeds[n]] := id;
    }
  }

  lemma SeededIsGrowing(d: Scan, L0: seq<int>, L: seq<int>, seeds: seq<nat>, index: nat, id: int)
    requires |L0| == |L| == |d.points| && index < |L| && id >= 0 && NoDup(seeds)
    requires forall j :: 0 <= j < |L0| ==> L0[j] != id
    requires forall j: nat :: j in seeds <==> d.Near(index, j)
    requires forall j: nat :: j < |L| ==> L[j] == if j in seeds then id else L0[j]
    ensures Growing(d, L0, L, RemoveAll(seeds, index), index, id)
  {
    RemoveAllFacts(seeds, index);
  }

  lemma CoreBySize(d: Scan, i: nat, neighbors: seq<nat>)
    requires i < |d.points| && |neighbors| == |d.NearSet(i)|
    ensures d.Core(i) <==> |neighbors| >= d.minPts
  {
  }

  /** One pass of the work list; it removes exactly one unit of work. */
  method DrainPass(d: Scan, labels: array<int>, queue: seq<nat>, ghost L0: seq<int>, ghost index: nat, id: nat)
    returns (seeds: seq<nat>)
    requires labels.Length == |d.points| == |L0| && d.Core(index) && queue != []
    requires forall j :: 0 <= j < |L0| ==> L0[j] != id
    requires Growing(d, L0, labels[..], queue, index, id)
    modifies labels
    ensures Growing(d, L0, labels[..], seeds, index, id)
    ensures Work(labels[..], seeds) == old(Work(labels[..], queue)) - 1
  {
    hide Scan.Core, Scan.Connected, Scan.Touches;
    ghost var L := labels[..];
    var current := queue[0];
    assert current in queue;
    seeds := queue[1..];
    assert forall q :: q in seeds ==> q in queue;
    var result := RegionQuery(d, current);
    if |result| >= d.minPts {
      CoreBySize(d, current, result);
      seeds := Absorb(labels, result, seeds, id);
      ClaimedCoresAreConnected(d, L0, L, index, id, current);
      OnlyClaimsStep(d, L0, L, index, id, current, labels[..]);
      SettledStep(d, L, queue, id, labels[..], seeds);
    } else {
      CoreBySize(d, current, result);
      SettledSkip(d, L, queue, id);
    }
  }

  /** The work list: drain the queue, absorbing the neighbourhood of every core in it. */
  method Drain(d: Scan, labels: array<int>, queue: seq<nat>, ghost L0: seq<int>, ghost index: nat, id: nat)
    requires labels.Length == |d.points| == |L0| && d.Core(index)
    requires forall j :: 0 <= j < |L0| ==> L0[j] != id
    requires Growing(d, L0, labels[..], queue, index, id)
    modifies labels
    ensures Growing(d, L0, labels[..], [], index, id)
  {
    hide Growing;
    var seeds := queue;
    ghost var passes := 0;
    while seeds != []
      invariant Growing(d, L0, labels[..], seeds, index, id)
      // every pass removes exactly one unit of work
      invariant Work(labels[..], seeds) + passes == old(Work(labels[..], queue))
      decreases Work(labels[..], seeds)
    {
      seeds := DrainPass(d, labels, seeds, L0, index, id);
      passes := passes + 1;
    }
  }

  method ExpandCluster(d: Scan, labels: array<int>, index: nat, clusterId: nat) returns (grown: bool)
    requires labels.Length == |d.points| && index < labels.Length
    requires forall j :: 0 <= j < labels.Length ==> labels[j] != clusterId
    requires forall x: nat :: d.Connected(index, x) ==> x < labels.Length && Unclaimed(labels[x])
    modifies labels
    ensures grown == d.Core(index)
    ensures labels[..] == d.Expanded(old(labels[..]), index, clusterId)
  {
    ghost var L0 := labels[..];
    var seeds := RegionQuery(d, index);
    if |seeds| < d.minPts {
      labels[index] := NOISE;
      return false;
    }
    ClaimAll(labels, seeds, clusterId);
    SeededIsGrowing(d, L0, labels[..], seeds, index, clusterId);
    seeds := RemoveAll(seeds, index);
    Drain(d, labels, seeds, L0, index, clusterId);
    GrownIsExpanded(d, L0, labels[..], index, clusterId);
    return true;
  }

  // ----- the scan

  lemma {:induction false} LeadersFacts(d: Scan, n: nat)
    ensures forall k :: 0 <= k < |d.Leaders(n)| ==> d.Leaders(n)[k] < n && d.Leader(d.Leaders(n)[k])
    ensures forall k, m :: 0 <= k < m < |d.Leaders(n)| ==> d.Leaders(n)[k] < d.Leaders(n)[m]
    ensures forall x: nat :: x < n && d.Leader(x) ==> x in d.Leaders(n)
  {
    if n == 0 {
    } else {
      LeadersFacts(d, n - 1);
    }
  }

  /** Every core is connected to the leader of its cluster. */
  lemma LeaderOf(d: Scan, x: nat) returns (l: nat)
    requires d.Core(x)
    ensures d.Leader(l) && d.Connected(l, x) && l <= x
  {
    ConnectedToSelf(d, x);
    l := x;
    while !d.Leader(l)
      invariant l <= x && d.Core(l) && d.Connected(l, x)
      decreases l
    {
      var y: nat :| y < l && d.Connected(y, l);
      ConnectedCores(d, y, l);
      ConnectedTransitive(d, y, l, x);
      l := y;
    }
  }

  lemma OneLeader(d: Scan, l: nat, m: nat)
    requires d.Leader(l) && d.Leader(m) && d.Connected(l, m)
    ensures l == m
  {
    ConnectedSymmetric(d, l, m);
  }

  lemma {:induction false} ClaimTouches(d: Scan, ls: seq<nat>, j: nat)
    requires forall k :: 0 <= k < |ls| ==> d.Core(ls[k])
    ensures d.Claim(ls, j) >= 0 ==> d.Touches(ls[d.Claim(ls, j)], j)
    ensures d.Claim(ls, j) < 0 ==> forall k :: 0 <= k < |ls| ==> !d.Touches(ls[k], j)
  {
    if ls == [] {
    } else {
      var k := |ls| - 1;
      ClaimTouches(d, ls[..k], j);
      ConnectedToSelf(d, ls[k]);
      assert d.Near(ls[k], j) ==> d.Touches(ls[k], j);
    }
  }

  /** The scan's invariant, per point: labels follow LabelOf, and no core is left behind. */
  ghost predicate Scanned(d: Scan, labels: seq<int>, seen: nat, clusters: nat) {
    && |labels| == |d.points|
    && clusters == |d.Leaders(seen)|
    && forall j: nat :: j < |labels| ==> labels[j] == d.LabelOf(seen, j)
  }

  /** A core is claimed exactly when the leader of its cluster has been passed. */
  lemma CoreClaimed(d: Scan, seen: nat, x: nat)
    requires d.Core(x) && d.eps >= 0.0
    ensures var c := d.Claim(d.Leaders(seen), x);
      if c >= 0 then d.Connected(d.Leaders(seen)[c], x)
      else forall l: nat :: l < seen && d.Leader(l) ==> !d.Connected(l, x)
  {
    var ls := d.Leaders(seen);
    LeadersFacts(d, seen);
    ClaimTouches(d, ls, x);
    var c := d.Claim(ls, x);
    if c >= 0 {
      CoreTouched(d, ls[c], x);
    } else {
      forall l: nat | l < seen && d.Leader(l) ensures !d.Connected(l, x) {
        if d.Connected(l, x) {
          ConnectedTouches(d, l, x);
        }
      }
    }
  }

  /** Without a non-negative eps nothing is near anything, so nothing is ever claimed. */
  lemma NegativeEpsClaimsNothing(d: Scan, ls: seq<nat>, j: nat)
    requires d.eps < 0.0
    ensures d.Claim(ls, j) == UNCLASSIFIED
  {
  }

  lemma NegativeEpsConnects(d: Scan, i: nat, j: nat)
    requires d.eps < 0.0 && d.Connected(i, j)
    ensures i == j
  {
    var path :| d.Joins(path, i, j);
    assert |path| > 1 ==> d.Near(path[0], path[1]);
  }

  /** What ExpandCluster needs of the labels holds whenever the scan calls it. */
  lemma MayExpand(d: Scan, labels: seq<int>, i: nat, clusters: nat)
    requires Scanned(d, labels, i, clusters) && i < |labels| && labels[i] == UNCLASSIFIED
    ensures forall j :: 0 <= j < |labels| ==> labels[j] != clusters
    ensures forall x: nat :: d.Connected(i, x) ==> x < |labels| && Unclaimed(labels[x])
    ensures d.Core(i) ==> d.Leader(i)
  {
    forall x: nat | d.Connected(i, x) ensures x < |labels| && Unclaimed(labels[x]) {
      ConnectedCores(d, i, x);
      if d.eps < 0.0 {
        NegativeEpsClaimsNothing(d, d.Leaders(i), x);
      } else {
        CoreClaimed(d, i, i);
        CoreClaimed(d, i, x);
        LeadersFacts(d, i);
        var c := d.Claim(d.Leaders(i), x);
        if c >= 0 {
          ConnectedSymmetric(d, i, x);
          ConnectedTransitive(d, d.Leaders(i)[c], x, i);
        }
      }
    }
    if d.Core(i) {
      var l := LeaderOf(d, i);
      if d.eps < 0.0 {
        NegativeEpsConnects(d, l, i);
      } else {
        CoreClaimed(d, i, i);
      }
    }
  }

  lemma ScanStep(d: Scan, labels: seq<int>, i: nat, clusters: nat)
    requires Scanned(d, labels, i, clusters) && i < |labels|
    ensures labels[i] == UNCLASSIFIED ==>
      Scanned(d, d.Expanded(labels, i, clusters), i + 1, clusters + if d.Core(i) then 1 else 0)
    ensures labels[i] != UNCLASSIFIED ==> Scanned(d, labels, i + 1, clusters)
  {
    var ls := d.Leaders(i);
    if labels[i] == UNCLASSIFIED {
      MayExpand(d, labels, i, clusters);
      if d.Core(i) {
        assert d.Leaders(i + 1) == ls + [i] && (ls + [i])[..|ls|] == ls;
      } else {
        assert d.Leaders(i + 1) == ls;
      }
    } else {
      if d.Leader(i) {
        LeadersFacts(d, i);
        ClaimTouches(d, ls, i);
        var c := d.Claim(ls, i);
        CoreTouched(d, ls[c], i);
        assert false;
      }
      assert d.Leaders(i + 1) == ls;
    }
  }

  /** The labels a whole run leaves behind. */
  ghost function Labels(d: Scan): (r: seq<int>)
    ensures |r| == |d.points|
  {
    seq(|d.points|, (j: nat) => d.LabelOf(|d.points|, j))
  }

  method DbScan(inputPoints: seq<Point>, eps: real, minPts: int) returns (result: seq<int>)
    ensures var d := Scan(inputPoints, eps, minPts); result == Labels(d)
  {
    var d := Scan(inputPoints, eps, minPts);
    var labels := new int[|inputPoints|](_ => UNCLASSIFIED);
    var clusterId: nat := 0;
    for i := 0 to labels.Length
      invariant Scanned(d, labels[..], i, clusterId)
    {
      ghost var L := labels[..];
      ScanStep(d, L, i, clusterId);
      if labels[i] == UNCLASSIFIED {
        MayExpand(d, L, i, clusterId);
        var grown := ExpandCluster(d, labels, i, clusterId);
        if grown {
          clusterId := clusterId + 1;
        }
      }
    }
    result := labels[..];
  }

  // ----- what the labels mean

  /** Some neighbourhood is meaningful: each point is near itself, or nothing is core. */
  predicate Sensible(d: Scan) {
    d.eps >= 0.0 || d.minPts >= 1
  }

  lemma NoCoreWithNegativeEps(d: Scan, i: nat)
    requires d.eps < 0.0
    ensures d.Core(i) <==> i < |d.points| && d.minPts <= 0
  {
  }

  /** A core's label is the position of its cluster's smallest core among all leaders. */
  lemma CoreLabel(d: Scan, x: nat)
    requires d.Core(x) && d.eps >= 0.0
    ensures var n := |d.points|; var c := Labels(d)[x];
      0 <= c < |d.Leaders(n)| && d.Leader(d.Leaders(n)[c]) && d.Connected(d.Leaders(n)[c], x)
      && d.Leaders(n)[c] <= x
  {
    var n := |d.points|;
    CoreClaimed(d, n, x);
    LeadersFacts(d, n);
    var l := LeaderOf(d, x);
    var m := d.Leaders(n)[d.Claim(d.Leaders(n), x)];
    ConnectedSymmetric(d, l, x);
    ConnectedTransitive(d, m, x, l);
    OneLeader(d, m, l);
  }

  /**
   Correctness of the clustering: two cores share a label exactly when a chain of cores joins
   them.  It fails only for a negative eps with a non-positive minPts on two or more points.
   */
  lemma CoresShareLabelIffConnected(d: Scan)
    ensures (forall i: nat, j: nat :: d.Core(i) && d.Core(j) ==>
               (Labels(d)[i] == Labels(d)[j] <==> d.Connected(i, j)))
      <==> Sensible(d) || |d.points| <= 1
  {
    var n := |d.points|;
    if d.eps >= 0.0 {
      forall i: nat, j: nat | d.Core(i) && d.Core(j)
        ensures Labels(d)[i] == Labels(d)[j] <==> d.Connected(i, j)
      {
        CoreLabel(d, i);
        CoreLabel(d, j);
        var li, lj := d.Leaders(n)[Labels(d)[i]], d.Leaders(n)[Labels(d)[j]];
        if d.Connected(i, j) {
          ConnectedTransitive(d, li, i, j);
          ConnectedSymmetric(d, lj, j);
          ConnectedTransitive(d, li, j, lj);
          OneLeader(d, li, lj);
          LeadersFacts(d, n);
        } else if li == lj {
          ConnectedSymmetric(d, li, i);
          ConnectedTransitive(d, i, li, j);
        }
      }
    } else {
      forall i: nat ensures d.Core(i) <==> i < n && d.minPts <= 0 {
        NoCoreWithNegativeEps(d, i);
      }
      forall i: nat, j: nat | d.Core(i) && d.Core(j)
        ensures Labels(d)[i] == Labels(d)[j]
        ensures d.Connected(i, j) <==> i == j
      {
        NegativeEpsClaimsNothing(d, d.Leaders(n), i);
        NegativeEpsClaimsNothing(d, d.Leaders(n), j);
        ConnectedToSelf(d, i);
        if d.Connected(i, j) {
          NegativeEpsConnects(d, i, j);
        }
      }
      assert !Sensible(d) && n > 1 ==> d.Core(0) && d.Core(1);
    }
  }

  lemma LeaderIsSmallest(d: Scan, l: nat, x: nat, z: nat)
    requires d.Leader(l) && d.Connected(l, x) && d.Connected(z, x)
    ensures l <= z
  {
    ConnectedSymmetric(d, l, x);
    ConnectedTransitive(d, z, x, l);
  }

  /** Clusters are numbered in the order of their smallest cores. */
  lemma ClustersNumberedBySmallestCore(d: Scan, x: nat, y: nat)
    requires d.Core(x) && d.Core(y) && d.eps >= 0.0
    ensures Labels(d)[x] < Labels(d)[y] <==>
      exists l: nat :: d.Connected(l, x) && forall z: nat :: d.Connected(z, y) ==> l < z
  {
    var ls := d.Leaders(|d.points|);
    CoreLabel(d, x);
    CoreLabel(d, y);
    LeadersFacts(d, |d.points|);
    var lx, ly := ls[Labels(d)[x]], ls[Labels(d)[y]];
    if Labels(d)[x] < Labels(d)[y] {
      forall z: nat | d.Connected(z, y) ensures lx < z {
        LeaderIsSmallest(d, ly, y, z);
      }
    } else {
      forall l: nat | d.Connected(l, x) ensures !(forall z: nat :: d.Connected(z, y) ==> l < z) {
        LeaderIsSmallest(d, lx, x, l);
      }
    }
  }

  /** No point stays unclassified, except when the neighbourhoods make no sense. */
  lemma EveryPointClassified(d: Scan)
    ensures (forall j: nat :: j < |d.points| ==> Labels(d)[j] != -1)
      <==> Sensible(d) || d.points == []
  {
    var n := |d.points|;
    if d.eps < 0.0 {
      forall j: nat | j < n ensures Labels(d)[j] == UNCLASSIFIED <==> d.minPts <= 0 {
        NegativeEpsClaimsNothing(d, d.Leaders(n), j);
        NoCoreWithNegativeEps(d, j);
      }
      assert n > 0 ==> (Labels(d)[0] == UNCLASSIFIED <==> d.minPts <= 0);
    } else {
      forall j: nat | j < n && d.Core(j) ensures Labels(d)[j] != UNCLASSIFIED {
        CoreLabel(d, j);
      }
    }
  }

  /** Noise is exact: neither core nor within eps of a core. */
  lemma NoiseIsExact(d: Scan, j: nat)
    requires j < |d.points|
    ensures Labels(d)[j] == -2 <==> !d.Core(j) && forall x: nat :: d.Core(x) ==> !d.Near(x, j)
  {
    var n := |d.points|;
    var ls := d.Leaders(n);
    LeadersFacts(d, n);
    ClaimTouches(d, ls, j);
    var c := d.Claim(ls, j);
    if c >= 0 {
      var x: nat :| d.Connected(ls[c], x) && d.Near(x, j);
      ConnectedCores(d, ls[c], x);
    } else {
      forall x: nat | d.Core(x) ensures !d.Near(x, j) {
        if d.Near(x, j) {
          var l := LeaderOf(d, x);
          assert d.Touches(l, j);
        }
      }
    }
  }

  /** A border point carries the label of some core within eps of it. */
  lemma BorderJoinsANearCore(d: Scan, j: nat)
    requires j < |d.points| && Labels(d)[j] >= 0
    ensures exists x: nat :: d.Core(x) && d.Near(x, j) && Labels(d)[x] == Labels(d)[j]
  {
    var n := |d.points|;
    var ls := d.Leaders(n);
    var c := Labels(d)[j];
    LeadersFacts(d, n);
    ClaimTouches(d, ls, j);
    var x: nat :| d.Connected(ls[c], x) && d.Near(x, j);
    ConnectedCores(d, ls[c], x);
    CoreLabel(d, x);
    var m := ls[Labels(d)[x]];
    ConnectedSymmetric(d, m, x);
    ConnectedTransitive(d, ls[c], x, m);
    OneLeader(d, ls[c], m);
  }

  ghost predicate SomeNear(d: Scan, ls: seq<nat>, j: nat) {
    exists k :: 0 <= k < |ls| && d.Near(ls[k], j)
  }

  ghost predicate SomeTouches(d: Scan, ls: seq<nat>, j: nat) {
    exists k :: 0 <= k < |ls| && d.Touches(ls[k], j)
  }

  lemma SomeOfPrefix(d: Scan, ls: seq<nat>, j: nat)
    requires ls != []
    ensures SomeNear(d, ls, j) <==> SomeNear(d, ls[..|ls| - 1], j) || d.Near(ls[|ls| - 1], j)
    ensures SomeTouches(d, ls, j) <==> SomeTouches(d, ls[..|ls| - 1], j) || d.Touches(ls[|ls| - 1], j)
  {
  }

  /** c is the last of the leaders within eps of j. */
  ghost predicate LastNear(d: Scan, ls: seq<nat>, j: nat, c: int) {
    0 <= c < |ls| && d.Near(ls[c], j) && forall k :: c < k < |ls| ==> !d.Near(ls[k], j)
  }

  /** c is the first of the clusters that touch j. */
  ghost predicate FirstTouching(d: Scan, ls: seq<nat>, j: nat, c: int) {
    0 <= c < |ls| && d.Touches(ls[c], j) && forall k :: 0 <= k < c ==> !d.Touches(ls[k], j)
  }

  /**
   Which of several touching clusters keeps a point: the last one whose leader is within eps of
   it, because seeding relabels without asking, and otherwise the first one that touches it.
   */
  lemma {:induction false} OwnerIsExact(d: Scan, ls: seq<nat>, j: nat)
    requires forall k :: 0 <= k < |ls| ==> d.Core(ls[k])
    ensures var c := d.Claim(ls, j);
      if SomeNear(d, ls, j) then LastNear(d, ls, j, c)
      else if SomeTouches(d, ls, j) then FirstTouching(d, ls, j, c)
      else c == UNCLASSIFIED
  {
    if ls == [] {
    } else {
      hide Scan.Near, Scan.Touches, Scan.Core;
      var init := ls[..|ls| - 1];
      assert forall k :: 0 <= k < |init| ==> init[k] == ls[k];
      OwnerIsExact(d, init, j);
      SomeOfPrefix(d, ls, j);
    }
  }

  /**
   The label of any point: the position, among the smallest cores of all clusters in increasing
   order, of the owner; negative if no cluster touches it.
   */
  lemma LabelIsOwner(d: Scan, j: nat)
    requires j < |d.points|
    ensures var ls := d.Leaders(|d.points|); var c := Labels(d)[j];
      if SomeNear(d, ls, j) then LastNear(d, ls, j, c)
      else if SomeTouches(d, ls, j) then FirstTouching(d, ls, j, c)
      else c < 0
  {
    LeadersFacts(d, |d.points|);
    OwnerIsExact(d, d.Leaders(|d.points|), j);
  }

  /** Growing a cluster may take border points from older ones, but never one of their cores. */
  lemma ExpandingKeepsOldCores(d: Scan, labels: seq<int>, i: nat, clusters: nat, x: nat)
    requires Scanned(d, labels, i, clusters) && i < |labels| && labels[i] == UNCLASSIFIED
    requires d.Core(x) && labels[x] >= 0
    ensures d.Expanded(labels, i, clusters)[x] == labels[x]
  {
    MayExpand(d, labels, i, clusters);
    if d.Core(i) && d.Near(i, x) {
      ConnectedByStep(d, i, x);
    }
  }
}
