/** Nearest-ring selection, the same in the Cyntec and the Hanwha beam tables. */
module BeamTable {
  import opened FiniteSets
  import opened Geometry
  import opened Ordering

  datatype Beam = Beam(pos: Point, beamtype: string)

  /** The distance is kept squared: only its order and equality are used. */
  datatype BeamDistance = BeamDistance(id: int, distance: real)

  type Table = map<int, Beam>

  predicate Candidate(t: Table, target: int, beamtype: string, id: int) {
    id in t && id != target && beamtype <= t[id].beamtype
  }

  function DistanceTo(t: Table, target: int, id: int): real
    requires target in t && id in t
  {
    DistSq(t[id].pos, t[target].pos)
  }

  /** The distinct distances among candidates strictly smaller than that of a beam: its ring number. */
  function Closer(t: Table, target: int, beamtype: string, id: int): set<real>
    requires target in t && id in t
  {
    set c |
      c in t && c != target && beamtype <= t[c].beamtype
      && DistSq(t[c].pos, t[target].pos) < DistSq(t[id].pos, t[target].pos)
      :: DistSq(t[c].pos, t[target].pos)
  }

  /** The list of candidates with their distances, in any order. */
  ghost predicate Lists(t: Table, target: int, beamtype: string, ds: seq<BeamDistance>)
    requires target in t
  {
    && (forall i, j :: 0 <= i < j < |ds| ==> ds[i].id != ds[j].id)
    && (forall b :: b in ds ==> Candidate(t, target, beamtype, b.id) && b.distance == DistanceTo(t, target, b.id))
    && (forall id :: Candidate(t, target, beamtype, id) ==> BeamDistance(id, DistanceTo(t, target, id)) in ds)
  }

  method CollectDistances(t: Table, target: int, beamtype: string) returns (ds: seq<BeamDistance>)
    requires target in t
    ensures Lists(t, target, beamtype, ds)
  {
    ds := [];
    var left := t.Items;
    while left != {}
      invariant left <= t.Items
      invariant forall i, j :: 0 <= i < j < |ds| ==> ds[i].id != ds[j].id
      invariant forall b :: b in ds ==>
        Candidate(t, target, beamtype, b.id) && (b.id, t[b.id]) !in left && b.distance == DistanceTo(t, target, b.id)
      invariant forall id :: Candidate(t, target, beamtype, id) && (id, t[id]) !in left ==>
        BeamDistance(id, DistanceTo(t, target, id)) in ds
      decreases left
    {
      var item :| item in left;
      left := left - {item};
      var id := item.0;
      if id != target && beamtype <= item.1.beamtype {
        ds := ds + [BeamDistance(id, DistanceTo(t, target, id))];
      }
    }
  }

  /** The distances of a list below a bound. */
  ghost function DistancesBelow(ds: seq<BeamDistance>, x: real): set<real> {
    set b | b in ds && b.distance < x :: b.distance
  }

  lemma CloserIsDistancesBelow(t: Table, target: int, beamtype: string, ds: seq<BeamDistance>, b: BeamDistance)
    requires target in t && Lists(t, target, beamtype, ds) && b in ds
    ensures Closer(t, target, beamtype, b.id) == DistancesBelow(ds, b.distance)
  {
    forall c | c in t && c != target && beamtype <= t[c].beamtype
      ensures BeamDistance(c, DistSq(t[c].pos, t[target].pos)) in ds
    {
      assert Candidate(t, target, beamtype, c);
    }
  }

  lemma SameEntry(t: Table, target: int, beamtype: string, ds: seq<BeamDistance>, a: BeamDistance, b: BeamDistance)
    requires target in t && Lists(t, target, beamtype, ds) && a in ds && b in ds && a.id == b.id
    ensures a == b
  {
  }

  lemma TwiceInOne(es: seq<BeamDistance>, i: nat, j: nat)
    requires i < j < |es| && es[i] == es[j]
    ensures multiset(es)[es[i]] >= 2
  {
    assert es == es[..i] + [es[i]] + es[i + 1..j] + [es[j]] + es[j + 1..];
  }

  lemma {:induction false} OnceEach(ds: seq<BeamDistance>, b: BeamDistance)
    requires forall i, j :: 0 <= i < j < |ds| ==> ds[i].id != ds[j].id
    ensures multiset(ds)[b] <= 1
  {
    if ds == [] {
    } else {
      OnceEach(ds[1..], b);
      assert ds == [ds[0]] + ds[1..];
      if ds[0] == b {
        assert b !in ds[1..];
      }
    }
  }

  lemma ListsPermuted(t: Table, target: int, beamtype: string, ds: seq<BeamDistance>, es: seq<BeamDistance>)
    requires target in t && Lists(t, target, beamtype, ds) && multiset(ds) == multiset(es)
    ensures Lists(t, target, beamtype, es)
  {
    PermutationFacts(ds, es);
    forall i, j | 0 <= i < j < |es| ensures es[i].id != es[j].id {
      if es[i].id == es[j].id {
        SameEntry(t, target, beamtype, ds, es[i], es[j]);
        TwiceInOne(es, i, j);
        OnceEach(ds, es[i]);
      }
    }
  }

  /** The result so far: the ids of the first i entries, and their distances. */
  ghost predicate Taken(ds: seq<BeamDistance>, i: nat, result: seq<int>, seen: set<real>)
    requires i <= |ds|
  {
    && |result| == i && (forall k :: 0 <= k < i ==> result[k] == ds[k].id)
    && seen == set b | b in ds[..i] :: b.distance
  }

  /** In a sorted list, an entry with a new distance has exactly the seen distances below it. */
  lemma SeenIsBelow(ds: seq<BeamDistance>, i: nat, result: seq<int>, seen: set<real>)
    requires SortedBy(ds, (b: BeamDistance) => b.distance) && i < |ds| && Taken(ds, i, result, seen)
    ensures ds[i].distance !in seen ==> DistancesBelow(ds, ds[i].distance) == seen
    ensures forall j :: i <= j < |ds| ==> DistancesBelow(ds, ds[i].distance) <= DistancesBelow(ds, ds[j].distance)
  {
  }

  /** How many distinct smaller distances an entry has; the number of its ring. */
  ghost function Ring(ds: seq<BeamDistance>, i: nat): nat
    requires i < |ds|
  {
    |DistancesBelow(ds, ds[i].distance)|
  }

  /** An entry that is not refused is of one of the first rings. */
  lemma RingOfNext(ds: seq<BeamDistance>, i: nat, result: seq<int>, seen: set<real>, group: int)
    requires SortedBy(ds, (b: BeamDistance) => b.distance) && i < |ds| && Taken(ds, i, result, seen)
    requires forall k :: 0 <= k < i ==> Ring(ds, k) < group
    requires |seen| < group || ds[i].distance in seen
    ensures Ring(ds, i) < group
    ensures Taken(ds, i + 1, result + [ds[i].id], seen + {ds[i].distance})
  {
    assert ds[..i + 1] == ds[..i] + [ds[i]];
    if ds[i].distance in seen {
      var b :| b in ds[..i] && b.distance == ds[i].distance;
      var k :| 0 <= k < i && ds[..i][k] == b;
      assert Ring(ds, i) == Ring(ds, k);
    } else {
      SeenIsBelow(ds, i, result, seen);
    }
  }

  /** From a refused entry on all are of later rings. */
  lemma RingsBeyond(ds: seq<BeamDistance>, i: nat, result: seq<int>, seen: set<real>, group: int)
    requires SortedBy(ds, (b: BeamDistance) => b.distance) && i < |ds| && Taken(ds, i, result, seen)
    requires |seen| >= group && ds[i].distance !in seen
    ensures forall j :: i <= j < |ds| ==> Ring(ds, j) >= group
  {
    SeenIsBelow(ds, i, result, seen);
    forall j | i <= j < |ds| ensures Ring(ds, j) >= group {
      SubsetSize(DistancesBelow(ds, ds[i].distance), DistancesBelow(ds, ds[j].distance));
    }
  }

  /** Collect ids until the distance changes with enough rings seen. */
  method TakeRings(ds: seq<BeamDistance>, neighborGroup: int) returns (result: seq<int>)
    requires SortedBy(ds, (b: BeamDistance) => b.distance)
    ensures |result| <= |ds| && forall k :: 0 <= k < |result| ==> result[k] == ds[k].id
    ensures forall k :: 0 <= k < |ds| ==> (k < |result| <==> Ring(ds, k) < neighborGroup)
  {
    hide Ring, SortedBy;
    result := [];
    var seen: set<real> := {};
    for i := 0 to |ds|
      invariant Taken(ds, i, result, seen)
      invariant forall k :: 0 <= k < i ==> Ring(ds, k) < neighborGroup
    {
      if |seen| >= neighborGroup && ds[i].distance !in seen {
        RingsBeyond(ds, i, result, seen, neighborGroup);
        return;
      }
      RingOfNext(ds, i, result, seen, neighborGroup);
      seen := seen + {ds[i].distance};
      result := result + [ds[i].id];
    }
  }

  /** No beam twice, and the distances never decrease. */
  ghost predicate NearestFirst(t: Table, target: int, result: seq<int>)
    requires target in t
  {
    && (forall i, j :: 0 <= i < j < |result| ==> result[i] != result[j])
    && forall i, j :: 0 <= i < j < |result| ==>
      result[i] in t && result[j] in t
      && DistSq(t[result[i]].pos, t[target].pos) <= DistSq(t[result[j]].pos, t[target].pos)
  }

  lemma PrefixIsNearestFirst(t: Table, target: int, beamtype: string, ds: seq<BeamDistance>, result: seq<int>)
    requires target in t && Lists(t, target, beamtype, ds) && SortedBy(ds, (b: BeamDistance) => b.distance)
    requires |result| <= |ds| && forall k :: 0 <= k < |result| ==> result[k] == ds[k].id
    ensures NearestFirst(t, target, result)
  {
  }

  lemma RingsAreClosest(t: Table, target: int, beamtype: string, ds: seq<BeamDistance>, result: seq<int>, group: int)
    requires target in t && Lists(t, target, beamtype, ds)
    requires |result| <= |ds| && forall k :: 0 <= k < |result| ==> result[k] == ds[k].id
    requires forall k :: 0 <= k < |ds| ==> (k < |result| <==> Ring(ds, k) < group)
    ensures forall id :: id in result <==>
      Candidate(t, target, beamtype, id) && |Closer(t, target, beamtype, id)| < group
  {
    hide Closer, DistancesBelow, DistanceTo;
    forall k | 0 <= k < |ds|
      ensures Candidate(t, target, beamtype, ds[k].id) && Ring(ds, k) == |Closer(t, target, beamtype, ds[k].id)|
    {
      assert ds[k] in ds;
      CloserIsDistancesBelow(t, target, beamtype, ds, ds[k]);
    }
    forall id | Candidate(t, target, beamtype, id) && |Closer(t, target, beamtype, id)| < group
      ensures id in result
    {
      assert BeamDistance(id, DistanceTo(t, target, id)) in ds;
      var k :| 0 <= k < |ds| && ds[k] == BeamDistance(id, DistanceTo(t, target, id));
      assert result[k] == id;
    }
  }

  /** A neighbour is returned exactly when its ring is among the first neighborGroup. */
  method FindNearestNeighbors(t: Table, targetID: int, beamtype: string, neighborGroup: int) returns (result: seq<int>)
    ensures targetID !in t ==> result == []
    ensures targetID in t ==> forall id :: id in result <==>
      id in t && id != targetID && beamtype <= t[id].beamtype
      && |Closer(t, targetID, beamtype, id)| < neighborGroup
    ensures targetID in t ==> NearestFirst(t, targetID, result)
    ensures targetID !in result
  {
    if targetID !in t {
      return [];
    }
    var ds := CollectDistances(t, targetID, beamtype);
    var sorted := Sort(ds, (b: BeamDistance) => b.distance);
    ListsPermuted(t, targetID, beamtype, ds, sorted);
    result := TakeRings(sorted, neighborGroup);
    hide Lists, Closer, Ring, SortedBy, NearestFirst;
    RingsAreClosest(t, targetID, beamtype, sorted, result, neighborGroup);
    PrefixIsNearestFirst(t, targetID, beamtype, sorted, result);
  }
}
