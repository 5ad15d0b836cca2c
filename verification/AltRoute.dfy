/** Alternative route goals: the mid-range areas are consumed one face-connected component at a
    time, and each component yields one goal. */
module AltRoute {
  import opened AasDef
  import opened FaceGraph

  const ALTROUTEGOAL_ALL: Flags := 1
  const ALTROUTEGOAL_CLUSTERPORTALS: Flags := 2
  const ALTROUTEGOAL_VIEWPORTALS: Flags := 4

  datatype AltRouteGoal = AltRouteGoal(
    origin: Vec3, areanum: int, starttraveltime: int, goaltraveltime: int, extratraveltime: int)

  datatype MidRangeArea = MidRangeArea(valid: bool, starttime: int, goaltime: int)

  /** Between the start of a component and its end: the list holds just the areas consumed. */
  ghost predicate Consumed(start: set<int>, valid: set<int>, list: seq<int>) {
    valid <= start && Distinct(list) && Elements(list) == start - valid
  }

  /** The list of one component: no duplicates, and exactly what is reached from its first area. */
  ghost predicate IsComponent(adj: Adjacency, within: set<int>, list: seq<int>) {
    && |list| > 0
    && Distinct(list)
    && forall b :: b in list <==> Reaches(adj, within, list[0], b)
  }

  lemma ComponentEnds(adj: Adjacency, start: set<int>, valid: set<int>, list: seq<int>)
    requires Consumed(start, valid, list) && Exhausted(adj, start, valid, {}) && |list| > 0
    requires AllReached(adj, start, valid, list[0])
    requires forall a :: a in start ==> 0 <= a < |adj|
    ensures IsComponent(adj, start, list)
  {
    assert list[0] in Elements(list);
    forall b
      ensures b in list <==> Reaches(adj, start, list[0], b)
    {
      assert b in list <==> b in Elements(list);
      if Reaches(adj, start, list[0], b) {
        var gone := iset x: int | x in start && x !in valid;
        ClosedHoldsReached(adj, start, gone, list[0], b);
      }
    }
  }

  lemma ConsumeOne(start: set<int>, valid: set<int>, list: seq<int>, a: int)
    requires Consumed(start, valid, list) && a in valid
    ensures Consumed(start, valid - {a}, list + [a])
  {
    assert a !in Elements(list);
    forall x
      ensures x in Elements(list + [a]) <==> x in start - (valid - {a})
    {
      assert x in list + [a] <==> x in list || x == a;
      assert x in Elements(list) <==> x in start - valid;
    }
  }

  /** The list never outgrows the world. */
  lemma ConsumedFits(start: set<int>, valid: set<int>, list: seq<int>, a: int, n: nat)
    requires Consumed(start, valid, list) && a in valid
    requires forall x :: x in start ==> 0 <= x < n
    ensures |list| < n
  {
    ConsumeOne(start, valid, list, a);
    forall x | x in list + [a]
      ensures 0 <= x < n
    {
      assert x in Elements(list + [a]);
    }
    DistinctFits(list + [a], n);
  }

  lemma TableSize(geo: Geometry)
    requires FacesInRange(geo)
    ensures |NeighbourTable(geo)| == |geo.areas|
  {
  }

  lemma PrefixTransitive(s: seq<int>, t: seq<int>, a: int, u: seq<int>)
    requires s <= t && t + [a] <= u
    ensures s <= u
  {
  }

  /** No valid area lies behind the first i faces of area a. */
  ghost predicate FacesDone(geo: Geometry, a: int, i: int, valid: set<int>)
    requires FacesInRange(geo) && 0 <= a < |geo.areas|
  {
    && 0 <= i <= geo.areas[a].numfaces
    && forall j :: 0 <= j < i ==>
         var b := Across(geo.faces[FaceNum(geo, a, j)], a); b == 0 || b !in valid
  }

  lemma FaceLeads(geo: Geometry, a: int, i: int)
    requires FacesInRange(geo) && 0 <= a < |geo.areas| && 0 <= i < geo.areas[a].numfaces
    requires Across(geo.faces[FaceNum(geo, a, i)], a) != 0
    ensures Across(geo.faces[FaceNum(geo, a, i)], a) in NeighbourTable(geo)[a]
  {
  }

  lemma NoFaceDone(geo: Geometry, a: int, valid: set<int>)
    requires FacesInRange(geo) && 0 <= a < |geo.areas|
    ensures FacesDone(geo, a, 0, valid) && 0 <= geo.areas[a].numfaces
  {
  }

  lemma NextFaceDone(geo: Geometry, a: int, i: int, valid: set<int>, after: set<int>)
    requires FacesInRange(geo) && 0 <= a < |geo.areas|
    requires FacesDone(geo, a, i, valid) && i < geo.areas[a].numfaces && after <= valid
    requires var b := Across(geo.faces[FaceNum(geo, a, i)], a); b == 0 || b !in after
    ensures FacesDone(geo, a, i + 1, after)
  {
  }

  lemma FacesExhausted(geo: Geometry, a: int, start: set<int>, valid: set<int>, stack: set<int>)
    requires FacesInRange(geo) && 0 <= a < |geo.areas|
    requires FacesDone(geo, a, geo.areas[a].numfaces, valid)
    requires Exhausted(NeighbourTable(geo), start, valid, stack + {a})
    ensures Exhausted(NeighbourTable(geo), start, valid, stack)
  {
    forall b | b in Neighbours(geo, a)
      ensures b !in valid
    {
      var j :| 0 <= j < geo.areas[a].numfaces && Across(geo.faces[FaceNum(geo, a, j)], a) != 0
        && b == Across(geo.faces[FaceNum(geo, a, j)], a);
    }
  }

  // ----- components one after another

  ghost function Covered(components: seq<seq<int>>): set<int> {
    if components == [] then {}
    else Covered(components[..|components| - 1]) + Elements(components[|components| - 1])
  }

  /** Each component is what its first area reaches among the areas left over by those before it. */
  ghost predicate Peeled(adj: Adjacency, all: set<int>, components: seq<seq<int>>)
    decreases |components|
  {
    components != [] ==>
      var earlier := components[..|components| - 1];
      && Peeled(adj, all, earlier)
      && IsComponent(adj, all - Covered(earlier), components[|components| - 1])
  }

  lemma PeelOne(adj: Adjacency, all: set<int>, components: seq<seq<int>>, c: seq<int>)
    requires Peeled(adj, all, components) && IsComponent(adj, all - Covered(components), c)
    ensures Peeled(adj, all, components + [c]) && Covered(components + [c]) == Covered(components) + Elements(c)
  {
    var longer := components + [c];
    assert longer[..|longer| - 1] == components;
  }

  lemma ReachedIsWithin(adj: Adjacency, within: set<int>, a: int, b: int)
    requires Reaches(adj, within, a, b)
    ensures a in within && b in within && 0 <= a < |adj| && 0 <= b < |adj|
  {
  }

  lemma {:induction false} CoveredHas(components: seq<seq<int>>, k: int, x: int)
    requires 0 <= k < |components| && x in components[k]
    ensures x in Covered(components)
  {
    var n := |components| - 1;
    if k < n {
      assert components[..n][k] == components[k];
      CoveredHas(components[..n], k, x);
    } else {
      assert x in Elements(components[n]);
    }
  }

  lemma {:induction false} CoveredFrom(components: seq<seq<int>>, x: int) returns (k: int)
    requires x in Covered(components)
    ensures 0 <= k < |components| && x in components[k]
  {
    var n := |components| - 1;
    if x in Elements(components[n]) {
      k := n;
    } else {
      k := CoveredFrom(components[..n], x);
      assert components[..n][k] == components[k];
    }
  }

  lemma PeeledIsComponent(adj: Adjacency, all: set<int>, earlier: seq<seq<int>>, last: seq<int>)
    requires Symmetric(adj) && IsComponent(adj, all - Covered(earlier), last)
    requires forall k :: 0 <= k < |earlier| ==> IsComponent(adj, all, earlier[k])
    ensures IsComponent(adj, all, last)
  {
    var gone := Covered(earlier);
    assert last[0] in last;
    ReachedIsWithin(adj, all - gone, last[0], last[0]);
    CoveredIsClosed(adj, all, earlier);
    forall b
      ensures b in last <==> Reaches(adj, all, last[0], b)
    {
      if Reaches(adj, all, last[0], b) {
        var p :| Walk(adj, all, p) && p[0] == last[0] && p[|p| - 1] == b;
        WalkAvoids(adj, all, gone, p);
      } else if b in last {
        ReachesMore(adj, all - gone, all, last[0], b);
      }
    }
  }

  /** With symmetric adjacency every component peeled off is a whole component of the first set,
      and no two of them share an area. */
  lemma {:induction false} PeeledAreComponents(adj: Adjacency, all: set<int>, components: seq<seq<int>>)
    requires Peeled(adj, all, components) && Symmetric(adj)
    ensures forall k :: 0 <= k < |components| ==> IsComponent(adj, all, components[k])
    ensures forall j, k, x :: 0 <= j < k < |components| && x in components[j] ==> x !in components[k]
    decreases |components|
  {
    if components != [] {
      var n := |components| - 1;
      var earlier, last := components[..n], components[n];
      PeeledAreComponents(adj, all, earlier);
      PeeledIsComponent(adj, all, earlier, last);
      forall j, k, x | 0 <= j < k < |components| && x in components[j]
        ensures x !in components[k]
      {
        assert components[j] == earlier[j];
        if k < n {
          assert components[k] == earlier[k];
        } else if x in last {
          CoveredHas(earlier, j, x);
          ReachedIsWithin(adj, all - Covered(earlier), last[0], x);
        }
      }
      forall k | 0 <= k < |components|
        ensures IsComponent(adj, all, components[k])
      {
        assert k < n ==> components[k] == earlier[k];
      }
    }
  }

  /** No step leads out of a union of components. */
  lemma CoveredIsClosed(adj: Adjacency, all: set<int>, components: seq<seq<int>>)
    requires forall k :: 0 <= k < |components| ==> IsComponent(adj, all, components[k])
    ensures forall x, y ::
      x in Covered(components) && 0 <= x < |adj| && y in adj[x] && y in all && 0 <= y < |adj| ==>
        y in Covered(components)
  {
    forall x, y | x in Covered(components) && 0 <= x < |adj| && y in adj[x] && y in all && 0 <= y < |adj|
      ensures y in Covered(components)
    {
      var k := CoveredFrom(components, x);
      assert IsComponent(adj, all, components[k]);
      ReachesStep(adj, all, components[k][0], x, y);
      CoveredHas(components, k, y);
    }
  }

  /** The state of the component loop: what has been peeled off, and the areas still valid. */
  ghost predicate Peeling(adj: Adjacency, all: set<int>, components: seq<seq<int>>, valid: set<int>) {
    && Peeled(adj, all, components)
    && Covered(components) <= all && valid == all - Covered(components) && 0 !in all
  }

  lemma PeelingStarts(adj: Adjacency, all: set<int>)
    requires 0 !in all
    ensures Peeling(adj, all, [], all)
  {
  }

  lemma PeelingGoesOn(adj: Adjacency, all: set<int>, components: seq<seq<int>>, valid: set<int>, c: seq<int>)
    requires Peeling(adj, all, components, valid) && IsComponent(adj, valid, c)
    ensures Peeling(adj, all, components + [c], valid - Elements(c))
  {
    PeelOne(adj, all, components, c);
    forall x | x in c
      ensures x in valid
    {
      ReachedIsWithin(adj, valid, c[0], x);
    }
  }

  lemma PeelingLeft(adj: Adjacency, all: set<int>, components: seq<seq<int>>, valid: set<int>)
    requires Peeling(adj, all, components, valid)
    ensures valid <= all && 0 !in all && valid == all - Covered(components) && (valid == {} ==> Covered(components) == all)
  {
    hide Covered, Peeled;
    if valid == {} {
      forall x | x in all
        ensures x in Covered(components)
      {
        assert x !in valid;
      }
    }
  }

  const BESTDIST := 999999.0

  /** The first of the nearest areas of a list; or the dummy area, when all are as far as the bound. */
  ghost predicate Closest(list: seq<int>, distance: (seq<int>, int) -> real, best: int) {
    if forall j :: 0 <= j < |list| ==> distance(list, list[j]) >= 999999.0 then best == 0
    else exists k :: FirstNearest(list, distance, best, k)
  }

  ghost predicate FirstNearest(list: seq<int>, distance: (seq<int>, int) -> real, best: int, k: int) {
    && 0 <= k < |list| && list[k] == best && distance(list, best) < 999999.0
    && (forall j :: 0 <= j < k ==> distance(list, best) < distance(list, list[j]))
    && (forall j :: k <= j < |list| ==> distance(list, best) <= distance(list, list[j]))
  }

  /** The goal stands for the area of its component that is nearest to the middle of it, with that area's
      place and times; or for the dummy area, with no times. */
  ghost predicate GoalFor(areas: seq<Area>, goal: AltRouteGoal, component: seq<int>,
                          starttimes: int -> int, goaltimes: int -> int, goaltraveltime: int,
                          distance: (seq<int>, int) -> real) {
    && Closest(component, distance, goal.areanum)
    && 0 <= goal.areanum < |areas| && (goal.areanum != 0 ==> goal.areanum in component)
    && goal.origin == areas[goal.areanum].center
    && goal.starttraveltime == (if goal.areanum == 0 then 0 else starttimes(goal.areanum) % 0x10000)
    && goal.goaltraveltime == (if goal.areanum == 0 then 0 else goaltimes(goal.areanum) % 0x10000)
    && goal.extratraveltime == (goal.starttraveltime + goal.goaltraveltime - goaltraveltime) % 0x10000
  }

  ghost predicate GoalsFor(areas: seq<Area>, goals: seq<AltRouteGoal>, components: seq<seq<int>>,
                           starttimes: int -> int, goaltimes: int -> int, goaltraveltime: int,
                           distance: (seq<int>, int) -> real) {
    && |goals| == |components|
    && forall k :: 0 <= k < |goals| ==>
         GoalFor(areas, goals[k], components[k], starttimes, goaltimes, goaltraveltime, distance)
  }

  lemma NoGoals(areas: seq<Area>, starttimes: int -> int, goaltimes: int -> int, goaltraveltime: int,
                distance: (seq<int>, int) -> real)
    ensures GoalsFor(areas, [], [], starttimes, goaltimes, goaltraveltime, distance)
  {
  }

  lemma OneMoreGoal(areas: seq<Area>, goals: seq<AltRouteGoal>, components: seq<seq<int>>,
                    goal: AltRouteGoal, component: seq<int>,
                    starttimes: int -> int, goaltimes: int -> int, goaltraveltime: int,
                    distance: (seq<int>, int) -> real)
    requires GoalsFor(areas, goals, components, starttimes, goaltimes, goaltraveltime, distance)
    requires GoalFor(areas, goal, component, starttimes, goaltimes, goaltraveltime, distance)
    ensures GoalsFor(areas, goals + [goal], components + [component], starttimes, goaltimes, goaltraveltime, distance)
  {
    hide GoalFor;
  }

  class AltRouting {
    var midrangeareas: array<MidRangeArea>
    var clusterareas: array<int>
    var numclusterareas: int

    constructor (numareas: nat)
      ensures fresh(midrangeareas) && fresh(clusterareas)
      ensures midrangeareas.Length == clusterareas.Length == numareas
    {
      midrangeareas := new MidRangeArea[numareas](_ => MidRangeArea(false, 0, 0));
      clusterareas := new int[numareas](_ => 0);
      numclusterareas := 0;
    }

    ghost function ValidAreas(): set<int>
      reads this`midrangeareas, midrangeareas
    {
      set a | 0 <= a < midrangeareas.Length && midrangeareas[a].valid
    }

    ghost predicate Fits(w: AasWorld)
      reads this, w, w.areas, w.faces, w.faceindex
    {
      && midrangeareas.Length == clusterareas.Length == w.areas.Length
      && clusterareas != w.faceindex
      && FacesInRange(GeometryOf(w))
    }

    ghost function Adj(w: AasWorld): Adjacency
      reads this, w, w.areas, w.faces, w.faceindex
      requires Fits(w)
    {
      NeighbourTable(GeometryOf(w))
    }

    ghost function List(): seq<int>
      reads this, clusterareas
      requires 0 <= numclusterareas <= clusterareas.Length
    {
      clusterareas[..numclusterareas]
    }

    /** Moves a valid area to the end of the list. */
    method Consume(areanum: int)
      requires 0 <= areanum < midrangeareas.Length && 0 <= numclusterareas < clusterareas.Length
      modifies this`numclusterareas, midrangeareas, clusterareas
      ensures numclusterareas == old(numclusterareas) + 1 && List() == old(List()) + [areanum]
      ensures ValidAreas() == old(ValidAreas()) - {areanum}
      ensures forall a :: 0 <= a < midrangeareas.Length ==>
        midrangeareas[a] == old(midrangeareas[a]).(valid := midrangeareas[a].valid)
    {
      clusterareas[numclusterareas] := areanum;
      numclusterareas := numclusterareas + 1;
      midrangeareas[areanum] := midrangeareas[areanum].(valid := false);
    }

    /** The area on the other side of the i-th face of an area. */
    method OtherArea(w: AasWorld, areanum: int, i: int) returns (otherareanum: int)
      requires Fits(w) && 0 <= areanum < w.areas.Length && 0 <= i < w.areas[areanum].numfaces
      ensures 0 <= otherareanum < w.areas.Length
      ensures otherareanum == Across(GeometryOf(w).faces[FaceNum(GeometryOf(w), areanum, i)], areanum)
    {
      var face := w.faces[Abs(w.faceindex[w.areas[areanum].firstface + i])];
      otherareanum := if face.frontarea == areanum then face.backarea else face.frontarea;
    }

    /** Consumes all valid areas that are joined to a valid area by faces. */
    method FloodCluster(w: AasWorld, areanum: int, ghost start: set<int>, ghost stack: set<int>)
      requires Fits(w) && 0 <= numclusterareas <= clusterareas.Length
      requires areanum in ValidAreas() && 0 !in start
      requires forall a :: a in start ==> 0 <= a < w.areas.Length
      requires Consumed(start, ValidAreas(), List()) && Exhausted(Adj(w), start, ValidAreas(), stack)
      modifies this`numclusterareas, midrangeareas, clusterareas
      ensures 0 <= numclusterareas <= clusterareas.Length
      ensures Consumed(start, ValidAreas(), List()) && Exhausted(Adj(w), start, ValidAreas(), stack)
      ensures old(List()) + [areanum] <= List()
      ensures AllReached(Adj(w), old(ValidAreas()), ValidAreas(), areanum)
      ensures ValidAreas() < old(ValidAreas()) && areanum !in ValidAreas()
      ensures forall a :: 0 <= a < midrangeareas.Length ==>
        midrangeareas[a] == old(midrangeareas[a]).(valid := midrangeareas[a].valid)
      decreases ValidAreas()
    {
      hide Consumed, Exhausted, AllReached, NeighbourTable, FacesDone, FacesInRange, Across, FaceNum;
      ghost var before, list, adj, geo := ValidAreas(), List(), Adj(w), GeometryOf(w);
      assert |adj| == |geo.areas| by { TableSize(geo); }
      assert numclusterareas < clusterareas.Length by { ConsumedFits(start, before, list, areanum, w.areas.Length); }
      Consume(areanum);
      assert Consumed(start, ValidAreas(), List()) by { ConsumeOne(start, before, list, areanum); }
      assert Exhausted(adj, start, ValidAreas(), stack + {areanum}) && AllReached(adj, before, ValidAreas(), areanum) by {
        ConsumeStarts(adj, start, before, stack, areanum);
      }
      assert FacesDone(geo, areanum, 0, ValidAreas()) && 0 <= w.areas[areanum].numfaces by { NoFaceDone(geo, areanum, ValidAreas()); }
      var i := 0;
      while i < w.areas[areanum].numfaces
        invariant 0 <= i <= w.areas[areanum].numfaces
        invariant GeometryOf(w) == geo
        invariant 0 <= numclusterareas <= clusterareas.Length
        invariant Consumed(start, ValidAreas(), List())
        invariant Exhausted(adj, start, ValidAreas(), stack + {areanum})
        invariant list + [areanum] <= List()
        invariant AllReached(adj, before, ValidAreas(), areanum) && ValidAreas() < before && areanum !in ValidAreas()
        invariant FacesDone(geo, areanum, i, ValidAreas())
        invariant forall a :: 0 <= a < midrangeareas.Length ==>
          midrangeareas[a] == old(midrangeareas[a]).(valid := midrangeareas[a].valid)
      {
        var otherareanum := OtherArea(w, areanum, i);
        ghost var valid, listed := ValidAreas(), List();
        if otherareanum != 0 && midrangeareas[otherareanum].valid {
          assert otherareanum in adj[areanum] by { FaceLeads(geo, areanum, i); }
          FloodCluster(w, otherareanum, start, stack + {areanum});
          assert list + [areanum] <= List() by { PrefixTransitive(list + [areanum], listed, otherareanum, List()); }
          assert AllReached(adj, before, ValidAreas(), areanum) by {
            NextFaceReached(adj, before, valid, ValidAreas(), areanum, otherareanum);
          }
        }
        assert FacesDone(geo, areanum, i + 1, ValidAreas()) by {
          NextFaceDone(geo, areanum, i, valid, ValidAreas());
        }
        i := i + 1;
      }
      assert Exhausted(adj, start, ValidAreas(), stack) by { FacesExhausted(geo, areanum, start, ValidAreas(), stack); }
    }
  
    /** Does an area of this kind lie between start and goal, no more than a bit out of the way? */
    predicate MidRange(w: AasWorld, i: int, kind: Flags, starttime: int, goaltime: int, goaltraveltime: int)
      reads w, w.areasettings
      requires 0 <= i < w.areasettings.Length
    {
      && (|| HasFlag(kind, ALTROUTEGOAL_ALL)
          || (HasFlag(kind, ALTROUTEGOAL_CLUSTERPORTALS)
              && HasFlag(w.areasettings[i].contents, AREACONTENTS_CLUSTERPORTAL))
          || (HasFlag(kind, ALTROUTEGOAL_VIEWPORTALS)
              && HasFlag(w.areasettings[i].contents, AREACONTENTS_VIEWPORTAL)))
      && w.areasettings[i].numreachableareas != 0
      && starttime != 0 && !(starttime as real > 1.1 * goaltraveltime as real)
      && goaltime != 0 && !(goaltime as real > 0.8 * goaltraveltime as real)
    }

    /** Marks the mid-range areas, given the travel times from the start and to the goal. */
    method FindMidRange(w: AasWorld, kind: Flags, starttimes: int -> int, goaltimes: int -> int, goaltraveltime: int)
      requires Fits(w) && w.areasettings.Length == w.areas.Length > 0
      modifies midrangeareas
      ensures forall i :: 0 <= i < midrangeareas.Length ==>
        midrangeareas[i] ==
        if i > 0 && MidRange(w, i, kind, starttimes(i), goaltimes(i), goaltraveltime)
        then MidRangeArea(true, starttimes(i) % 0x10000, goaltimes(i) % 0x10000)
        else MidRangeArea(false, 0, 0)
    {
      for k := 0 to midrangeareas.Length
        invariant forall i :: 0 <= i < k ==> midrangeareas[i] == MidRangeArea(false, 0, 0)
      {
        midrangeareas[k] := MidRangeArea(false, 0, 0);
      }
      var i := 1;
      while i < w.areas.Length
        invariant 1 <= i <= w.areas.Length
        invariant forall k :: 0 <= k < midrangeareas.Length ==>
          midrangeareas[k] ==
          if 0 < k < i && MidRange(w, k, kind, starttimes(k), goaltimes(k), goaltraveltime)
          then MidRangeArea(true, starttimes(k) % 0x10000, goaltimes(k) % 0x10000)
          else MidRangeArea(false, 0, 0)
      {
        if MidRange(w, i, kind, starttimes(i), goaltimes(i), goaltraveltime) {
          midrangeareas[i] := MidRangeArea(true, starttimes(i) % 0x10000, goaltimes(i) % 0x10000);
        }
        i := i + 1;
      }
    }
  
    /** The area of the list that is closest to its middle. */
    method ClosestToMiddle(distance: (seq<int>, int) -> real) returns (best: int)
      requires 0 <= numclusterareas <= clusterareas.Length
      ensures Closest(List(), distance, best)
      ensures best != 0 ==> best in List()
    {
      var list := clusterareas[..numclusterareas];
      var bestdist := BESTDIST;
      best := 0;
      ghost var at := -1;
      var j := 0;
      while j < |list|
        invariant 0 <= j <= |list|
        invariant at == -1 ==> best == 0 && bestdist == BESTDIST
        invariant at != -1 ==> 0 <= at < j && best == list[at] && bestdist == distance(list, best) < BESTDIST
        invariant forall k :: 0 <= k < j ==> bestdist <= distance(list, list[k])
        invariant forall k :: 0 <= k < at ==> bestdist < distance(list, list[k])
      {
        var dist := distance(list, list[j]);
        if dist < bestdist {
          bestdist := dist;
          best := list[j];
          at := j;
        }
        j := j + 1;
      }
      if at != -1 {
        assert distance(list, list[at]) < BESTDIST;
        assert FirstNearest(list, distance, best, at);
      }
    }

    /** Consumes one component, starting at valid area i. */
    method TakeComponent(w: AasWorld, i: int) returns (ghost component: seq<int>)
      requires Fits(w) && i in ValidAreas() && 0 !in ValidAreas()
      modifies this`numclusterareas, midrangeareas, clusterareas
      ensures 0 <= numclusterareas <= clusterareas.Length && component == List()
      ensures IsComponent(Adj(w), old(ValidAreas()), component) && component[0] == i
      ensures ValidAreas() == old(ValidAreas()) - Elements(component)
      ensures forall a :: 0 <= a < midrangeareas.Length ==>
        midrangeareas[a] == old(midrangeareas[a]).(valid := midrangeareas[a].valid)
    {
      ghost var start := ValidAreas();
      numclusterareas := 0;
      assert List() == [];
      FloodCluster(w, i, start, {});
      component := List();
      TableSize(GeometryOf(w));
      ComponentEnds(Adj(w), start, ValidAreas(), component);
    }

    /** The areas that are valid still carry the travel times they were given. */
    ghost predicate TimesKept(all: set<int>, starttimes: int -> int, goaltimes: int -> int)
      reads this`midrangeareas, midrangeareas
    {
      forall a :: 0 <= a < midrangeareas.Length && a in all ==>
        && midrangeareas[a].starttime == starttimes(a) % 0x10000
        && midrangeareas[a].goaltime == goaltimes(a) % 0x10000
    }

    /** The dummy area carries no travel times. */
    ghost predicate DummyKept()
      reads this`midrangeareas, midrangeareas
    {
      0 < midrangeareas.Length && midrangeareas[0] == MidRangeArea(false, 0, 0)
    }

    /** The goals for alternative routes, one for each component of mid-range areas until there are
        enough, with the components they stand for. */
    method AlternativeRouteGoals(w: AasWorld, startareanum: int, goalareanum: int, kind: Flags,
                                 starttimes: int -> int, goaltimes: int -> int, goaltraveltime: int,
                                 distance: (seq<int>, int) -> real, maxaltroutegoals: int)
      returns (goals: seq<AltRouteGoal>, ghost all: set<int>, ghost components: seq<seq<int>>)
      requires Fits(w) && w.areasettings.Length == w.areas.Length > 0
      modifies this`numclusterareas, midrangeareas, clusterareas
      ensures startareanum == 0 || goalareanum == 0 ==> goals == [] && components == [] && all == {}
      ensures startareanum != 0 && goalareanum != 0 ==>
        forall i :: i in all <==>
          0 < i < w.areas.Length && MidRange(w, i, kind, starttimes(i), goaltimes(i), goaltraveltime)
      ensures Peeling(Adj(w), all, components, all - Covered(components))
      ensures |goals| < maxaltroutegoals && startareanum != 0 && goalareanum != 0 ==> Covered(components) == all
      ensures |goals| <= maxaltroutegoals || |goals| <= 1
      ensures GoalsFor(w.areas[..], goals, components, starttimes, goaltimes, goaltraveltime, distance)
    {
      hide Peeling, GoalsFor, IsComponent, NeighbourTable, MidRange;
      goals, all, components := [], {}, [];
      assert Covered(components) == {};
      if startareanum == 0 || goalareanum == 0 {
        assert Peeling(Adj(w), all, components, all - Covered(components)) by { PeelingStarts(Adj(w), all); }
        assert GoalsFor(w.areas[..], goals, components, starttimes, goaltimes, goaltraveltime, distance) by {
          NoGoals(w.areas[..], starttimes, goaltimes, goaltraveltime, distance);
        }
        return;
      }
      FindMidRange(w, kind, starttimes, goaltimes, goaltraveltime);
      all := ValidAreas();
      goals, components := TakeGoals(w, starttimes, goaltimes, goaltraveltime, distance, maxaltroutegoals, all);
    }

    /** Consumes the components of the valid areas in turn, until there are enough goals. */
    method TakeGoals(w: AasWorld, starttimes: int -> int, goaltimes: int -> int, goaltraveltime: int,
                     distance: (seq<int>, int) -> real, maxaltroutegoals: int, ghost all: set<int>)
      returns (goals: seq<AltRouteGoal>, ghost components: seq<seq<int>>)
      requires Fits(w) && w.areas.Length > 0 && all == ValidAreas()
      requires TimesKept(all, starttimes, goaltimes) && DummyKept()
      modifies this`numclusterareas, midrangeareas, clusterareas
      ensures Peeling(Adj(w), all, components, all - Covered(components))
      ensures |goals| < maxaltroutegoals ==> Covered(components) == all
      ensures |goals| <= maxaltroutegoals || |goals| <= 1
      ensures GoalsFor(w.areas[..], goals, components, starttimes, goaltimes, goaltraveltime, distance)
    {
      hide Peeling, GoalsFor, GoalFor, IsComponent, NeighbourTable, TimesKept;
      goals, components := [], [];
      ghost var adj := Adj(w);
      assert Peeling(adj, all, components, ValidAreas()) by { PeelingStarts(adj, all); }
      assert GoalsFor(w.areas[..], goals, components, starttimes, goaltimes, goaltraveltime, distance) by {
        NoGoals(w.areas[..], starttimes, goaltimes, goaltraveltime, distance);
      }
      assert 0 !in ValidAreas();
      var i := 1;
      while i < w.areas.Length
        invariant 1 <= i <= w.areas.Length
        invariant Peeling(adj, all, components, ValidAreas())
        invariant forall a :: a in ValidAreas() ==> i <= a
        invariant |goals| < maxaltroutegoals || |goals| < 1
        invariant TimesKept(all, starttimes, goaltimes) && DummyKept()
        invariant GoalsFor(w.areas[..], goals, components, starttimes, goaltimes, goaltraveltime, distance)
      {
        if midrangeareas[i].valid {
          ghost var valid := ValidAreas();
          assert valid <= all && 0 !in all by { PeelingLeft(adj, all, components, valid); }
          var goal;
          ghost var component;
          goal, component := TakeGoal(w, i, starttimes, goaltimes, goaltraveltime, distance, all);
          assert Peeling(adj, all, components + [component], ValidAreas()) by {
            PeelingGoesOn(adj, all, components, valid, component);
          }
          assert GoalsFor(w.areas[..], goals + [goal], components + [component],
                          starttimes, goaltimes, goaltraveltime, distance) by {
            OneMoreGoal(w.areas[..], goals, components, goal, component,
                        starttimes, goaltimes, goaltraveltime, distance);
          }
          goals, components := goals + [goal], components + [component];
          if |goals| >= maxaltroutegoals { break; }
        }
        i := i + 1;
      }
      assert ValidAreas() == all - Covered(components) && (ValidAreas() == {} ==> Covered(components) == all) by {
        PeelingLeft(adj, all, components, ValidAreas());
      }
    }

    /** Consumes the component of valid area i and makes the goal that stands for it. */
    method TakeGoal(w: AasWorld, i: int, starttimes: int -> int, goaltimes: int -> int, goaltraveltime: int,
                    distance: (seq<int>, int) -> real, ghost all: set<int>)
      returns (goal: AltRouteGoal, ghost component: seq<int>)
      requires Fits(w) && i in ValidAreas() && ValidAreas() <= all && 0 !in all
      requires TimesKept(all, starttimes, goaltimes) && DummyKept()
      modifies this`numclusterareas, midrangeareas, clusterareas
      ensures IsComponent(Adj(w), old(ValidAreas()), component) && component[0] == i
      ensures ValidAreas() == old(ValidAreas()) - Elements(component) && i !in ValidAreas()
      ensures TimesKept(all, starttimes, goaltimes) && DummyKept()
      ensures GoalFor(w.areas[..], goal, component, starttimes, goaltimes, goaltraveltime, distance)
    {
      hide NeighbourTable, Closest;
      ghost var valid := ValidAreas();
      component := TakeComponent(w, i);
      assert 0 !in ValidAreas();
      assert DummyKept();
      var best := ClosestToMiddle(distance);
      if best != 0 {
        assert best in valid by { ReachedIsWithin(Adj(w), valid, component[0], best); }
      }
      var mid := midrangeareas[best];
      goal := AltRouteGoal(w.areas[best].center, best, mid.starttime, mid.goaltime,
                           (mid.starttime + mid.goaltime - goaltraveltime) % 0x10000);
    }
  }

  /** An area of the wanted kind with a reachability, not much out of the way: at most eleven tenths of the
      direct way from the start, and eight tenths from the goal. */
  ghost predicate OnTheWay(s: AreaSettings, kind: Flags, starttime: int, goaltime: int, goaltraveltime: int) {
    && (kind & 1 != 0 || (kind & 2 != 0 && s.contents & 8 != 0) || (kind & 4 != 0 && s.contents & 512 != 0))
    && s.numreachableareas != 0
    && starttime != 0 && 10 * starttime <= 11 * goaltraveltime
    && goaltime != 0 && 10 * goaltime <= 8 * goaltraveltime
  }

  lemma MidRangeIsOnTheWay(routing: AltRouting, w: AasWorld, i: int, kind: Flags,
                           starttime: int, goaltime: int, goaltraveltime: int)
    requires 0 <= i < w.areasettings.Length
    ensures routing.MidRange(w, i, kind, starttime, goaltime, goaltraveltime)
      <==> OnTheWay(w.areasettings[i], kind, starttime, goaltime, goaltraveltime)
  {
  }
}
