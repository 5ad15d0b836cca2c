/** The test that turns an area and its lesser surroundings into portals: their outer faces must lie
    on two planes, with connected areas behind each and no edge shared between the two. */
module PortalCheck {
  import opened AasDef
  import opened FaceGraph
  import opened PortalCandidates

  /** An outer face of a group of areas: the place of its area in the group, its number, the area
      behind it and its plane, both sides of a plane counting as one. */
  datatype Boundary = Boundary(place: int, facenum: int, other: int, plane: int)

  predicate Shared(list: seq<int>, place: int, f: Face) {
    exists k :: 0 <= k < |list| && k != place && (f.frontarea == list[k] || f.backarea == list[k])
  }

  /** The outer faces among the first j faces of the area at this place. */
  ghost function OuterOf(geo: Geometry, list: seq<int>, place: int, j: int): seq<Boundary>
    requires FacesInRange(geo) && 0 <= place < |list| && 0 <= list[place] < |geo.areas|
    requires 0 <= j <= geo.areas[list[place]].numfaces
    decreases j
  {
    if j == 0 then [] else
      var num := FaceNum(geo, list[place], j - 1);
      var f := geo.faces[num];
      OuterOf(geo, list, place, j - 1) +
      if Solid(f) || Shared(list, place, f) then []
      else [Boundary(place, num, Across(f, list[place]), f.planenum / 2 * 2)]
  }

  /** The outer faces of the areas at the first i places. */
  ghost function Outer(geo: Geometry, list: seq<int>, i: int): seq<Boundary>
    requires FacesInRange(geo) && 0 <= i <= |list| && forall a :: a in list ==> 0 <= a < |geo.areas|
    decreases i
  {
    if i == 0 then [] else
      assert list[i - 1] in list;
      Outer(geo, list, i - 1) + OuterOf(geo, list, i - 1, geo.areas[list[i - 1]].numfaces)
  }

  // ----- what the test asks

  ghost function Behind(bs: seq<Boundary>, plane: int): set<int> {
    set b | b in bs && b.plane == plane :: b.other
  }

  /** The area behind the first outer face on this plane. */
  ghost function FirstBehind(bs: seq<Boundary>, plane: int): int {
    if bs == [] then 0
    else if bs[0].plane == plane then bs[0].other
    else FirstBehind(bs[1..], plane)
  }

  /** The areas behind one plane are reached from the first of them without leaving them. */
  ghost predicate JoinedBehind(adj: Adjacency, bs: seq<Boundary>, plane: int) {
    forall x :: x in Behind(bs, plane) ==> Reaches(adj, Behind(bs, plane), FirstBehind(bs, plane), x)
  }

  datatype EdgeTable = EdgeTable(faces: seq<Face>, edgeindex: seq<int>)

  ghost predicate EdgesInRange(et: EdgeTable) {
    forall f :: 0 <= f < |et.faces| ==>
      && 0 <= et.faces[f].firstedge && 0 <= et.faces[f].numedges
      && et.faces[f].firstedge + et.faces[f].numedges <= |et.edgeindex|
  }

  /** The number of the e-th edge of a face, without the sign for its direction. */
  function EdgeNum(et: EdgeTable, facenum: int, e: int): int
    requires EdgesInRange(et) && 0 <= facenum < |et.faces| && 0 <= e < et.faces[facenum].numedges
  {
    Abs(et.edgeindex[et.faces[facenum].firstedge + e])
  }

  ghost function EdgesOf(et: EdgeTable, facenum: int): set<int>
    requires EdgesInRange(et) && 0 <= facenum < |et.faces|
  {
    set e | 0 <= e < et.faces[facenum].numedges :: EdgeNum(et, facenum, e)
  }

  ghost predicate FacesApart(et: EdgeTable, f: int, g: int) {
    EdgesInRange(et) && 0 <= f < |et.faces| && 0 <= g < |et.faces| && EdgesOf(et, f) !! EdgesOf(et, g)
  }

  predicate Flagged(settings: seq<AreaSettings>, a: int) {
    0 <= a < |settings| && HasFlag(settings[a].contents, AREACONTENTS_CLUSTERPORTAL)
  }

  /** The outer faces close the group in between a front plane and a back plane. */
  ghost predicate ClosedInBy(adj: Adjacency, et: EdgeTable, settings: seq<AreaSettings>, n: int, bs: seq<Boundary>,
                             front: int, back: int) {
    && front != back
    && (forall b :: b in bs ==> (b.plane == front || b.plane == back) && !Flagged(settings, b.other))
    && (forall i :: 0 <= i < n ==> HasFaceOn(bs, i, front) && HasFaceOn(bs, i, back))
    && JoinedBehind(adj, bs, front) && JoinedBehind(adj, bs, back)
    && (forall b, c :: b in bs && c in bs && b.plane == front && c.plane == back ==> FacesApart(et, b.facenum, c.facenum))
  }

  ghost predicate HasFaceOn(bs: seq<Boundary>, place: int, plane: int) {
    exists b :: b in bs && b.place == place && b.plane == plane
  }

  ghost predicate ClosedIn(adj: Adjacency, et: EdgeTable, settings: seq<AreaSettings>, n: int, bs: seq<Boundary>) {
    exists front, back :: ClosedInBy(adj, et, settings, n, bs, front, back)
  }

  // ----- sorting the outer faces by plane

  /** The faces gathered for one plane, the areas behind them, and how many each place contributed. */
  datatype Side = Side(plane: int, facenums: seq<int>, areanums: seq<int>, counts: seq<nat>)

  function NoSide(n: nat): Side {
    Side(-1, [], [], seq(n, _ => 0))
  }

  function Gather(s: Side, b: Boundary): Side
    requires 0 <= b.place < |s.counts|
  {
    Side(b.plane, s.facenums + [b.facenum],
         if b.other in s.areanums then s.areanums else s.areanums + [b.other],
         s.counts[b.place := s.counts[b.place] + 1])
  }

  /** One side holds exactly the outer faces on its plane. */
  ghost predicate Holds(s: Side, bs: seq<Boundary>, n: nat) {
    && |s.counts| == n
    && (forall f :: f in s.facenums <==> exists b :: b in bs && b.plane == s.plane && b.facenum == f)
    && Distinct(s.areanums)
    && (forall x :: x in s.areanums <==> x in Behind(bs, s.plane))
    && (s.areanums != [] ==> s.areanums[0] == FirstBehind(bs, s.plane))
    && (forall i :: 0 <= i < n ==> (s.counts[i] > 0 <==> HasFaceOn(bs, i, s.plane)))
  }

  /** Two sides hold all outer faces so far, a front one first. */
  ghost predicate Sorted(bs: seq<Boundary>, front: Side, back: Side, n: nat) {
    && (forall b :: b in bs ==> b.plane >= 0 && (b.plane == front.plane || b.plane == back.plane))
    && (front.plane < 0 ==> back.plane < 0)
    && (front.plane >= 0 ==> front.plane != back.plane)
    && (front.plane >= 0 <==> front.facenums != []) && (back.plane >= 0 <==> back.facenums != [])
    && (front.plane < 0 ==> front.plane == -1) && (back.plane < 0 ==> back.plane == -1)
    && Holds(front, bs, n) && Holds(back, bs, n)
  }

  lemma SortedStarts(n: nat)
    ensures Sorted([], NoSide(n), NoSide(n), n)
  {
  }

  lemma {:induction false} FirstBehindExtends(bs: seq<Boundary>, b: Boundary, plane: int)
    ensures Behind(bs, plane) != {} ==> FirstBehind(bs + [b], plane) == FirstBehind(bs, plane)
    ensures Behind(bs, plane) == {} && b.plane == plane ==> FirstBehind(bs + [b], plane) == b.other
  {
    if bs != [] {
      assert (bs + [b])[1..] == bs[1..] + [b];
      if bs[0].plane == plane {
        assert bs[0].other in Behind(bs, plane);
      } else {
        FirstBehindExtends(bs[1..], b, plane);
        BehindRest(bs, plane);
      }
    }
  }

  lemma BehindRest(bs: seq<Boundary>, plane: int)
    requires bs != [] && bs[0].plane != plane
    ensures Behind(bs, plane) == Behind(bs[1..], plane)
  {
    assert bs == [bs[0]] + bs[1..];
  }

  lemma BehindExtends(bs: seq<Boundary>, b: Boundary, plane: int)
    ensures Behind(bs + [b], plane) == if b.plane == plane then Behind(bs, plane) + {b.other} else Behind(bs, plane)
  {
    assert forall c :: c in bs + [b] <==> c in bs || c == b;
  }

  /** A face on a side's plane joins that side. */
  lemma GatherHolds(s: Side, bs: seq<Boundary>, n: nat, b: Boundary)
    requires Holds(s, bs, n) && b.plane == s.plane && 0 <= b.place < n
    ensures Holds(Gather(s, b), bs + [b], n)
  {
    var t, cs := Gather(s, b), bs + [b];
    assert forall c :: c in cs <==> c in bs || c == b;
    BehindExtends(bs, b, s.plane);
    FirstBehindExtends(bs, b, s.plane);
    assert s.areanums != [] ==> s.areanums[0] in Behind(bs, s.plane);
    forall f
      ensures f in t.facenums <==> exists c :: c in cs && c.plane == s.plane && c.facenum == f
    {
      assert f in t.facenums <==> f in s.facenums || f == b.facenum;
      assert b in cs;
    }
    forall i | 0 <= i < n
      ensures t.counts[i] > 0 <==> HasFaceOn(cs, i, s.plane)
    {
      assert HasFaceOn(cs, i, s.plane) <==> HasFaceOn(bs, i, s.plane) || i == b.place by { FaceOnExtends(bs, b, i, s.plane); }
    }
  }

  lemma FaceOnExtends(bs: seq<Boundary>, b: Boundary, place: int, plane: int)
    ensures HasFaceOn(bs + [b], place, plane) <==> HasFaceOn(bs, place, plane) || (b.place == place && b.plane == plane)
  {
    assert forall c :: c in bs + [b] <==> c in bs || c == b;
  }

  /** A face on another plane leaves a side as it is. */
  lemma OtherPlaneHolds(s: Side, bs: seq<Boundary>, n: nat, b: Boundary)
    requires Holds(s, bs, n) && b.plane != s.plane
    ensures Holds(s, bs + [b], n)
  {
    var cs := bs + [b];
    assert forall c :: c in cs <==> c in bs || c == b;
    BehindExtends(bs, b, s.plane);
    FirstBehindExtends(bs, b, s.plane);
    assert s.areanums != [] ==> s.areanums[0] in Behind(bs, s.plane);
    forall i | 0 <= i < n
      ensures HasFaceOn(cs, i, s.plane) <==> HasFaceOn(bs, i, s.plane)
    {
      FaceOnExtends(bs, b, i, s.plane);
    }
  }

  /** An empty side holds the faces on any plane that has none. */
  lemma EmptySideHolds(s: Side, bs: seq<Boundary>, n: nat, plane: int)
    requires Holds(s, bs, n) && s.facenums == [] && forall b :: b in bs ==> b.plane != plane
    ensures Holds(s.(plane := plane), bs, n)
  {
    assert forall b :: b in bs && b.plane == s.plane ==> b.facenum in s.facenums;
    assert s.areanums != [] ==> s.areanums[0] in Behind(bs, s.plane);
    assert Behind(bs, plane) == {};
  }

  lemma SortFront(bs: seq<Boundary>, front: Side, back: Side, n: nat, b: Boundary)
    requires Sorted(bs, front, back, n) && 0 <= b.place < n && b.plane >= 0
    requires front.plane < 0 || b.plane == front.plane
    ensures Sorted(bs + [b], Gather(front, b), back, n)
  {
    if front.plane < 0 {
      EmptySideHolds(front, bs, n, b.plane);
    }
    var s := front.(plane := b.plane);
    GatherHolds(s, bs, n, b);
    assert Gather(s, b) == Gather(front, b);
    OtherPlaneHolds(back, bs, n, b);
  }

  lemma SortBack(bs: seq<Boundary>, front: Side, back: Side, n: nat, b: Boundary)
    requires Sorted(bs, front, back, n) && 0 <= b.place < n && b.plane >= 0
    requires front.plane >= 0 && b.plane != front.plane && (back.plane < 0 || b.plane == back.plane)
    ensures Sorted(bs + [b], front, Gather(back, b), n)
  {
    if back.plane < 0 {
      EmptySideHolds(back, bs, n, b.plane);
    }
    var s := back.(plane := b.plane);
    GatherHolds(s, bs, n, b);
    assert Gather(s, b) == Gather(back, b);
    OtherPlaneHolds(front, bs, n, b);
  }

  /** A side with faces holds one of the outer faces. */
  lemma HeldFace(s: Side, bs: seq<Boundary>, n: nat) returns (b: Boundary)
    requires Holds(s, bs, n) && s.facenums != []
    ensures b in bs && b.plane == s.plane
  {
    var first := s.facenums[0];
    assert first in s.facenums;
    b :| b in bs && b.plane == s.plane && b.facenum == first;
  }

  /** A third plane rules the group out. */
  lemma ThirdPlane(adj: Adjacency, et: EdgeTable, settings: seq<AreaSettings>, n: nat, bs: seq<Boundary>,
                   front: Side, back: Side, b: Boundary, all: seq<Boundary>)
    requires Sorted(bs, front, back, n) && front.plane >= 0 && back.plane >= 0
    requires b.plane != front.plane && b.plane != back.plane
    requires bs + [b] <= all
    ensures !ClosedIn(adj, et, settings, n, all)
  {
    var f := HeldFace(front, bs, n);
    var k := HeldFace(back, bs, n);
    assert f in all && k in all && b in all by {
      assert forall c :: c in bs + [b] ==> c in all;
      assert b in bs + [b];
    }
  }

  lemma FlaggedBehind(adj: Adjacency, et: EdgeTable, settings: seq<AreaSettings>, n: nat, bs: seq<Boundary>,
                      b: Boundary, all: seq<Boundary>)
    requires bs + [b] <= all && Flagged(settings, b.other)
    ensures !ClosedIn(adj, et, settings, n, all)
  {
    assert all[|bs|] == b && b in all;
  }

  // ----- gathering all outer faces

  lemma OuterOfGrows(geo: Geometry, list: seq<int>, place: int, j: int, k: int)
    requires FacesInRange(geo) && 0 <= place < |list| && 0 <= list[place] < |geo.areas|
    requires 0 <= j <= k <= geo.areas[list[place]].numfaces
    ensures OuterOf(geo, list, place, j) <= OuterOf(geo, list, place, k)
    decreases k
  {
    if j < k {
      OuterOfGrows(geo, list, place, j, k - 1);
    }
  }

  lemma OuterGrows(geo: Geometry, list: seq<int>, i: int, k: int)
    requires FacesInRange(geo) && 0 <= i <= k <= |list| && forall a :: a in list ==> 0 <= a < |geo.areas|
    ensures Outer(geo, list, i) <= Outer(geo, list, k)
    decreases k
  {
    if i < k {
      OuterGrows(geo, list, i, k - 1);
    }
  }

  /** What has been seen before face j of place i is a first part of all outer faces. */
  lemma SeenIsPrefix(geo: Geometry, list: seq<int>, i: int, j: int)
    requires FacesInRange(geo) && 0 <= i < |list| && forall a :: a in list ==> 0 <= a < |geo.areas|
    requires list[i] in list && 0 <= j <= geo.areas[list[i]].numfaces
    ensures Outer(geo, list, i) + OuterOf(geo, list, i, j) <= Outer(geo, list, |list|)
  {
    OuterOfGrows(geo, list, i, j, geo.areas[list[i]].numfaces);
    assert Outer(geo, list, i + 1) == Outer(geo, list, i) + OuterOf(geo, list, i, geo.areas[list[i]].numfaces);
    OuterGrows(geo, list, i + 1, |list|);
  }

  /** Is the face shared with another area of the group? */
  method SharedFace(list: seq<int>, place: int, f: Face) returns (shared: bool)
    ensures shared <==> Shared(list, place, f)
  {
    var k := 0;
    while k < |list|
      invariant 0 <= k <= |list|
      invariant forall m :: 0 <= m < k && m != place ==> f.frontarea != list[m] && f.backarea != list[m]
    {
      if k != place && (f.frontarea == list[k] || f.backarea == list[k]) {
        return true;
      }
      k := k + 1;
    }
    return false;
  }

  ghost predicate NoneFlagged(settings: seq<AreaSettings>, bs: seq<Boundary>) {
    forall b :: b in bs ==> !Flagged(settings, b.other)
  }

  /** The state of the gathering: the faces seen are sorted by plane and lead to no portal. */
  ghost predicate Gathering(settings: seq<AreaSettings>, bs: seq<Boundary>, front: Side, back: Side, n: nat) {
    Sorted(bs, front, back, n) && NoneFlagged(settings, bs) && Sized(front, back, |bs|)
  }

  /** How long the lists of the two sides are when this many outer faces have been seen. */
  predicate Sized(front: Side, back: Side, seen: nat) {
    && |front.facenums| + |back.facenums| == seen
    && |front.areanums| <= |front.facenums| && |back.areanums| <= |back.facenums|
  }

  lemma GatherOne(settings: seq<AreaSettings>, bs: seq<Boundary>, front: Side, back: Side, n: nat, b: Boundary)
    requires Gathering(settings, bs, front, back, n) && 0 <= b.place < n && b.plane >= 0 && !Flagged(settings, b.other)
    ensures 0 <= b.place < |front.counts| && 0 <= b.place < |back.counts|
    ensures front.plane < 0 || b.plane == front.plane ==> Gathering(settings, bs + [b], Gather(front, b), back, n)
    ensures front.plane >= 0 && b.plane != front.plane && (back.plane < 0 || b.plane == back.plane) ==>
      Gathering(settings, bs + [b], front, Gather(back, b), n)
  {
    assert forall c :: c in bs + [b] <==> c in bs || c == b;
    if front.plane < 0 || b.plane == front.plane {
      SortFront(bs, front, back, n, b);
    } else if back.plane < 0 || b.plane == back.plane {
      SortBack(bs, front, back, n, b);
    }
  }

  lemma GatheringCounts(settings: seq<AreaSettings>, bs: seq<Boundary>, front: Side, back: Side, n: nat)
    requires Gathering(settings, bs, front, back, n)
    ensures |front.counts| == n && |back.counts| == n
  {
  }

  lemma GatheringStarts(settings: seq<AreaSettings>, n: nat)
    ensures Gathering(settings, [], NoSide(n), NoSide(n), n)
  {
    SortedStarts(n);
  }

  /** Reads the i-th face of the area at a place: its boundary, if it is an outer one. */
  method LookOut(w: AasWorld, list: seq<int>, place: int, j: int) returns (outer: bool, b: Boundary)
    requires FacesInRange(GeometryOf(w)) && 0 <= place < |list| && 0 <= list[place] < w.areas.Length
    requires 0 <= j < w.areas[list[place]].numfaces
    ensures OuterOf(GeometryOf(w), list, place, j + 1) ==
      OuterOf(GeometryOf(w), list, place, j) + if outer then [b] else []
    ensures b.place == place && 0 <= b.facenum < w.faces.Length && 0 <= b.other < w.areas.Length
    ensures b.plane == w.faces[b.facenum].planenum / 2 * 2
  {
    var facenum := Abs(w.faceindex[w.areas[list[place]].firstface + j]);
    var face := w.faces[facenum];
    b := Boundary(place, facenum, if face.frontarea == list[place] then face.backarea else face.frontarea,
                  face.planenum / 2 * 2);
    if Solid(face) {
      outer := false;
    } else {
      var shared := SharedFace(list, place, face);
      outer := !shared;
    }
  }

  /** Puts one more outer face with the front or the back plane, unless it rules the group out. */
  method SortFace(w: AasWorld, b: Boundary, front: Side, back: Side, ghost bs: seq<Boundary>, ghost n: nat,
                  ghost adj: Adjacency, ghost et: EdgeTable, ghost all: seq<Boundary>)
    returns (ok: bool, newfront: Side, newback: Side)
    requires 0 <= b.other < w.areasettings.Length && 0 <= b.place < n && b.plane >= 0
    requires Gathering(w.areasettings[..], bs, front, back, n) && bs + [b] <= all
    ensures ok ==> Gathering(w.areasettings[..], bs + [b], newfront, newback, n)
    ensures !ok ==> newfront == front && newback == back && !ClosedIn(adj, et, w.areasettings[..], n, all)
  {
    hide Gathering, ClosedIn, Gather;
    ghost var settings := w.areasettings[..];
    newfront, newback := front, back;
    if HasFlag(w.areasettings[b.other].contents, AREACONTENTS_CLUSTERPORTAL) {
      assert !ClosedIn(adj, et, settings, n, all) by { FlaggedBehind(adj, et, settings, n, bs, b, all); }
      return false, front, back;
    }
    assert |front.counts| == n && |back.counts| == n by { GatheringCounts(settings, bs, front, back, n); }
    if front.plane < 0 || b.plane == front.plane {
      newfront := Gather(front, b);
      assert Gathering(settings, bs + [b], newfront, back, n) by { GatherOne(settings, bs, front, back, n, b); }
    } else if back.plane < 0 || b.plane == back.plane {
      newback := Gather(back, b);
      assert Gathering(settings, bs + [b], front, newback, n) by { GatherOne(settings, bs, front, back, n, b); }
    } else {
      assert !ClosedIn(adj, et, settings, n, all) by { GatheredThird(adj, et, settings, n, bs, front, back, b, all); }
      return false, front, back;
    }
    return true, newfront, newback;
  }

  lemma GatheringSize(settings: seq<AreaSettings>, bs: seq<Boundary>, front: Side, back: Side, n: nat)
    requires Gathering(settings, bs, front, back, n)
    ensures Sized(front, back, |bs|)
  {
  }

  /** The lists of the two sides are no longer than this. */
  ghost predicate SizedWithin(front: Side, back: Side, most: nat) {
    exists seen :: 0 <= seen <= most && Sized(front, back, seen)
  }

  lemma GatheringWithin(settings: seq<AreaSettings>, bs: seq<Boundary>, front: Side, back: Side, n: nat, all: seq<Boundary>)
    requires Gathering(settings, bs, front, back, n) && |bs| <= |all|
    ensures SizedWithin(front, back, |all|)
  {
    GatheringSize(settings, bs, front, back, n);
  }

  /** The outer faces seen before the j-th face of the area at place i. */
  ghost function SeenBefore(geo: Geometry, list: seq<int>, i: int, j: int): seq<Boundary>
    requires FacesInRange(geo) && 0 <= i < |list| && forall a :: a in list ==> 0 <= a < |geo.areas|
    requires 0 <= list[i] < |geo.areas| && 0 <= j <= geo.areas[list[i]].numfaces
  {
    Outer(geo, list, i) + OuterOf(geo, list, i, j)
  }

  lemma SeenStarts(geo: Geometry, list: seq<int>, i: int)
    requires FacesInRange(geo) && 0 <= i < |list| && forall a :: a in list ==> 0 <= a < |geo.areas|
    ensures list[i] in list && 0 <= list[i] < |geo.areas| && 0 <= geo.areas[list[i]].numfaces
    ensures SeenBefore(geo, list, i, 0) == Outer(geo, list, i)
    ensures SeenBefore(geo, list, i, geo.areas[list[i]].numfaces) == Outer(geo, list, i + 1)
  {
    assert list[i] in list;
    FaceCount(geo, list[i]);
    NoOuterYet(geo, list, i);
    NextOuter(geo, list, i);
  }

  lemma SeenGoesOn(geo: Geometry, list: seq<int>, i: int, j: int)
    requires FacesInRange(geo) && 0 <= i < |list| && forall a :: a in list ==> 0 <= a < |geo.areas|
    requires list[i] in list && 0 <= j <= geo.areas[list[i]].numfaces
    ensures SeenBefore(geo, list, i, j) <= Outer(geo, list, |list|)
  {
    SeenIsPrefix(geo, list, i, j);
  }

  /** Sorts the j-th face of the area at place i, if it is an outer one. */
  method SortNextFace(w: AasWorld, list: seq<int>, i: int, j: int, front: Side, back: Side,
                      ghost adj: Adjacency, ghost et: EdgeTable)
    returns (ok: bool, newfront: Side, newback: Side)
    requires FacesInRange(GeometryOf(w)) && w.areasettings.Length == w.areas.Length && 0 <= i < |list|
    requires forall a :: a in list ==> 0 <= a < w.areas.Length
    requires list[i] in list && 0 <= j < w.areas[list[i]].numfaces
    requires forall f :: 0 <= f < w.faces.Length ==> w.faces[f].planenum >= 0
    requires Gathering(w.areasettings[..], SeenBefore(GeometryOf(w), list, i, j), front, back, |list|)
    ensures ok ==> Gathering(w.areasettings[..], SeenBefore(GeometryOf(w), list, i, j + 1), newfront, newback, |list|)
    ensures !ok ==> !ClosedIn(adj, et, w.areasettings[..], |list|, Outer(GeometryOf(w), list, |list|))
    ensures !ok ==> newfront == front && newback == back
  {
    hide FacesInRange, Gathering, ClosedIn, OuterOf, Outer, Gather;
    ghost var geo, settings, n := GeometryOf(w), w.areasettings[..], |list|;
    ghost var bs := SeenBefore(geo, list, i, j);
    var outer, b := LookOut(w, list, i, j);
    assert SeenBefore(geo, list, i, j + 1) == if outer then bs + [b] else bs;
    if !outer { return true, front, back; }
    SeenGoesOn(geo, list, i, j + 1);
    ok, newfront, newback := SortFace(w, b, front, back, bs, n, adj, et, Outer(geo, list, n));
  }

  /** Sorts the outer faces of the area at place i. */
  method SortAreaFaces(w: AasWorld, list: seq<int>, i: int, front: Side, back: Side,
                       ghost adj: Adjacency, ghost et: EdgeTable)
    returns (ok: bool, newfront: Side, newback: Side)
    requires FacesInRange(GeometryOf(w)) && w.areasettings.Length == w.areas.Length && 0 <= i < |list|
    requires forall a :: a in list ==> 0 <= a < w.areas.Length
    requires forall f :: 0 <= f < w.faces.Length ==> w.faces[f].planenum >= 0
    requires Gathering(w.areasettings[..], Outer(GeometryOf(w), list, i), front, back, |list|)
    ensures ok ==> Gathering(w.areasettings[..], Outer(GeometryOf(w), list, i + 1), newfront, newback, |list|)
    ensures !ok ==> !ClosedIn(adj, et, w.areasettings[..], |list|, Outer(GeometryOf(w), list, |list|))
    ensures SizedWithin(newfront, newback, |Outer(GeometryOf(w), list, |list|)|)
  {
    hide FacesInRange, Gathering, ClosedIn, SeenBefore, Outer, Gather, SizedWithin;
    ghost var geo, settings, n := GeometryOf(w), w.areasettings[..], |list|;
    newfront, newback := front, back;
    SeenStarts(geo, list, i);
    var a := list[i];
    var j := 0;
    while j < w.areas[a].numfaces
      invariant 0 <= j <= w.areas[a].numfaces
      invariant Gathering(settings, SeenBefore(geo, list, i, j), newfront, newback, n)
    {
      ok, newfront, newback := SortNextFace(w, list, i, j, newfront, newback, adj, et);
      if !ok {
        SeenGoesOn(geo, list, i, j);
        GatheringWithin(settings, SeenBefore(geo, list, i, j), newfront, newback, n, Outer(geo, list, n));
        return;
      }
      j := j + 1;
    }
    ok := true;
    SeenGoesOn(geo, list, i, j);
    GatheringWithin(settings, SeenBefore(geo, list, i, j), newfront, newback, n, Outer(geo, list, n));
  }

  lemma NextOuter(geo: Geometry, list: seq<int>, i: int)
    requires FacesInRange(geo) && 0 <= i < |list| && forall a :: a in list ==> 0 <= a < |geo.areas|
    ensures list[i] in list && geo.areas[list[i]].numfaces >= 0
    ensures Outer(geo, list, i + 1) == Outer(geo, list, i) + OuterOf(geo, list, i, geo.areas[list[i]].numfaces)
  {
    assert list[i] in list;
    FaceCount(geo, list[i]);
  }

  /** Sorts the outer faces of the group onto a front and a back plane, unless one leads to a portal or
      lies on a third plane. The lists of faces and areas stay no longer than the outer faces are many. */
  method SortFaces(w: AasWorld, list: seq<int>, ghost adj: Adjacency, ghost et: EdgeTable)
    returns (ok: bool, front: Side, back: Side)
    requires FacesInRange(GeometryOf(w)) && w.areasettings.Length == w.areas.Length
    requires forall a :: a in list ==> 0 <= a < w.areas.Length
    requires forall f :: 0 <= f < w.faces.Length ==> w.faces[f].planenum >= 0
    ensures ok ==> Gathering(w.areasettings[..], Outer(GeometryOf(w), list, |list|), front, back, |list|)
    ensures !ok ==> !ClosedIn(adj, et, w.areasettings[..], |list|, Outer(GeometryOf(w), list, |list|))
    ensures SizedWithin(front, back, |Outer(GeometryOf(w), list, |list|)|)
  {
    hide FacesInRange, Gathering, ClosedIn, SizedWithin;
    ghost var geo, settings, n := GeometryOf(w), w.areasettings[..], |list|;
    front, back := NoSide(|list|), NoSide(|list|);
    assert Gathering(settings, Outer(geo, list, 0), front, back, n) by { GatheringStarts(settings, n); }
    var i := 0;
    while i < |list|
      invariant 0 <= i <= |list|
      invariant Gathering(settings, Outer(geo, list, i), front, back, n)
    {
      ok, front, back := SortAreaFaces(w, list, i, front, back, adj, et);
      if !ok { return; }
      i := i + 1;
    }
    GatheringWithin(settings, Outer(geo, list, n), front, back, n, Outer(geo, list, n));
    ok := true;
  }

  lemma NoOuterYet(geo: Geometry, list: seq<int>, i: int)
    requires FacesInRange(geo) && 0 <= i < |list| && 0 <= list[i] < |geo.areas|
    ensures geo.areas[list[i]].numfaces >= 0 && OuterOf(geo, list, i, 0) == []
  {
  }

  lemma GatheredThird(adj: Adjacency, et: EdgeTable, settings: seq<AreaSettings>, n: nat, bs: seq<Boundary>,
                      front: Side, back: Side, b: Boundary, all: seq<Boundary>)
    requires Gathering(settings, bs, front, back, n) && front.plane >= 0 && back.plane >= 0
    requires b.plane != front.plane && b.plane != back.plane && bs + [b] <= all
    ensures !ClosedIn(adj, et, settings, n, all)
  {
    ThirdPlane(adj, et, settings, n, bs, front, back, b, all);
  }

  // ----- deciding

  /** Whatever planes close the group in, they are the two the faces were sorted by. */
  lemma PlanesAgree(adj: Adjacency, et: EdgeTable, settings: seq<AreaSettings>, n: nat, bs: seq<Boundary>,
                    front: Side, back: Side, f: int, b: int)
    requires Sorted(bs, front, back, n) && n > 0 && ClosedInBy(adj, et, settings, n, bs, f, b)
    ensures front.plane >= 0 && back.plane >= 0
    ensures (f == front.plane && b == back.plane) || (f == back.plane && b == front.plane)
  {
    assert HasFaceOn(bs, 0, f) && HasFaceOn(bs, 0, b);
    var x :| x in bs && x.place == 0 && x.plane == f;
    var y :| y in bs && y.place == 0 && y.plane == b;
  }

  lemma SideConnected(adj: Adjacency, s: Side, bs: seq<Boundary>, n: nat)
    requires Holds(s, bs, n) && s.facenums != []
    ensures AllConnected(adj, s.areanums) <==> JoinedBehind(adj, bs, s.plane)
  {
    assert s.facenums[0] in s.facenums;
    var b :| b in bs && b.plane == s.plane && b.facenum == s.facenums[0];
    assert b.other in Behind(bs, s.plane);
    assert Elements(s.areanums) == Behind(bs, s.plane);
  }

  ghost predicate EveryPlaceOn(front: Side, back: Side, n: nat) {
    |front.counts| == n && |back.counts| == n && forall i :: 0 <= i < n ==> front.counts[i] > 0 && back.counts[i] > 0
  }

  ghost predicate SidesApart(et: EdgeTable, front: Side, back: Side) {
    forall f, g :: f in front.facenums && g in back.facenums ==> FacesApart(et, f, g)
  }

  /** The group is closed in exactly when the two sides pass the three remaining tests. */
  lemma SidesDecide(adj: Adjacency, et: EdgeTable, settings: seq<AreaSettings>, n: nat, bs: seq<Boundary>,
                    front: Side, back: Side)
    requires Gathering(settings, bs, front, back, n) && n > 0
    ensures ClosedIn(adj, et, settings, n, bs) <==>
      && EveryPlaceOn(front, back, n)
      && AllConnected(adj, front.areanums) && AllConnected(adj, back.areanums)
      && SidesApart(et, front, back)
  {
    if ClosedIn(adj, et, settings, n, bs) {
      var f, b :| ClosedInBy(adj, et, settings, n, bs, f, b);
      PlanesAgree(adj, et, settings, n, bs, front, back, f, b);
      SideConnected(adj, front, bs, n);
      SideConnected(adj, back, bs, n);
      assert EveryPlaceOn(front, back, n);
      assert SidesApart(et, front, back) by { ClosedInApart(adj, et, settings, n, bs, front, back, f, b); }
    }
    if EveryPlaceOn(front, back, n) && AllConnected(adj, front.areanums) && AllConnected(adj, back.areanums)
       && SidesApart(et, front, back) {
      TestsCloseIn(adj, et, settings, n, bs, front, back);
    }
  }

  lemma ClosedInApart(adj: Adjacency, et: EdgeTable, settings: seq<AreaSettings>, n: nat, bs: seq<Boundary>,
                      front: Side, back: Side, f: int, b: int)
    requires Sorted(bs, front, back, n) && ClosedInBy(adj, et, settings, n, bs, f, b)
    requires (f == front.plane && b == back.plane) || (f == back.plane && b == front.plane)
    ensures SidesApart(et, front, back)
  {
    forall x, y | x in front.facenums && y in back.facenums
      ensures FacesApart(et, x, y)
    {
      var p :| p in bs && p.plane == front.plane && p.facenum == x;
      var q :| q in bs && q.plane == back.plane && q.facenum == y;
      assert FacesApart(et, x, y) || FacesApart(et, y, x);
    }
  }

  lemma TestsCloseIn(adj: Adjacency, et: EdgeTable, settings: seq<AreaSettings>, n: nat, bs: seq<Boundary>,
                     front: Side, back: Side)
    requires Gathering(settings, bs, front, back, n) && n > 0
    requires EveryPlaceOn(front, back, n) && SidesApart(et, front, back)
    requires AllConnected(adj, front.areanums) && AllConnected(adj, back.areanums)
    ensures ClosedIn(adj, et, settings, n, bs)
  {
    assert HasFaceOn(bs, 0, front.plane) && HasFaceOn(bs, 0, back.plane);
    var x :| x in bs && x.place == 0 && x.plane == front.plane;
    var y :| y in bs && y.place == 0 && y.plane == back.plane;
    SideConnected(adj, front, bs, n);
    SideConnected(adj, back, bs, n);
    assert ClosedInBy(adj, et, settings, n, bs, front.plane, back.plane);
  }

  function EdgeTableOf(w: AasWorld): EdgeTable
    reads w`faces, w`edgeindex, w.faces, w.edgeindex
  {
    EdgeTable(w.faces[..], w.edgeindex[..])
  }

  /** Do two faces share an edge? */
  method ShareEdge(w: AasWorld, f: int, g: int) returns (shared: bool)
    requires EdgesInRange(EdgeTableOf(w)) && 0 <= f < w.faces.Length && 0 <= g < w.faces.Length
    ensures shared <==> !FacesApart(EdgeTableOf(w), f, g)
  {
    ghost var et := EdgeTableOf(w);
    assert et.faces[f].numedges >= 0 && et.faces[g].numedges >= 0;
    var fen := 0;
    while fen < w.faces[f].numedges
      invariant 0 <= fen <= w.faces[f].numedges
      invariant forall e :: 0 <= e < fen ==> EdgeNum(et, f, e) !in EdgesOf(et, g)
    {
      var edgenum := Abs(w.edgeindex[w.faces[f].firstedge + fen]);
      assert edgenum == EdgeNum(et, f, fen);
      var ben := 0;
      while ben < w.faces[g].numedges
        invariant 0 <= ben <= w.faces[g].numedges
        invariant forall e :: 0 <= e < ben ==> EdgeNum(et, g, e) != edgenum
      {
        assert Abs(w.edgeindex[w.faces[g].firstedge + ben]) == EdgeNum(et, g, ben);
        if edgenum == Abs(w.edgeindex[w.faces[g].firstedge + ben]) {
          assert edgenum in EdgesOf(et, f) && edgenum in EdgesOf(et, g);
          return true;
        }
        ben := ben + 1;
      }
      fen := fen + 1;
    }
    return false;
  }

  /** Does a face of one side share an edge with a face of the other? */
  method SidesShareEdge(w: AasWorld, front: Side, back: Side) returns (shared: bool)
    requires EdgesInRange(EdgeTableOf(w))
    requires forall f :: f in front.facenums || f in back.facenums ==> 0 <= f < w.faces.Length
    ensures shared <==> !SidesApart(EdgeTableOf(w), front, back)
  {
    hide EdgesInRange, FacesApart;
    ghost var et := EdgeTableOf(w);
    var i := 0;
    while i < |front.facenums|
      invariant 0 <= i <= |front.facenums|
      invariant forall k, g :: 0 <= k < i && g in back.facenums ==> FacesApart(et, front.facenums[k], g)
    {
      var j := 0;
      while j < |back.facenums|
        invariant 0 <= j <= |back.facenums|
        invariant forall k :: 0 <= k < j ==> FacesApart(et, front.facenums[i], back.facenums[k])
      {
        assert front.facenums[i] in front.facenums && back.facenums[j] in back.facenums;
        var one := ShareEdge(w, front.facenums[i], back.facenums[j]);
        if one {
          assert front.facenums[i] in front.facenums && back.facenums[j] in back.facenums;
          return true;
        }
        j := j + 1;
      }
      i := i + 1;
    }
    return false;
  }

  // ----- the check of one area

  ghost predicate GeometryFits(w: AasWorld)
    reads w, w.areas, w.faces, w.faceindex, w.edgeindex
  {
    && FacesInRange(GeometryOf(w)) && EdgesInRange(EdgeTableOf(w))
    && w.areasettings.Length == w.areas.Length
    && forall f :: 0 <= f < w.faces.Length ==> w.faces[f].planenum >= 0
  }

  function Marked(s: AreaSettings): AreaSettings {
    s.(contents := WithFlag(WithFlag(s.contents, AREACONTENTS_CLUSTERPORTAL), AREACONTENTS_ROUTEPORTAL))
  }

  /** The settings once the listed areas are portals. */
  ghost predicate PortalsMade(s: seq<AreaSettings>, t: seq<AreaSettings>, list: seq<int>) {
    |t| == |s| && forall a :: 0 <= a < |s| ==> t[a] == if a in list then Marked(s[a]) else s[a]
  }

  /** A grounded area that is no portal yet. */
  predicate Eligible(s: AreaSettings) {
    !HasFlag(s.contents, AREACONTENTS_CLUSTERPORTAL) && HasFlag(s.areaflags, AREA_GROUNDED)
  }

  /** The geometry that the check looks at. */
  datatype Scene = Scene(geo: Geometry, et: EdgeTable)

  function SceneOf(w: AasWorld): Scene
    reads w`areas, w`faces, w`faceindex, w`edgeindex, w.areas, w.faces, w.faceindex, w.edgeindex
  {
    Scene(GeometryOf(w), EdgeTableOf(w))
  }

  /** The listed areas are closed in between two planes. */
  ghost predicate Portalworthy(sc: Scene, settings: seq<AreaSettings>, list: seq<int>)
  {
    && FacesInRange(sc.geo) && (forall a :: a in list ==> 0 <= a < |sc.geo.areas|)
    && ClosedIn(OpeningTable(sc.geo), sc.et, settings, |list|, Outer(sc.geo, list, |list|))
  }

  /** The list that the search around an area finds. */
  ghost predicate Surrounds(sc: Scene, settings: seq<AreaSettings>, areanum: int, list: seq<int>)
  {
    && FacesInRange(sc.geo) && 0 <= areanum < |sc.geo.areas| == |settings|
    && LesserList(sc.geo, PresenceOf(settings), areanum, list)
  }

  lemma SearchMayStart(geo: Geometry, presence: seq<Flags>, a: int)
    requires FacesInRange(geo) && 0 <= a < |geo.areas| == |presence|
    ensures Searchable(geo, presence, [], a, {})
  {
    assert Unlisted([], |presence|) == Below(|presence|);
  }

  /** Lists the area and the areas of lesser presence around it. */
  method FindSurroundings(w: AasWorld, areanum: int) returns (list: seq<int>)
    requires FacesInRange(GeometryOf(w)) && 0 <= areanum < w.areas.Length == w.areasettings.Length
    ensures Surrounds(SceneOf(w), w.areasettings[..], areanum, list)
  {
    hide Searchable, Searched, LesserList, FacesInRange;
    ghost var geo, presence := GeometryOf(w), PresenceOf(w.areasettings[..]);
    var areanums := new int[MAX_PORTALAREAS](_ => 0);
    assert areanums[..0] == [];
    assert Searchable(geo, presence, areanums[..0], areanum, {}) by { SearchMayStart(geo, presence, areanum); }
    var numareas := GetAdjacentAreasWithLessPresenceTypes(w, areanums, 0, areanum, {});
    list := areanums[..numareas];
    assert LesserList(geo, presence, areanum, list) by { SearchListsLesser(geo, presence, areanum, list); }
  }

  lemma SurroundsFits(sc: Scene, settings: seq<AreaSettings>, areanum: int, list: seq<int>)
    requires Surrounds(sc, settings, areanum, list)
    ensures |list| > 0 && Distinct(list) && forall a :: a in list ==> 0 <= a < |sc.geo.areas|
  {
  }

  lemma SidesFit(geo: Geometry, settings: seq<AreaSettings>, list: seq<int>, front: Side, back: Side)
    requires FacesInRange(geo) && forall a :: a in list ==> 0 <= a < |geo.areas|
    requires Gathering(settings, Outer(geo, list, |list|), front, back, |list|)
    ensures |front.counts| == |back.counts| == |list|
    ensures Distinct(front.areanums) && Distinct(back.areanums)
    ensures forall a :: a in front.areanums || a in back.areanums ==> 0 <= a < |geo.areas|
    ensures forall f :: f in front.facenums || f in back.facenums ==> 0 <= f < |geo.faces|
  {
    OuterFits(geo, list, |list|);
  }

  lemma OuterOfFits(geo: Geometry, list: seq<int>, place: int, j: int)
    requires FacesInRange(geo) && 0 <= place < |list| && 0 <= list[place] < |geo.areas|
    requires 0 <= j <= geo.areas[list[place]].numfaces
    ensures forall b :: b in OuterOf(geo, list, place, j) ==> 0 <= b.other < |geo.areas| && 0 <= b.facenum < |geo.faces|
    decreases j
  {
    if j > 0 {
      OuterOfFits(geo, list, place, j - 1);
    }
  }

  lemma OuterFits(geo: Geometry, list: seq<int>, i: int)
    requires FacesInRange(geo) && 0 <= i <= |list| && forall a :: a in list ==> 0 <= a < |geo.areas|
    ensures forall b :: b in Outer(geo, list, i) ==> 0 <= b.other < |geo.areas| && 0 <= b.facenum < |geo.faces|
    decreases i
  {
    if i > 0 {
      assert list[i - 1] in list;
      OuterFits(geo, list, i - 1);
      OuterOfFits(geo, list, i - 1, geo.areas[list[i - 1]].numfaces);
    }
  }

  /** Does the group pass all tests? */
  method TestSurroundings(w: AasWorld, list: seq<int>) returns (ok: bool)
    requires GeometryFits(w) && |list| > 0 && Distinct(list) && forall a :: a in list ==> 0 <= a < w.areas.Length
    ensures ok <==> Portalworthy(SceneOf(w), w.areasettings[..], list)
  {
    hide Gathering, ClosedIn, FacesInRange, EdgesInRange, OpeningTable, Outer, AllConnected, SidesApart;
    ghost var geo, settings := GeometryOf(w), w.areasettings[..];
    ghost var adj, et, n := OpeningTable(geo), EdgeTableOf(w), |list|;
    var front, back;
    ok, front, back := SortFaces(w, list, adj, et);
    if !ok { return false; }
    assert |front.counts| == |back.counts| == n && Distinct(front.areanums) && Distinct(back.areanums)
      && (forall a :: a in front.areanums || a in back.areanums ==> 0 <= a < |geo.areas|)
      && (forall f :: f in front.facenums || f in back.facenums ==> 0 <= f < |geo.faces|) by {
      SidesFit(geo, settings, list, front, back);
    }
    assert ClosedIn(adj, et, settings, n, Outer(geo, list, n)) <==>
      EveryPlaceOn(front, back, n) && AllConnected(adj, front.areanums) && AllConnected(adj, back.areanums)
      && SidesApart(et, front, back) by {
      SidesDecide(adj, et, settings, n, Outer(geo, list, n), front, back);
    }
    var i := 0;
    while i < |list|
      invariant 0 <= i <= |list|
      invariant forall k :: 0 <= k < i ==> front.counts[k] > 0 && back.counts[k] > 0
    {
      if front.counts[i] == 0 || back.counts[i] == 0 { return false; }
      i := i + 1;
    }
    var connected := ConnectedAreas(w, front.areanums);
    if !connected { return false; }
    connected := ConnectedAreas(w, back.areanums);
    if !connected { return false; }
    var shared := SidesShareEdge(w, front, back);
    return !shared;
  }

  /** Checks one area; when it passes, makes it and the areas listed with it portals. */
  method CheckAreaForPossiblePortals(w: AasWorld, areanum: int) returns (num: int, ghost list: seq<int>)
    requires GeometryFits(w) && 0 <= areanum < w.areas.Length
    modifies w.areasettings
    ensures !old(Eligible(w.areasettings[areanum])) ==> list == []
    ensures old(Eligible(w.areasettings[areanum])) ==> Surrounds(SceneOf(w), old(w.areasettings[..]), areanum, list)
    ensures num == if list != [] && Portalworthy(SceneOf(w), old(w.areasettings[..]), list) then |list| else 0
    ensures PortalsMade(old(w.areasettings[..]), w.areasettings[..], if num > 0 then list else [])
  {
    hide Portalworthy, Surrounds, FacesInRange, EdgesInRange;
    list := [];
    if HasFlag(w.areasettings[areanum].contents, AREACONTENTS_CLUSTERPORTAL) { return 0, []; }
    if !HasFlag(w.areasettings[areanum].areaflags, AREA_GROUNDED) { return 0, []; }
    ghost var settings := w.areasettings[..];
    var areanums := FindSurroundings(w, areanum);
    list := areanums;
    assert |list| > 0 && Distinct(list) && (forall a :: a in list ==> 0 <= a < w.areas.Length) by {
      SurroundsFits(SceneOf(w), settings, areanum, list);
    }
    var ok := TestSurroundings(w, areanums);
    if !ok { return 0, list; }
    MakePortals(w, areanums);
    return |areanums|, list;
  }

  method MakePortals(w: AasWorld, list: seq<int>)
    requires Distinct(list) && forall a :: a in list ==> 0 <= a < w.areasettings.Length
    modifies w.areasettings
    ensures PortalsMade(old(w.areasettings[..]), w.areasettings[..], list)
  {
    ghost var s := w.areasettings[..];
    var i := 0;
    while i < |list|
      invariant 0 <= i <= |list|
      invariant PortalsMade(s, w.areasettings[..], list[..i])
    {
      var a := list[i];
      assert a in list && a !in list[..i];
      assert w.areasettings[..][a] == s[a];
      w.areasettings[a] := w.areasettings[a].(contents := WithFlag(w.areasettings[a].contents, AREACONTENTS_CLUSTERPORTAL));
      w.areasettings[a] := w.areasettings[a].(contents := WithFlag(w.areasettings[a].contents, AREACONTENTS_ROUTEPORTAL));
      assert list[..i + 1] == list[..i] + [a];
      i := i + 1;
    }
    assert list[..i] == list;
  }

  /** Settings in which some areas have become portals and nothing else has changed. */
  ghost predicate SomeMarked(s: seq<AreaSettings>, t: seq<AreaSettings>) {
    |t| == |s| && forall a :: 0 <= a < |s| ==> t[a] == s[a] || t[a] == Marked(s[a])
  }

  lemma MarkedTwice(s: AreaSettings)
    ensures Marked(Marked(s)) == Marked(s)
  {
  }

  /** Area a is on a list that was found around area i, and that passed the tests, at some time between. */
  ghost predicate PassedAt(sc: Scene, s: seq<AreaSettings>, m: seq<AreaSettings>, i: int, list: seq<int>, a: int)
  {
    SomeMarked(s, m) && a in list && Surrounds(sc, m, i, list) && Portalworthy(sc, m, list)
  }

  ghost predicate Passed(sc: Scene, s: seq<AreaSettings>, a: int)
  {
    exists m, i, list :: PassedAt(sc, s, m, i, list, a)
  }

  /** Every area that has been changed is on such a list. */
  ghost predicate AllPassed(sc: Scene, s: seq<AreaSettings>, t: seq<AreaSettings>)
  {
    |t| == |s| && forall a :: 0 <= a < |s| && t[a] != s[a] ==> Passed(sc, s, a)
  }

  lemma MarkingGoesOn(s: seq<AreaSettings>, t: seq<AreaSettings>, u: seq<AreaSettings>, list: seq<int>)
    requires SomeMarked(s, t) && PortalsMade(t, u, list)
    ensures SomeMarked(s, u)
  {
    forall a | 0 <= a < |s|
      ensures u[a] == s[a] || u[a] == Marked(s[a])
    {
      MarkedTwice(s[a]);
      assert t[a] == s[a] || t[a] == Marked(s[a]);
    }
  }

  lemma PassingGoesOn(sc: Scene, s: seq<AreaSettings>, t: seq<AreaSettings>, u: seq<AreaSettings>, i: int, list: seq<int>)
    requires SomeMarked(s, t) && AllPassed(sc, s, t) && PortalsMade(t, u, list)
    requires list != [] ==> Surrounds(sc, t, i, list) && Portalworthy(sc, t, list)
    ensures AllPassed(sc, s, u)
  {
    hide Surrounds, Portalworthy, SomeMarked;
    forall a | 0 <= a < |s| && u[a] != s[a]
      ensures Passed(sc, s, a)
    {
      if a in list {
        assert PassedAt(sc, s, t, i, list, a);
      }
    }
  }

  lemma NoneMarkedYet(sc: Scene, s: seq<AreaSettings>)
    ensures SomeMarked(s, s) && AllPassed(sc, s, s)
  {
  }

  // ----- the turns of the areas

  /** The turn of one area: the settings before it, and the list found around it. */
  datatype Turn = Turn(before: seq<AreaSettings>, list: seq<int>)

  /** The areas that become portals in a turn: the list that was found, if there is one and it passes. */
  ghost function Made(sc: Scene, turn: Turn): seq<int>
  {
    if turn.list != [] && Portalworthy(sc, turn.before, turn.list) then turn.list else []
  }

  /** The turn of area a, and the settings after it. */
  ghost predicate TurnOf(sc: Scene, turn: Turn, a: nat, after: seq<AreaSettings>)
  {
    && a < |turn.before|
    && (if Eligible(turn.before[a]) then Surrounds(sc, turn.before, a, turn.list) else turn.list == [])
    && PortalsMade(turn.before, after, Made(sc, turn))
  }

  /** The turns of the areas 1, 2, .. lead from settings s to settings t. */
  ghost predicate Turns(sc: Scene, s: seq<AreaSettings>, turns: seq<Turn>, t: seq<AreaSettings>)
  {
    if turns == [] then t == s
    else
      var last := turns[|turns| - 1];
      Turns(sc, s, turns[..|turns| - 1], last.before) && TurnOf(sc, last, |turns|, t)
  }

  /** How many areas became portals in these turns; an area on the lists of two turns counts twice. */
  ghost function CountMade(sc: Scene, turns: seq<Turn>): nat
  {
    if turns == [] then 0 else CountMade(sc, turns[..|turns| - 1]) + |Made(sc, turns[|turns| - 1])|
  }

  lemma NextTurn(sc: Scene, s: seq<AreaSettings>, turns: seq<Turn>, turn: Turn, t: seq<AreaSettings>)
    requires Turns(sc, s, turns, turn.before) && TurnOf(sc, turn, |turns| + 1, t)
    ensures Turns(sc, s, turns + [turn], t)
    ensures CountMade(sc, turns + [turn]) == CountMade(sc, turns) + |Made(sc, turn)|
  {
    hide TurnOf, Made;
    assert (turns + [turn])[..|turns|] == turns;
  }

  lemma MarkedFlag(word: Flags, a: int, list: seq<int>, after: Flags)
    requires after
      == if a in list then WithFlag(WithFlag(word, AREACONTENTS_CLUSTERPORTAL), AREACONTENTS_ROUTEPORTAL) else word
    ensures HasFlag(after, AREACONTENTS_CLUSTERPORTAL) <==> HasFlag(word, AREACONTENTS_CLUSTERPORTAL) || a in list
  {
  }

  /** After the turns an area is a portal if and only if it was one or became one in one of them: so
      every group that passes in its turn is flagged as a whole, and stays so. */
  lemma {:induction false} FlaggedByTurns(sc: Scene, s: seq<AreaSettings>, turns: seq<Turn>, t: seq<AreaSettings>,
                                          a: nat)
    requires Turns(sc, s, turns, t) && a < |s|
    ensures |t| == |s|
    ensures Flagged(t, a) <==> Flagged(s, a) || exists k :: 0 <= k < |turns| && a in Made(sc, turns[k])
  {
    hide Made, HasFlag, WithFlag, Surrounds, Eligible;
    if turns != [] {
      var rest, last := turns[..|turns| - 1], turns[|turns| - 1];
      FlaggedByTurns(sc, s, rest, last.before, a);
      MarkedFlag(last.before[a].contents, a, Made(sc, last), t[a].contents);
      assert forall k :: 0 <= k < |rest| ==> turns[k] == rest[k];
    }
  }

  /** Checks every area in turn. An area becomes a portal only with a list that passed the tests, and
      with every such list. */
  method FindPossiblePortals(w: AasWorld) returns (numpossibleportals: int, ghost turns: seq<Turn>)
    requires GeometryFits(w)
    modifies w.areasettings
    ensures |turns| == (if w.areas.Length == 0 then 0 else w.areas.Length - 1)
    ensures Turns(SceneOf(w), old(w.areasettings[..]), turns, w.areasettings[..])
    ensures numpossibleportals == CountMade(SceneOf(w), turns)
    ensures SomeMarked(old(w.areasettings[..]), w.areasettings[..])
    ensures AllPassed(SceneOf(w), old(w.areasettings[..]), w.areasettings[..])
  {
    hide SomeMarked, AllPassed, PortalsMade, Surrounds, Portalworthy, FacesInRange, EdgesInRange, Turns, CountMade;
    ghost var s, sc := w.areasettings[..], SceneOf(w);
    NoneMarkedYet(sc, s);
    numpossibleportals, turns := 0, [];
    assert Turns(sc, s, turns, s) && CountMade(sc, turns) == 0 by { NoTurnYet(sc, s); }
    var i := 1;
    while i < w.areas.Length
      invariant 1 <= i && |turns| == i - 1 && (if w.areas.Length == 0 then i == 1 else i <= w.areas.Length)
      invariant SceneOf(w) == sc
      invariant Turns(sc, s, turns, w.areasettings[..]) && numpossibleportals == CountMade(sc, turns)
      invariant SomeMarked(s, w.areasettings[..]) && AllPassed(sc, s, w.areasettings[..])
    {
      ghost var t := w.areasettings[..];
      ghost var list;
      var num;
      num, list := CheckAreaForPossiblePortals(w, i);
      ghost var turn := Turn(t, list);
      assert TurnOf(sc, turn, i, w.areasettings[..]) && num == |Made(sc, turn)|;
      MarkingGoesOn(s, t, w.areasettings[..], Made(sc, turn));
      PassingGoesOn(sc, s, t, w.areasettings[..], i, Made(sc, turn));
      assert Turns(sc, s, turns + [turn], w.areasettings[..])
        && CountMade(sc, turns + [turn]) == CountMade(sc, turns) + |Made(sc, turn)| by {
        NextTurn(sc, s, turns, turn, w.areasettings[..]);
      }
      turns := turns + [turn];
      numpossibleportals := numpossibleportals + num;
      i := i + 1;
    }
  }

  lemma NoTurnYet(sc: Scene, s: seq<AreaSettings>)
    ensures Turns(sc, s, [], s) && CountMade(sc, []) == 0
  {
  }
}
