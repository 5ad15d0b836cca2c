/** What faces say about adjacency: in a world in which every face is listed by the areas on its two
    sides, two areas are neighbours if and only if they are the two sides of a face. */
module FaceMeaning {
  import opened AasDef
  import opened FaceGraph
  import opened PortalCandidates
  import opened PortalCheck
  import opened AltRoute

  /** Face num is on the face list of area a. */
  ghost predicate Lists(geo: Geometry, a: int, num: int) {
    && 0 <= a < |geo.areas|
    && exists i :: 0 <= i < geo.areas[a].numfaces && Entry(geo, a, i) == num
  }

  /** The i-th face of area a, without the sign for its side. */
  function Entry(geo: Geometry, a: int, i: int): int
    requires 0 <= a < |geo.areas|
  {
    var k := geo.areas[a].firstface + i;
    if 0 <= k < |geo.faceindex| then (if geo.faceindex[k] < 0 then -geo.faceindex[k] else geo.faceindex[k]) else -1
  }

  /** The areas on the two sides of a face. */
  ghost predicate Between(geo: Geometry, num: int, a: int, b: int) {
    && 0 <= num < |geo.faces|
    && ((geo.faces[num].frontarea == a && geo.faces[num].backarea == b)
        || (geo.faces[num].frontarea == b && geo.faces[num].backarea == a))
  }

  /** Every real area lists just faces of which it is one side, and every real side of a listed face
      lists it. Area 0, the outside, lists nothing. */
  ghost predicate TwoSided(geo: Geometry) {
    && FacesInRange(geo)
    && (forall a, num :: Lists(geo, a, num) ==> a != 0 && exists b :: Between(geo, num, a, b))
    && (forall a, b, num :: Lists(geo, a, num) && Between(geo, num, a, b) && b != 0 ==> Lists(geo, b, num))
  }

  lemma EntryIsFace(geo: Geometry, a: int, i: int)
    requires FacesInRange(geo) && 0 <= a < |geo.areas| && 0 <= i < geo.areas[a].numfaces
    ensures Entry(geo, a, i) == FaceNum(geo, a, i) && 0 <= Entry(geo, a, i) < |geo.faces|
    ensures Lists(geo, a, Entry(geo, a, i))
  {
  }

  /** Behind a listed face lies the area on its other side. */
  lemma AcrossIsOther(geo: Geometry, a: int, i: int, b: int)
    requires TwoSided(geo) && 0 <= a < |geo.areas| && 0 <= i < geo.areas[a].numfaces
    ensures 0 <= Entry(geo, a, i) < |geo.faces|
    ensures Across(geo.faces[Entry(geo, a, i)], a) == b <==> Between(geo, Entry(geo, a, i), a, b)
  {
    EntryIsFace(geo, a, i);
    var x :| Between(geo, Entry(geo, a, i), a, x);
  }

  /** Neighbours are the two sides of a face, other than the outside. */
  lemma NeighboursShareFace(geo: Geometry, a: int, b: int)
    requires TwoSided(geo) && 0 <= a < |geo.areas|
    ensures |NeighbourTable(geo)| == |geo.areas|
    ensures b in NeighbourTable(geo)[a] <==> b != 0 && exists num :: Lists(geo, a, num) && Between(geo, num, a, b)
  {
    hide TwoSided, Across, Entry;
    assert FacesInRange(geo) by { TwoSidedFits(geo); }
    forall i | 0 <= i < geo.areas[a].numfaces
      ensures 0 <= Entry(geo, a, i) < |geo.faces| && Entry(geo, a, i) == FaceNum(geo, a, i)
      ensures Lists(geo, a, Entry(geo, a, i))
      ensures Across(geo.faces[FaceNum(geo, a, i)], a) == b <==> Between(geo, Entry(geo, a, i), a, b)
    {
      EntryIsFace(geo, a, i);
      AcrossIsOther(geo, a, i, b);
    }
    if b != 0 && exists num :: Lists(geo, a, num) && Between(geo, num, a, b) {
      var num :| Lists(geo, a, num) && Between(geo, num, a, b);
      var i :| 0 <= i < geo.areas[a].numfaces && Entry(geo, a, i) == num;
      assert Across(geo.faces[FaceNum(geo, a, i)], a) == b;
    }
  }

  lemma TwoSidedFits(geo: Geometry)
    requires TwoSided(geo)
    ensures FacesInRange(geo)
  {
  }

  /** A face that bit 0 of its flags does not mark as solid. */
  ghost predicate Open(geo: Geometry, num: int) {
    0 <= num < |geo.faces| && geo.faces[num].faceflags & 1 == 0
  }

  lemma OpenIsNotSolid(f: Face)
    ensures Solid(f) <==> f.faceflags & 1 != 0
  {
  }

  /** What lies behind the openings of an area are the other sides of its open faces. */
  lemma OpeningsShareOpenFace(geo: Geometry, a: int, b: int)
    requires TwoSided(geo) && 0 <= a < |geo.areas|
    ensures |OpeningTable(geo)| == |geo.areas|
    ensures b in OpeningTable(geo)[a] <==> exists num :: Lists(geo, a, num) && Open(geo, num) && Between(geo, num, a, b)
  {
    hide TwoSided, Across, Entry, Solid, Open;
    assert FacesInRange(geo) by { TwoSidedFits(geo); }
    forall i | 0 <= i < geo.areas[a].numfaces
      ensures 0 <= Entry(geo, a, i) < |geo.faces| && Entry(geo, a, i) == FaceNum(geo, a, i)
      ensures Lists(geo, a, Entry(geo, a, i))
      ensures Solid(geo.faces[FaceNum(geo, a, i)]) <==> !Open(geo, Entry(geo, a, i))
      ensures Across(geo.faces[FaceNum(geo, a, i)], a) == b <==> Between(geo, Entry(geo, a, i), a, b)
    {
      EntryIsFace(geo, a, i);
      AcrossIsOther(geo, a, i, b);
      OpenOrSolid(geo, Entry(geo, a, i));
    }
    if exists num :: Lists(geo, a, num) && Open(geo, num) && Between(geo, num, a, b) {
      var num :| Lists(geo, a, num) && Open(geo, num) && Between(geo, num, a, b);
      var i :| 0 <= i < geo.areas[a].numfaces && Entry(geo, a, i) == num;
      assert Across(geo.faces[FaceNum(geo, a, i)], a) == b;
    }
  }

  lemma OpenOrSolid(geo: Geometry, num: int)
    requires 0 <= num < |geo.faces|
    ensures Solid(geo.faces[num]) <==> !Open(geo, num)
  {
  }

  // ----- symmetry

  lemma NeighboursAreSymmetric(geo: Geometry)
    requires TwoSided(geo)
    ensures Symmetric(NeighbourTable(geo))
  {
    hide NeighbourTable;
    forall a, b | 0 <= a < |NeighbourTable(geo)| && 0 <= b < |NeighbourTable(geo)| && b in NeighbourTable(geo)[a]
      ensures a in NeighbourTable(geo)[b]
    {
      assert |NeighbourTable(geo)| == |geo.areas| by { TableSize(geo); }
      NeighboursShareFace(geo, a, b);
      var num :| Lists(geo, a, num) && Between(geo, num, a, b);
      assert Lists(geo, b, num) && Between(geo, num, b, a);
      NeighboursShareFace(geo, b, a);
    }
  }

  /** No open face leads outside. */
  ghost predicate Enclosed(geo: Geometry) {
    forall a, num :: Lists(geo, a, num) && Open(geo, num) ==> !Between(geo, num, a, 0)
  }

  lemma OpeningsAreSymmetric(geo: Geometry)
    requires TwoSided(geo) && Enclosed(geo)
    ensures Symmetric(OpeningTable(geo))
  {
    hide OpeningTable;
    forall a, b | 0 <= a < |OpeningTable(geo)| && 0 <= b < |OpeningTable(geo)| && b in OpeningTable(geo)[a]
      ensures a in OpeningTable(geo)[b]
    {
      assert |OpeningTable(geo)| == |geo.areas| by { TableCovers(geo); }
      OpeningsShareOpenFace(geo, a, b);
      var num :| Lists(geo, a, num) && Open(geo, num) && Between(geo, num, a, b);
      assert Lists(geo, b, num) && Between(geo, num, b, a);
      OpeningsShareOpenFace(geo, b, a);
    }
  }

  // ----- components of the floods

  /** In such a world every flood of the alternative routes takes a whole component of the first set,
      and no two floods take the same area. */
  lemma FloodsTakeComponents(geo: Geometry, all: set<int>, components: seq<seq<int>>)
    requires TwoSided(geo) && Peeled(NeighbourTable(geo), all, components)
    ensures forall k :: 0 <= k < |components| ==> IsComponent(NeighbourTable(geo), all, components[k])
    ensures forall j, k, x :: 0 <= j < k < |components| && x in components[j] ==> x !in components[k]
  {
    hide NeighbourTable, TwoSided;
    TwoSidedFits(geo);
    NeighboursAreSymmetric(geo);
    PeeledAreComponents(NeighbourTable(geo), all, components);
  }

  /** Two mid-range areas that are the sides of a face are taken by the same flood. */
  lemma SidesTakenTogether(geo: Geometry, all: set<int>, components: seq<seq<int>>, k: int, a: int, b: int, num: int)
    requires TwoSided(geo) && Peeled(NeighbourTable(geo), all, components) && 0 <= k < |components|
    requires a in components[k] && b in all && 0 < b < |geo.areas| && Lists(geo, a, num) && Between(geo, num, a, b)
    ensures b in components[k]
  {
    hide NeighbourTable, TwoSided, Peeled;
    TwoSidedFits(geo);
    FloodsTakeComponents(geo, all, components);
    var adj, first := NeighbourTable(geo), components[k][0];
    assert Reaches(adj, all, first, a);
    NeighboursShareFace(geo, a, b);
    ReachesStep(adj, all, first, a, b);
  }

  // ----- the faces that close a group in

  /** The areas of a group, at their places in its list. */
  ghost predicate Grouped(geo: Geometry, list: seq<int>) {
    forall a :: a in list ==> 0 <= a < |geo.areas|
  }

  /** An open face of the area at a place of the group that belongs to no other area of it, the area on
      its other side, and the even one of the two numbers of its plane. */
  ghost predicate ClosesIn(geo: Geometry, list: seq<int>, b: Boundary) {
    && 0 <= b.place < |list| && Lists(geo, list[b.place], b.facenum)
    && Open(geo, b.facenum) && Between(geo, b.facenum, list[b.place], b.other)
    && (forall k :: 0 <= k < |list| && k != b.place ==>
          geo.faces[b.facenum].frontarea != list[k] && geo.faces[b.facenum].backarea != list[k])
    && b.plane == geo.faces[b.facenum].planenum - geo.faces[b.facenum].planenum % 2
  }

  /** The boundary of the i-th face of the area at a place. */
  ghost predicate BoundaryAt(geo: Geometry, list: seq<int>, place: int, i: int, b: Boundary)
    requires 0 <= place < |list| && 0 <= list[place] < |geo.areas|
  {
    b.place == place && Entry(geo, list[place], i) == b.facenum && ClosesIn(geo, list, b)
  }

  lemma NextBoundary(geo: Geometry, list: seq<int>, place: int, j: int, b: Boundary)
    requires TwoSided(geo) && Grouped(geo, list) && 0 <= place < |list| && list[place] in list
    requires 0 <= j < geo.areas[list[place]].numfaces
    ensures 0 <= list[place] < |geo.areas|
    ensures b in OuterOf(geo, list, place, j + 1) <==>
      b in OuterOf(geo, list, place, j) || BoundaryAt(geo, list, place, j, b)
  {
    hide TwoSided, Solid, Open, Entry, Between;
    TwoSidedFits(geo);
    var a := list[place];
    var num := Entry(geo, a, j);
    EntryIsFace(geo, a, j);
    OpenOrSolid(geo, num);
    var f := geo.faces[num];
    AcrossIsOther(geo, a, j, b.other);
    AcrossIsOther(geo, a, j, Across(f, a));
    var o := Boundary(place, num, Across(f, a), f.planenum / 2 * 2);
    assert f.planenum / 2 * 2 == f.planenum - f.planenum % 2;
    assert OuterOf(geo, list, place, j + 1)
      == OuterOf(geo, list, place, j) + if Solid(f) || Shared(list, place, f) then [] else [o];
    assert BoundaryAt(geo, list, place, j, b) <==> b == o && !Solid(f) && !Shared(list, place, f);
  }

  lemma {:induction false} BoundariesOf(geo: Geometry, list: seq<int>, place: int, j: int, b: Boundary)
    requires TwoSided(geo) && Grouped(geo, list) && 0 <= place < |list| && list[place] in list
    requires 0 <= j <= geo.areas[list[place]].numfaces
    ensures FacesInRange(geo) && 0 <= list[place] < |geo.areas|
    ensures b in OuterOf(geo, list, place, j) <==> exists i :: 0 <= i < j && BoundaryAt(geo, list, place, i, b)
    decreases j
  {
    hide TwoSided, BoundaryAt;
    TwoSidedFits(geo);
    if j > 0 {
      BoundariesOf(geo, list, place, j - 1, b);
      NextBoundary(geo, list, place, j - 1, b);
    }
  }

  lemma {:induction false} BoundariesUpTo(geo: Geometry, list: seq<int>, n: int, b: Boundary)
    requires TwoSided(geo) && Grouped(geo, list) && 0 <= n <= |list|
    ensures FacesInRange(geo)
    ensures b in Outer(geo, list, n) <==> b.place < n && ClosesIn(geo, list, b)
    decreases n
  {
    hide TwoSided, Open, Between, OuterOf, Entry;
    TwoSidedFits(geo);
    if n > 0 {
      var place := n - 1;
      assert list[place] in list;
      BoundariesUpTo(geo, list, place, b);
      FaceCount(geo, list[place]);
      BoundariesOf(geo, list, place, geo.areas[list[place]].numfaces, b);
      if b.place == place && ClosesIn(geo, list, b) {
        var i :| 0 <= i < geo.areas[list[place]].numfaces && Entry(geo, list[place], i) == b.facenum;
        assert BoundaryAt(geo, list, place, i, b);
      }
    }
  }

  /** The outer faces that the test of a group goes by are exactly the faces that close it in. */
  lemma OuterFacesCloseIn(geo: Geometry, list: seq<int>, b: Boundary)
    requires TwoSided(geo) && Grouped(geo, list)
    ensures FacesInRange(geo)
    ensures b in Outer(geo, list, |list|) <==> ClosesIn(geo, list, b)
  {
    BoundariesUpTo(geo, list, |list|, b);
  }

  /** The bits of q are some but not all of the bits of p. */
  ghost predicate LosesPresence(p: Flags, q: Flags) {
    q & !p == 0 && p & !q != 0
  }

  /** A step of the search leads through an open face to an area that has no presence bits but those of
      the one it comes from, and not all of them. */
  lemma StepLosesPresence(geo: Geometry, presence: seq<Flags>, a: int, b: int)
    requires TwoSided(geo) && |presence| == |geo.areas| && 0 <= a < |presence|
    ensures FacesInRange(geo) && |LesserTable(geo, presence)| == |presence|
    ensures b in LesserTable(geo, presence)[a] <==>
      && 0 <= b < |presence| && LosesPresence(presence[a], presence[b])
      && exists num :: Lists(geo, a, num) && Open(geo, num) && Between(geo, num, a, b)
  {
    hide TwoSided, Open, Between, Lesser, LosesPresence;
    TwoSidedFits(geo);
    OpeningsShareOpenFace(geo, a, b);
    assert b in LesserTable(geo, presence)[a] <==>
      b in OpeningTable(geo)[a] && 0 <= b < |presence| && Lesser(presence[a], presence[b]);
    if 0 <= b < |presence| { LesserIsSubset(presence[a], presence[b]); }
  }

  lemma LesserIsSubset(p: Flags, q: Flags)
    ensures Lesser(p, q) <==> LosesPresence(p, q)
  {
  }

  /** The areas that are checked: grounded ones that are no portals. */
  lemma CheckedAreas(s: AreaSettings)
    ensures Eligible(s) <==> s.contents & 8 == 0 && s.areaflags & 1 != 0
  {
  }

  /** Bits 3 and 5 are set in the areas that pass. */
  lemma MarkedAreas(s: AreaSettings)
    ensures Marked(s) == s.(contents := (s.contents | 8) | 32)
  {
  }

  lemma FlaggedAreas(settings: seq<AreaSettings>, a: nat)
    requires a < |settings|
    ensures Flagged(settings, a) <==> settings[a].contents & 8 != 0
  {
  }

  /** At most 1024 areas are listed around an area, and all that are reached if there are fewer. */
  lemma ListedAreas(geo: Geometry, presence: seq<Flags>, a: int, list: seq<int>)
    requires FacesInRange(geo) && 0 <= a < |geo.areas| == |presence| && LesserList(geo, presence, a, list)
    ensures Distinct(list) && 0 < |list| <= 1024 && list[0] == a
    ensures forall b :: b in list && b != a ==> 0 <= b < |presence| && LosesPresence(presence[a], presence[b])
    ensures |list| < 1024 ==>
      forall b :: b in list <==> Reaches(LesserTable(geo, presence), Below(|presence|), a, b)
  {
    hide Lesser, LosesPresence;
    forall b | b in list && b != a
      ensures 0 <= b < |presence| && LosesPresence(presence[a], presence[b])
    {
      var k :| 0 <= k < |list| && list[k] == b;
      LesserIsSubset(presence[a], presence[b]);
    }
  }
}
