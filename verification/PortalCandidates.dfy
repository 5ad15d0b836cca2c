/** Finding areas that may become portals: a grounded area and the areas of lesser presence around
    it, closed in by two planes with connected areas behind each. */
module PortalCandidates {
  import opened AasDef
  import opened FaceGraph

  const MAX_PORTALAREAS := 1024

  // ----- are these areas connected?

  /** The listed areas that are not marked. */
  ghost function Unmarked(list: seq<int>, marks: seq<bool>): set<int>
    requires |list| <= |marks|
  {
    set j | 0 <= j < |list| && !marks[j] :: list[j]
  }

  /** No unmarked listed area lies behind the first i faces of area a, solid faces aside. */
  ghost predicate OpeningsDone(geo: Geometry, a: int, i: int, valid: set<int>)
    requires FacesInRange(geo) && 0 <= a < |geo.areas|
  {
    && 0 <= i <= geo.areas[a].numfaces
    && forall j :: 0 <= j < i ==>
         Solid(geo.faces[FaceNum(geo, a, j)]) || Across(geo.faces[FaceNum(geo, a, j)], a) !in valid
  }

  lemma FaceCount(geo: Geometry, a: int)
    requires FacesInRange(geo) && 0 <= a < |geo.areas|
    ensures geo.areas[a].numfaces >= 0
  {
  }

  lemma NoOpeningDone(geo: Geometry, a: int, valid: set<int>)
    requires FacesInRange(geo) && 0 <= a < |geo.areas|
    ensures OpeningsDone(geo, a, 0, valid)
  {
  }

  lemma NextOpeningDone(geo: Geometry, a: int, i: int, valid: set<int>, after: set<int>)
    requires FacesInRange(geo) && 0 <= a < |geo.areas|
    requires OpeningsDone(geo, a, i, valid) && i < geo.areas[a].numfaces && after <= valid
    requires Solid(geo.faces[FaceNum(geo, a, i)]) || Across(geo.faces[FaceNum(geo, a, i)], a) !in after
    ensures OpeningsDone(geo, a, i + 1, after)
  {
  }

  lemma TableCovers(geo: Geometry)
    requires FacesInRange(geo)
    ensures |OpeningTable(geo)| == |geo.areas|
  {
  }

  lemma OpeningLeads(geo: Geometry, a: int, i: int)
    requires FacesInRange(geo) && 0 <= a < |geo.areas| && 0 <= i < geo.areas[a].numfaces
    requires !Solid(geo.faces[FaceNum(geo, a, i)])
    ensures |OpeningTable(geo)| == |geo.areas|
    ensures Across(geo.faces[FaceNum(geo, a, i)], a) in OpeningTable(geo)[a]
  {
  }

  lemma OpeningsExhausted(geo: Geometry, a: int, all: set<int>, valid: set<int>, stack: set<int>)
    requires FacesInRange(geo) && 0 <= a < |geo.areas|
    requires OpeningsDone(geo, a, geo.areas[a].numfaces, valid)
    requires Exhausted(OpeningTable(geo), all, valid, stack + {a})
    ensures Exhausted(OpeningTable(geo), all, valid, stack)
  {
    forall b | b in Openings(geo, a)
      ensures b !in valid
    {
      var j :| 0 <= j < geo.areas[a].numfaces && !Solid(geo.faces[FaceNum(geo, a, j)])
        && b == Across(geo.faces[FaceNum(geo, a, j)], a);
    }
  }

  lemma MarkOne(list: seq<int>, marks: seq<bool>, j: int)
    requires Distinct(list) && 0 <= j < |list| <= |marks| && !marks[j]
    ensures list[j] in Unmarked(list, marks)
    ensures Unmarked(list, marks[j := true]) == Unmarked(list, marks) - {list[j]}
  {
  }

  lemma MarkedIsGone(list: seq<int>, marks: seq<bool>, a: int, j: int)
    requires Distinct(list) && 0 <= j <= |list| <= |marks|
    requires if j == |list| then a !in list else list[j] == a && marks[j]
    ensures a !in Unmarked(list, marks)
  {
  }

  /** The i-th face of area a: whether it is solid, and the area at its other side. */
  method LookAcross(w: AasWorld, a: int, i: int) returns (solid: bool, other: int)
    requires FacesInRange(GeometryOf(w)) && 0 <= a < w.areas.Length && 0 <= i < w.areas[a].numfaces
    ensures var f := GeometryOf(w).faces[FaceNum(GeometryOf(w), a, i)]; solid == Solid(f) && other == Across(f, a)
    ensures 0 <= other < w.areas.Length
  {
    var face := w.faces[Abs(w.faceindex[w.areas[a].firstface + i])];
    solid := Solid(face);
    other := if face.frontarea != a then face.frontarea else face.backarea;
  }

  /** The place of an area in the list, or the length of the list. */
  method IndexOf(list: seq<int>, a: int) returns (j: int)
    ensures 0 <= j <= |list|
    ensures j < |list| ==> list[j] == a
    ensures j == |list| <==> a !in list
  {
    j := 0;
    while j < |list|
      invariant 0 <= j <= |list| && a !in list[..j]
    {
      if list[j] == a {
        return;
      }
      j := j + 1;
    }
  }

  /** Marks everything in the list that is reached from place cur without leaving the list. */
  method ConnectAreas(w: AasWorld, list: seq<int>, connected: array<bool>, cur: int, ghost stack: set<int>)
    requires FacesInRange(GeometryOf(w)) && 0 <= cur < |list| <= connected.Length
    requires Distinct(list) && forall a :: a in list ==> 0 <= a < w.areas.Length
    requires !connected[cur]
    requires Exhausted(OpeningTable(GeometryOf(w)), Elements(list), Unmarked(list, connected[..]), stack)
    modifies connected
    ensures Exhausted(OpeningTable(GeometryOf(w)), Elements(list), Unmarked(list, connected[..]), stack)
    ensures AllReached(OpeningTable(GeometryOf(w)), old(Unmarked(list, connected[..])),
                       Unmarked(list, connected[..]), list[cur])
    ensures list[cur] !in Unmarked(list, connected[..])
    ensures Unmarked(list, connected[..]) < old(Unmarked(list, connected[..]))
    decreases Unmarked(list, connected[..])
  {
    hide Exhausted, AllReached, OpeningTable, OpeningsDone, Unmarked, Distinct, FacesInRange;
    ghost var geo := GeometryOf(w);
    ghost var adj, all := OpeningTable(geo), Elements(list);
    ghost var before := Unmarked(list, connected[..]);
    var a := list[cur];
    assert a in list && 0 <= a < |geo.areas|;
    assert |adj| == |geo.areas| by { TableCovers(geo); }
    assert a in before && Unmarked(list, connected[..][cur := true]) == before - {a} by {
      MarkOne(list, connected[..], cur);
    }
    connected[cur] := true;
    assert connected[..] == old(connected[..])[cur := true];
    assert Exhausted(adj, all, before - {a}, stack + {a}) && AllReached(adj, before, before - {a}, a) by {
      ConsumeStarts(adj, all, before, stack, a);
    }
    assert OpeningsDone(geo, a, 0, before - {a}) by { NoOpeningDone(geo, a, before - {a}); }
    assert w.areas[a].numfaces >= 0 by { FaceCount(geo, a); }
    var i := 0;
    while i < w.areas[a].numfaces
      invariant 0 <= i <= w.areas[a].numfaces
      invariant Exhausted(adj, all, Unmarked(list, connected[..]), stack + {a})
      invariant AllReached(adj, before, Unmarked(list, connected[..]), a)
      invariant Unmarked(list, connected[..]) < before && a !in Unmarked(list, connected[..])
      invariant OpeningsDone(geo, a, i, Unmarked(list, connected[..]))
    {
      ghost var valid := Unmarked(list, connected[..]);
      var solid, otherareanum := LookAcross(w, a, i);
      if !solid {
        var j := IndexOf(list, otherareanum);
        if j == |list| || connected[j] {
          assert otherareanum !in valid by { MarkedIsGone(list, connected[..], otherareanum, j); }
        } else {
          assert otherareanum in valid by { MarkOne(list, connected[..], j); }
          ConnectAreas(w, list, connected, j, stack + {a});
          assert AllReached(adj, before, Unmarked(list, connected[..]), a) by {
            OpeningLeads(geo, a, i);
            NextFaceReached(adj, before, valid, Unmarked(list, connected[..]), a, otherareanum);
          }
        }
      }
      assert OpeningsDone(geo, a, i + 1, Unmarked(list, connected[..])) by {
        NextOpeningDone(geo, a, i, valid, Unmarked(list, connected[..]));
      }
      i := i + 1;
    }
    assert Exhausted(adj, all, Unmarked(list, connected[..]), stack) by {
      OpeningsExhausted(geo, a, all, Unmarked(list, connected[..]), stack);
    }
  }

  /** Every listed area is reached from the first through openings, without leaving the list. */
  ghost predicate AllConnected(adj: Adjacency, list: seq<int>) {
    |list| > 0 && forall b :: b in list ==> Reaches(adj, Elements(list), list[0], b)
  }

  lemma ConnectedMarks(adj: Adjacency, list: seq<int>, marks: seq<bool>)
    requires Distinct(list) && 0 < |list| <= |marks| && forall a :: a in list ==> 0 <= a < |adj|
    requires Exhausted(adj, Elements(list), Unmarked(list, marks), {})
    requires AllReached(adj, Elements(list), Unmarked(list, marks), list[0])
    requires list[0] !in Unmarked(list, marks)
    ensures forall j :: 0 <= j < |list| ==> (marks[j] <==> Reaches(adj, Elements(list), list[0], list[j]))
  {
    var all, unmarked := Elements(list), Unmarked(list, marks);
    forall j | 0 <= j < |list|
      ensures marks[j] <==> Reaches(adj, all, list[0], list[j])
    {
      assert marks[j] <==> list[j] !in unmarked;
      assert list[j] in all;
      if Reaches(adj, all, list[0], list[j]) {
        var marked := iset x: int | x in all && x !in unmarked;
        ClosedHoldsReached(adj, all, marked, list[0], list[j]);
      }
    }
  }

  lemma NoneMarked(list: seq<int>, marks: seq<bool>)
    requires |list| <= |marks| && forall j :: 0 <= j < |list| ==> !marks[j]
    ensures Unmarked(list, marks) == Elements(list)
  {
    forall a | a in Elements(list)
      ensures a in Unmarked(list, marks)
    {
      var j :| 0 <= j < |list| && list[j] == a;
    }
  }

  lemma ConnectedSingle(adj: Adjacency, list: seq<int>)
    requires |list| == 1 && 0 <= list[0] < |adj|
    ensures AllConnected(adj, list)
  {
    ReachesSelf(adj, Elements(list), list[0]);
  }

  /** Is every listed area reached from the first? */
  method ConnectedAreas(w: AasWorld, list: seq<int>) returns (ok: bool)
    requires FacesInRange(GeometryOf(w))
    requires Distinct(list) && forall a :: a in list ==> 0 <= a < w.areas.Length
    ensures ok <==> AllConnected(OpeningTable(GeometryOf(w)), list)
  {
    hide Exhausted, AllReached, OpeningTable, Distinct, FacesInRange;
    ghost var adj := OpeningTable(GeometryOf(w));
    assert |adj| == w.areas.Length by { TableCovers(GeometryOf(w)); }
    if |list| < 1 { return false; }
    assert list[0] in list;
    if |list| == 1 {
      assert AllConnected(adj, list) by { ConnectedSingle(adj, list); }
      return true;
    }
    var connected := new bool[|list|](_ => false);
    assert Unmarked(list, connected[..]) == Elements(list) by { NoneMarked(list, connected[..]); }
    assert Exhausted(adj, Elements(list), Elements(list), {}) by { NothingConsumed(adj, Elements(list)); }
    ConnectAreas(w, list, connected, 0, {});
    assert forall j :: 0 <= j < |list| ==> (connected[j] <==> Reaches(adj, Elements(list), list[0], list[j])) by {
      ConnectedMarks(adj, list, connected[..]);
    }
    var i := 0;
    while i < |list|
      invariant 0 <= i <= |list|
      invariant forall j :: 0 <= j < i ==> connected[j]
    {
      if !connected[i] {
        assert list[i] in list;
        return false;
      }
      i := i + 1;
    }
    return true;
  }

  lemma NothingConsumed(adj: Adjacency, all: set<int>)
    ensures Exhausted(adj, all, all, {})
  {
  }

  // ----- adjacent areas of lesser presence

  /** Presence q allows strictly less than presence p. */
  predicate Lesser(p: Flags, q: Flags) {
    p & !q != 0 && q & !p == 0
  }

  lemma SubFlagsTransitive(p: Flags, q: Flags, r: Flags)
    requires q & !p == 0 && r & !q == 0
    ensures r & !p == 0
  {
  }

  lemma LesserTransitive(p: Flags, q: Flags, r: Flags)
    requires Lesser(p, q) && Lesser(q, r)
    ensures Lesser(p, r)
  {
    SubFlagsTransitive(p, q, r);
    if p & !r == 0 {
      SubFlagsTransitive(r, p, q);
    }
  }

  function PresenceOf(settings: seq<AreaSettings>): seq<Flags> {
    seq(|settings|, a requires 0 <= a < |settings| => settings[a].presencetype)
  }

  ghost function LesserOpenings(geo: Geometry, presence: seq<Flags>, a: int): set<int>
    requires FacesInRange(geo) && 0 <= a < |geo.areas| == |presence|
  {
    set b | b in Openings(geo, a) && 0 <= b < |presence| && Lesser(presence[a], presence[b])
  }

  ghost function LesserTable(geo: Geometry, presence: seq<Flags>): Adjacency
    requires FacesInRange(geo) && |geo.areas| == |presence|
  {
    seq(|geo.areas|, a requires 0 <= a < |geo.areas| => LesserOpenings(geo, presence, a))
  }

  /** The areas of the world that are not listed. */
  ghost function Unlisted(list: seq<int>, n: nat): set<int> {
    Below(n) - Elements(list)
  }

  /** A list of different areas of the world. */
  ghost predicate ListFits(list: seq<int>, n: nat) {
    Distinct(list) && forall a :: a in list ==> 0 <= a < n
  }

  /** No unlisted area of lesser presence lies behind the first i faces of area a. */
  ghost predicate LesserDone(geo: Geometry, presence: seq<Flags>, a: int, i: int, free: set<int>)
    requires FacesInRange(geo) && 0 <= a < |geo.areas| == |presence|
  {
    && 0 <= i <= geo.areas[a].numfaces
    && forall j :: 0 <= j < i ==>
         var f := geo.faces[FaceNum(geo, a, j)];
         Solid(f) || !Lesser(presence[a], presence[Across(f, a)]) || Across(f, a) !in free
  }

  lemma NoLesserDone(geo: Geometry, presence: seq<Flags>, a: int, free: set<int>)
    requires FacesInRange(geo) && 0 <= a < |geo.areas| == |presence|
    ensures LesserDone(geo, presence, a, 0, free)
  {
  }

  lemma NextLesserDone(geo: Geometry, presence: seq<Flags>, a: int, i: int, free: set<int>, after: set<int>)
    requires FacesInRange(geo) && 0 <= a < |geo.areas| == |presence|
    requires LesserDone(geo, presence, a, i, free) && i < geo.areas[a].numfaces && after <= free
    requires var f := geo.faces[FaceNum(geo, a, i)];
      Solid(f) || !Lesser(presence[a], presence[Across(f, a)]) || Across(f, a) !in after
    ensures LesserDone(geo, presence, a, i + 1, after)
  {
  }

  lemma LesserLeads(geo: Geometry, presence: seq<Flags>, a: int, i: int)
    requires FacesInRange(geo) && 0 <= a < |geo.areas| == |presence| && 0 <= i < geo.areas[a].numfaces
    requires var f := geo.faces[FaceNum(geo, a, i)]; !Solid(f) && Lesser(presence[a], presence[Across(f, a)])
    ensures Across(geo.faces[FaceNum(geo, a, i)], a) in LesserTable(geo, presence)[a]
  {
    OpeningLeads(geo, a, i);
  }

  lemma LesserCovers(geo: Geometry, presence: seq<Flags>)
    requires FacesInRange(geo) && |geo.areas| == |presence|
    ensures |LesserTable(geo, presence)| == |geo.areas|
  {
  }

  lemma LesserExhausted(geo: Geometry, presence: seq<Flags>, a: int, all: set<int>, free: set<int>, stack: set<int>)
    requires FacesInRange(geo) && 0 <= a < |geo.areas| == |presence|
    requires LesserDone(geo, presence, a, geo.areas[a].numfaces, free)
    requires Exhausted(LesserTable(geo, presence), all, free, stack + {a})
    ensures Exhausted(LesserTable(geo, presence), all, free, stack)
  {
    forall b | b in LesserOpenings(geo, presence, a)
      ensures b !in free
    {
      var j :| 0 <= j < geo.areas[a].numfaces && !Solid(geo.faces[FaceNum(geo, a, j)])
        && b == Across(geo.faces[FaceNum(geo, a, j)], a);
    }
  }

  lemma ListOne(list: seq<int>, n: nat, a: int)
    requires ListFits(list, n) && 0 <= a < n && a !in list
    ensures ListFits(list + [a], n) && a in Unlisted(list, n)
    ensures Unlisted(list + [a], n) == Unlisted(list, n) - {a}
  {
    CountBelow(n);
    assert forall x :: x in Elements(list + [a]) <==> x in Elements(list) || x == a;
  }

  /** The state of a search that has just listed area a, or has come back from behind one of its faces. */
  ghost predicate Searching(geo: Geometry, presence: seq<Flags>, before: seq<int>, list: seq<int>, a: int,
                            i: int, stack: set<int>) {
    && FacesInRange(geo) && 0 <= a < |geo.areas| == |presence|
    && before + [a] <= list && ListFits(list, |presence|) && |list| <= MAX_PORTALAREAS
    && AllReached(LesserTable(geo, presence), Unlisted(before, |presence|), Unlisted(list, |presence|), a)
    && 0 <= i <= geo.areas[a].numfaces
    && (|list| < MAX_PORTALAREAS ==>
          && Exhausted(LesserTable(geo, presence), Below(|presence|), Unlisted(list, |presence|), stack + {a})
          && LesserDone(geo, presence, a, i, Unlisted(list, |presence|)))
  }

  /** The outcome of a search that listed area a and what lies behind it, unless the list filled up. */
  ghost predicate Searched(geo: Geometry, presence: seq<Flags>, before: seq<int>, list: seq<int>, a: int,
                           stack: set<int>) {
    && FacesInRange(geo) && |geo.areas| == |presence|
    && before + [a] <= list && ListFits(list, |presence|) && |list| <= MAX_PORTALAREAS
    && AllReached(LesserTable(geo, presence), Unlisted(before, |presence|), Unlisted(list, |presence|), a)
    && (|list| < MAX_PORTALAREAS ==>
          Exhausted(LesserTable(geo, presence), Below(|presence|), Unlisted(list, |presence|), stack))
  }

  /** What a search may start from. */
  ghost predicate Searchable(geo: Geometry, presence: seq<Flags>, list: seq<int>, a: int, stack: set<int>) {
    && FacesInRange(geo) && 0 <= a < |geo.areas| == |presence|
    && ListFits(list, |presence|) && |list| < MAX_PORTALAREAS && a !in list
    && Exhausted(LesserTable(geo, presence), Below(|presence|), Unlisted(list, |presence|), stack)
  }

  lemma SearchStarts(geo: Geometry, presence: seq<Flags>, list: seq<int>, a: int, stack: set<int>)
    requires Searchable(geo, presence, list, a, stack)
    ensures Searching(geo, presence, list, list + [a], a, 0, stack)
  {
    var n := |presence|;
    ListOne(list, n, a);
    ConsumeStarts(LesserTable(geo, presence), Below(n), Unlisted(list, n), stack, a);
  }

  lemma SearchSkips(geo: Geometry, presence: seq<Flags>, before: seq<int>, list: seq<int>, a: int, i: int, stack: set<int>)
    requires Searching(geo, presence, before, list, a, i, stack) && i < geo.areas[a].numfaces
    requires var f := geo.faces[FaceNum(geo, a, i)];
      Solid(f) || !Lesser(presence[a], presence[Across(f, a)]) || Across(f, a) in list
    ensures Searching(geo, presence, before, list, a, i + 1, stack)
  {
    var b := Across(geo.faces[FaceNum(geo, a, i)], a);
    assert b in list ==> b in Elements(list);
  }

  lemma SearchEnters(geo: Geometry, presence: seq<Flags>, before: seq<int>, list: seq<int>, a: int, i: int, stack: set<int>)
    requires Searching(geo, presence, before, list, a, i, stack) && i < geo.areas[a].numfaces
    requires |list| < MAX_PORTALAREAS && Across(geo.faces[FaceNum(geo, a, i)], a) !in list
    ensures Searchable(geo, presence, list, Across(geo.faces[FaceNum(geo, a, i)], a), stack + {a})
  {
  }

  lemma SearchGoesOn(geo: Geometry, presence: seq<Flags>, before: seq<int>, list: seq<int>, longer: seq<int>,
                     a: int, i: int, stack: set<int>)
    requires Searching(geo, presence, before, list, a, i, stack) && i < geo.areas[a].numfaces
    requires var f := geo.faces[FaceNum(geo, a, i)];
      && !Solid(f) && Lesser(presence[a], presence[Across(f, a)]) && Across(f, a) !in list
      && Searched(geo, presence, list, longer, Across(f, a), stack + {a})
    requires |list| < MAX_PORTALAREAS
    ensures Searching(geo, presence, before, longer, a, i + 1, stack)
  {
    var n := |presence|;
    var b := Across(geo.faces[FaceNum(geo, a, i)], a);
    LesserLeads(geo, presence, a, i);
    assert a in list by { assert (before + [a])[|before|] == a; }
    CountBelow(n);
    forall k | 0 <= k < |before|
      ensures before[k] != a
    {
      assert list[k] == (before + [a])[k] == before[k] && list[|before|] == (before + [a])[|before|];
    }
    assert a in Unlisted(before, n) && b in Unlisted(list, n);
    NextFaceReached(LesserTable(geo, presence), Unlisted(before, n), Unlisted(list, n), Unlisted(longer, n), a, b);
    assert b in longer by { assert (list + [b])[|list|] == b; }
    assert Unlisted(longer, n) <= Unlisted(list, n);
  }

  lemma SearchEnds(geo: Geometry, presence: seq<Flags>, before: seq<int>, list: seq<int>, a: int, i: int, stack: set<int>)
    requires Searching(geo, presence, before, list, a, i, stack)
    requires i == geo.areas[a].numfaces || |list| == MAX_PORTALAREAS
    ensures Searched(geo, presence, before, list, a, stack)
  {
    if |list| < MAX_PORTALAREAS {
      LesserExhausted(geo, presence, a, Below(|presence|), Unlisted(list, |presence|), stack);
    }
  }

  /** Appends an area, and what of lesser presence lies behind its faces and theirs, to the list. */
  method GetAdjacentAreasWithLessPresenceTypes(w: AasWorld, areanums: array<int>, numareas: int, cur: int,
                                               ghost stack: set<int>)
    returns (count: int)
    requires areanums.Length == MAX_PORTALAREAS && areanums != w.faceindex && 0 <= numareas < MAX_PORTALAREAS
    requires Searchable(GeometryOf(w), PresenceOf(w.areasettings[..]), areanums[..numareas], cur, stack)
    modifies areanums
    ensures numareas < count <= MAX_PORTALAREAS
    ensures Searched(GeometryOf(w), PresenceOf(w.areasettings[..]), old(areanums[..numareas]), areanums[..count], cur, stack)
    decreases MAX_PORTALAREAS - numareas
  {
    hide Searchable, Searched, Searching, FacesInRange, Lesser;
    ghost var geo, presence, before := GeometryOf(w), PresenceOf(w.areasettings[..]), areanums[..numareas];
    assert FacesInRange(geo) && 0 <= cur < |geo.areas| == |presence| by { SearchableFits(geo, presence, before, cur, stack); }
    areanums[numareas] := cur;
    count := numareas + 1;
    assert areanums[..count] == before + [cur];
    assert Searching(geo, presence, before, areanums[..count], cur, 0, stack) by {
      SearchStarts(geo, presence, before, cur, stack);
    }
    assert w.areas[cur].numfaces >= 0 by { FaceCount(geo, cur); }
    var i := 0;
    while i < w.areas[cur].numfaces
      invariant 0 <= i <= w.areas[cur].numfaces
      invariant numareas < count <= MAX_PORTALAREAS
      invariant Searching(geo, presence, before, areanums[..count], cur, i, stack)
    {
      ghost var list := areanums[..count];
      var solid, otherareanum := LookAcross(w, cur, i);
      var skip := solid || !Lesser(w.areasettings[cur].presencetype, w.areasettings[otherareanum].presencetype);
      if !skip {
        var j := IndexOf(areanums[..count], otherareanum);
        skip := j != count;
      }
      if skip {
        assert Searching(geo, presence, before, list, cur, i + 1, stack) by {
          SearchSkips(geo, presence, before, list, cur, i, stack);
        }
      } else {
        if count >= MAX_PORTALAREAS {
          assert Searched(geo, presence, before, list, cur, stack) by { SearchEnds(geo, presence, before, list, cur, i, stack); }
          return;
        }
        assert Searchable(geo, presence, list, otherareanum, stack + {cur}) by {
          SearchEnters(geo, presence, before, list, cur, i, stack);
        }
        count := GetAdjacentAreasWithLessPresenceTypes(w, areanums, count, otherareanum, stack + {cur});
        assert Searching(geo, presence, before, areanums[..count], cur, i + 1, stack) by {
          SearchGoesOn(geo, presence, before, list, areanums[..count], cur, i, stack);
        }
      }
      i := i + 1;
    }
    assert Searched(geo, presence, before, areanums[..count], cur, stack) by {
      SearchEnds(geo, presence, before, areanums[..count], cur, i, stack);
    }
  }

  lemma SearchableFits(geo: Geometry, presence: seq<Flags>, list: seq<int>, a: int, stack: set<int>)
    requires Searchable(geo, presence, list, a, stack)
    ensures FacesInRange(geo) && 0 <= a < |geo.areas| == |presence|
  {
  }

  // ----- what a complete search lists

  /** On a walk of lesser presence every later area has less than the first. */
  lemma {:induction false} WalkLessens(geo: Geometry, presence: seq<Flags>, within: set<int>, p: seq<int>, i: nat)
    requires FacesInRange(geo) && |geo.areas| == |presence|
    requires Walk(LesserTable(geo, presence), within, p) && 0 < i < |p|
    ensures Lesser(presence[p[0]], presence[p[i]])
  {
    assert p[i - 1 + 1] in LesserTable(geo, presence)[p[i - 1]];
    if i > 1 {
      WalkLessens(geo, presence, within, p, i - 1);
      LesserTransitive(presence[p[0]], presence[p[i - 1]], presence[p[i]]);
    }
  }

  /** The list of a search from area a: areas of the world without duplicates, a first, the others
      of lesser presence than a and reached from a by steps of lesser presence; and all of those,
      unless the list is full. */
  ghost predicate LesserList(geo: Geometry, presence: seq<Flags>, a: int, list: seq<int>)
    requires FacesInRange(geo) && 0 <= a < |geo.areas| == |presence|
  {
    && ListFits(list, |presence|)
    && 0 < |list| <= MAX_PORTALAREAS && list[0] == a
    && (forall k :: 0 < k < |list| ==> 0 <= list[k] < |presence| && Lesser(presence[a], presence[list[k]]))
    && (forall b :: b in list ==> Reaches(LesserTable(geo, presence), Below(|presence|), a, b))
    && (|list| < MAX_PORTALAREAS ==>
          forall b :: Reaches(LesserTable(geo, presence), Below(|presence|), a, b) ==> b in list)
  }

  lemma SearchListsLesser(geo: Geometry, presence: seq<Flags>, a: int, list: seq<int>)
    requires Searched(geo, presence, [], list, a, {}) && 0 <= a < |presence|
    ensures LesserList(geo, presence, a, list)
  {
    var n, adj := |presence|, LesserTable(geo, presence);
    CountBelow(n);
    assert Unlisted([], n) == Below(n);
    assert [] + [a] == [a] && list[0] == a;
    forall b | b in list
      ensures Reaches(adj, Below(n), a, b)
    {
      assert b in Elements(list) && b in Below(n) - Unlisted(list, n);
    }
    forall k | 0 < k < |list|
      ensures 0 <= list[k] < |presence| && Lesser(presence[a], presence[list[k]])
    {
      assert list[k] in list && list[k] != list[0];
      ReachedIsLesser(geo, presence, Below(n), a, list[k]);
    }
    if |list| < MAX_PORTALAREAS {
      SearchIsComplete(geo, presence, a, list);
    }
  }

  lemma ReachedIsLesser(geo: Geometry, presence: seq<Flags>, within: set<int>, a: int, b: int)
    requires FacesInRange(geo) && |geo.areas| == |presence| && a != b
    requires Reaches(LesserTable(geo, presence), within, a, b)
    ensures 0 <= a < |presence| && 0 <= b < |presence| && Lesser(presence[a], presence[b])
  {
    var p :| Walk(LesserTable(geo, presence), within, p) && p[0] == a && p[|p| - 1] == b;
    WalkLessens(geo, presence, within, p, |p| - 1);
  }

  lemma SearchIsComplete(geo: Geometry, presence: seq<Flags>, a: int, list: seq<int>)
    requires Searched(geo, presence, [], list, a, {}) && |list| < MAX_PORTALAREAS
    ensures forall b :: Reaches(LesserTable(geo, presence), Below(|presence|), a, b) ==> b in list
  {
    var n, adj := |presence|, LesserTable(geo, presence);
    CountBelow(n);
    assert list[0] == ([] + [a])[0] == a;
    var listed := iset x: int | x in list;
    forall x, y | x in listed && x in Below(n) && 0 <= x < |adj| && y in adj[x] && y in Below(n)
      ensures y in listed
    {
      assert x in Below(n) - Unlisted(list, n);
      assert y !in Unlisted(list, n);
    }
    forall b | Reaches(adj, Below(n), a, b)
      ensures b in list
    {
      ClosedHoldsReached(adj, Below(n), listed, a, b);
    }
  }
}
