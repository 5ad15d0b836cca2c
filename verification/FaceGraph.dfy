/** Areas joined by the faces they share, and walks from area to area that stay inside a set. */
module FaceGraph {
  import opened AasDef

  datatype Geometry = Geometry(areas: seq<Area>, faces: seq<Face>, faceindex: seq<int>)

  function GeometryOf(w: AasWorld): Geometry
    reads w`areas, w`faces, w`faceindex, w.areas, w.faces, w.faceindex
  {
    Geometry(w.areas[..], w.faces[..], w.faceindex[..])
  }

  /** Face lists lie in the face index, which names faces, which name areas. */
  ghost predicate FacesInRange(geo: Geometry) {
    && (forall a :: 0 <= a < |geo.areas| ==>
          && 0 <= geo.areas[a].firstface && 0 <= geo.areas[a].numfaces
          && geo.areas[a].firstface + geo.areas[a].numfaces <= |geo.faceindex|)
    && (forall k :: 0 <= k < |geo.faceindex| ==> Abs(geo.faceindex[k]) < |geo.faces|)
    && (forall f :: 0 <= f < |geo.faces| ==>
          && 0 <= geo.faces[f].frontarea < |geo.areas| && 0 <= geo.faces[f].backarea < |geo.areas|)
  }

  /** The number of the i-th face of area a, without the sign for its side. */
  function FaceNum(geo: Geometry, a: int, i: int): int
    requires FacesInRange(geo) && 0 <= a < |geo.areas| && 0 <= i < geo.areas[a].numfaces
  {
    Abs(geo.faceindex[geo.areas[a].firstface + i])
  }

  /** The area at the other side of a face. */
  function Across(f: Face, a: int): int {
    if f.frontarea != a then f.frontarea else f.backarea
  }

  predicate Solid(f: Face) {
    HasFlag(f.faceflags, FACE_SOLID)
  }

  /** The areas that area a shares a face with. Area 0 stands for no area. */
  ghost function Neighbours(geo: Geometry, a: int): set<int>
    requires FacesInRange(geo) && 0 <= a < |geo.areas|
  {
    set i | 0 <= i < geo.areas[a].numfaces && Across(geo.faces[FaceNum(geo, a, i)], a) != 0 ::
      Across(geo.faces[FaceNum(geo, a, i)], a)
  }

  /** What lies behind the faces of area a that are not solid. */
  ghost function Openings(geo: Geometry, a: int): set<int>
    requires FacesInRange(geo) && 0 <= a < |geo.areas|
  {
    set i | 0 <= i < geo.areas[a].numfaces && !Solid(geo.faces[FaceNum(geo, a, i)]) ::
      Across(geo.faces[FaceNum(geo, a, i)], a)
  }

  type Adjacency = seq<set<int>>

  ghost function NeighbourTable(geo: Geometry): Adjacency
    requires FacesInRange(geo)
  {
    seq(|geo.areas|, a requires 0 <= a < |geo.areas| => Neighbours(geo, a))
  }

  ghost function OpeningTable(geo: Geometry): Adjacency
    requires FacesInRange(geo)
  {
    seq(|geo.areas|, a requires 0 <= a < |geo.areas| => Openings(geo, a))
  }

  // ----- walks

  ghost predicate Walk(adj: Adjacency, within: set<int>, p: seq<int>) {
    && |p| > 0
    && (forall i :: 0 <= i < |p| ==> p[i] in within && 0 <= p[i] < |adj|)
    && (forall i :: 0 <= i < |p| - 1 ==> p[i + 1] in adj[p[i]])
  }

  /** Area b is reached from area a without leaving the set. */
  ghost predicate Reaches(adj: Adjacency, within: set<int>, a: int, b: int) {
    exists p :: Walk(adj, within, p) && p[0] == a && p[|p| - 1] == b
  }

  lemma ReachesSelf(adj: Adjacency, within: set<int>, a: int)
    requires a in within && 0 <= a < |adj|
    ensures Reaches(adj, within, a, a)
  {
    var p := [a];
    assert Walk(adj, within, p) && p[0] == a && p[|p| - 1] == a;
  }

  lemma ReachesStep(adj: Adjacency, within: set<int>, a: int, b: int, c: int)
    requires Reaches(adj, within, a, b) && 0 <= b < |adj| && c in adj[b] && c in within && 0 <= c < |adj|
    ensures Reaches(adj, within, a, c)
  {
    var p :| Walk(adj, within, p) && p[0] == a && p[|p| - 1] == b;
    var q := p + [c];
    assert Walk(adj, within, q) && q[0] == a && q[|q| - 1] == c;
  }

  lemma ReachesTransitive(adj: Adjacency, within: set<int>, a: int, b: int, c: int)
    requires Reaches(adj, within, a, b) && Reaches(adj, within, b, c)
    ensures Reaches(adj, within, a, c)
  {
    var p :| Walk(adj, within, p) && p[0] == a && p[|p| - 1] == b;
    var q :| Walk(adj, within, q) && q[0] == b && q[|q| - 1] == c;
    var r := p + q[1..];
    forall i | 0 <= i < |r| - 1
      ensures r[i + 1] in adj[r[i]]
    {
      if i >= |p| - 1 {
        assert r[i] == q[i - (|p| - 1)] && r[i + 1] == q[i + 1 - (|p| - 1)];
      }
    }
    assert Walk(adj, within, r) && r[0] == a && r[|r| - 1] == c;
  }

  lemma ReachesMore(adj: Adjacency, within: set<int>, more: set<int>, a: int, b: int)
    requires Reaches(adj, within, a, b) && within <= more
    ensures Reaches(adj, more, a, b)
  {
    var p :| Walk(adj, within, p) && p[0] == a && p[|p| - 1] == b;
    assert Walk(adj, more, p);
  }

  /** A set that no step inside the bounds leaves holds everything reached from its members. */
  lemma {:induction false} ClosedHoldsWalk(adj: Adjacency, within: set<int>, s: iset<int>, p: seq<int>, i: nat)
    requires Walk(adj, within, p) && i < |p| && p[0] in s
    requires forall x, y :: x in s && x in within && 0 <= x < |adj| && y in adj[x] && y in within ==> y in s
    ensures p[i] in s
  {
    if i > 0 {
      ClosedHoldsWalk(adj, within, s, p, i - 1);
      assert p[i - 1 + 1] in adj[p[i - 1]];
    }
  }

  lemma ClosedHoldsReached(adj: Adjacency, within: set<int>, s: iset<int>, a: int, b: int)
    requires Reaches(adj, within, a, b) && a in s
    requires forall x, y :: x in s && x in within && 0 <= x < |adj| && y in adj[x] && y in within ==> y in s
    ensures b in s
  {
    var p :| Walk(adj, within, p) && p[0] == a && p[|p| - 1] == b;
    ClosedHoldsWalk(adj, within, s, p, |p| - 1);
  }

  ghost predicate Symmetric(adj: Adjacency) {
    forall a, b :: 0 <= a < |adj| && 0 <= b < |adj| && b in adj[a] ==> a in adj[b]
  }

  /** Where adjacency is symmetric, dropping a set that no step enters or leaves loses no walk
      between areas outside it. */
  lemma {:induction false} WalkAvoids(adj: Adjacency, within: set<int>, gone: set<int>, p: seq<int>)
    requires Walk(adj, within, p) && p[0] !in gone
    requires Symmetric(adj)
    requires forall x, y :: x in gone && 0 <= x < |adj| && y in adj[x] && y in within && 0 <= y < |adj| ==> y in gone
    ensures Walk(adj, within - gone, p)
  {
    forall i | 0 <= i < |p|
      ensures p[i] !in gone
    {
      WalkStaysOut(adj, within, gone, p, i);
    }
  }

  lemma {:induction false} WalkStaysOut(adj: Adjacency, within: set<int>, gone: set<int>, p: seq<int>, i: nat)
    requires Walk(adj, within, p) && p[0] !in gone && i < |p|
    requires Symmetric(adj)
    requires forall x, y :: x in gone && 0 <= x < |adj| && y in adj[x] && y in within && 0 <= y < |adj| ==> y in gone
    ensures p[i] !in gone
  {
    if i > 0 {
      WalkStaysOut(adj, within, gone, p, i - 1);
      assert p[i - 1 + 1] in adj[p[i - 1]];
    }
  }

  // ----- floods

  /** Consumed areas outside the stack have no valid neighbours left. */
  ghost predicate Exhausted(adj: Adjacency, start: set<int>, valid: set<int>, stack: set<int>) {
    forall a, b :: a in start - valid && a !in stack && 0 <= a < |adj| && b in adj[a] ==> b !in valid
  }

  /** All areas consumed since the valid areas were these are reached from area a among them. */
  ghost predicate AllReached(adj: Adjacency, before: set<int>, valid: set<int>, a: int) {
    valid <= before && forall b :: b in before - valid ==> Reaches(adj, before, a, b)
  }

  lemma NextFaceReached(adj: Adjacency, before: set<int>, valid: set<int>, after: set<int>, a: int, b: int)
    requires AllReached(adj, before, valid, a) && AllReached(adj, valid, after, b)
    requires a in before && 0 <= a < |adj| && b in adj[a] && b in valid && 0 <= b < |adj|
    ensures AllReached(adj, before, after, a)
  {
    ReachesSelf(adj, before, a);
    ReachesStep(adj, before, a, a, b);
    forall x | x in before - after
      ensures Reaches(adj, before, a, x)
    {
      if x in valid {
        ReachesMore(adj, valid, before, b, x);
        ReachesTransitive(adj, before, a, b, x);
      }
    }
  }

  lemma ConsumeStarts(adj: Adjacency, start: set<int>, valid: set<int>, stack: set<int>, a: int)
    requires Exhausted(adj, start, valid, stack) && a in valid && 0 <= a < |adj|
    ensures Exhausted(adj, start, valid - {a}, stack + {a}) && AllReached(adj, valid, valid - {a}, a)
  {
    ReachesSelf(adj, valid, a);
  }

  // ----- lists without duplicates

  ghost predicate Distinct(s: seq<int>) {
    forall i, j :: 0 <= i < j < |s| ==> s[i] != s[j]
  }

  ghost function Elements(s: seq<int>): set<int> {
    set x | x in s
  }

  ghost function Below(n: nat): set<int> {
    if n == 0 then {} else Below(n - 1) + {n - 1}
  }

  lemma {:induction false} CountBelow(n: nat)
    ensures |Below(n)| == n
    ensures forall x :: x in Below(n) <==> 0 <= x < n
  {
    if n > 0 {
      CountBelow(n - 1);
    }
  }

  lemma {:induction false} CountDistinct(s: seq<int>)
    requires Distinct(s)
    ensures |Elements(s)| == |s|
  {
    if s != [] {
      var rest := s[..|s| - 1];
      CountDistinct(rest);
      assert s == rest + [s[|s| - 1]];
      assert Elements(s) == Elements(rest) + {s[|s| - 1]};
    }
  }

  /** A list of different areas of the world is no longer than the world. */
  lemma DistinctFits(s: seq<int>, n: nat)
    requires Distinct(s) && forall x :: x in s ==> 0 <= x < n
    ensures |s| <= n
  {
    CountDistinct(s);
    CountBelow(n);
    assert Elements(s) <= Below(n);
    SubsetCount(Elements(s), Below(n));
  }

  lemma {:induction false} SubsetCount<T>(s: set<T>, t: set<T>)
    requires s <= t
    ensures |s| <= |t|
  {
    if |s| != 0 {
      var x :| x in s;
      SubsetCount(s - {x}, t - {x});
      assert |s - {x}| == |s| - 1 && |t - {x}| == |t| - 1;
    }
  }
}
