/** What compaction means to the readers of a world: the ladders of every area look the same, and
    how much room the copy takes. */
module OptimizeMeaning {
  import opened AasDef
  import opened FaceGraph
  import opened OptimizeCopy
  import opened Optimize

  // ----- looking at faces

  /** A directed edge: from one corner to another. */
  datatype Side = Side(from: Vec3, to: Vec3)

  /** A face as an area sees it, with no numbers of edges or vertexes in it. */
  datatype View = View(
    back: bool, planenum: int, faceflags: Flags, frontarea: int, backarea: int, sides: seq<Side>)

  /** The edge of this number. Readers take an edge of negative number backwards. */
  function Directed(m: Mesh, num: int): Side
    requires Abs(num) < |m.edges| && EdgeInRange(m.vertexes, m.edges[Abs(num)])
  {
    var e := m.edges[Abs(num)];
    if num < 0 then Side(m.vertexes[e.v1], m.vertexes[e.v0]) else Side(m.vertexes[e.v0], m.vertexes[e.v1])
  }

  ghost predicate SidesInRange(m: Mesh, list: seq<int>) {
    forall k :: 0 <= k < |list| ==> Abs(list[k]) < |m.edges| && EdgeInRange(m.vertexes, m.edges[Abs(list[k])])
  }

  ghost function Sides(m: Mesh, list: seq<int>): seq<Side>
    requires SidesInRange(m, list)
  {
    seq(|list|, k requires 0 <= k < |list| => Directed(m, list[k]))
  }

  ghost predicate Visible(m: Mesh, num: int) {
    && Abs(num) < |m.faces| && FaceInRange(m, m.faces[Abs(num)])
    && SidesInRange(m, EdgeList(m, m.faces[Abs(num)]))
  }

  /** The face of this number. Readers take a face of negative number from its back. */
  ghost function ViewOf(m: Mesh, num: int): View
    requires Visible(m, num)
  {
    var f := m.faces[Abs(num)];
    View(num < 0, f.planenum, f.faceflags, f.frontarea, f.backarea, Sides(m, EdgeList(m, f)))
  }

  ghost function Views(m: Mesh, list: seq<int>): seq<View>
    requires ListVisible(m, list)
  {
    seq(|list|, k requires 0 <= k < |list| => ViewOf(m, list[k]))
  }

  /** Bit 1 of the flags of a face marks a ladder. */
  ghost predicate IsLadder(faceflags: Flags) {
    faceflags & 2 != 0
  }

  lemma LaddersAreKept(f: Face)
    ensures Ladder(f) <==> IsLadder(f.faceflags)
  {
  }

  ghost function LadderViews(views: seq<View>): seq<View> {
    if views == [] then []
    else
      var last := views[|views| - 1];
      LadderViews(views[..|views| - 1]) + (if IsLadder(last.faceflags) then [last] else [])
  }

  lemma AllVisible(m: Mesh, num: int)
    requires MeshInRange(m) && Abs(num) < |m.faces|
    ensures Visible(m, num)
  {
    var f := m.faces[Abs(num)];
    forall k | 0 <= k < |EdgeList(m, f)|
      ensures Abs(EdgeList(m, f)[k]) < |m.edges|
    {
      assert EdgeList(m, f)[k] == m.edgeindex[f.firstedge + k];
    }
  }

  /** Number 0 has no sign, so a reader takes it forwards, yet it is copied as a negative number. */
  predicate Readable(m: Mesh, num: int)
    requires Abs(num) < |m.edges| && EdgeInRange(m.vertexes, m.edges[Abs(num)])
  {
    num != 0 || m.vertexes[m.edges[0].v0] == m.vertexes[m.edges[0].v1]
  }

  /** The number of a face and those of its edges have signs. */
  ghost predicate Signed(m: Mesh, num: int)
    requires Visible(m, num)
  {
    var list := EdgeList(m, m.faces[Abs(num)]);
    num != 0 && forall k :: 0 <= k < |list| ==> Readable(m, list[k])
  }

  /** A copied edge has the same ends in the same order, unless its number was 0 and it has two ends. */
  lemma EdgeKeepsEnds(m: Mesh, c: Copy, num: int, name: int)
    requires EdgesCopied(m, c) && EntryCopied(c.edgeindex, num, name)
    ensures Abs(num) < |m.edges| && EdgeInRange(m.vertexes, m.edges[Abs(num)])
    ensures Abs(name) < |c.mesh.edges| && EdgeInRange(c.mesh.vertexes, c.mesh.edges[Abs(name)])
    ensures Directed(c.mesh, name) == Directed(m, num) <==> Readable(m, num)
  {
    hide VertexesCopied;
    var k := c.edgeindex[Abs(num)] - 1;
    assert c.edgeorder[k] == Abs(num);
    assert SameEnds(m.vertexes, m.edges[c.edgeorder[k]], c.mesh.vertexes, c.mesh.edges[k + 1]);
  }

  lemma SidesKept(m: Mesh, c: Copy, list: seq<int>, names: seq<int>)
    requires EdgesCopied(m, c) && |names| == |list|
    requires forall k :: 0 <= k < |list| ==> EntryCopied(c.edgeindex, list[k], names[k])
    ensures SidesInRange(m, list) && SidesInRange(c.mesh, names)
    ensures Sides(c.mesh, names) == Sides(m, list) <==> forall k :: 0 <= k < |list| ==> Readable(m, list[k])
  {
    hide EdgesCopied, EntryCopied, EdgeInRange;
    forall k | 0 <= k < |list|
      ensures Abs(list[k]) < |m.edges| && EdgeInRange(m.vertexes, m.edges[Abs(list[k])])
      ensures Abs(names[k]) < |c.mesh.edges| && EdgeInRange(c.mesh.vertexes, c.mesh.edges[Abs(names[k])])
      ensures Directed(c.mesh, names[k]) == Directed(m, list[k]) <==> Readable(m, list[k])
    {
      EdgeKeepsEnds(m, c, list[k], names[k]);
    }
    if Sides(c.mesh, names) == Sides(m, list) {
      forall k | 0 <= k < |list|
        ensures Readable(m, list[k])
      {
        assert Sides(c.mesh, names)[k] == Sides(m, list)[k];
      }
    }
  }

  /** A copied face looks the same exactly if its number and its edges' numbers have signs. */
  lemma FaceKeepsView(m: Mesh, c: Copy, num: int, name: int)
    requires MeshInRange(m) && Consistent(m, c) && EntryCopied(c.faceindex, num, name)
    ensures Visible(m, num) && Visible(c.mesh, name)
    ensures ViewOf(c.mesh, name) == ViewOf(m, num) <==> Signed(m, num)
  {
    hide EdgesCopied, EdgesAreUsed, EdgeInRange, TotalEdges;
    var k := c.faceindex[Abs(num)] - 1;
    assert c.faceorder[k] == Abs(num);
    var f, g := m.faces[Abs(num)], c.mesh.faces[k + 1];
    assert FaceCopied(m, m.faces[c.faceorder[k]], c, c.mesh.faces[k + 1]);
    AllVisible(m, num);
    var list, names := EdgeList(m, f), EdgeList(c.mesh, g);
    forall j | 0 <= j < |list|
      ensures EntryCopied(c.edgeindex, list[j], names[j])
    {
      assert names[j] == c.mesh.edgeindex[g.firstedge + j];
    }
    SidesKept(m, c, list, names);
  }

  ghost predicate ListVisible(m: Mesh, list: seq<int>) {
    forall k :: 0 <= k < |list| ==> Visible(m, list[k])
  }

  lemma AllListVisible(m: Mesh, list: seq<int>)
    requires MeshInRange(m) && ListInRange(m.faces, list)
    ensures ListVisible(m, list) && ListVisible(m, Kept(m.faces, list))
  {
    hide MeshInRange, Visible;
    forall num | Abs(num) < |m.faces|
      ensures Visible(m, num)
    {
      AllVisible(m, num);
    }
    var kept := Kept(m.faces, list);
    forall k | 0 <= k < |kept|
      ensures Visible(m, kept[k])
    {
      assert kept[k] in kept;
    }
  }

  lemma {:induction false} LadderViewsAreKept(m: Mesh, list: seq<int>)
    requires MeshInRange(m) && ListInRange(m.faces, list)
    ensures ListVisible(m, list) && ListVisible(m, Kept(m.faces, list))
    ensures LadderViews(Views(m, list)) == Views(m, Kept(m.faces, list))
  {
    hide Visible, MeshInRange, Ladder, IsLadder, Kept, Sides, LadderViews;
    AllListVisible(m, list);
    if list == [] {
      NoViews(m);
    } else {
      var n := |list| - 1;
      var rest, last := list[..n], list[n];
      assert ListInRange(m.faces, rest);
      LadderViewsAreKept(m, rest);
      LaddersAreKept(m.faces[Abs(last)]);
      assert list[..n + 1] == list;
      KeptNext(m.faces, list, n);
      var views := Views(m, list);
      assert views[..n] == Views(m, rest) && views[n] == ViewOf(m, last);
      NextView(views);
      if Ladder(m.faces[Abs(last)]) {
        assert Views(m, Kept(m.faces, rest) + [last]) == Views(m, Kept(m.faces, rest)) + [ViewOf(m, last)];
      }
    }
  }

  lemma NoViews(m: Mesh)
    ensures ListVisible(m, []) && Kept(m.faces, []) == [] && LadderViews(Views(m, [])) == Views(m, [])
  {
  }

  lemma NextView(views: seq<View>)
    requires views != []
    ensures var n := |views| - 1;
      LadderViews(views) == LadderViews(views[..n]) + if IsLadder(views[n].faceflags) then [views[n]] else []
  {
  }

  /** All of an area's ladders, and their edges, have numbers with signs. */
  ghost predicate AreaSigned(m: Mesh, a: int)
    requires MeshInRange(m) && 1 <= a < |m.areas|
  {
    forall num :: num in Kept(m.faces, FaceList(m, a)) ==> Visible(m, num) && Signed(m, num)
  }

  /** The faces that an area has after compaction are the ladders that it had before, in the same
      order and looking the same: exactly if their numbers and their edges' numbers have signs. */
  lemma AreaKeepsLadders(m: Mesh, s: seq<Reachability>, c: Copy, t: seq<Reachability>, a: int)
    requires Compacted(m, s, c, t) && 1 <= a < |m.areas|
    ensures |c.mesh.areas| == |m.areas|
    ensures c.mesh.areas[a] == m.areas[a].(numfaces := c.mesh.areas[a].numfaces, firstface := c.mesh.areas[a].firstface)
    ensures 0 <= c.mesh.areas[a].firstface && 0 <= c.mesh.areas[a].numfaces
    ensures c.mesh.areas[a].firstface + c.mesh.areas[a].numfaces <= |c.mesh.faceindex|
    ensures ListVisible(c.mesh, Segment(c.mesh, a)) && ListVisible(m, FaceList(m, a))
    ensures Views(c.mesh, Segment(c.mesh, a)) == LadderViews(Views(m, FaceList(m, a))) <==> AreaSigned(m, a)
  {
    hide Consistent, MeshInRange, Visible, ReachabilitiesRenamed, EntryCopied, Signed, TotalKept, FacesAreUsed, Kept;
    assert AreaCopied(m, c, a);
    FaceListInRange(m, a);
    var kept, names := Kept(m.faces, FaceList(m, a)), Segment(c.mesh, a);
    LadderViewsAreKept(m, FaceList(m, a));
    forall k | 0 <= k < |kept|
      ensures Visible(m, kept[k]) && Visible(c.mesh, names[k])
      ensures ViewOf(c.mesh, names[k]) == ViewOf(m, kept[k]) <==> Signed(m, kept[k])
    {
      assert EntryCopied(c.faceindex, kept[k], c.mesh.faceindex[c.mesh.areas[a].firstface + k]);
      FaceKeepsView(m, c, kept[k], names[k]);
    }
    if Views(c.mesh, names) == Views(m, kept) {
      forall k | 0 <= k < |kept|
        ensures Signed(m, kept[k])
      {
        assert Views(c.mesh, names)[k] == Views(m, kept)[k];
      }
    }
    if AreaSigned(m, a) {
      forall k | 0 <= k < |kept|
        ensures Views(c.mesh, names)[k] == Views(m, kept)[k]
      {
        assert kept[k] in kept;
      }
    }
  }

  const CORNERS := [Vec3(0, 0, 0), Vec3(0, 0, 8), Vec3(8, 0, 0)]
  const ONE_FACE := [NO_AREA, Area(1, 1, 0, Vec3(0, 0, 0), Vec3(8, 0, 8), Vec3(4, 0, 4))]

  /** A world whose one ladder has number 0. */
  const ZERO_FACE := Mesh(
    CORNERS, [Edge(0, 0), Edge(0, 1), Edge(1, 2), Edge(2, 0)], [1, 2, 3], [Face(0, FACE_LADDER, 3, 0, 1, 0)], [0], ONE_FACE)

  /** A world whose one ladder begins with the edge of number 0. */
  const ZERO_EDGE := Mesh(
    CORNERS, [Edge(0, 1), Edge(1, 2), Edge(2, 0)], [0, 1, 2],
    [Face(0, 0, 0, 0, 0, 0), Face(0, FACE_LADDER, 3, 0, 1, 0)], [1], ONE_FACE)

  /** The ladder of area 1 does not look the same after compaction of either world. */
  lemma ZeroIsTurned(m: Mesh, s: seq<Reachability>, c: Copy, t: seq<Reachability>)
    requires (m == ZERO_FACE || m == ZERO_EDGE) && Compacted(m, s, c, t)
    ensures |c.mesh.areas| == 2 && 0 <= c.mesh.areas[1].firstface && 0 <= c.mesh.areas[1].numfaces
    ensures c.mesh.areas[1].firstface + c.mesh.areas[1].numfaces <= |c.mesh.faceindex|
    ensures ListVisible(c.mesh, Segment(c.mesh, 1)) && ListVisible(m, FaceList(m, 1))
    ensures Views(c.mesh, Segment(c.mesh, 1)) != LadderViews(Views(m, FaceList(m, 1)))
  {
    hide Compacted, Views, LadderViews, ListVisible, Visible, AreaSigned;
    AreaKeepsLadders(m, s, c, t, 1);
    assert !AreaSigned(m, 1) by { ZeroHasNoSign(m); }
  }

  lemma ZeroHasNoSign(m: Mesh)
    requires (m == ZERO_FACE || m == ZERO_EDGE) && MeshInRange(m)
    ensures !AreaSigned(m, 1)
  {
    hide MeshInRange;
    var num := FaceList(m, 1)[0];
    assert FaceList(m, 1) == [num];
    assert num in Kept(m.faces, FaceList(m, 1)) by {
      assert HasFlag(FACE_LADDER, FACE_LADDER);
      assert num in FaceList(m, 1) && Ladder(m.faces[Abs(num)]);
    }
    if m == ZERO_EDGE && Visible(m, num) {
      var list := EdgeList(m, m.faces[1]);
      assert list[0] == 0 && !Readable(m, list[0]);
    }
  }

  /** The part of the face index that belongs to an area. */
  function Segment(m: Mesh, a: int): seq<int>
    requires 0 <= a < |m.areas| && 0 <= m.areas[a].firstface && 0 <= m.areas[a].numfaces
    requires m.areas[a].firstface + m.areas[a].numfaces <= |m.faceindex|
  {
    m.faceindex[m.areas[a].firstface..m.areas[a].firstface + m.areas[a].numfaces]
  }

  // ----- what has been copied

  /** A ladder on the face list of a real area. */
  ghost predicate UsedFace(m: Mesh, f: int)
    requires MeshInRange(m)
  {
    0 <= f < |m.faces| && IsLadder(m.faces[f].faceflags) && exists a :: 1 <= a < |m.areas| && Lists(m, a, f)
  }

  ghost predicate UsedEdge(m: Mesh, e: int)
    requires MeshInRange(m)
  {
    exists f :: UsedFace(m, f) && HasEdge(m, f, e)
  }

  /** Exactly the used faces and edges are copied. */
  lemma CopiedIsUsed(m: Mesh, s: seq<Reachability>, c: Copy, t: seq<Reachability>)
    requires Compacted(m, s, c, t)
    ensures forall f :: f in c.faceorder <==> UsedFace(m, f)
    ensures forall e :: e in c.edgeorder <==> UsedEdge(m, e)
  {
    hide EntryCopied, ReachabilitiesRenamed, TotalKept, Ladder, IsLadder, Kept, MeshInRange, HasEdge, Lists;
    forall f | 0 <= f < |m.faces|
      ensures Ladder(m.faces[f]) <==> IsLadder(m.faces[f].faceflags)
    {
      LaddersAreKept(m.faces[f]);
    }
    forall f | UsedFace(m, f)
      ensures f in c.faceorder
    {
      var a :| 1 <= a < |m.areas| && Lists(m, a, f);
      ListedIsCopied(m, c, a, f);
    }
    forall f | f in c.faceorder
      ensures UsedFace(m, f)
    {
      var k :| 0 <= k < |c.faceorder| && c.faceorder[k] == f;
    }
    forall e | UsedEdge(m, e)
      ensures e in c.edgeorder
    {
      var f :| UsedFace(m, f) && HasEdge(m, f, e);
      UsedIsCopied(m, c, f, e);
    }
  }

  lemma ListedIsCopied(m: Mesh, c: Copy, a: int, f: int)
    requires AreasCopied(m, c, |m.areas|) && 1 <= a < |m.areas| && Lists(m, a, f)
    requires 0 <= f < |m.faces| && Ladder(m.faces[f])
    ensures f in c.faceorder
  {
    hide MeshInRange, Consistent, Ladder, TotalKept;
    var num :| num in FaceList(m, a) && Abs(num) == f;
    assert AreaCopied(m, c, a);
    FaceListInRange(m, a);
    var kept := Kept(m.faces, FaceList(m, a));
    assert num in kept;
    var j :| 0 <= j < |kept| && kept[j] == num;
    assert EntryCopied(c.faceindex, kept[j], c.mesh.faceindex[c.mesh.areas[a].firstface + j]);
    ConsistentNumbers(m, c);
    NumbersListed(c.faceindex, c.faceorder, f);
  }

  lemma UsedIsCopied(m: Mesh, c: Copy, f: int, e: int)
    requires Consistent(m, c) && f in c.faceorder && HasEdge(m, f, e)
    ensures e in c.edgeorder
  {
    hide EdgesCopied, EdgesAreUsed, TotalEdges;
    var k :| 0 <= k < |c.faceorder| && c.faceorder[k] == f;
    assert FaceCopied(m, m.faces[c.faceorder[k]], c, c.mesh.faces[k + 1]);
    var list := EdgeList(m, m.faces[f]);
    var num :| num in list && Abs(num) == e;
    var j :| 0 <= j < |list| && list[j] == num;
    assert EntryCopied(c.edgeindex, list[j], c.mesh.edgeindex[c.mesh.faces[k + 1].firstedge + j]);
    EdgesAreNumbered(m, c);
    NumbersListed(c.edgeindex, c.edgeorder, e);
  }

  // ----- room

  /** A list of different numbers below n is shorter than n exactly if it spares one of them. */
  lemma RoomForOneMore(list: seq<int>, n: nat)
    requires Distinct(list) && forall x :: x in list ==> 0 <= x < n
    ensures |list| < n <==> exists x :: 0 <= x < n && x !in list
  {
    DistinctFits(list, n);
    if x :| 0 <= x < n && x !in list {
      var more := list + [x];
      DistinctFits(more, n);
    } else {
      CountDistinct(list);
      CountBelow(n);
      forall x | x in Below(n)
        ensures x in Elements(list)
      {
        assert x in list;
      }
      SubsetCount(Below(n), Elements(list));
    }
  }

  lemma OrderIsDistinct(table: seq<int>, order: seq<int>)
    requires Numbers(table, order)
    ensures Distinct(order)
    ensures forall x :: x in order ==> 0 <= x < |table|
  {
    forall i, j | 0 <= i < j < |order|
      ensures order[i] != order[j]
    {
      assert table[order[i]] == i + 1 && table[order[j]] == j + 1;
    }
  }

  /** The vertexes met after the first one. */
  ghost function MetAgain(m: Mesh, c: Copy): seq<int>
    requires EdgesCopied(m, c)
  {
    var met := Ends(m.edges, c.edgeorder);
    if met == [] then [] else met[1..]
  }

  /** The face table has room for the copy exactly if some face is not used, and so has the edge table. */
  lemma FacesAndEdgesFit(m: Mesh, s: seq<Reachability>, c: Copy, t: seq<Reachability>)
    requires Compacted(m, s, c, t)
    ensures |c.mesh.faces| <= |m.faces| <==> exists f :: 0 <= f < |m.faces| && !UsedFace(m, f)
    ensures |c.mesh.edges| <= |m.edges| <==> exists e :: 0 <= e < |m.edges| && !UsedEdge(m, e)
  {
    hide UsedFace, UsedEdge, AreaCopied, ReachabilitiesRenamed, FacesAreUsed, TotalKept;
    CopiedIsUsed(m, s, c, t);
    OrderIsDistinct(c.faceindex, c.faceorder);
    RoomForOneMore(c.faceorder, |m.faces|);
    OrderIsDistinct(c.edgeindex, c.edgeorder);
    RoomForOneMore(c.edgeorder, |m.edges|);
  }

  predicate EndOf(m: Mesh, e: int, v: int) {
    0 <= e < |m.edges| && (m.edges[e].v0 == v || m.edges[e].v1 == v)
  }

  ghost predicate UsedVertex(m: Mesh, v: int)
    requires MeshInRange(m)
  {
    exists e :: UsedEdge(m, e) && EndOf(m, e, v)
  }

  /** Every used vertex is an end of two used edges, as it is where faces are closed polygons. */
  ghost predicate Closed(m: Mesh)
    requires MeshInRange(m)
  {
    forall v :: UsedVertex(m, v) ==>
      exists e, f :: e != f && UsedEdge(m, e) && UsedEdge(m, f) && EndOf(m, e, v) && EndOf(m, f, v)
  }

  /** Met after the first vertex are the other end of the first edge, and the ends of the other edges. */
  lemma {:induction false} EndsAfterFirst(m: Mesh, order: seq<int>, v: int)
    requires order != [] && forall k :: 0 <= k < |order| ==> 0 <= order[k] < |m.edges|
    ensures Ends(m.edges, order) != [] && Ends(m.edges, order)[0] == m.edges[order[0]].v0
    ensures v in Ends(m.edges, order)[1..] <==>
      v == m.edges[order[0]].v1 || exists k :: 1 <= k < |order| && EndOf(m, order[k], v)
  {
    var rest, last := order[..|order| - 1], order[|order| - 1];
    var met, more := Ends(m.edges, rest), Ends(m.edges, order);
    assert more == met + [m.edges[last].v0, m.edges[last].v1];
    if rest == [] {
      assert more[1..] == [m.edges[last].v1];
    } else {
      EndsAfterFirst(m, rest, v);
      assert more[1..] == met[1..] + [m.edges[last].v0, m.edges[last].v1];
      assert v in more[1..] <==> v in met[1..] || EndOf(m, last, v);
      assert forall k :: 1 <= k < |rest| ==> order[k] == rest[k];
    }
  }

  // ----- the first edge

  /** The first edge of a face, or -1 if it has none. */
  function LeadOf(m: Mesh, f: int): int {
    if 0 <= f < |m.faces| && FaceInRange(m, m.faces[f]) && m.faces[f].numedges > 0
    then Abs(m.edgeindex[m.faces[f].firstedge]) else -1
  }

  /** The first edge of the first ladder on a list that has edges, or -1 if there is none. */
  ghost function FirstOnList(m: Mesh, list: seq<int>): int
    requires ListInRange(m.faces, list)
  {
    if list == [] then -1
    else
      var before, last := FirstOnList(m, list[..|list| - 1]), Abs(list[|list| - 1]);
      if 0 <= before then before else if Ladder(m.faces[last]) then LeadOf(m, last) else -1
  }

  /** The same for the lists of the areas 1..n-1, one after another. */
  ghost function FirstEdge(m: Mesh, n: int): int
    requires MeshInRange(m) && (n <= 1 || n <= |m.areas|)
    decreases n
  {
    if n <= 1 then -1
    else
      var before := FirstEdge(m, n - 1);
      if 0 <= before then before else FirstOnList(m, FaceList(m, n - 1))
  }

  function Head(order: seq<int>): int {
    if order == [] then -1 else order[0]
  }

  ghost predicate Natural(order: seq<int>) {
    forall x :: x in order ==> 0 <= x
  }

  lemma NaturalHead(order: seq<int>)
    requires Natural(order)
    ensures order != [] <==> 0 <= Head(order)
  {
    if order != [] {
      assert order[0] in order;
    }
  }

  lemma {:induction false} HeadOfJoin(order: seq<int>, list: seq<int>)
    requires Natural(order)
    ensures Natural(JoinAll(order, list))
    ensures Head(JoinAll(order, list)) == if order != [] then Head(order) else if list == [] then -1 else Abs(list[0])
  {
    if list != [] {
      HeadOfJoin(order, list[..|list| - 1]);
    }
  }

  lemma HeadOfEdges(m: Mesh, faces: seq<int>, f: int)
    requires Natural(EdgesInOrder(m, faces))
    ensures Natural(EdgesInOrder(m, faces + [f]))
    ensures Head(EdgesInOrder(m, faces + [f]))
      == if EdgesInOrder(m, faces) != [] then Head(EdgesInOrder(m, faces)) else LeadOf(m, f)
  {
    hide JoinAll, Natural;
    assert (faces + [f])[..|faces|] == faces;
    if 0 <= f < |m.faces| && FaceInRange(m, m.faces[f]) {
      HeadOfJoin(EdgesInOrder(m, faces), EdgeList(m, m.faces[f]));
    }
  }

  /** Among faces of which one has edges there is a first edge. */
  lemma {:induction false} SomeEdgeLeads(m: Mesh, faces: seq<int>, f: int)
    ensures Natural(EdgesInOrder(m, faces))
    ensures f in faces && 0 <= LeadOf(m, f) ==> EdgesInOrder(m, faces) != []
  {
    hide EdgesInOrder, Natural;
    if faces == [] {
      assert Natural(EdgesInOrder(m, [])) by { NoEdgesYet(m); }
    } else {
      var rest, last := faces[..|faces| - 1], faces[|faces| - 1];
      assert faces == rest + [last];
      SomeEdgeLeads(m, rest, f);
      HeadOfEdges(m, rest, last);
      NaturalHead(EdgesInOrder(m, rest));
      NaturalHead(EdgesInOrder(m, faces));
    }
  }

  lemma NoEdgesYet(m: Mesh)
    ensures EdgesInOrder(m, []) == [] && Natural(EdgesInOrder(m, []))
  {
  }

  /** The first edge when a face joins the order. */
  lemma HeadWithFace(m: Mesh, faces: seq<int>, f: int)
    ensures Natural(EdgesInOrder(m, faces))
    ensures Head(EdgesInOrder(m, Join(faces, f)))
      == if EdgesInOrder(m, faces) != [] then Head(EdgesInOrder(m, faces)) else LeadOf(m, f)
  {
    hide EdgesInOrder, Natural;
    SomeEdgeLeads(m, faces, f);
    HeadOfEdges(m, faces, f);
  }

  lemma {:induction false} HeadOfKept(m: Mesh, faces: seq<int>, list: seq<int>)
    requires ListInRange(m.faces, list)
    ensures var before := EdgesInOrder(m, faces);
      Head(EdgesInOrder(m, JoinAll(faces, Kept(m.faces, list))))
      == if before != [] then Head(before) else FirstOnList(m, list)
  {
    hide EdgesInOrder, Ladder, Kept, LeadOf, Natural, Join;
    if list == [] {
      assert Kept(m.faces, list) == [] by { NoneOnList(m.faces); }
    } else {
      var n := |list| - 1;
      assert list[..n + 1] == list;
      HeadOfKept(m, faces, list[..n]);
      KeptJoins(m.faces, list, n, faces);
      var order := JoinAll(faces, Kept(m.faces, list[..n]));
      HeadWithFace(m, order, Abs(list[n]));
      HeadIsNatural(m, order);
      HeadIsNatural(m, faces);
    }
  }

  lemma NoneOnList(faces: seq<Face>)
    ensures Kept(faces, []) == []
  {
  }

  lemma HeadIsNatural(m: Mesh, faces: seq<int>)
    ensures EdgesInOrder(m, faces) != [] <==> 0 <= Head(EdgesInOrder(m, faces))
  {
    hide EdgesInOrder, Natural;
    SomeEdgeLeads(m, faces, 0);
    NaturalHead(EdgesInOrder(m, faces));
  }

  /** Copying begins with the first edge of the first ladder with edges, in the order of the areas. */
  lemma {:induction false} CopyBegins(m: Mesh, n: int)
    requires MeshInRange(m) && (n <= 1 || n <= |m.areas|)
    ensures Head(EdgesInOrder(m, FacesInOrder(m, n))) == FirstEdge(m, n)
    decreases n
  {
    hide MeshInRange, EdgesInOrder, Kept, JoinAll;
    if n <= 1 {
      NoEdgesYet(m);
    } else {
      CopyBegins(m, n - 1);
      FaceListInRange(m, n - 1);
      HeadOfKept(m, FacesInOrder(m, n - 1), FaceList(m, n - 1));
      HeadIsNatural(m, FacesInOrder(m, n - 1));
    }
  }

  lemma FirstIsFirst(m: Mesh, s: seq<Reachability>, c: Copy, t: seq<Reachability>)
    requires Compacted(m, s, c, t)
    ensures Head(c.edgeorder) == FirstEdge(m, |m.areas|)
  {
    hide EdgesInOrder, FacesInOrder, FirstEdge, EdgesCopied, FacesCopied, EdgesAreUsed, FacesAreUsed, TotalKept, TotalEdges;
    hide ReachabilitiesRenamed, AreaCopied, MeshInRange;
    CopyBegins(m, |m.areas|);
  }

  // ----- room for the vertexes

  ghost predicate NothingUsed(m: Mesh)
    requires MeshInRange(m)
  {
    forall e :: !UsedEdge(m, e)
  }

  ghost predicate SpareVertex(m: Mesh)
    requires MeshInRange(m)
  {
    exists v :: 0 <= v < |m.vertexes| && !UsedVertex(m, v)
  }

  /** The first edge that is copied has two ends, and begins where no other used edge begins or ends. */
  ghost predicate LooseStart(m: Mesh)
    requires MeshInRange(m)
  {
    var e := FirstEdge(m, |m.areas|);
    && 0 <= e < |m.edges| && m.edges[e].v0 != m.edges[e].v1
    && forall f :: UsedEdge(m, f) && f != e ==> !EndOf(m, f, m.edges[e].v0)
  }

  lemma CopiedEdges(m: Mesh, c: Copy)
    requires EdgesCopied(m, c)
    ensures forall k :: 0 <= k < |c.edgeorder| ==>
      0 <= c.edgeorder[k] < |m.edges| && EdgeInRange(m.vertexes, m.edges[c.edgeorder[k]])
    ensures Distinct(c.edgeorder)
  {
    OrderIsDistinct(c.edgeindex, c.edgeorder);
    forall k | 0 <= k < |c.edgeorder|
      ensures EdgeInRange(m.vertexes, m.edges[c.edgeorder[k]])
    {
      assert SameEnds(m.vertexes, m.edges[c.edgeorder[k]], c.mesh.vertexes, c.mesh.edges[k + 1]);
    }
  }

  /** Every used vertex is met after the first, except the start of the first edge if it is loose. */
  lemma MetAgainIfUsed(m: Mesh, s: seq<Reachability>, c: Copy, t: seq<Reachability>, v: int)
    requires Compacted(m, s, c, t) && c.edgeorder != []
    ensures 0 <= c.edgeorder[0] < |m.edges|
    ensures v in MetAgain(m, c) <==> UsedVertex(m, v) && !(LooseStart(m) && v == m.edges[c.edgeorder[0]].v0)
  {
    hide UsedEdge, Compacted, FirstEdge, EdgesCopied, MeshInRange, Ends;
    assert MeshInRange(m) && EdgesCopied(m, c) by { CompactedReads(m, s, c, t); }
    CopiedIsUsed(m, s, c, t);
    FirstIsFirst(m, s, c, t);
    CopiedEdges(m, c);
    var order, first := c.edgeorder, c.edgeorder[0];
    assert forall k :: 0 <= k < |order| ==> UsedEdge(m, order[k]) && (k > 0 ==> order[k] != first);
    assert EndOf(m, first, m.edges[first].v0) && EndOf(m, first, m.edges[first].v1);
    EndsAfterFirst(m, order, v);
    assert v in MetAgain(m, c) <==> v in Ends(m.edges, order)[1..];
    if f :| UsedEdge(m, f) && f != first && EndOf(m, f, v) {
      var k :| 0 <= k < |order| && order[k] == f;
      assert EndOf(m, order[k], v);
    }
  }

  lemma CompactedReads(m: Mesh, s: seq<Reachability>, c: Copy, t: seq<Reachability>)
    requires Compacted(m, s, c, t)
    ensures MeshInRange(m) && Consistent(m, c) && EdgesCopied(m, c)
  {
  }

  /** The vertex table has room for the copy if and only if nothing is used, or some vertex is not, or
      the start of the first edge is loose; and it never lacks more than one place. */
  lemma VertexesFit(m: Mesh, s: seq<Reachability>, c: Copy, t: seq<Reachability>)
    requires Compacted(m, s, c, t)
    ensures |c.mesh.vertexes| <= |m.vertexes| <==> NothingUsed(m) || SpareVertex(m) || LooseStart(m)
    ensures |c.mesh.vertexes| <= |m.vertexes| + 1
  {
    hide UsedEdge, UsedVertex, Compacted, FirstEdge, EdgesCopied, MeshInRange, LooseStart, MetAgain;
    assert MeshInRange(m) && EdgesCopied(m, c) by { CompactedReads(m, s, c, t); }
    CopiedIsUsed(m, s, c, t);
    RoomByMet(m, c);
    if c.edgeorder != [] {
      var first := c.edgeorder[0];
      forall v
        ensures 0 <= first < |m.edges|
        ensures v in MetAgain(m, c) <==> UsedVertex(m, v) && !(LooseStart(m) && v == m.edges[first].v0)
      {
        MetAgainIfUsed(m, s, c, t, v);
      }
      assert UsedEdge(m, first) && !NothingUsed(m);
      assert 0 <= first < |m.edges| && 0 <= m.edges[first].v0 < |m.vertexes| by { CopiedEdges(m, c); }
      assert m.edges[first].v0 in MetAgain(m, c) ==> !LooseStart(m);
    } else {
      assert NothingUsed(m) by { assert forall e :: UsedEdge(m, e) ==> e in c.edgeorder; }
    }
  }

  lemma RoomByMet(m: Mesh, c: Copy)
    requires EdgesCopied(m, c)
    ensures |c.mesh.vertexes| <= |m.vertexes| <==>
      c.edgeorder == [] || exists v :: 0 <= v < |m.vertexes| && v !in MetAgain(m, c)
    ensures |c.mesh.vertexes| <= |m.vertexes| + 1
  {
    OrderIsDistinct(c.vertexindex, c.vertexorder);
    RoomForOneMore(c.vertexorder, |m.vertexes|);
    DistinctFits(c.vertexorder, |m.vertexes|);
    assert Ends(m.edges, c.edgeorder) == [] <==> c.edgeorder == [];
    assert forall v :: v in c.vertexorder <==> v in MetAgain(m, c);
  }

  /** With closed faces no start is loose: the first vertex needs a spare place, for it is copied twice. */
  lemma ClosedWorldFits(m: Mesh, s: seq<Reachability>, c: Copy, t: seq<Reachability>)
    requires Compacted(m, s, c, t) && Closed(m)
    ensures |c.mesh.vertexes| <= |m.vertexes| <==> NothingUsed(m) || SpareVertex(m)
  {
    hide UsedEdge, Compacted, FirstEdge, MeshInRange, SpareVertex, Closed, LooseStart;
    assert MeshInRange(m) by { CompactedReads(m, s, c, t); }
    VertexesFit(m, s, c, t);
    if !NothingUsed(m) {
      FirstIsUsed(m, s, c, t);
      ClosedIsTight(m);
    }
  }

  lemma ClosedIsTight(m: Mesh)
    requires MeshInRange(m) && Closed(m)
    requires var e := FirstEdge(m, |m.areas|); 0 <= e < |m.edges| && UsedEdge(m, e)
    ensures !LooseStart(m)
  {
    hide UsedEdge, FirstEdge, MeshInRange;
    var e := FirstEdge(m, |m.areas|);
    var v := m.edges[e].v0;
    assert EndOf(m, e, v) && UsedVertex(m, v);
    var f, g :| f != g && UsedEdge(m, f) && UsedEdge(m, g) && EndOf(m, f, v) && EndOf(m, g, v);
  }

  lemma FirstIsUsed(m: Mesh, s: seq<Reachability>, c: Copy, t: seq<Reachability>)
    requires Compacted(m, s, c, t) && !NothingUsed(m)
    ensures 0 <= FirstEdge(m, |m.areas|) < |m.edges| && UsedEdge(m, FirstEdge(m, |m.areas|))
  {
    hide UsedEdge, Compacted, FirstEdge, MeshInRange, EdgesCopied;
    assert MeshInRange(m) && EdgesCopied(m, c) by { CompactedReads(m, s, c, t); }
    CopiedIsUsed(m, s, c, t);
    FirstIsFirst(m, s, c, t);
    CopiedEdges(m, c);
  }

  /** A ladder with three corners, in a world with no vertexes but these. */
  const TRIANGLE := Mesh(
    CORNERS, [Edge(0, 0), Edge(0, 1), Edge(1, 2), Edge(2, 0)], [1, 2, 3],
    [Face(0, 0, 0, 0, 0, 0), Face(0, FACE_LADDER, 3, 0, 1, 0)], [1], ONE_FACE)

  lemma TriangleEdges(m: Mesh)
    requires m == TRIANGLE && MeshInRange(m)
    ensures forall e :: 1 <= e <= 3 ==> UsedEdge(m, e)
  {
    hide MeshInRange;
    var list := EdgeList(m, m.faces[1]);
    assert FaceList(m, 1)[0] in FaceList(m, 1) && Abs(FaceList(m, 1)[0]) == 1;
    assert Lists(m, 1, 1);
    assert HasFlag(FACE_LADDER, FACE_LADDER);
    assert UsedFace(m, 1);
    forall e | 1 <= e <= 3
      ensures UsedEdge(m, e)
    {
      assert list[e - 1] in list && Abs(list[e - 1]) == e;
      assert HasEdge(m, 1, e);
    }
  }

  lemma TriangleVertex(m: Mesh, v: int)
    requires m == TRIANGLE && MeshInRange(m) && UsedVertex(m, v)
    ensures 0 <= v < 3
  {
    hide MeshInRange, UsedEdge;
    var e :| UsedEdge(m, e) && EndOf(m, e, v);
    assert e == 0 || e == 1 || e == 2 || e == 3;
  }

  lemma TriangleIsClosed(m: Mesh)
    requires m == TRIANGLE && MeshInRange(m)
    ensures Closed(m) && !NothingUsed(m) && !SpareVertex(m)
  {
    hide UsedEdge, MeshInRange, UsedVertex;
    TriangleEdges(m);
    assert UsedEdge(m, 1) && UsedEdge(m, 2) && UsedEdge(m, 3);
    TwoEdges(m, 1, 3, 0);
    TwoEdges(m, 1, 2, 1);
    TwoEdges(m, 2, 3, 2);
    forall v | UsedVertex(m, v)
      ensures 0 <= v < 3
    {
      TriangleVertex(m, v);
    }
  }

  lemma TwoEdges(m: Mesh, e: int, f: int, v: int)
    requires MeshInRange(m) && UsedEdge(m, e) && UsedEdge(m, f) && e != f && EndOf(m, e, v) && EndOf(m, f, v)
    ensures UsedVertex(m, v)
    ensures exists x, y :: x != y && UsedEdge(m, x) && UsedEdge(m, y) && EndOf(m, x, v) && EndOf(m, y, v)
  {
    hide UsedEdge, MeshInRange;
  }

  /** The copy of this world has four vertexes, one more than there is room for. */
  lemma TriangleOverflows(s: seq<Reachability>, c: Copy, t: seq<Reachability>)
    requires Compacted(TRIANGLE, s, c, t)
    ensures |c.mesh.vertexes| == |TRIANGLE.vertexes| + 1
  {
    hide Compacted, MeshInRange, Closed, NothingUsed, SpareVertex, LooseStart;
    assert MeshInRange(TRIANGLE) by { CompactedReads(TRIANGLE, s, c, t); }
    TriangleIsClosed(TRIANGLE);
    ClosedWorldFits(TRIANGLE, s, c, t);
    VertexesFit(TRIANGLE, s, c, t);
  }

  /** Where the vertex in a slot of the copy comes from. */
  ghost function Source(m: Mesh, c: Copy, slot: int): int
    requires EdgesCopied(m, c) && 0 <= slot < |c.mesh.vertexes|
  {
    if slot == 0 then Ends(m.edges, c.edgeorder)[0] else c.vertexorder[slot - 1]
  }

  /** The copy holds each used vertex once, except that the one in slot 0 is there a second time
      exactly if it is met again. */
  lemma OneVertexTwice(m: Mesh, c: Copy, i: int, j: int)
    requires EdgesCopied(m, c) && 0 <= i < j < |c.mesh.vertexes|
    ensures 0 <= Source(m, c, i) < |m.vertexes| && c.mesh.vertexes[i] == m.vertexes[Source(m, c, i)]
    ensures Source(m, c, i) == Source(m, c, j) ==> i == 0 && Source(m, c, 0) in MetAgain(m, c)
    ensures Source(m, c, 0) in MetAgain(m, c) ==>
      exists k :: 1 <= k < |c.mesh.vertexes| && Source(m, c, k) == Source(m, c, 0)
  {
    OrderIsDistinct(c.vertexindex, c.vertexorder);
    assert forall v :: v in c.vertexorder <==> v in MetAgain(m, c);
    assert Source(m, c, j) in c.vertexorder;
    if Source(m, c, 0) in MetAgain(m, c) {
      var k :| 0 <= k < |c.vertexorder| && c.vertexorder[k] == Source(m, c, 0);
      assert Source(m, c, k + 1) == Source(m, c, 0);
    }
  }

  // ----- room for the index tables

  /** The face lists of the real areas, and the edge lists of the faces, do not overlap. */
  ghost predicate ListsApart(m: Mesh) {
    && (forall a, b :: 1 <= a < b < |m.areas| ==>
          Apart(m.areas[a].firstface, m.areas[a].numfaces, m.areas[b].firstface, m.areas[b].numfaces))
    && (forall f, g :: 0 <= f < g < |m.faces| ==>
          Apart(m.faces[f].firstedge, m.faces[f].numedges, m.faces[g].firstedge, m.faces[g].numedges))
  }

  predicate Apart(i: int, n: int, j: int, k: int) {
    i + n <= j || j + k <= i || n == 0 || k == 0
  }

  /** A stretch of an index table. */
  datatype Span = Span(first: int, len: nat)

  predicate InSpan(s: Span, x: int) {
    s.first <= x < s.first + s.len
  }

  ghost function Places(s: Span): set<int> {
    set x | s.first <= x < s.first + s.len && InSpan(s, x)
  }

  lemma {:induction false} CountPlaces(s: Span)
    ensures |Places(s)| == s.len
    decreases s.len
  {
    if s.len > 0 {
      var shorter := s.(len := s.len - 1);
      CountPlaces(shorter);
      assert forall x :: InSpan(s, x) <==> InSpan(shorter, x) || x == s.first + s.len - 1;
      assert Places(s) == Places(shorter) + {s.first + s.len - 1};
    }
  }

  ghost predicate SpansApart(spans: seq<Span>, n: nat) {
    && (forall i :: 0 <= i < |spans| ==> 0 <= spans[i].first && spans[i].first + spans[i].len <= n)
    && (forall i, j :: 0 <= i < j < |spans| ==>
          Apart(spans[i].first, spans[i].len, spans[j].first, spans[j].len))
  }

  ghost function Total(spans: seq<Span>): nat {
    if spans == [] then 0 else Total(spans[..|spans| - 1]) + spans[|spans| - 1].len
  }

  ghost function Covered(spans: seq<Span>): set<int> {
    if spans == [] then {} else Covered(spans[..|spans| - 1]) + Places(spans[|spans| - 1])
  }

  lemma {:induction false} CoveredBySome(spans: seq<Span>, x: int)
    requires x in Covered(spans)
    ensures exists i :: 0 <= i < |spans| && InSpan(spans[i], x)
  {
    var rest, last := spans[..|spans| - 1], spans[|spans| - 1];
    if x in Covered(rest) {
      CoveredBySome(rest, x);
      var i :| 0 <= i < |rest| && InSpan(rest[i], x);
      assert InSpan(spans[i], x);
    } else {
      assert InSpan(spans[|spans| - 1], x);
    }
  }

  lemma {:induction false} CoveredCount(spans: seq<Span>, n: nat)
    requires SpansApart(spans, n)
    ensures |Covered(spans)| == Total(spans)
  {
    if spans != [] {
      var rest, last := spans[..|spans| - 1], spans[|spans| - 1];
      CoveredCount(rest, n);
      CountPlaces(last);
      forall x | x in Covered(rest)
        ensures !InSpan(last, x)
      {
        CoveredBySome(rest, x);
        var i :| 0 <= i < |rest| && InSpan(rest[i], x);
        assert Apart(spans[i].first, spans[i].len, spans[|spans| - 1].first, spans[|spans| - 1].len);
      }
      assert Covered(rest) !! Places(last);
    }
  }

  /** Stretches of a table that do not overlap are together no longer than the table. */
  lemma SpansFit(spans: seq<Span>, n: nat)
    requires SpansApart(spans, n)
    ensures Total(spans) <= n
  {
    CoveredCount(spans, n);
    CountBelow(n);
    forall x | x in Covered(spans)
      ensures x in Below(n)
    {
      CoveredBySome(spans, x);
    }
    SubsetCount(Covered(spans), Below(n));
  }

  ghost function EdgeSpans(m: Mesh, order: seq<int>): seq<Span>
    requires MeshInRange(m) && forall k :: 0 <= k < |order| ==> 0 <= order[k] < |m.faces|
  {
    seq(|order|, k requires 0 <= k < |order| =>
      assert FaceInRange(m, m.faces[order[k]]);
      Span(m.faces[order[k]].firstedge, m.faces[order[k]].numedges))
  }

  lemma {:induction false} EdgeTotal(m: Mesh, order: seq<int>)
    requires MeshInRange(m) && forall k :: 0 <= k < |order| ==> 0 <= order[k] < |m.faces|
    ensures TotalEdges(m.faces, order) == Total(EdgeSpans(m, order))
  {
    hide MeshInRange;
    if order != [] {
      var rest, spans := order[..|order| - 1], EdgeSpans(m, order);
      EdgeTotal(m, rest);
      assert spans[..|spans| - 1] == EdgeSpans(m, rest);
    }
  }

  ghost function FaceSpans(m: Mesh, n: nat): seq<Span>
    requires MeshInRange(m) && n < |m.areas|
  {
    seq(n, k requires 0 <= k < n => Span(m.areas[k + 1].firstface, m.areas[k + 1].numfaces))
  }

  lemma {:induction false} FaceTotal(m: Mesh, n: nat)
    requires MeshInRange(m) && n < |m.areas|
    ensures TotalKept(m, n + 1) <= Total(FaceSpans(m, n))
  {
    if n > 0 {
      FaceTotal(m, n - 1);
      var spans := FaceSpans(m, n);
      assert spans[..|spans| - 1] == FaceSpans(m, n - 1);
      FaceListInRange(m, n);
    }
  }

  /** When lists do not overlap, the index tables have room for the lists of the copy. */
  lemma IndexesFit(m: Mesh, s: seq<Reachability>, c: Copy, t: seq<Reachability>)
    requires Compacted(m, s, c, t) && ListsApart(m)
    ensures |c.mesh.edgeindex| <= |m.edgeindex| && |c.mesh.faceindex| <= |m.faceindex|
  {
    hide ReachabilitiesRenamed, AreaCopied, FacesAreUsed, TotalKept, TotalEdges;
    EdgeListsFit(m, c);
    FaceListsFit(m);
  }

  lemma EdgeListsFit(m: Mesh, c: Copy)
    requires MeshInRange(m) && Consistent(m, c) && ListsApart(m)
    ensures |c.mesh.edgeindex| <= |m.edgeindex|
  {
    hide EdgesCopied, EdgesAreUsed, TotalEdges, FaceCopied, Total;
    OrderIsDistinct(c.faceindex, c.faceorder);
    var order := c.faceorder;
    var spans := EdgeSpans(m, order);
    forall i | 0 <= i < |spans|
      ensures 0 <= spans[i].first && spans[i].first + spans[i].len <= |m.edgeindex|
    {
      assert FaceInRange(m, m.faces[order[i]]);
    }
    forall i, j | 0 <= i < j < |spans|
      ensures Apart(spans[i].first, spans[i].len, spans[j].first, spans[j].len)
    {
      assert order[i] != order[j];
    }
    EdgeTotal(m, order);
    SpansFit(spans, |m.edgeindex|);
  }

  lemma NoneKept(m: Mesh)
    requires MeshInRange(m)
    ensures TotalKept(m, 0) == 0
  {
  }

  lemma FaceListsFit(m: Mesh)
    requires MeshInRange(m) && ListsApart(m)
    ensures TotalKept(m, |m.areas|) <= |m.faceindex|
  {
    hide Total, TotalKept;
    if |m.areas| > 0 {
      var spans := FaceSpans(m, |m.areas| - 1);
      FaceTotal(m, |m.areas| - 1);
      forall i, j | 0 <= i < j < |spans|
        ensures Apart(spans[i].first, spans[i].len, spans[j].first, spans[j].len)
      {
        assert Apart(m.areas[i + 1].firstface, m.areas[i + 1].numfaces, m.areas[j + 1].firstface, m.areas[j + 1].numfaces);
      }
      SpansFit(spans, |m.faceindex|);
    } else {
      NoneKept(m);
    }
  }

  // ----- reachabilities

  /** Reachabilities by elevator, jump pad and bobbing platform stay as they are: they keep other
      numbers in the places of face and edge. */
  lemma CodedStay(m: Mesh, s: seq<Reachability>, c: Copy, t: seq<Reachability>, i: int)
    requires Compacted(m, s, c, t) && 0 <= i < |s|
    ensures |t| == |s|
    ensures s[i].traveltype % 0x100_0000 in {11, 18, 19} ==> t[i] == s[i]
  {
    hide AreasCopied;
    assert ReachabilityInTables(s[i], c);
  }

  /** After compaction a reachability points to the copy of its face and its edge, with the same sign,
      and to nothing if there is no copy. */
  lemma ReachabilityFollows(m: Mesh, s: seq<Reachability>, c: Copy, t: seq<Reachability>, i: int)
    requires Compacted(m, s, c, t) && 0 <= i < |s| && s[i].traveltype % 0x100_0000 !in {11, 18, 19}
    ensures |t| == |s| && Abs(s[i].facenum) < |m.faces| && Abs(s[i].edgenum) < |m.edges|
    ensures t[i] == s[i].(facenum := t[i].facenum, edgenum := t[i].edgenum)
    ensures t[i].facenum == 0 <==> Abs(s[i].facenum) !in c.faceorder
    ensures t[i].edgenum == 0 <==> Abs(s[i].edgenum) !in c.edgeorder
    ensures t[i].facenum != 0 && s[i].facenum != 0 ==>
      Visible(m, s[i].facenum) && Visible(c.mesh, t[i].facenum)
      && (ViewOf(c.mesh, t[i].facenum) == ViewOf(m, s[i].facenum) <==> Signed(m, s[i].facenum))
    ensures t[i].edgenum != 0 && s[i].edgenum != 0 ==>
      Abs(t[i].edgenum) < |c.mesh.edges| && EdgeInRange(c.mesh.vertexes, c.mesh.edges[Abs(t[i].edgenum)])
      && EdgeInRange(m.vertexes, m.edges[Abs(s[i].edgenum)])
      && Directed(c.mesh, t[i].edgenum) == Directed(m, s[i].edgenum)
  {
    hide Consistent, EdgesCopied, Numbers, MeshInRange, Visible, Signed, Directed, AreaCopied, FacesAreUsed, TotalKept;
    assert ReachabilityInTables(s[i], c);
    assert |c.faceindex| == |m.faces| && |c.edgeindex| == |m.edges| && EdgesCopied(m, c) by { ConsistentReads(m, c); }
    assert (c.faceindex[Abs(s[i].facenum)] != 0 <==> Abs(s[i].facenum) in c.faceorder)
      && (c.edgeindex[Abs(s[i].edgenum)] != 0 <==> Abs(s[i].edgenum) in c.edgeorder) by {
      ConsistentNumbers(m, c);
      NumbersListed(c.faceindex, c.faceorder, Abs(s[i].facenum));
      NumbersListed(c.edgeindex, c.edgeorder, Abs(s[i].edgenum));
    }
    if t[i].facenum != 0 && s[i].facenum != 0 {
      FaceKeepsView(m, c, s[i].facenum, t[i].facenum);
    }
    if t[i].edgenum != 0 && s[i].edgenum != 0 {
      EdgeKeepsEnds(m, c, s[i].edgenum, t[i].edgenum);
    }
  }

  /** The place in the copy, with the sign of the old number, or 0 if there is none. */
  ghost predicate NewNumber(order: seq<int>, num: int, given: int) {
    var item := if num < 0 then -num else num;
    if item !in order then given == 0
    else if num < 0 then -|order| <= given < 0 && order[-given - 1] == item
    else 0 < given <= |order| && order[given - 1] == item
  }

  lemma NumberedByPlace(table: seq<int>, order: seq<int>, num: int)
    requires Numbers(table, order) && Abs(num) < |table|
    ensures NewNumber(order, num, Renamed(table, num))
  {
    NumbersListed(table, order, Abs(num));
  }

  /** The new numbers of a reachability that is renamed. */
  lemma ReachabilityRenumbered(m: Mesh, s: seq<Reachability>, c: Copy, t: seq<Reachability>, i: int)
    requires Compacted(m, s, c, t) && 0 <= i < |s| && s[i].traveltype % 0x100_0000 !in {11, 18, 19}
    ensures |t| == |s|
    ensures NewNumber(c.faceorder, s[i].facenum, t[i].facenum) && NewNumber(c.edgeorder, s[i].edgenum, t[i].edgenum)
  {
    hide Consistent, AreaCopied, FacesAreUsed, TotalKept, Numbers, Renamed, NewNumber;
    assert ReachabilityInTables(s[i], c);
    ConsistentNumbers(m, c);
    NumberedByPlace(c.faceindex, c.faceorder, s[i].facenum);
    NumberedByPlace(c.edgeindex, c.edgeorder, s[i].edgenum);
  }

  /** Edge, face and area 0 of the copy are cleared. */
  lemma FirstAreCleared(m: Mesh, s: seq<Reachability>, c: Copy, t: seq<Reachability>)
    requires Compacted(m, s, c, t)
    ensures |c.mesh.edges| > 0 && c.mesh.edges[0] == Edge(0, 0)
    ensures |c.mesh.faces| > 0 && c.mesh.faces[0] == Face(0, 0, 0, 0, 0, 0)
    ensures |c.mesh.areas| == |m.areas|
    ensures |m.areas| > 0 ==> c.mesh.areas[0] == Area(0, 0, 0, Vec3(0, 0, 0), Vec3(0, 0, 0), Vec3(0, 0, 0))
  {
    hide Numbers, SameEnds, VertexesCopied, FaceCopied, AreaCopied, TotalKept, FacesAreUsed;
  }

  lemma ConsistentReads(m: Mesh, c: Copy)
    requires Consistent(m, c)
    ensures |c.faceindex| == |m.faces| && |c.edgeindex| == |m.edges| && EdgesCopied(m, c)
  {
  }
}
