/** The compacted copy of a world's geometry, while it is being made: what the remap tables mean
    and what every step keeps. */
module OptimizeCopy {
  import opened AasDef

  /** The geometry tables that compaction rewrites. */
  datatype Mesh = Mesh(
    vertexes: seq<Vec3>, edges: seq<Edge>, edgeindex: seq<int>,
    faces: seq<Face>, faceindex: seq<int>, areas: seq<Area>)

  /** Every index that compaction follows is in range. Area 0 is not followed. */
  ghost predicate MeshInRange(m: Mesh) {
    && (forall a :: 1 <= a < |m.areas| ==>
          && 0 <= m.areas[a].firstface && 0 <= m.areas[a].numfaces
          && m.areas[a].firstface + m.areas[a].numfaces <= |m.faceindex|)
    && (forall k :: 0 <= k < |m.faceindex| ==> Abs(m.faceindex[k]) < |m.faces|)
    && (forall f :: 0 <= f < |m.faces| ==> FaceInRange(m, m.faces[f]))
    && (forall k :: 0 <= k < |m.edgeindex| ==> Abs(m.edgeindex[k]) < |m.edges|)
    && (forall e :: 0 <= e < |m.edges| ==> EdgeInRange(m.vertexes, m.edges[e]))
  }

  predicate FaceInRange(m: Mesh, f: Face) {
    0 <= f.firstedge && 0 <= f.numedges && f.firstedge + f.numedges <= |m.edgeindex|
  }

  predicate EdgeInRange(vertexes: seq<Vec3>, e: Edge) {
    0 <= e.v0 < |vertexes| && 0 <= e.v1 < |vertexes|
  }

  predicate Ladder(f: Face) {
    HasFlag(f.faceflags, FACE_LADDER)
  }

  // ----- remap tables

  /** The table numbers the listed items 1, 2, .. in this order, and maps all others to 0. */
  ghost predicate Numbers(table: seq<int>, order: seq<int>) {
    && (forall k :: 0 <= k < |order| ==> 0 <= order[k] < |table| && table[order[k]] == k + 1)
    && (forall x :: 0 <= x < |table| ==>
          0 <= table[x] <= |order| && (table[x] != 0 ==> order[table[x] - 1] == x))
  }

  lemma NumbersNext(table: seq<int>, order: seq<int>, x: int)
    requires Numbers(table, order) && 0 <= x < |table| && table[x] == 0
    ensures Numbers(table[x := |order| + 1], order + [x])
  {
  }

  lemma NumbersListed(table: seq<int>, order: seq<int>, x: int)
    requires Numbers(table, order) && 0 <= x < |table|
    ensures table[x] != 0 <==> x in order
  {
    if table[x] != 0 {
      assert order[table[x] - 1] == x;
    }
  }

  /** Later tables keep the numbers of earlier ones. */
  lemma NumbersStay(table: seq<int>, order: seq<int>, later: seq<int>, more: seq<int>, x: int)
    requires Numbers(table, order) && Numbers(later, more) && order <= more
    requires 0 <= x < |table| && table[x] != 0
    ensures x < |later| && later[x] == table[x]
  {
    var k := table[x] - 1;
    assert more[k] == order[k] == x;
  }

  /** The new name of a signed number. */
  function Named(table: seq<int>, num: int): int
    requires Abs(num) < |table|
  {
    if num > 0 then table[num] else -table[Abs(num)]
  }

  // ----- the order of copying

  /** An order of copying that a number joins, unless it is in it. */
  function Join(order: seq<int>, x: int): seq<int> {
    if x in order then order else order + [x]
  }

  /** An order of copying that all the numbers of a list join in turn, without their signs. */
  function JoinAll(order: seq<int>, list: seq<int>): seq<int> {
    if list == [] then order else Join(JoinAll(order, list[..|list| - 1]), Abs(list[|list| - 1]))
  }

  lemma JoinNext(order: seq<int>, list: seq<int>, n: int)
    requires 0 <= n < |list|
    ensures JoinAll(order, list[..n + 1]) == Join(JoinAll(order, list[..n]), Abs(list[n]))
  {
    assert list[..n + 1][..n] == list[..n];
  }

  /** The order in which the edges of these faces are copied. */
  function EdgesInOrder(m: Mesh, faces: seq<int>): seq<int> {
    if faces == [] then []
    else
      var rest, last := EdgesInOrder(m, faces[..|faces| - 1]), faces[|faces| - 1];
      if 0 <= last < |m.faces| && FaceInRange(m, m.faces[last]) then JoinAll(rest, EdgeList(m, m.faces[last])) else rest
  }

  lemma EdgesInOrderNext(m: Mesh, faces: seq<int>, num: int)
    requires 0 <= num < |m.faces| && FaceInRange(m, m.faces[num])
    ensures EdgesInOrder(m, faces + [num]) == JoinAll(EdgesInOrder(m, faces), EdgeList(m, m.faces[num]))
  {
    assert (faces + [num])[..|faces|] == faces;
  }

  /** The order in which the ladders of the areas 1..n-1 are copied. */
  ghost function FacesInOrder(m: Mesh, n: int): seq<int>
    requires MeshInRange(m) && (n <= 1 || n <= |m.areas|)
    decreases n
  {
    if n <= 1 then [] else JoinAll(FacesInOrder(m, n - 1), Kept(m.faces, FaceList(m, n - 1)))
  }

  // ----- the copy

  datatype Copy = Copy(
    mesh: Mesh, vertexindex: seq<int>, edgeindex: seq<int>, faceindex: seq<int>,
    vertexorder: seq<int>, edgeorder: seq<int>, faceorder: seq<int>)

  /** The vertexes met when these edges are copied in turn. */
  ghost function Ends(edges: seq<Edge>, order: seq<int>): seq<int>
    requires forall k :: 0 <= k < |order| ==> 0 <= order[k] < |edges|
  {
    if order == [] then []
    else
      var last := edges[order[|order| - 1]];
      Ends(edges, order[..|order| - 1]) + [last.v0, last.v1]
  }

  /** The first vertex met takes slot 0, which the table cannot tell from no slot; the vertexes met
      after it are numbered from 1, so the first one is copied once more if it is met again. */
  ghost predicate VertexesCopied(all: seq<Vec3>, vertexes: seq<Vec3>, table: seq<int>, order: seq<int>, met: seq<int>) {
    && |table| == |all| && Numbers(table, order)
    && (forall k :: 0 <= k < |met| ==> 0 <= met[k] < |all|)
    && |vertexes| == |order| + (if met == [] then 0 else 1)
    && (if met == [] then order == [] else vertexes[0] == all[met[0]])
    && (forall k :: 0 <= k < |order| ==>
          k + 1 < |vertexes| && 0 <= order[k] < |all| && vertexes[k + 1] == all[order[k]])
    && (forall v :: v in order <==> met != [] && v in met[1..])
  }

  ghost predicate SameEnds(all: seq<Vec3>, e: Edge, vertexes: seq<Vec3>, f: Edge) {
    && EdgeInRange(all, e) && EdgeInRange(vertexes, f)
    && vertexes[f.v0] == all[e.v0] && vertexes[f.v1] == all[e.v1]
  }

  ghost predicate EdgesCopied(m: Mesh, c: Copy) {
    && |c.edgeindex| == |m.edges| && Numbers(c.edgeindex, c.edgeorder)
    && |c.mesh.edges| == |c.edgeorder| + 1 && c.mesh.edges[0] == Edge(0, 0)
    && (forall k :: 0 <= k < |c.edgeorder| ==>
          SameEnds(m.vertexes, m.edges[c.edgeorder[k]], c.mesh.vertexes, c.mesh.edges[k + 1]))
    && VertexesCopied(m.vertexes, c.mesh.vertexes, c.vertexindex, c.vertexorder, Ends(m.edges, c.edgeorder))
  }

  /** An index entry and its new name. */
  ghost predicate EntryCopied(table: seq<int>, num: int, name: int) {
    Abs(num) < |table| && table[Abs(num)] != 0 && name == Named(table, num)
  }

  /** The list is in the index from place first on, under the new names. */
  ghost predicate ListCopied(table: seq<int>, list: seq<int>, index: seq<int>, first: int) {
    && 0 <= first && first + |list| <= |index|
    && forall j :: 0 <= j < |list| ==> EntryCopied(table, list[j], index[first + j])
  }

  function EdgeList(m: Mesh, f: Face): seq<int>
    requires FaceInRange(m, f)
  {
    m.edgeindex[f.firstedge..f.firstedge + f.numedges]
  }

  ghost predicate FaceCopied(m: Mesh, f: Face, c: Copy, g: Face) {
    && g == f.(firstedge := g.firstedge) && FaceInRange(m, f)
    && ListCopied(c.edgeindex, EdgeList(m, f), c.mesh.edgeindex, g.firstedge)
  }

  /** The edges of a face, without their signs. */
  ghost predicate HasEdge(m: Mesh, f: int, e: int) {
    && 0 <= f < |m.faces| && FaceInRange(m, m.faces[f])
    && exists num :: num in EdgeList(m, m.faces[f]) && Abs(num) == e
  }

  ghost predicate FacesCopied(m: Mesh, c: Copy) {
    && |c.faceindex| == |m.faces| && Numbers(c.faceindex, c.faceorder)
    && |c.mesh.faces| == |c.faceorder| + 1 && c.mesh.faces[0] == Face(0, 0, 0, 0, 0, 0)
    && (forall k :: 0 <= k < |c.faceorder| ==>
          && Ladder(m.faces[c.faceorder[k]])
          && FaceCopied(m, m.faces[c.faceorder[k]], c, c.mesh.faces[k + 1]))
  }

  /** Every copied edge belongs to a copied face, or to the face that is being copied. */
  ghost predicate EdgesAreUsed(m: Mesh, c: Copy, current: set<int>) {
    forall e :: e in c.edgeorder ==> exists f :: (f in c.faceorder || f in current) && HasEdge(m, f, e)
  }

  // ----- growth

  ghost predicate Extends(c: Copy, d: Copy) {
    && c.mesh.vertexes <= d.mesh.vertexes && c.mesh.edges <= d.mesh.edges
    && c.mesh.edgeindex <= d.mesh.edgeindex && c.mesh.faces <= d.mesh.faces
    && c.edgeorder <= d.edgeorder && c.faceorder <= d.faceorder
    && c.mesh.faceindex <= d.mesh.faceindex
  }

  lemma ExtendsTransitive(c: Copy, d: Copy, e: Copy)
    requires Extends(c, d) && Extends(d, e)
    ensures Extends(c, e)
  {
  }

  lemma EntryStays(table: seq<int>, order: seq<int>, later: seq<int>, more: seq<int>, num: int, name: int)
    requires Numbers(table, order) && Numbers(later, more) && order <= more
    requires EntryCopied(table, num, name)
    ensures EntryCopied(later, num, name)
  {
    NumbersStay(table, order, later, more, Abs(num));
  }

  lemma ListStays(table: seq<int>, order: seq<int>, later: seq<int>, more: seq<int>,
                  list: seq<int>, index: seq<int>, longer: seq<int>, first: int)
    requires ListCopied(table, list, index, first) && index <= longer && order <= more
    requires Numbers(table, order) && Numbers(later, more)
    ensures ListCopied(later, list, longer, first)
  {
    forall j | 0 <= j < |list|
      ensures EntryCopied(later, list[j], longer[first + j])
    {
      EntryStays(table, order, later, more, list[j], index[first + j]);
    }
  }

  /** Faces stay copied while only edges and their lists grow. */
  lemma FacesStay(m: Mesh, c: Copy, d: Copy)
    requires FacesCopied(m, c) && Extends(c, d)
    requires d.faceindex == c.faceindex && d.faceorder == c.faceorder && d.mesh.faces == c.mesh.faces
    requires Numbers(c.edgeindex, c.edgeorder) && Numbers(d.edgeindex, d.edgeorder)
    ensures FacesCopied(m, d)
  {
    forall k | 0 <= k < |d.faceorder|
      ensures FaceCopied(m, m.faces[d.faceorder[k]], d, d.mesh.faces[k + 1])
    {
      assert FaceCopied(m, m.faces[c.faceorder[k]], c, c.mesh.faces[k + 1]);
      ListStays(c.edgeindex, c.edgeorder, d.edgeindex, d.edgeorder, EdgeList(m, m.faces[c.faceorder[k]]),
                c.mesh.edgeindex, d.mesh.edgeindex, c.mesh.faces[k + 1].firstedge);
    }
  }

  // ----- steps

  lemma FirstVertexCopied(all: seq<Vec3>, vertexes: seq<Vec3>, table: seq<int>, order: seq<int>, v: int)
    requires VertexesCopied(all, vertexes, table, order, []) && 0 <= v < |all|
    ensures VertexesCopied(all, vertexes + [all[v]], table[v := |vertexes|], order, [v])
  {
    assert table[v] == 0;
    assert table[v := 0] == table;
    assert [v][1..] == [];
  }

  lemma VertexCopied(all: seq<Vec3>, vertexes: seq<Vec3>, table: seq<int>, order: seq<int>, met: seq<int>, v: int)
    requires VertexesCopied(all, vertexes, table, order, met) && met != []
    requires 0 <= v < |all| && table[v] == 0
    ensures VertexesCopied(all, vertexes + [all[v]], table[v := |vertexes|], order + [v], met + [v])
  {
    hide Numbers;
    assert Numbers(table[v := |vertexes|], order + [v]) by { NumbersNext(table, order, v); }
    assert (met + [v])[1..] == met[1..] + [v];
    var longer, more := vertexes + [all[v]], order + [v];
    forall k | 0 <= k < |more|
      ensures k + 1 < |longer| && 0 <= more[k] < |all| && longer[k + 1] == all[more[k]]
    {
      if k < |order| {
        assert 0 <= order[k] < |all|;
        assert vertexes[k + 1] == all[order[k]];
      }
    }
    forall k | 0 <= k < |met + [v]|
      ensures 0 <= (met + [v])[k] < |all|
    {
      assert k < |met| ==> (met + [v])[k] == met[k];
    }
  }

  lemma VertexKnown(all: seq<Vec3>, vertexes: seq<Vec3>, table: seq<int>, order: seq<int>, met: seq<int>, v: int)
    requires VertexesCopied(all, vertexes, table, order, met) && 0 <= v < |all| && table[v] != 0
    ensures VertexesCopied(all, vertexes, table, order, met + [v])
    ensures 0 <= table[v] < |vertexes| && vertexes[table[v]] == all[v]
  {
    NumbersListed(table, order, v);
    assert (met + [v])[1..] == met[1..] + [v];
  }

  lemma EndsOfNext(edges: seq<Edge>, order: seq<int>, num: int)
    requires (forall k :: 0 <= k < |order| ==> 0 <= order[k] < |edges|) && 0 <= num < |edges|
    ensures forall k :: 0 <= k < |order + [num]| ==> 0 <= (order + [num])[k] < |edges|
    ensures Ends(edges, order + [num]) == Ends(edges, order) + [edges[num].v0] + [edges[num].v1]
  {
    assert (order + [num])[..|order|] == order;
  }

  lemma EdgeAdded(m: Mesh, c: Copy, d: Copy, num: int, edge: Edge)
    requires EdgesCopied(m, c) && 0 <= num < |m.edges| && c.edgeindex[num] == 0
    requires c.mesh.vertexes <= d.mesh.vertexes
    requires SameEnds(m.vertexes, m.edges[num], d.mesh.vertexes, edge)
    requires d.mesh.edges == c.mesh.edges + [edge]
    requires d.edgeindex == c.edgeindex[num := |c.mesh.edges|] && d.edgeorder == c.edgeorder + [num]
    requires VertexesCopied(m.vertexes, d.mesh.vertexes, d.vertexindex, d.vertexorder,
                            Ends(m.edges, c.edgeorder) + [m.edges[num].v0] + [m.edges[num].v1])
    ensures EdgesCopied(m, d)
  {
    hide VertexesCopied, Ends;
    NumbersNext(c.edgeindex, c.edgeorder, num);
    EndsOfNext(m.edges, c.edgeorder, num);
    forall k | 0 <= k < |d.edgeorder|
      ensures SameEnds(m.vertexes, m.edges[d.edgeorder[k]], d.mesh.vertexes, d.mesh.edges[k + 1])
    {
      if k < |c.edgeorder| {
        assert SameEnds(m.vertexes, m.edges[c.edgeorder[k]], c.mesh.vertexes, c.mesh.edges[k + 1]);
      }
    }
  }

  /** What holds when the first n edges of a face have been copied, from copy c to copy d. */
  ghost predicate FaceMidway(m: Mesh, c: Copy, d: Copy, num: int, n: int) {
    && 0 <= num < |m.faces| && FaceInRange(m, m.faces[num]) && 0 <= n <= m.faces[num].numedges
    && EdgesCopied(m, d) && Extends(c, d) && EdgesAreUsed(m, d, {num})
    && d.edgeorder == JoinAll(c.edgeorder, EdgeList(m, m.faces[num])[..n])
    && d.faceindex == c.faceindex && d.faceorder == c.faceorder && d.mesh.faces == c.mesh.faces
    && d.mesh.faceindex == c.mesh.faceindex && d.mesh.areas == c.mesh.areas
    && |d.mesh.edgeindex| == |c.mesh.edgeindex| + n
    && ListCopied(d.edgeindex, EdgeList(m, m.faces[num])[..n], d.mesh.edgeindex, |c.mesh.edgeindex|)
  }

  lemma FaceStarts(m: Mesh, c: Copy, num: int)
    requires MeshInRange(m) && Consistent(m, c) && 0 <= num < |m.faces|
    ensures FaceMidway(m, c, c, num, 0)
  {
  }

  lemma ListGrows(table: seq<int>, list: seq<int>, index: seq<int>, first: int, num: int, name: int)
    requires ListCopied(table, list, index, first) && |index| == first + |list|
    requires EntryCopied(table, num, name)
    ensures ListCopied(table, list + [num], index + [name], first)
  {
  }

  lemma EdgesUsedGrow(m: Mesh, d: Copy, e: Copy, num: int, edgenum: int)
    requires EdgesAreUsed(m, d, {num}) && e.faceorder == d.faceorder
    requires HasEdge(m, num, Abs(edgenum))
    requires e.edgeorder == d.edgeorder || e.edgeorder == d.edgeorder + [Abs(edgenum)]
    ensures EdgesAreUsed(m, e, {num})
  {
  }

  lemma EdgesCopiedAnyway(m: Mesh, c: Copy, d: Copy)
    requires EdgesCopied(m, c)
    requires d.mesh.vertexes == c.mesh.vertexes && d.mesh.edges == c.mesh.edges
    requires d.vertexindex == c.vertexindex && d.vertexorder == c.vertexorder
    requires d.edgeindex == c.edgeindex && d.edgeorder == c.edgeorder
    ensures EdgesCopied(m, d)
  {
  }

  lemma EdgesAreNumbered(m: Mesh, c: Copy)
    requires EdgesCopied(m, c)
    ensures Numbers(c.edgeindex, c.edgeorder)
  {
  }

  lemma FaceGoesOn(m: Mesh, c: Copy, d: Copy, e: Copy, num: int, n: int, name: int)
    requires FaceMidway(m, c, d, num, n) && n < m.faces[num].numedges
    requires EdgesCopied(m, e) && Extends(d, e)
    requires e.mesh == d.mesh.(vertexes := e.mesh.vertexes, edges := e.mesh.edges)
    requires e.faceindex == d.faceindex && e.faceorder == d.faceorder
    requires e.edgeorder == Join(d.edgeorder, Abs(m.edgeindex[m.faces[num].firstedge + n]))
    requires EntryCopied(e.edgeindex, m.edgeindex[m.faces[num].firstedge + n], name)
    ensures FaceMidway(m, c, e.(mesh := e.mesh.(edgeindex := e.mesh.edgeindex + [name])), num, n + 1)
  {
    hide EdgesCopied, EdgesAreUsed, ListCopied, EntryCopied, Numbers, HasEdge;
    var g := e.(mesh := e.mesh.(edgeindex := e.mesh.edgeindex + [name]));
    var list, first := EdgeList(m, m.faces[num]), |c.mesh.edgeindex|;
    assert list[n] == m.edgeindex[m.faces[num].firstedge + n];
    JoinNext(c.edgeorder, list, n);
    assert EdgesCopied(m, g) by { EdgesCopiedAnyway(m, e, g); }
    assert EdgesAreUsed(m, g, {num}) by {
      assert HasEdge(m, num, Abs(list[n])) by { EdgeOfFace(m, num, n); }
      EdgesUsedGrow(m, d, g, num, list[n]);
    }
    assert ListCopied(g.edgeindex, list[..n + 1], g.mesh.edgeindex, first) by {
      assert Numbers(d.edgeindex, d.edgeorder) by { EdgesAreNumbered(m, d); }
      assert Numbers(e.edgeindex, e.edgeorder) by { EdgesAreNumbered(m, e); }
      ListStays(d.edgeindex, d.edgeorder, e.edgeindex, e.edgeorder, list[..n], d.mesh.edgeindex, e.mesh.edgeindex, first);
      ListGrows(e.edgeindex, list[..n], e.mesh.edgeindex, first, list[n], name);
      assert list[..n + 1] == list[..n] + [list[n]];
    }
  }

  lemma EdgeOfFace(m: Mesh, num: int, n: int)
    requires 0 <= num < |m.faces| && FaceInRange(m, m.faces[num]) && 0 <= n < m.faces[num].numedges
    ensures HasEdge(m, num, Abs(EdgeList(m, m.faces[num])[n]))
  {
    assert EdgeList(m, m.faces[num])[n] in EdgeList(m, m.faces[num]);
  }

  lemma FaceAdded(m: Mesh, c: Copy, d: Copy, e: Copy, num: int)
    requires 0 <= num < |m.faces| && FacesCopied(m, c) && FaceMidway(m, c, d, num, m.faces[num].numedges)
    requires Numbers(c.edgeindex, c.edgeorder)
    requires Ladder(m.faces[num]) && c.faceindex[num] == 0
    requires e == d.(mesh := d.mesh.(faces := d.mesh.faces + [m.faces[num].(firstedge := |c.mesh.edgeindex|)]),
                     faceindex := d.faceindex[num := |d.mesh.faces|], faceorder := d.faceorder + [num])
    ensures EdgesCopied(m, e) && FacesCopied(m, e) && EdgesAreUsed(m, e, {}) && Extends(c, e)
    ensures |e.mesh.edgeindex| - |c.mesh.edgeindex|
      == TotalEdges(m.faces, e.faceorder) - TotalEdges(m.faces, c.faceorder)
  {
    hide VertexesCopied, SameEnds, HasEdge, ListCopied, Ladder;
    FacesStay(m, c, d);
    NumbersNext(c.faceindex, c.faceorder, num);
    assert e.faceorder[..|e.faceorder| - 1] == c.faceorder;
    assert EdgeList(m, m.faces[num])[..m.faces[num].numedges] == EdgeList(m, m.faces[num]);
    forall k | 0 <= k < |e.faceorder|
      ensures Ladder(m.faces[e.faceorder[k]]) && FaceCopied(m, m.faces[e.faceorder[k]], e, e.mesh.faces[k + 1])
    {
      if k < |c.faceorder| {
        assert FaceCopied(m, m.faces[d.faceorder[k]], d, d.mesh.faces[k + 1]);
      }
    }
  }

  // ----- areas

  predicate ListInRange(faces: seq<Face>, list: seq<int>) {
    forall k :: 0 <= k < |list| ==> Abs(list[k]) < |faces|
  }

  /** A face list without the faces that are not ladders. */
  ghost function Kept(faces: seq<Face>, list: seq<int>): (r: seq<int>)
    requires ListInRange(faces, list)
    ensures |r| <= |list|
    ensures forall num :: num in r <==> num in list && Ladder(faces[Abs(num)])
  {
    if list == [] then []
    else
      var last := list[|list| - 1];
      Kept(faces, list[..|list| - 1]) + (if Ladder(faces[Abs(last)]) then [last] else [])
  }

  ghost function FaceList(m: Mesh, a: int): seq<int>
    requires MeshInRange(m) && 1 <= a < |m.areas|
  {
    m.faceindex[m.areas[a].firstface..m.areas[a].firstface + m.areas[a].numfaces]
  }

  ghost predicate AreaCopied(m: Mesh, c: Copy, a: int)
    requires MeshInRange(m) && 1 <= a < |m.areas| == |c.mesh.areas|
  {
    var kept := Kept(m.faces, FaceList(m, a));
    && c.mesh.areas[a] == m.areas[a].(numfaces := |kept|, firstface := c.mesh.areas[a].firstface)
    && ListCopied(c.faceindex, kept, c.mesh.faceindex, c.mesh.areas[a].firstface)
  }

  /** Every copied face is on the face list of one of the areas 1..n-1. */
  ghost predicate FacesAreUsed(m: Mesh, c: Copy, n: int)
    requires MeshInRange(m) && (n <= 1 || n <= |m.areas|)
  {
    forall f :: f in c.faceorder ==> exists a :: 1 <= a < n && Lists(m, a, f)
  }

  ghost predicate Lists(m: Mesh, a: int, f: int)
    requires MeshInRange(m) && 1 <= a < |m.areas|
  {
    exists num :: num in FaceList(m, a) && Abs(num) == f
  }

  /** The length of the edge lists of these faces together. */
  ghost function TotalEdges(faces: seq<Face>, order: seq<int>): int {
    if order == [] then 0
    else
      var last := order[|order| - 1];
      TotalEdges(faces, order[..|order| - 1]) + (if 0 <= last < |faces| then faces[last].numedges else 0)
  }

  /** The number of ladders on the face lists of the areas 1..n-1 together. */
  ghost function TotalKept(m: Mesh, n: int): int
    requires MeshInRange(m) && (n <= 1 || n <= |m.areas|)
    decreases n
  {
    if n <= 1 then 0 else TotalKept(m, n - 1) + |Kept(m.faces, FaceList(m, n - 1))|
  }

  /** What holds of the copy between two faces. */
  ghost predicate Consistent(m: Mesh, c: Copy) {
    && EdgesCopied(m, c) && FacesCopied(m, c) && EdgesAreUsed(m, c, {})
    && |c.mesh.edgeindex| == TotalEdges(m.faces, c.faceorder)
    && EdgesOrdered(m, c)
  }

  ghost predicate EdgesOrdered(m: Mesh, c: Copy) {
    c.edgeorder == EdgesInOrder(m, c.faceorder)
  }

  lemma FaceCompletes(m: Mesh, c: Copy, d: Copy, e: Copy, num: int)
    requires 0 <= num < |m.faces| && Consistent(m, c) && FaceMidway(m, c, d, num, m.faces[num].numedges)
    requires Ladder(m.faces[num]) && |c.faceindex| == |m.faces| && c.faceindex[num] == 0
    requires e == d.(mesh := d.mesh.(faces := d.mesh.faces + [m.faces[num].(firstedge := |c.mesh.edgeindex|)]),
                     faceindex := d.faceindex[num := |d.mesh.faces|], faceorder := d.faceorder + [num])
    ensures Consistent(m, e) && Extends(c, e)
  {
    ConsistentNumbers(m, c);
    hide EdgesCopied, FacesCopied, EdgesAreUsed, EdgesOrdered, TotalEdges, FaceMidway;
    assert EdgesOrdered(m, e) by { FaceOrdered(m, c, d, e, num); }
    FaceAdded(m, c, d, e, num);
  }

  lemma FaceOrdered(m: Mesh, c: Copy, d: Copy, e: Copy, num: int)
    requires 0 <= num < |m.faces| && EdgesOrdered(m, c) && FaceMidway(m, c, d, num, m.faces[num].numedges)
    requires e.edgeorder == d.edgeorder && e.faceorder == d.faceorder + [num]
    ensures EdgesOrdered(m, e)
  {
    hide EdgesCopied, EdgesAreUsed, ListCopied, EdgesInOrder, JoinAll, Extends;
    EdgesInOrderNext(m, c.faceorder, num);
    assert EdgeList(m, m.faces[num])[..m.faces[num].numedges] == EdgeList(m, m.faces[num]);
  }

  const NO_AREA := Area(0, 0, 0, Vec3(0, 0, 0), Vec3(0, 0, 0), Vec3(0, 0, 0))

  /** The areas 1..n-1 have been copied, and the others are still cleared. */
  ghost predicate AreasCopied(m: Mesh, c: Copy, n: int) {
    && MeshInRange(m) && Consistent(m, c) && |c.mesh.areas| == |m.areas| && (n <= 1 || n <= |m.areas|)
    && (forall a :: 1 <= a < n ==> AreaCopied(m, c, a))
    && (forall a :: 0 <= a < |m.areas| && (a == 0 || n <= a) ==> c.mesh.areas[a] == NO_AREA)
    && FacesAreUsed(m, c, n) && FacesOrdered(m, c, n)
    && |c.mesh.faceindex| == TotalKept(m, n)
  }

  /** What holds when the first n faces of area a have been seen, from copy c to copy d. */
  ghost predicate AreaMidway(m: Mesh, c: Copy, d: Copy, a: int, n: int) {
    && MeshInRange(m) && 1 <= a < |m.areas| && 0 <= n <= m.areas[a].numfaces
    && Consistent(m, d) && Extends(c, d) && d.mesh.areas == c.mesh.areas
    && FacesAreUsed(m, d, a + 1)
    && KeptCopied(m.faces, FaceList(m, a)[..n], d.faceindex, d.mesh.faceindex, |c.mesh.faceindex|)
    && FacesJoined(m, c, d, FaceList(m, a)[..n])
  }

  ghost predicate FacesOrdered(m: Mesh, c: Copy, n: int)
    requires MeshInRange(m) && (n <= 1 || n <= |m.areas|)
  {
    c.faceorder == FacesInOrder(m, n)
  }

  /** From copy c to copy d the ladders of a list have joined the order of copying. */
  ghost predicate FacesJoined(m: Mesh, c: Copy, d: Copy, list: seq<int>) {
    ListInRange(m.faces, list) && d.faceorder == JoinAll(c.faceorder, Kept(m.faces, list))
  }

  /** The ladders on a list have been renamed into the end of the index, from place first on. */
  ghost predicate KeptCopied(faces: seq<Face>, list: seq<int>, table: seq<int>, index: seq<int>, first: int) {
    && ListInRange(faces, list)
    && |index| == first + |Kept(faces, list)| && ListCopied(table, Kept(faces, list), index, first)
  }

  lemma AreaStarts(m: Mesh, c: Copy, a: int)
    requires AreasCopied(m, c, a) && 1 <= a < |m.areas|
    ensures AreaMidway(m, c, c, a, 0)
  {
  }

  lemma FacesAreNumbered(m: Mesh, c: Copy)
    requires FacesCopied(m, c)
    ensures Numbers(c.faceindex, c.faceorder)
  {
  }

  lemma ConsistentAnyway(m: Mesh, c: Copy, d: Copy)
    requires Consistent(m, c)
    requires d == c.(mesh := c.mesh.(faceindex := d.mesh.faceindex, areas := d.mesh.areas))
    ensures Consistent(m, d)
  {
    EdgesCopiedAnyway(m, c, d);
    forall k | 0 <= k < |c.faceorder|
      ensures FaceCopied(m, m.faces[d.faceorder[k]], d, d.mesh.faces[k + 1])
    {
      assert FaceCopied(m, m.faces[c.faceorder[k]], c, c.mesh.faces[k + 1]);
    }
  }

  lemma KeptNext(faces: seq<Face>, list: seq<int>, n: int)
    requires ListInRange(faces, list)
    requires 0 <= n < |list|
    ensures Kept(faces, list[..n + 1])
      == Kept(faces, list[..n]) + (if Ladder(faces[Abs(list[n])]) then [list[n]] else [])
  {
    assert list[..n + 1][..n] == list[..n];
  }

  lemma FacesUsedGrow(m: Mesh, d: Copy, e: Copy, a: int, n: int)
    requires MeshInRange(m) && 1 <= a < |m.areas| && 0 <= n < m.areas[a].numfaces && FacesAreUsed(m, d, a + 1)
    requires e.faceorder == d.faceorder || e.faceorder == d.faceorder + [Abs(FaceList(m, a)[n])]
    ensures FacesAreUsed(m, e, a + 1)
  {
    assert FaceList(m, a)[n] in FaceList(m, a);
    assert Lists(m, a, Abs(FaceList(m, a)[n]));
  }

  /** The face that comes next on the list of an area. */
  ghost predicate NextFace(m: Mesh, a: int, n: int, facenum: int) {
    && MeshInRange(m) && 1 <= a < |m.areas| && 0 <= n < m.areas[a].numfaces
    && FaceList(m, a)[n] == facenum && Abs(facenum) < |m.faces|
  }

  lemma AreaGoesOn(m: Mesh, c: Copy, d: Copy, e: Copy, f: Copy, a: int, n: int, facenum: int, name: int)
    requires AreaMidway(m, c, d, a, n) && NextFace(m, a, n, facenum)
    requires Consistent(m, e) && Extends(d, e)
    requires e.mesh.areas == d.mesh.areas && e.mesh.faceindex == d.mesh.faceindex
    requires e.faceorder == if Ladder(m.faces[Abs(facenum)]) then Join(d.faceorder, Abs(facenum)) else d.faceorder
    requires Ladder(m.faces[Abs(facenum)]) ==> EntryCopied(e.faceindex, facenum, name)
    requires f == if !Ladder(m.faces[Abs(facenum)]) then e
                  else e.(mesh := e.mesh.(faceindex := e.mesh.faceindex + [name]))
    ensures AreaMidway(m, c, f, a, n + 1)
  {
    hide Consistent, ListCopied, EntryCopied, Numbers, FacesAreUsed, Ladder, Kept, MeshInRange;
    assert Consistent(m, f) by { ConsistentAnyway(m, e, f); }
    assert FacesAreUsed(m, f, a + 1) by { FacesUsedGrow(m, d, f, a, n); }
    var list, first := FaceList(m, a), |c.mesh.faceindex|;
    assert ListInRange(m.faces, list) && |list| == m.areas[a].numfaces by { FaceListInRange(m, a); }
    assert Numbers(d.faceindex, d.faceorder) by { ConsistentNumbers(m, d); }
    assert Numbers(e.faceindex, e.faceorder) by { ConsistentNumbers(m, e); }
    assert FacesJoined(m, c, f, list[..n + 1]) by { KeptJoins(m.faces, list, n, c.faceorder); }
    FaceListGoesOn(m.faces, list, n, d.faceindex, d.faceorder, e.faceindex, e.faceorder, d.mesh.faceindex, first, name);
  }

  lemma KeptJoins(faces: seq<Face>, list: seq<int>, n: int, order: seq<int>)
    requires ListInRange(faces, list) && 0 <= n < |list|
    ensures ListInRange(faces, list[..n]) && ListInRange(faces, list[..n + 1])
    ensures JoinAll(order, Kept(faces, list[..n + 1]))
      == var before := JoinAll(order, Kept(faces, list[..n]));
         if Ladder(faces[Abs(list[n])]) then Join(before, Abs(list[n])) else before
  {
    hide Ladder;
    KeptNext(faces, list, n);
    var kept := Kept(faces, list[..n]);
    if Ladder(faces[Abs(list[n])]) {
      assert (kept + [list[n]])[..|kept|] == kept;
    } else {
      assert Kept(faces, list[..n + 1]) == kept;
    }
  }

  lemma FaceListInRange(m: Mesh, a: int)
    requires MeshInRange(m) && 1 <= a < |m.areas|
    ensures ListInRange(m.faces, FaceList(m, a)) && |FaceList(m, a)| == m.areas[a].numfaces
  {
  }

  /** The name of a ladder is added to the list, and other faces are passed over. */
  lemma FaceListGoesOn(faces: seq<Face>, list: seq<int>, n: int, table: seq<int>, order: seq<int>,
                       later: seq<int>, more: seq<int>, index: seq<int>, first: int, name: int)
    requires ListInRange(faces, list) && 0 <= n < |list|
    requires KeptCopied(faces, list[..n], table, index, first)
    requires Numbers(table, order) && Numbers(later, more) && order <= more
    requires Ladder(faces[Abs(list[n])]) ==> EntryCopied(later, list[n], name)
    ensures KeptCopied(faces, list[..n + 1], later, if Ladder(faces[Abs(list[n])]) then index + [name] else index, first)
  {
    hide ListCopied, EntryCopied, Numbers, Ladder, Kept;
    var kept := Kept(faces, list[..n]);
    ListStays(table, order, later, more, kept, index, index, first);
    KeptNext(faces, list, n);
    if Ladder(faces[Abs(list[n])]) {
      ListGrows(later, kept, index, first, list[n], name);
    } else {
      assert Kept(faces, list[..n + 1]) == kept;
    }
  }

  lemma ConsistentNumbers(m: Mesh, c: Copy)
    requires Consistent(m, c)
    ensures Numbers(c.faceindex, c.faceorder)
    ensures Numbers(c.edgeindex, c.edgeorder)
  {
  }

  lemma AreaOrdered(m: Mesh, c: Copy, d: Copy, e: Copy, a: int)
    requires MeshInRange(m) && 1 <= a < |m.areas| && FacesOrdered(m, c, a) && FacesJoined(m, c, d, FaceList(m, a))
    requires e.faceorder == d.faceorder
    ensures FacesOrdered(m, e, a + 1)
  {
    hide Kept, JoinAll;
  }

  /** The copy of an area whose ladders are in the index from this place on. */
  ghost function NewArea(m: Mesh, a: int, first: int): Area
    requires MeshInRange(m) && 1 <= a < |m.areas|
  {
    m.areas[a].(numfaces := |Kept(m.faces, FaceList(m, a))|, firstface := first)
  }

  lemma AreaAdded(m: Mesh, c: Copy, d: Copy, e: Copy, a: int)
    requires 1 <= a < |m.areas| && AreasCopied(m, c, a) && AreaMidway(m, c, d, a, m.areas[a].numfaces)
    requires e == d.(mesh := d.mesh.(areas := d.mesh.areas[a := NewArea(m, a, |c.mesh.faceindex|)]))
    ensures AreasCopied(m, e, a + 1)
  {
    hide EdgesCopied, FacesCopied, EdgesAreUsed, ListCopied, Numbers, Kept, Consistent, FacesOrdered, FacesJoined;
    assert FaceList(m, a)[..m.areas[a].numfaces] == FaceList(m, a);
    assert FacesOrdered(m, e, a + 1) by { AreaOrdered(m, c, d, e, a); }
    assert Consistent(m, e) by { ConsistentAnyway(m, d, e); }
    assert Numbers(c.faceindex, c.faceorder) by { ConsistentNumbers(m, c); }
    assert Numbers(d.faceindex, d.faceorder) by { ConsistentNumbers(m, d); }
    forall b | 1 <= b < a + 1
      ensures AreaCopied(m, e, b)
    {
      if b < a {
        assert AreaCopied(m, c, b);
        ListStays(c.faceindex, c.faceorder, d.faceindex, d.faceorder, Kept(m.faces, FaceList(m, b)),
                  c.mesh.faceindex, d.mesh.faceindex, c.mesh.areas[b].firstface);
      }
    }
  }
}
