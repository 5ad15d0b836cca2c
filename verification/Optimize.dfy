/** Compaction: the geometry is copied area by area, keeping ladder faces only, and the
    reachabilities are renamed to match. */
module Optimize {
  import opened AasDef
  import opened OptimizeCopy

  const TRAVELTYPE_MASK := 0xFFFFFF
  const TRAVEL_ELEVATOR := 11
  const TRAVEL_JUMPPAD := 18
  const TRAVEL_FUNCBOB := 19

  function MeshOf(w: AasWorld): Mesh
    reads w, w.vertexes, w.edges, w.edgeindex, w.faces, w.faceindex, w.areas
  {
    Mesh(w.vertexes[..], w.edges[..], w.edgeindex[..], w.faces[..], w.faceindex[..], w.areas[..])
  }

  /** The copy in the making. Number 0 is a dummy edge and a dummy face, and in the remap tables it
      means that there is no copy yet. The order fields list what has been numbered. */
  class Optimized {
    var vertexes: seq<Vec3>
    var edges: seq<Edge>
    var edgeindex: seq<int>
    var faces: seq<Face>
    var faceindex: seq<int>
    const areas: array<Area>
    const vertexoptimizeindex: array<int>
    const edgeoptimizeindex: array<int>
    const faceoptimizeindex: array<int>
    ghost var vertexorder: seq<int>
    ghost var edgeorder: seq<int>
    ghost var faceorder: seq<int>

    ghost function Snapshot(): Copy
      reads this, areas, vertexoptimizeindex, edgeoptimizeindex, faceoptimizeindex
    {
      Copy(Mesh(vertexes, edges, edgeindex, faces, faceindex, areas[..]),
           vertexoptimizeindex[..], edgeoptimizeindex[..], faceoptimizeindex[..],
           vertexorder, edgeorder, faceorder)
    }

    constructor (w: AasWorld)
      ensures fresh(areas) && fresh(vertexoptimizeindex) && fresh(edgeoptimizeindex) && fresh(faceoptimizeindex)
      ensures vertexoptimizeindex != edgeoptimizeindex && vertexoptimizeindex != faceoptimizeindex
      ensures edgeoptimizeindex != faceoptimizeindex
      ensures Begun(MeshOf(w), Snapshot())
    {
      vertexes, edges, edgeindex := [], [Edge(0, 0)], [];
      faces, faceindex := [Face(0, 0, 0, 0, 0, 0)], [];
      areas := new Area[w.areas.Length](_ => NO_AREA);
      vertexoptimizeindex := new int[w.vertexes.Length](_ => 0);
      edgeoptimizeindex := new int[w.edges.Length](_ => 0);
      faceoptimizeindex := new int[w.faces.Length](_ => 0);
      vertexorder, edgeorder, faceorder := [], [], [];
    }

    /** The tables of the copy are four different ones, and none belongs to the world. */
    ghost predicate Apart(w: AasWorld)
      reads this, w
    {
      && vertexoptimizeindex != edgeoptimizeindex && vertexoptimizeindex != faceoptimizeindex
      && edgeoptimizeindex != faceoptimizeindex
      && w.edgeindex !in {vertexoptimizeindex, edgeoptimizeindex, faceoptimizeindex}
      && w.faceindex !in {vertexoptimizeindex, edgeoptimizeindex, faceoptimizeindex}
      && w.areas != areas
    }

    /** Copies a vertex, unless the remap table has a slot for it. */
    method OptimizeVertex(w: AasWorld, v: int, ghost met: seq<int>) returns (slot: int)
      requires Apart(w)
      requires VertexesCopied(w.vertexes[..], vertexes, vertexoptimizeindex[..], vertexorder, met)
      requires 0 <= v < w.vertexes.Length
      modifies this`vertexes, this`vertexorder, vertexoptimizeindex
      ensures VertexesCopied(w.vertexes[..], vertexes, vertexoptimizeindex[..], vertexorder, met + [v])
      ensures old(vertexes) <= vertexes
      ensures 0 <= slot < |vertexes| && vertexes[slot] == w.vertexes[v]
    {
      hide VertexesCopied;
      ghost var all, table := w.vertexes[..], vertexoptimizeindex[..];
      assert |table| == |all| && table[v] < |vertexes| + 1 by { TablesMatch(all, vertexes, table, vertexorder, met); }
      if vertexoptimizeindex[v] != 0 {
        slot := vertexoptimizeindex[v];
        assert VertexesCopied(all, vertexes, table, vertexorder, met + [v])
          && 0 <= slot < |vertexes| && vertexes[slot] == all[v] by {
          VertexKnown(all, vertexes, table, vertexorder, met, v);
        }
        return;
      }
      ghost var more := if met == [] then vertexorder else vertexorder + [v];
      assert VertexesCopied(all, vertexes + [all[v]], table[v := |vertexes|], more, met + [v]) by {
        NextVertexCopied(all, vertexes, table, vertexorder, met, v);
      }
      slot := |vertexes|;
      vertexoptimizeindex[v] := |vertexes|;
      assert vertexoptimizeindex[..] == table[v := |vertexes|];
      vertexes := vertexes + [w.vertexes[v]];
      vertexorder := more;
    }

    method AddEdge(num: int, edge: Edge) returns (optedgenum: int)
      requires 0 <= num < edgeoptimizeindex.Length
      requires edgeoptimizeindex != vertexoptimizeindex && edgeoptimizeindex != faceoptimizeindex
      modifies this`edges, this`edgeorder, edgeoptimizeindex
      ensures optedgenum == |old(edges)|
      ensures Snapshot() == old(Snapshot()).(
        mesh := old(Snapshot()).mesh.(edges := old(edges) + [edge]),
        edgeindex := old(Snapshot()).edgeindex[num := |old(edges)|], edgeorder := old(edgeorder) + [num])
    {
      optedgenum := |edges|;
      edgeoptimizeindex[num] := |edges|;
      edges := edges + [edge];
      edgeorder := edgeorder + [num];
    }

    /** Copies an edge, unless it has been copied, and names it with the sign of its direction. */
    method OptimizeEdge(w: AasWorld, edgenum: int) returns (optedgenum: int)
      requires Apart(w) && MeshInRange(MeshOf(w)) && EdgesCopied(MeshOf(w), Snapshot())
      requires Abs(edgenum) < w.edges.Length
      modifies this`vertexes, this`edges, this`vertexorder, this`edgeorder, vertexoptimizeindex, edgeoptimizeindex
      ensures EdgesCopied(MeshOf(w), Snapshot()) && Extends(old(Snapshot()), Snapshot())
      ensures edgeorder == Join(old(edgeorder), Abs(edgenum))
      ensures EntryCopied(edgeoptimizeindex[..], edgenum, optedgenum) && optedgenum != 0
    {
      hide EdgesCopied, VertexesCopied, MeshInRange, Ends;
      ghost var m, c := MeshOf(w), Snapshot();
      var num := Abs(edgenum);
      assert |c.edgeindex| == |m.edges| && 0 <= c.edgeindex[num] && |edges| > 0
        && EdgeInRange(m.vertexes, m.edges[num]) by {
        EdgesRead(m, c, num);
      }
      assert c.edgeindex[num] != 0 <==> num in edgeorder by {
        EdgesAreNumbered(m, c);
        NumbersListed(c.edgeindex, c.edgeorder, num);
      }
      optedgenum := edgeoptimizeindex[num];
      if optedgenum != 0 {
        return if edgenum > 0 then optedgenum else -optedgenum;
      }
      assert (forall k :: 0 <= k < |c.edgeorder| ==> 0 <= c.edgeorder[k] < |m.edges|)
        && VertexesCopied(m.vertexes, vertexes, vertexoptimizeindex[..], vertexorder, Ends(m.edges, c.edgeorder)) by {
        EdgesReadVertexes(m, c);
      }
      ghost var met := Ends(m.edges, c.edgeorder);
      var v0 := OptimizeVertex(w, w.edges[num].v0, met);
      var v1 := OptimizeVertex(w, w.edges[num].v1, met + [w.edges[num].v0]);
      optedgenum := AddEdge(num, Edge(v0, v1));
      assert EdgesCopied(m, Snapshot()) by { EdgeAdded(m, c, Snapshot(), num, Edge(v0, v1)); }
      return if edgenum > 0 then optedgenum else -optedgenum;
    }

    /** Copies the edge that is next in the list of a face. Its name is never 0, so it always joins the copied list. */
    method OptimizeFaceEdge(w: AasWorld, num: int, i: int, ghost c: Copy)
      requires Apart(w) && MeshInRange(MeshOf(w)) && FaceMidway(MeshOf(w), c, Snapshot(), num, i)
      requires 0 <= num < w.faces.Length && 0 <= i < w.faces[num].numedges
      modifies this`vertexes, this`edges, this`edgeindex, this`vertexorder, this`edgeorder
      modifies vertexoptimizeindex, edgeoptimizeindex
      ensures FaceMidway(MeshOf(w), c, Snapshot(), num, i + 1)
    {
      hide EdgesCopied, MeshInRange, FaceMidway, EntryCopied;
      ghost var m, d := MeshOf(w), Snapshot();
      var face := w.faces[num];
      assert FaceInRange(m, m.faces[num]) && (forall k :: 0 <= k < |m.edgeindex| ==> Abs(m.edgeindex[k]) < |m.edges|) by {
        MidwayInRange(m, c, d, num, i);
      }
      assert EdgesCopied(m, d) by { MidwayRead(m, c, d, num, i); }
      var edgenum := w.edgeindex[face.firstedge + i];
      assert edgenum == m.edgeindex[face.firstedge + i];
      var optedgenum := OptimizeEdge(w, edgenum);
      ghost var e := Snapshot();
      if optedgenum != 0 {
        edgeindex := edgeindex + [optedgenum];
      }
      assert FaceMidway(m, c, Snapshot(), num, i + 1) by { FaceGoesOn(m, c, d, e, num, i, optedgenum); }
    }

    method AddFace(num: int, face: Face) returns (optfacenum: int)
      requires 0 <= num < faceoptimizeindex.Length
      requires faceoptimizeindex != vertexoptimizeindex && faceoptimizeindex != edgeoptimizeindex
      modifies this`faces, this`faceorder, faceoptimizeindex
      ensures optfacenum == |old(faces)|
      ensures Snapshot() == old(Snapshot()).(
        mesh := old(Snapshot()).mesh.(faces := old(faces) + [face]),
        faceindex := old(Snapshot()).faceindex[num := |old(faces)|], faceorder := old(faceorder) + [num])
    {
      optfacenum := |faces|;
      faceoptimizeindex[num] := |faces|;
      faces := faces + [face];
      faceorder := faceorder + [num];
    }

    /** Copies a face that is a ladder, unless it has been copied, and names it with the sign of its side. */
    method OptimizeFace(w: AasWorld, facenum: int) returns (optfacenum: int)
      requires Apart(w) && MeshInRange(MeshOf(w)) && Consistent(MeshOf(w), Snapshot())
      requires Abs(facenum) < w.faces.Length
      modifies this`vertexes, this`edges, this`edgeindex, this`faces, this`vertexorder, this`edgeorder, this`faceorder
      modifies vertexoptimizeindex, edgeoptimizeindex, faceoptimizeindex
      ensures Consistent(MeshOf(w), Snapshot()) && Extends(old(Snapshot()), Snapshot())
      ensures faceorder == if Ladder(w.faces[Abs(facenum)]) then Join(old(faceorder), Abs(facenum)) else old(faceorder)
      ensures !Ladder(w.faces[Abs(facenum)]) ==> optfacenum == 0 && Snapshot() == old(Snapshot())
      ensures Ladder(w.faces[Abs(facenum)]) ==>
        EntryCopied(faceoptimizeindex[..], facenum, optfacenum) && optfacenum != 0
    {
      hide Consistent, EdgesCopied, MeshInRange, FaceMidway, EntryCopied;
      ghost var m, c := MeshOf(w), Snapshot();
      var num := Abs(facenum);
      var face := w.faces[num];
      if !HasFlag(face.faceflags, FACE_LADDER) { return 0; }
      assert |c.faceindex| == |m.faces| && FaceInRange(m, m.faces[num])
        && 0 <= c.faceindex[num] && |c.mesh.faces| > 0
        && (forall k :: 0 <= k < |m.edgeindex| ==> Abs(m.edgeindex[k]) < |m.edges|) by {
        FaceRead(m, c, num);
      }
      assert c.faceindex[num] != 0 <==> num in faceorder by {
        ConsistentNumbers(m, c);
        NumbersListed(c.faceindex, c.faceorder, num);
      }
      optfacenum := faceoptimizeindex[num];
      if optfacenum != 0 {
        assert EntryCopied(c.faceindex, facenum, Named(c.faceindex, facenum)) by { EntryKnown(c.faceindex, facenum); }
        return if facenum > 0 then optfacenum else -optfacenum;
      }
      var optface := face.(numedges := 0, firstedge := |edgeindex|);
      assert FaceMidway(m, c, c, num, 0) by { FaceStarts(m, c, num); }
      var i := 0;
      while i < face.numedges
        invariant 0 <= i <= face.numedges && optface == face.(numedges := i, firstedge := |c.mesh.edgeindex|)
        invariant MeshOf(w) == m && FaceMidway(m, c, Snapshot(), num, i)
      {
        OptimizeFaceEdge(w, num, i, c);
        optface := optface.(numedges := optface.numedges + 1);
        i := i + 1;
      }
      ghost var d := Snapshot();
      assert d.faceindex == c.faceindex && d.faceorder == c.faceorder && d.mesh.faces == c.mesh.faces
        && d.mesh.faceindex == c.mesh.faceindex && d.mesh.areas == c.mesh.areas by {
        MidwayRead(m, c, d, num, i);
      }
      optfacenum := AddFace(num, optface);
      assert Consistent(m, Snapshot()) && Extends(c, Snapshot())
        && EntryCopied(faceoptimizeindex[..], facenum, Named(faceoptimizeindex[..], facenum)) by {
        FaceCompletes(m, c, d, Snapshot(), num);
        EntryKnown(faceoptimizeindex[..], facenum);
      }
      return if facenum > 0 then optfacenum else -optfacenum;
    }

    /** Copies the face that is next in the list of an area, if it is a ladder. */
    method OptimizeAreaFace(w: AasWorld, areanum: int, i: int, ghost c: Copy) returns (added: bool)
      requires Apart(w) && AreaMidway(MeshOf(w), c, Snapshot(), areanum, i)
      requires 1 <= areanum < w.areas.Length && 0 <= i < w.areas[areanum].numfaces
      modifies this`vertexes, this`edges, this`edgeindex, this`faces, this`faceindex
      modifies this`vertexorder, this`edgeorder, this`faceorder
      modifies vertexoptimizeindex, edgeoptimizeindex, faceoptimizeindex
      ensures AreaMidway(MeshOf(w), c, Snapshot(), areanum, i + 1)
      ensures |faceindex| == |old(faceindex)| + if added then 1 else 0
    {
      hide Consistent, MeshInRange, AreaMidway, Ladder, EntryCopied, Extends;
      ghost var m, d := MeshOf(w), Snapshot();
      assert Consistent(m, d) && MeshInRange(m) by { AreaMidwayRead(m, c, d, areanum, i); }
      assert 0 <= w.areas[areanum].firstface + i < w.faceindex.Length
        && NextFace(m, areanum, i, w.faceindex[w.areas[areanum].firstface + i]) by {
        FaceIsNext(m, areanum, i);
      }
      var facenum := w.faceindex[w.areas[areanum].firstface + i];
      var optfacenum := OptimizeFace(w, facenum);
      ghost var e := Snapshot();
      added := optfacenum != 0;
      if added {
        faceindex := faceindex + [optfacenum];
      }
      assert AreaMidway(m, c, Snapshot(), areanum, i + 1) by {
        AreaGoesOn(m, c, d, e, Snapshot(), areanum, i, facenum, optfacenum);
      }
    }

    /** Copies an area with the ladders among its faces. */
    method OptimizeArea(w: AasWorld, areanum: int)
      requires Apart(w) && 1 <= areanum < w.areas.Length && AreasCopied(MeshOf(w), Snapshot(), areanum)
      modifies this, areas, vertexoptimizeindex, edgeoptimizeindex, faceoptimizeindex
      ensures AreasCopied(MeshOf(w), Snapshot(), areanum + 1)
    {
      hide Consistent, MeshInRange, AreasCopied, AreaMidway, Ladder, Kept;
      ghost var m, c := MeshOf(w), Snapshot();
      var area := w.areas[areanum];
      assert AreaMidway(m, c, c, areanum, 0) by { AreaStarts(m, c, areanum); }
      assert MeshInRange(m) && |c.mesh.areas| == |m.areas|
        && 0 <= area.firstface && area.firstface + area.numfaces <= |m.faceindex|
        && (forall k :: 0 <= k < |m.faceindex| ==> Abs(m.faceindex[k]) < |m.faces|) by {
        AreaRead(m, c, areanum);
      }
      var optarea := area.(numfaces := 0, firstface := |faceindex|);
      var i := 0;
      while i < area.numfaces
        invariant MeshOf(w) == m && AreaMidway(m, c, Snapshot(), areanum, i) && 0 <= i
        invariant optarea == area.(numfaces := |faceindex| - |c.mesh.faceindex|, firstface := |c.mesh.faceindex|)
      {
        var added := OptimizeAreaFace(w, areanum, i, c);
        if added {
          optarea := optarea.(numfaces := optarea.numfaces + 1);
        }
        i := i + 1;
      }
      ghost var d := Snapshot();
      assert |d.mesh.areas| == |m.areas| && i == area.numfaces
        && |faceindex| - |c.mesh.faceindex| == |Kept(m.faces, FaceList(m, areanum))| by {
        AreaMidwayRead(m, c, d, areanum, i);
      }
      areas[areanum] := optarea;
      assert AreasCopied(m, Snapshot(), areanum + 1) by { AreaAdded(m, c, d, Snapshot(), areanum); }
    }
  }

  lemma FaceIsNext(m: Mesh, a: int, n: int)
    requires MeshInRange(m) && 1 <= a < |m.areas| && 0 <= n < m.areas[a].numfaces
    ensures 0 <= m.areas[a].firstface + n < |m.faceindex|
    ensures NextFace(m, a, n, m.faceindex[m.areas[a].firstface + n])
  {
  }

  lemma EntryKnown(table: seq<int>, num: int)
    requires Abs(num) < |table| && table[Abs(num)] != 0
    ensures EntryCopied(table, num, Named(table, num))
  {
  }

  lemma FaceRead(m: Mesh, c: Copy, num: int)
    requires MeshInRange(m) && Consistent(m, c) && 0 <= num < |m.faces|
    ensures |c.faceindex| == |m.faces| && FaceInRange(m, m.faces[num])
    ensures 0 <= c.faceindex[num] && |c.mesh.faces| > 0
    ensures forall k :: 0 <= k < |m.edgeindex| ==> Abs(m.edgeindex[k]) < |m.edges|
  {
  }

  lemma MidwayInRange(m: Mesh, c: Copy, d: Copy, num: int, n: int)
    requires MeshInRange(m) && FaceMidway(m, c, d, num, n)
    ensures 0 <= num < |m.faces| && FaceInRange(m, m.faces[num])
    ensures forall k :: 0 <= k < |m.edgeindex| ==> Abs(m.edgeindex[k]) < |m.edges|
  {
  }

  lemma MidwayRead(m: Mesh, c: Copy, d: Copy, num: int, n: int)
    requires FaceMidway(m, c, d, num, n)
    ensures EdgesCopied(m, d)
    ensures d.faceindex == c.faceindex && d.faceorder == c.faceorder && d.mesh.faces == c.mesh.faces
    ensures d.mesh.faceindex == c.mesh.faceindex && d.mesh.areas == c.mesh.areas
  {
  }

  lemma EdgesRead(m: Mesh, c: Copy, num: int)
    requires MeshInRange(m) && EdgesCopied(m, c) && 0 <= num < |m.edges|
    ensures |c.edgeindex| == |m.edges| && 0 <= c.edgeindex[num] && |c.mesh.edges| > 0
    ensures EdgeInRange(m.vertexes, m.edges[num])
  {
  }

  lemma EdgesReadVertexes(m: Mesh, c: Copy)
    requires EdgesCopied(m, c)
    ensures forall k :: 0 <= k < |c.edgeorder| ==> 0 <= c.edgeorder[k] < |m.edges|
    ensures VertexesCopied(m.vertexes, c.mesh.vertexes, c.vertexindex, c.vertexorder, Ends(m.edges, c.edgeorder))
  {
  }

  lemma AreaRead(m: Mesh, c: Copy, a: int)
    requires AreasCopied(m, c, a) && 1 <= a < |m.areas|
    ensures MeshInRange(m) && |c.mesh.areas| == |m.areas|
    ensures 0 <= m.areas[a].firstface && m.areas[a].firstface + m.areas[a].numfaces <= |m.faceindex|
    ensures forall k :: 0 <= k < |m.faceindex| ==> Abs(m.faceindex[k]) < |m.faces|
  {
  }

  lemma AreaMidwayRead(m: Mesh, c: Copy, d: Copy, a: int, n: int)
    requires AreaMidway(m, c, d, a, n)
    ensures Consistent(m, d) && d.mesh.areas == c.mesh.areas && MeshInRange(m) && 1 <= a < |m.areas|
    ensures 0 <= n <= m.areas[a].numfaces
    ensures n == m.areas[a].numfaces ==>
      |d.mesh.faceindex| == |c.mesh.faceindex| + |Kept(m.faces, FaceList(m, a))|
  {
    hide Consistent, FacesJoined, FacesAreUsed, ListCopied, Kept, Extends;
    assert FaceList(m, a)[..|FaceList(m, a)|] == FaceList(m, a);
  }

  lemma NextVertexCopied(all: seq<Vec3>, vertexes: seq<Vec3>, table: seq<int>, order: seq<int>, met: seq<int>, v: int)
    requires VertexesCopied(all, vertexes, table, order, met) && 0 <= v < |all| && table[v] == 0
    ensures VertexesCopied(all, vertexes + [all[v]], table[v := |vertexes|],
                           if met == [] then order else order + [v], met + [v])
  {
    if met == [] {
      FirstVertexCopied(all, vertexes, table, order, v);
      assert met + [v] == [v];
    } else {
      VertexCopied(all, vertexes, table, order, met, v);
    }
  }

  lemma TablesMatch(all: seq<Vec3>, vertexes: seq<Vec3>, table: seq<int>, order: seq<int>, met: seq<int>)
    requires VertexesCopied(all, vertexes, table, order, met)
    ensures |table| == |all|
    ensures forall v :: 0 <= v < |table| ==> 0 <= table[v] <= |vertexes|
  {
  }

  /** A copy that has just begun. */
  ghost predicate Begun(m: Mesh, c: Copy) {
    && c.mesh == Mesh([], [Edge(0, 0)], [], [Face(0, 0, 0, 0, 0, 0)], [], seq(|m.areas|, _ => NO_AREA))
    && c.vertexindex == seq(|m.vertexes|, _ => 0)
    && c.edgeindex == seq(|m.edges|, _ => 0)
    && c.faceindex == seq(|m.faces|, _ => 0)
    && c.vertexorder == c.edgeorder == c.faceorder == []
  }

  lemma BegunCopy(m: Mesh, c: Copy)
    requires MeshInRange(m) && Begun(m, c)
    ensures AreasCopied(m, c, 1)
  {
  }

  // ----- reachabilities

  /** Elevators, jump pads and bobbing platforms keep other things in the face and edge numbers. */
  predicate Coded(r: Reachability) {
    var traveltype := r.traveltype % (TRAVELTYPE_MASK + 1);
    traveltype == TRAVEL_ELEVATOR || traveltype == TRAVEL_JUMPPAD || traveltype == TRAVEL_FUNCBOB
  }

  predicate ReachabilityInTables(r: Reachability, c: Copy) {
    Coded(r) || (Abs(r.facenum) < |c.faceindex| && Abs(r.edgenum) < |c.edgeindex|)
  }

  /** The number of the copy, with the sign that the number had, or 0 if there is no copy. */
  function Renamed(table: seq<int>, num: int): int
    requires Abs(num) < |table|
  {
    if num < 0 then -table[-num] else table[num]
  }

  ghost predicate ReachabilitiesRenamed(s: seq<Reachability>, t: seq<Reachability>, c: Copy, n: int) {
    && |t| == |s|
    && forall i :: 0 <= i < |s| ==>
         && ReachabilityInTables(s[i], c)
         && t[i] == if Coded(s[i]) || n <= i then s[i]
                    else s[i].(facenum := Renamed(c.faceindex, s[i].facenum), edgenum := Renamed(c.edgeindex, s[i].edgenum))
  }

  method RenameReachabilities(w: AasWorld, o: Optimized)
    requires forall i :: 0 <= i < w.reachability.Length ==> ReachabilityInTables(w.reachability[i], o.Snapshot())
    modifies w.reachability
    ensures ReachabilitiesRenamed(old(w.reachability[..]), w.reachability[..], o.Snapshot(), w.reachability.Length)
  {
    ghost var s, c := w.reachability[..], o.Snapshot();
    var i := 0;
    while i < w.reachability.Length
      invariant 0 <= i <= w.reachability.Length
      invariant o.Snapshot() == c && ReachabilitiesRenamed(s, w.reachability[..], c, i)
    {
      assert ReachabilityInTables(s[i], c) && w.reachability[..][i] == s[i];
      if Coded(w.reachability[i]) {
        i := i + 1;
        continue;
      }
      var sign := w.reachability[i].facenum;
      w.reachability[i] := w.reachability[i].(facenum := o.faceoptimizeindex[Abs(w.reachability[i].facenum)]);
      if sign < 0 {
        w.reachability[i] := w.reachability[i].(facenum := -w.reachability[i].facenum);
      }
      sign := w.reachability[i].edgenum;
      w.reachability[i] := w.reachability[i].(edgenum := o.edgeoptimizeindex[Abs(w.reachability[i].edgenum)]);
      if sign < 0 {
        w.reachability[i] := w.reachability[i].(edgenum := -w.reachability[i].edgenum);
      }
      i := i + 1;
    }
  }

  // ----- the whole

  method Stored<T>(s: seq<T>) returns (a: array<T>)
    ensures fresh(a) && a[..] == s
  {
    a := new T[|s|](i requires 0 <= i < |s| => s[i]);
  }

  /** The copy takes the place of the world's geometry. */
  method OptimizeStore(w: AasWorld, o: Optimized)
    modifies w`vertexes, w`edges, w`edgeindex, w`faces, w`faceindex, w`areas
    ensures MeshOf(w) == old(o.Snapshot().mesh)
  {
    w.vertexes := Stored(o.vertexes);
    w.edges := Stored(o.edges);
    w.edgeindex := Stored(o.edgeindex);
    w.faces := Stored(o.faces);
    w.faceindex := Stored(o.faceindex);
    w.areas := o.areas;
  }

  /** The outcome of compaction. */
  ghost predicate Compacted(m: Mesh, s: seq<Reachability>, c: Copy, t: seq<Reachability>) {
    AreasCopied(m, c, |m.areas|) && ReachabilitiesRenamed(s, t, c, |s|)
  }

  predicate ReachabilityInMesh(r: Reachability, m: Mesh) {
    Coded(r) || (Abs(r.facenum) < |m.faces| && Abs(r.edgenum) < |m.edges|)
  }

  method Optimize(w: AasWorld) returns (ghost c: Copy)
    requires MeshInRange(MeshOf(w))
    requires forall i :: 0 <= i < w.reachability.Length ==> ReachabilityInMesh(w.reachability[i], MeshOf(w))
    modifies w`vertexes, w`edges, w`edgeindex, w`faces, w`faceindex, w`areas, w.reachability
    ensures MeshOf(w) == c.mesh
    ensures Compacted(old(MeshOf(w)), old(w.reachability[..]), c, w.reachability[..])
  {
    hide AreasCopied, MeshInRange, Coded, ReachabilitiesRenamed;
    ghost var m, s := MeshOf(w), w.reachability[..];
    var o := new Optimized(w);
    assert AreasCopied(m, o.Snapshot(), 1) by { BegunCopy(m, o.Snapshot()); }
    OptimizeAreas(w, o);
    c := o.Snapshot();
    assert |c.faceindex| == |m.faces| && |c.edgeindex| == |m.edges| by { CopyTables(m, c, |m.areas|); }
    forall k | 0 <= k < w.reachability.Length
      ensures ReachabilityInTables(w.reachability[k], c)
    {
      assert ReachabilityInMesh(s[k], m);
    }
    RenameReachabilities(w, o);
    OptimizeStore(w, o);
  }

  method OptimizeAreas(w: AasWorld, o: Optimized)
    requires o.Apart(w) && AreasCopied(MeshOf(w), o.Snapshot(), 1)
    modifies o, o.areas, o.vertexoptimizeindex, o.edgeoptimizeindex, o.faceoptimizeindex
    ensures AreasCopied(MeshOf(w), o.Snapshot(), w.areas.Length)
  {
    hide AreasCopied;
    var i := 1;
    while i < w.areas.Length
      invariant 1 <= i && (i <= w.areas.Length || i == 1) && AreasCopied(MeshOf(w), o.Snapshot(), i)
    {
      o.OptimizeArea(w, i);
      i := i + 1;
    }
    if w.areas.Length == 0 { NoAreas(MeshOf(w), o.Snapshot()); }
  }

  lemma NoAreas(m: Mesh, c: Copy)
    requires AreasCopied(m, c, 1) && |m.areas| == 0
    ensures AreasCopied(m, c, 0)
  {
    hide Consistent, MeshInRange;
  }

  lemma CopyTables(m: Mesh, c: Copy, n: int)
    requires AreasCopied(m, c, n)
    ensures |c.faceindex| == |m.faces| && |c.edgeindex| == |m.edges|
  {
  }
}
