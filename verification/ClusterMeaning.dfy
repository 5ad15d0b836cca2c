/** What clustering leaves in the fields of the world, with no words of its own: the flag bits of
    the areas, the reachabilities behind the graph, and the order in which members are numbered. */
module ClusterMeaning {
  import opened AasDef
  import opened ClusterGraph
  import opened ClusterState
  import opened ClusterFlood
  import opened ClusterNumber
  import opened ClusterFind
  import opened Clustering
  import opened ClusterRounds
  import FaceGraph

  // ----- the graph in the tables

  /** Bit 3 of the contents is the flag of the graph, and is cleared for the dropped areas only; the
      links are the targets in the reachability table. */
  lemma GraphInTables(s: seq<AreaSettings>, t: Tables, r: Round, c: int, drops: seq<int>, a: int)
    requires Settles(s, t, r, c, drops) && 0 <= a < |s|
    ensures |t.settings| == |r.g.flag| == |r.g.links| == |s|
    ensures r.g.flag[a] <==> t.settings[a].contents & 8 != 0
    ensures t.settings[a].contents == if a in drops then s[a].contents & 0xFFFF_FFF7 else s[a].contents
    ensures t.settings[a].numreachableareas == s[a].numreachableareas == |r.g.links[a]|
    ensures 0 <= s[a].firstreachablearea && s[a].firstreachablearea + s[a].numreachableareas <= |r.reach|
    ensures forall j :: 0 <= j < |r.g.links[a]| ==> r.g.links[a][j] == r.reach[s[a].firstreachablearea + j].areanum
  {
    hide Success, DropRun;
    assert Fixed(t.settings[a]).contents == t.settings[a].contents;
    assert Fixed(t.settings[a]).numreachableareas == t.settings[a].numreachableareas;
    assert Fixed(s[a]).numreachableareas == s[a].numreachableareas;
    assert r.g.links[a] == AreaLinks(s[a], r.reach);
    ClearedBit(s[a].contents);
  }

  lemma ClearedBit(word: Flags)
    ensures WithoutFlag(word, AREACONTENTS_CLUSTERPORTAL) == word & 0xFFFF_FFF7
    ensures HasFlag(word, AREACONTENTS_CLUSTERPORTAL) <==> word & 8 != 0
  {
  }

  /** The sides of every portal: two clusters, the smaller one in front, and the label of its area. Portals
      are in the order of their areas. */
  lemma PortalSidesInOrder(s: seq<AreaSettings>, t: Tables, r: Round, c: int, drops: seq<int>, p: int)
    requires Settles(s, t, r, c, drops) && 1 <= p < t.numportals
    ensures p < |t.portals| && 0 < t.portals[p].areanum < |t.settings|
    ensures 0 < t.portals[p].frontcluster < t.portals[p].backcluster <= c
    ensures t.settings[t.portals[p].areanum].contents & 8 != 0
    ensures forall q :: p < q < t.numportals <= |t.portals| ==> t.portals[p].areanum < t.portals[q].areanum
    ensures t.settings[t.portals[p].areanum].cluster == -p
  {
    hide Connected, Linked, SegmentLists, Numbered, DropRun, OnlyDropped, LinksOf;
    GraphInTables(s, t, r, c, drops, t.portals[p].areanum);
  }

  /** Clusters are numbered in the order of the first areas with reachabilities in them. */
  lemma ClustersInOrder(s: seq<AreaSettings>, t: Tables, r: Round, c: int, drops: seq<int>, x: int) returns (a: int)
    requires Settles(s, t, r, c, drops) && 1 <= x <= c
    ensures 0 < a < |t.settings| == |s| && t.settings[a].contents & 8 == 0
    ensures t.settings[a].cluster == x && s[a].numreachableareas > 0
    ensures forall b :: 0 < b < a && t.settings[b].contents & 8 == 0 && s[b].numreachableareas > 0 ==>
      0 < t.settings[b].cluster < x
  {
    hide Inv, Closed, Sealed, AllNumbered, Running, LinksOf, FlagsOf;
    SettledSizes(s, t, r, c, drops);
    assert OpenedBelow(t, r, x, |t.settings|);
    a :| a < |t.settings| && OpensCluster(t, r, x, a);
    GraphInTables(s, t, r, c, drops, a);
    forall b | 0 < b < a && t.settings[b].contents & 8 == 0 && s[b].numreachableareas > 0
      ensures 0 < t.settings[b].cluster < x
    {
      GraphInTables(s, t, r, c, drops, b);
      assert Plain(r.g, b) && |r.g.links[b]| > 0;
    }
  }

  // ----- the numbers

  /** Area a has number k in cluster x: a plain area in its settings, a portal on the side of x. */
  ghost predicate HasNumber(t: Tables, x: int, a: int, k: int) {
    && 0 < a < |t.settings|
    && if t.settings[a].contents & 8 == 0
       then t.settings[a].cluster == x && t.settings[a].clusterareanum == k
       else exists p :: 1 <= p < t.numportals <= |t.portals| && SideHasNumber(t.portals[p], x, a, k)
  }

  predicate SideHasNumber(p: Portal, x: int, a: int, k: int) {
    && p.areanum == a
    && (|| (p.frontcluster == x && p.frontareanum == k)
        || (p.backcluster == x && p.backareanum == k))
  }

  /** Area a is in cluster x, as a plain area or as a portal on one of its sides. */
  ghost predicate InCluster(t: Tables, x: int, a: int) {
    exists k :: HasNumber(t, x, a, k)
  }

  lemma MemberIsInCluster(s: seq<AreaSettings>, t: Tables, r: Round, c: int, drops: seq<int>, x: int, a: int)
    requires Settles(s, t, r, c, drops) && 0 < x <= c
    ensures |t.settings| == |r.g.flag| && PortalTable(t, r) && Labelled(t, r)
    ensures Member(t, r, x, a) <==> InCluster(t, x, a)
    ensures Member(t, r, x, a) ==> forall k :: HasNumber(t, x, a, k) <==> k == ClusterAreaNum(t, x, a)
  {
    hide Connected, Linked, SegmentLists, Numbered, DropRun, OnlyDropped, LinksOf, Indexed, ClustersConnected;
    if 0 < a < |s| {
      GraphInTables(s, t, r, c, drops, a);
      if PortalArea(r.g, a) {
        var p := r.portalnum[a];
        PortalSidesInOrder(s, t, r, c, drops, p);
        OwnPortal(t, r, a, p);
        forall k
          ensures HasNumber(t, x, a, k) <==> SideHasNumber(t.portals[p], x, a, k)
        {
          if SideHasNumber(t.portals[p], x, a, k) { assert HasNumber(t, x, a, k); }
        }
        if Joins(t.portals[p], x) {
          assert SideHasNumber(t.portals[p], x, a, ClusterAreaNum(t, x, a));
        }
      } else if t.settings[a].cluster == x {
        assert HasNumber(t, x, a, t.settings[a].clusterareanum);
      }
    }
  }

  lemma OwnPortal(t: Tables, r: Round, a: int, p: int)
    requires PortalTable(t, r) && PortalArea(r.g, a) && p == r.portalnum[a]
    ensures forall q :: 1 <= q < t.numportals && t.portals[q].areanum == a ==> q == p
  {
  }

  /** The members of a cluster are numbered in this order: areas with reachabilities by their numbers,
      portals with reachabilities by their places in the portal index, then the same without. */
  lemma NumberedInOrder(s: seq<AreaSettings>, t: Tables, r: Round, c: int, drops: seq<int>, x: int)
    requires Settles(s, t, r, c, drops) && 0 < x <= c
    ensures SegmentInTable(t, x)
    ensures |Listing(t, x)| == t.clusters[x].numareas && |Half(t, x, true)| == t.clusters[x].numreachabilityareas
    ensures forall k :: 0 <= k < |Listing(t, x)| ==> HasNumber(t, x, Listing(t, x)[k], k)
    ensures forall a, k :: HasNumber(t, x, a, k) ==> 0 <= k < |Listing(t, x)| && Listing(t, x)[k] == a
    ensures forall a, j, k :: HasNumber(t, x, a, j) && HasNumber(t, x, a, k) ==> j == k
  {
    hide Listing, Half, Inv, Closed, Sealed, Labelled, PortalTable, Member, Running, LinksOf, ClusteredBelow, HasNumber;
    assert |t.settings| == |r.g.flag| && PortalTable(t, r) && Labelled(t, r) && x < |t.clusters| && Numbered(t, r, x);
    var list :| Numbers(t, r, x, list);
    forall k | 0 <= k < |list|
      ensures HasNumber(t, x, list[k], k)
    {
      MemberIsInCluster(s, t, r, c, drops, x, list[k]);
    }
    forall a, k | HasNumber(t, x, a, k)
      ensures 0 <= k < |list| && list[k] == a
    {
      MemberIsInCluster(s, t, r, c, drops, x, a);
      assert InCluster(t, x, a);
      var j :| 0 <= j < |list| && list[j] == a;
    }
    forall a, j, k | HasNumber(t, x, a, j) && HasNumber(t, x, a, k)
      ensures j == k
    {
      MemberIsInCluster(s, t, r, c, drops, x, a);
      assert InCluster(t, x, a);
    }
  }

  /** The members with reachabilities. */
  ghost function LinkedMembers(t: Tables, r: Round, x: int): set<int>
    requires |t.settings| == |r.g.flag| == |r.g.links|
  {
    set a | 0 <= a < |t.settings| && InCluster(t, x, a) && r.g.links[a] != []
  }

  /** Members with links have the numbers below numreachabilityareas, which counts them. */
  lemma LinkedMembersFirst(s: seq<AreaSettings>, t: Tables, r: Round, c: int, drops: seq<int>, x: int)
    requires Settles(s, t, r, c, drops) && 0 < x <= c
    ensures |t.settings| == |r.g.flag| == |r.g.links| && x < |t.clusters|
    ensures forall a, k :: HasNumber(t, x, a, k) ==>
      (k < t.clusters[x].numreachabilityareas <==> |r.g.links[a]| > 0)
    ensures |LinkedMembers(t, r, x)| == t.clusters[x].numreachabilityareas
  {
    hide Settles, Listing, HasNumber, InCluster;
    SettledSizes(s, t, r, c, drops);
    NumberedInOrder(s, t, r, c, drops, x);
    forall a | 0 <= a < |s|
      ensures |r.g.links[a]| == t.settings[a].numreachableareas
    {
      GraphInTables(s, t, r, c, drops, a);
    }
    HalvesSort(t, x, r);
    var list, n := Listing(t, x), t.clusters[x].numreachabilityareas;
    forall a, k | HasNumber(t, x, a, k)
      ensures 0 < a < |s| && 0 <= k < |list| && list[k] == a
      ensures k < n <==> |r.g.links[a]| > 0
    {
      InTheWorld(t, x, a, k);
    }
    var first := list[..n];
    forall i, j | 0 <= i < j < |first|
      ensures first[i] != first[j]
    {
      assert HasNumber(t, x, list[i], i) && HasNumber(t, x, list[j], j);
    }
    forall a
      ensures a in FaceGraph.Elements(first) <==> a in LinkedMembers(t, r, x)
    {
      if a in first {
        var k :| 0 <= k < n && first[k] == a;
        assert HasNumber(t, x, list[k], k);
        HasNumberIsIn(t, x, a, k);
      }
      if a in LinkedMembers(t, r, x) {
        var k := NumberOf(t, x, a);
        assert list[k] == a && first[k] == a;
      }
    }
    FaceGraph.CountDistinct(first);
    assert FaceGraph.Elements(first) == LinkedMembers(t, r, x);
  }

  lemma SettledSizes(s: seq<AreaSettings>, t: Tables, r: Round, c: int, drops: seq<int>)
    requires Settles(s, t, r, c, drops)
    ensures |t.settings| == |r.g.flag| == |r.g.links| == |s| && 0 <= c < |t.clusters|
  {
    hide Connected, Linked, SegmentLists, Numbered, DropRun, OnlyDropped;
  }

  lemma InTheWorld(t: Tables, x: int, a: int, k: int)
    requires HasNumber(t, x, a, k)
    ensures 0 < a < |t.settings|
  {
  }

  lemma HasNumberIsIn(t: Tables, x: int, a: int, k: int)
    requires HasNumber(t, x, a, k)
    ensures InCluster(t, x, a) && 0 < a < |t.settings|
  {
  }

  lemma NumberOf(t: Tables, x: int, a: int) returns (k: int)
    requires InCluster(t, x, a)
    ensures HasNumber(t, x, a, k)
  {
    k :| HasNumber(t, x, a, k);
  }

  /** The first half of a listing has reachabilities, and the second half has none. */
  lemma HalvesSort(t: Tables, x: int, r: Round)
    requires SegmentInTable(t, x) && |r.g.links| == |t.settings|
    requires forall a :: 0 <= a < |t.settings| ==> |r.g.links[a]| == t.settings[a].numreachableareas
    ensures |Half(t, x, true)| <= |Listing(t, x)|
    ensures forall k :: 0 <= k < |Listing(t, x)| && 0 < Listing(t, x)[k] < |t.settings| ==>
      (k < |Half(t, x, true)| <==> |r.g.links[Listing(t, x)[k]]| > 0)
  {
    hide Half;
    HalfHas(t, x, true);
    HalfHas(t, x, false);
    var first, second := Half(t, x, true), Half(t, x, false);
    forall k | 0 <= k < |Listing(t, x)| && 0 < Listing(t, x)[k] < |t.settings|
      ensures k < |first| <==> |r.g.links[Listing(t, x)[k]]| > 0
    {
      assert Listing(t, x)[k] == if k < |first| then first[k] else second[k - |first|];
      assert k < |first| ==> first[k] in first;
      assert k >= |first| ==> second[k - |first|] in second;
    }
  }

  lemma {:induction false} AreasWithHas(settings: seq<AreaSettings>, x: int, linked: bool, n: int)
    requires n <= |settings|
    ensures forall a :: a in AreasWith(settings, x, linked, n) ==>
      0 < a < |settings| && (settings[a].numreachableareas != 0) == linked
    decreases n
  {
    if n > 1 {
      AreasWithHas(settings, x, linked, n - 1);
    }
  }

  lemma {:induction false} PortalsWithHas(t: Tables, segment: seq<int>, linked: bool, n: nat)
    requires n <= |segment|
    ensures forall a :: a in PortalsWith(t, segment, linked, n) && 0 < a < |t.settings| ==>
      (t.settings[a].numreachableareas != 0) == linked
  {
    if n > 0 {
      PortalsWithHas(t, segment, linked, n - 1);
    }
  }

  lemma HalfHas(t: Tables, x: int, linked: bool)
    requires SegmentInTable(t, x)
    ensures forall a :: a in Half(t, x, linked) && 0 < a < |t.settings| ==>
      (t.settings[a].numreachableareas != 0) == linked
  {
    AreasWithHas(t.settings, x, linked, |t.settings|);
    PortalsWithHas(t, Segment(t, x), linked, |Segment(t, x)|);
  }
}
