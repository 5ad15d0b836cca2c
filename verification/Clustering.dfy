/** Clustering a world: one round finds all clusters or drops one bad portal, and rounds repeat
    until every portal separates two clusters. */
module Clustering {
  import opened AasDef
  import opened ClusterGraph
  import opened ClusterState
  import opened ClusterFlood
  import opened ClusterNumber
  import opened ClusterFind

  // ----- setting up a round

  ghost predicate ClustersRemoved(s: Tables, t: Tables) {
    && |t.settings| == |s.settings| && t == s.(settings := t.settings)
    && forall a :: 0 <= a < |s.settings| ==>
         t.settings[a] == if a == 0 then s.settings[0] else s.settings[a].(cluster := 0)
  }

  /** Takes every real area out of its cluster. */
  method RemoveClusterAreas(w: AasWorld)
    requires w.areasettings.Length > 0
    modifies w.areasettings
    ensures ClustersRemoved(old(Snapshot(w)), Snapshot(w))
  {
    var i := 1;
    while i < w.areasettings.Length
      invariant 1 <= i <= w.areasettings.Length
      invariant forall a :: 0 <= a < w.areasettings.Length ==>
        w.areasettings[a] ==
        if a == 0 || i <= a then old(w.areasettings[a]) else old(w.areasettings[a]).(cluster := 0)
    {
      w.areasettings[i] := w.areasettings[i].(cluster := 0);
      i := i + 1;
    }
  }

  /** Portals 1.. belong to the portal areas below n, and join nothing yet. */
  ghost predicate Created(s: Tables, g: Graph, portalnum: seq<int>, n: int) {
    && |portalnum| == |g.flag|
    && 1 <= s.numportals <= |s.portals|
    && (forall p :: 1 <= p < s.numportals ==>
          && PortalArea(g, s.portals[p].areanum) && s.portals[p].areanum < n
          && portalnum[s.portals[p].areanum] == p
          && s.portals[p].frontcluster == 0 && s.portals[p].backcluster == 0)
    && (forall a :: PortalArea(g, a) && a < n ==>
          1 <= portalnum[a] < s.numportals && s.portals[portalnum[a]].areanum == a)
    && (forall p, q :: 1 <= p < q < s.numportals ==> s.portals[p].areanum < s.portals[q].areanum)
  }

  /** Makes one portal for each portal area. The table cannot run out. */
  method CreatePortals(w: AasWorld, ghost g: Graph) returns (ghost portalnum: seq<int>)
    requires w.numportals == 1 && FlagsMatch(w.areasettings[..], g.flag)
    requires 0 < w.areasettings.Length <= MAX_AREAS && w.portals.Length == AAS_MAX_PORTALS
    modifies w`numportals, w.portals
    ensures Created(Snapshot(w), g, portalnum, w.areasettings.Length)
    ensures w.numportals <= w.areasettings.Length
  {
    hide Created;
    portalnum := seq(|g.flag|, _ => 0);
    NoneCreated(Snapshot(w), g, portalnum);
    var i := 1;
    while i < w.areasettings.Length
      invariant 1 <= w.numportals <= i <= w.areasettings.Length == |portalnum|
      invariant Created(Snapshot(w), g, portalnum, i)
    {
      if IsPortal(w.areasettings[i]) {
        if w.numportals >= AAS_MAX_PORTALS {
          assert false;
        }
        ghost var s := Snapshot(w);
        w.portals[w.numportals] := w.portals[w.numportals].(areanum := i, frontcluster := 0, backcluster := 0);
        w.numportals := w.numportals + 1;
        assert Created(Snapshot(w), g, portalnum[i := w.numportals - 1], i + 1) by {
          CreatedNext(s, Snapshot(w), g, portalnum, i);
        }
        portalnum := portalnum[i := w.numportals - 1];
      } else {
        NoneToCreate(Snapshot(w), g, portalnum, i);
      }
      i := i + 1;
    }
  }

  lemma NoneCreated(s: Tables, g: Graph, portalnum: seq<int>)
    requires s.numportals == 1 <= |s.portals| && |portalnum| == |g.flag|
    ensures Created(s, g, portalnum, 1)
  {
  }

  lemma CreatedNext(s: Tables, t: Tables, g: Graph, portalnum: seq<int>, i: int)
    requires Created(s, g, portalnum, i) && PortalArea(g, i) && s.numportals < |s.portals|
    requires t.numportals == s.numportals + 1
    requires t.portals == s.portals[s.numportals := s.portals[s.numportals].(areanum := i, frontcluster := 0, backcluster := 0)]
    ensures Created(t, g, portalnum[i := s.numportals], i + 1)
  {
  }

  lemma NoneToCreate(s: Tables, g: Graph, portalnum: seq<int>, i: int)
    requires Created(s, g, portalnum, i) && !PortalArea(g, i)
    ensures Created(s, g, portalnum, i + 1)
  {
  }

  /** The tables at the start of a round. */
  ghost predicate RoundStarts(s: Tables, r: Round) {
    && WellFormed(r.g)
    && LinksMatch(s.settings, r.reach, r.g.links)
    && FlagsMatch(s.settings, r.g.flag)
    && Roomy(s)
    && s.portalindexsize == 0
    && Created(s, r.g, r.portalnum, |s.settings|)
    && (forall a :: 0 <= a < |s.settings| ==> s.settings[a].cluster == 0)
  }

  lemma {:induction false} NoSidesYet(portals: seq<Portal>, n: int)
    requires n <= |portals|
    requires forall p :: 1 <= p < n ==> portals[p].frontcluster == 0 && portals[p].backcluster == 0
    ensures SideCount(portals, n) == 0
  {
    if n > 1 {
      NoSidesYet(portals, n - 1);
    }
  }

  // ----- one cluster after another

  /** What holds when the areas below i have been looked at and clusters 1..c are complete. */
  ghost predicate Finding(s: Tables, t: Tables, r: Round, c: int, i: int) {
    && 0 <= c < i
    && Complete(t, r, c)
    && SameFixed(s.settings, t.settings)
    && Roomy(t)
    && LinksMatch(t.settings, r.reach, r.g.links)
    && ClusteredBelow(t, r, i) && OpenedInOrder(t, r, c, i)
  }

  lemma FindingStarts(s: Tables, r: Round)
    requires RoundStarts(s, r)
    ensures Finding(s, s, r, 0, 1)
  {
    NoSidesYet(s.portals, s.numportals);
    assert Inv(s, r, 0);
  }

  lemma SameFixedDrops(s: seq<AreaSettings>, t: seq<AreaSettings>, u: seq<AreaSettings>, g: Graph)
    requires WellFormed(g) && SameFixed(s, t) && DropsOne(t, u, g)
    ensures DropsOne(s, u, g)
  {
    var d :| Drops(t, u, g, d);
    assert Fixed(t[d]).contents == t[d].contents && Fixed(s[d]).contents == s[d].contents;
    assert Drops(s, u, g, d);
  }

  lemma GrowthSameFixed(s: Tables, t: Tables, c: int)
    requires Grows(s, t, c)
    ensures SameFixed(s.settings, t.settings)
  {
    forall a | 0 <= a < |s.settings|
      ensures Fixed(t.settings[a]) == Fixed(s.settings[a])
    {
      assert MarkGrows(s.settings[a], t.settings[a], c);
    }
  }

  lemma RenumberingSameFixed(s: Tables, t: Tables, c: int)
    requires Renumbers(s, t, c)
    ensures SameFixed(s.settings, t.settings)
    ensures forall a :: 0 <= a < |s.settings| ==> t.settings[a].cluster == s.settings[a].cluster
  {
  }

  lemma SameFixedLinks(s: seq<AreaSettings>, t: seq<AreaSettings>, r: Round)
    requires SameFixed(s, t) && LinksMatch(s, r.reach, r.g.links)
    ensures LinksMatch(t, r.reach, r.g.links)
  {
    forall a | 0 <= a < |s|
      ensures t[a].firstreachablearea == s[a].firstreachablearea
      ensures t[a].numreachableareas == s[a].numreachableareas
    {
      assert Fixed(t[a]).firstreachablearea == t[a].firstreachablearea;
      assert Fixed(t[a]).numreachableareas == t[a].numreachableareas;
    }
  }

  lemma ClusterGrew(s: Tables, t: Tables, u: Tables, r: Round, c: int, i: int)
    requires Complete(s, r, c - 1) && 0 < c < |s.clusters|
    requires Plain(r.g, i) && s.settings[i].cluster == 0 && HasLink(r.g, i)
    requires Flooded(Opened(s, c), t, r, c, {}, i)
    requires Scanning(t, u, r, c, |t.settings|)
    ensures Grows(s, u, c) && Flooding(u, r, c, {}) && |u.settings| == |r.g.flag| && Sealed(u, r)
    ensures u.settings[i].cluster == c
  {
    OpenedFloods(s, r, c, i);
    InvBasics(t, r, c);
    hide Inv, Closed, NoCrossing, StackInCluster, Complete, MayJoin;
    GrowsTransitive(s, Opened(s, c), t, c);
    GrowsTransitive(s, t, u, c);
    assert MarkGrows(t.settings[i], u.settings[i], c);
  }

  lemma GrownStayClustered(s: Tables, u: Tables, v: Tables, r: Round, c: int, i: int)
    requires |s.settings| == |r.g.flag| == |r.g.links| && ClusteredBelow(s, r, i)
    requires Grows(s, u, c) && Renumbers(u, v, c) && 0 < i < |s.settings|
    requires u.settings[i].cluster == c > 0
    ensures |v.settings| == |r.g.flag| && ClusteredBelow(v, r, i + 1) && SameFixed(s.settings, v.settings)
  {
    GrowthSameFixed(s, u, c);
    RenumberingSameFixed(u, v, c);
    forall a | Plain(r.g, a) && a < i + 1 && |r.g.links[a]| > 0
      ensures v.settings[a].cluster > 0
    {
      if a < i {
        assert MarkGrows(s.settings[a], u.settings[a], c);
      }
    }
  }

  /** Cluster c is opened by area i, and the clusters before it by the areas that opened them. */
  lemma ClustersInOrder(s: Tables, u: Tables, v: Tables, r: Round, c: int, i: int)
    requires OpenedInOrder(s, r, c - 1, i) && ClusteredBelow(s, r, i) && Grows(s, u, c) && Renumbers(u, v, c)
    requires 0 < c && Plain(r.g, i) && |r.g.links[i]| > 0 && u.settings[i].cluster == c
    requires forall a :: Plain(r.g, a) && a < |s.settings| ==> s.settings[a].cluster < c
    ensures OpenedInOrder(v, r, c, i + 1)
  {
    RenumberingSameFixed(u, v, c);
    forall a | Plain(r.g, a)
      ensures v.settings[a].cluster == s.settings[a].cluster
        || (s.settings[a].cluster == 0 && (v.settings[a].cluster == c || v.settings[a].cluster < 0))
    {
      assert MarkGrows(s.settings[a], u.settings[a], c);
    }
    var n := i + 1;
    forall x | 1 <= x <= c
      ensures OpenedBelow(v, r, x, n)
    {
      if x < c {
        assert OpenedBelow(s, r, x, i);
        var a :| a < i && OpensCluster(s, r, x, a);
        assert OpensCluster(v, r, x, a);
      } else {
        assert OpensCluster(v, r, c, i);
      }
    }
  }

  lemma ClustersAreUpTo(s: Tables, r: Round, c: int)
    requires Complete(s, r, c)
    ensures |s.settings| == |r.g.flag| == |r.g.links|
    ensures forall a :: Plain(r.g, a) ==> s.settings[a].cluster <= c
  {
    hide Closed, Sealed, AllNumbered, Indexed, SidesTouch, ClustersConnected;
  }

  lemma ClusterFound(s0: Tables, s: Tables, t: Tables, u: Tables, v: Tables,
                     r: Round, c: int, i: int)
    requires Finding(s0, s, r, c - 1, i) && 0 < c < |s.clusters|
    requires 0 < i < |s.settings| && Plain(r.g, i) && s.settings[i].cluster == 0
    requires WellFormed(r.g) && |r.g.links[i]| > 0
    requires Flooded(Opened(s, c), t, r, c, {}, i)
    requires Scanning(t, u, r, c, |t.settings|)
    requires Renumbered(u, v, r, c)
    ensures Finding(s0, v, r, c, i + 1)
  {
    InvBasics(s, r, c - 1);
    ClusterGrew(s, t, u, r, c, i);
    hide Inv, Closed, NoCrossing, StackInCluster, Grows, Renumbers, Sealed, Labelled, Numbered, LinksMatch;
    hide Complete, Flooding, SameFixed, ClusteredBelow, Scanning, Flooded, OpenedInOrder;
    assert OpenedInOrder(v, r, c, i + 1) by {
      ClustersAreUpTo(s, r, c - 1);
      ClustersInOrder(s, u, v, r, c, i);
    }
    assert Complete(v, r, c) by { NumberingCompletes(s, u, v, r, c); }
    assert ClusteredBelow(v, r, i + 1) && SameFixed(s.settings, v.settings) by {
      GrownStayClustered(s, u, v, r, c, i);
    }
    assert LinksMatch(v.settings, r.reach, r.g.links) by {
      SameFixedLinks(s.settings, v.settings, r);
    }
    assert SameFixed(s0.settings, v.settings) by { SameFixedTransitive(s0.settings, s.settings, v.settings); }
    assert Roomy(v) by { SizesStay(s, u, v, c); }
  }

  lemma SameFixedTransitive(s: seq<AreaSettings>, t: seq<AreaSettings>, u: seq<AreaSettings>)
    requires SameFixed(s, t) && SameFixed(t, u)
    ensures SameFixed(s, u)
  {
  }

  lemma SizesStay(s: Tables, u: Tables, v: Tables, c: int)
    requires Roomy(s) && Grows(s, u, c) && Renumbers(u, v, c)
    ensures Roomy(v)
  {
  }

  lemma ClusterOpens(s0: Tables, s: Tables, r: Round, c: int, i: int)
    requires Finding(s0, s, r, c - 1, i) && 0 < i < |s.settings|
    requires WellFormed(r.g) && Plain(r.g, i) && |r.g.links[i]| > 0 && s.settings[i].cluster == 0
    ensures 0 < c < |s.clusters|
    ensures Flooding(Opened(s, c), r, c, {}) && Enterable(Opened(s, c), r, c, i)
    ensures Roomy(Opened(s, c)) && LinksMatch(Opened(s, c).settings, r.reach, r.g.links)
  {
    hide Complete, LinksMatch;
    assert HasLink(r.g, i);
    OpenedFloods(s, r, c, i);
  }

  lemma OpenedDrops(s0: Tables, s: Tables, u: seq<AreaSettings>, r: Round, c: int, i: int)
    requires Finding(s0, s, r, c - 1, i) && 0 < c < |s.clusters|
    requires WellFormed(r.g) && DropsOne(Opened(s, c).settings, u, r.g)
    ensures DropsOne(s0.settings, u, r.g)
  {
    SameFixedDrops(s0.settings, s.settings, u, r.g);
  }

  lemma FloodedDrops(s0: Tables, s: Tables, t: Tables, u: seq<AreaSettings>,
                     r: Round, c: int, i: int)
    requires Finding(s0, s, r, c - 1, i) && 0 < c < |s.clusters|
    requires Flooded(Opened(s, c), t, r, c, {}, i)
    requires WellFormed(r.g) && DropsOne(t.settings, u, r.g)
    ensures DropsOne(s0.settings, u, r.g)
  {
    DropAfterGrowth(Opened(s, c), t, u, r, c);
    OpenedDrops(s0, s, u, r, c, i);
  }

  lemma ScanningLabels(s: Tables, t: Tables, r: Round, c: int, i: int)
    requires Scanning(s, t, r, c, i)
    ensures Numberable(t, r, c)
  {
    InvLabels(t, r, c);
  }

  lemma ScanStarts(s: Tables, t: Tables, r: Round, c: int, i: int)
    requires Flooded(s, t, r, c, {}, i) && Roomy(s) && LinksMatch(s.settings, r.reach, r.g.links)
    ensures Scanning(t, t, r, c, 1)
  {
    GrowthKeepsLinks(s, t, c, r);
    GrowsSelf(t, c);
  }

  /** The tables when a round is about to clear the cluster marks of the one before. */
  ghost predicate RoundReady(s: Tables, r: Round) {
    && WellFormed(r.g)
    && LinksMatch(s.settings, r.reach, r.g.links)
    && FlagsMatch(s.settings, r.g.flag)
    && Roomy(s)
    && s.portalindexsize == 0
    && Created(s, r.g, r.portalnum, |s.settings|)
    && s.settings[0].cluster == 0
  }

  lemma RemovalStartsRound(s: Tables, t: Tables, r: Round)
    requires RoundReady(s, r) && ClustersRemoved(s, t)
    ensures SameFixed(s.settings, t.settings) && Finding(s, t, r, 0, 1)
  {
    hide Finding, Created, WellFormed;
    assert SameFixed(s.settings, t.settings);
    assert RoundStarts(t, r) by { RemovalKeepsRound(s, t, r); }
    FindingStarts(t, r);
    FindingFrom(s, t, r);
  }

  lemma RemovalKeepsRound(s: Tables, t: Tables, r: Round)
    requires RoundReady(s, r) && ClustersRemoved(s, t)
    ensures RoundStarts(t, r)
  {
    hide Created, WellFormed;
    assert Created(t, r.g, r.portalnum, |t.settings|) by { CreatedStays(s, t, r); }
  }

  lemma CreatedStays(s: Tables, t: Tables, r: Round)
    requires Created(s, r.g, r.portalnum, |s.settings|)
    requires t.portals == s.portals && t.numportals == s.numportals && |t.settings| == |s.settings|
    ensures Created(t, r.g, r.portalnum, |t.settings|)
  {
  }

  lemma FindingFrom(s: Tables, t: Tables, r: Round)
    requires Finding(t, t, r, 0, 1) && SameFixed(s.settings, t.settings)
    ensures Finding(s, t, r, 0, 1)
  {
    hide Complete, ClusteredBelow, LinksMatch, Roomy;
  }

  lemma OpenedLater(t: Tables, r: Round, c: int, i: int)
    requires OpenedInOrder(t, r, c, i)
    ensures OpenedInOrder(t, r, c, i + 1)
  {
    var n := i + 1;
    forall x | 1 <= x <= c
      ensures OpenedBelow(t, r, x, n)
    {
      assert OpenedBelow(t, r, x, i);
      var a :| a < i && OpensCluster(t, r, x, a);
      assert OpensCluster(t, r, x, a);
    }
  }

  /** An area that needs no cluster of its own. */
  lemma FindingSkips(s: Tables, t: Tables, r: Round, c: int, i: int)
    requires Finding(s, t, r, c, i) && 0 < i < |t.settings|
    requires t.settings[i].cluster != 0 || t.settings[i].numreachableareas == 0 || IsPortal(t.settings[i])
    ensures Finding(s, t, r, c, i + 1)
  {
    InvBasics(t, r, c);
    OpenedLater(t, r, c, i);
    hide Complete, OpenedInOrder;
  }

  /** What the settings of area i tell about the graph. */
  ghost predicate FindingReads(t: Tables, r: Round, c: int, i: int) {
    && 0 < i < |t.settings| == |r.g.flag| && WellFormed(r.g) && 0 <= c < i && c + 1 < AAS_MAX_CLUSTERS == |t.clusters|
    && |r.g.links[i]| == t.settings[i].numreachableareas
    && (Plain(r.g, i) <==> !IsPortal(t.settings[i]))
  }

  lemma FindingIsReadable(s: Tables, t: Tables, r: Round, c: int, i: int)
    requires Finding(s, t, r, c, i) && 0 < i < |t.settings|
    ensures FindingReads(t, r, c, i)
  {
    InvBasics(t, r, c);
  }

  lemma ReadyIsNonEmpty(s: Tables, r: Round)
    requires RoundReady(s, r)
    ensures |s.settings| > 0 && WellFormed(r.g)
  {
  }

  method OpenCluster(w: AasWorld, c: int)
    requires 0 <= c < w.clusters.Length
    modifies w.clusters
    ensures Snapshot(w) == Opened(old(Snapshot(w)), c)
  {
    w.clusters[c] := Cluster(0, 0, 0, w.portalindexsize);
  }

  /** Finds all clusters of a round. It fails only by dropping a bad portal; the cluster table cannot run out. */
  method FindClusters(w: AasWorld, ghost r: Round) returns (ok: bool)
    requires RoundReady(Snapshot(w), r) && w.numclusters == 1 && w.reachability[..] == r.reach
    modifies w`portalindexsize, w`numclusters, w.areasettings, w.portals, w.portalindex, w.clusters
    ensures ok ==> Finding(old(Snapshot(w)), Snapshot(w), r, w.numclusters - 1, w.areasettings.Length)
    ensures !ok ==> WellFormed(r.g) && DropsOne(old(Snapshot(w)).settings, Snapshot(w).settings, r.g)
  {
    hide Finding, RoundReady, DropsOne, WellFormed, Flooding, Flooded, Enterable, LinksMatch, Roomy, Scanning, Opened;
    hide Numberable, Renumbered;
    ghost var s0 := Snapshot(w);
    assert w.areasettings.Length > 0 by { ReadyIsNonEmpty(s0, r); }
    RemoveClusterAreas(w);
    assert Finding(s0, Snapshot(w), r, 0, 1) by { RemovalStartsRound(s0, Snapshot(w), r); }
    var i := 1;
    while i < w.areasettings.Length
      invariant 1 <= i <= w.areasettings.Length
      invariant Finding(s0, Snapshot(w), r, w.numclusters - 1, i)
    {
      ghost var s := Snapshot(w);
      var c := w.numclusters;
      assert FindingReads(s, r, c - 1, i) by { FindingIsReadable(s0, s, r, c - 1, i); }
      if w.areasettings[i].cluster != 0 || w.areasettings[i].numreachableareas == 0 || IsPortal(w.areasettings[i]) {
        assert Finding(s0, s, r, c - 1, i + 1) by { FindingSkips(s0, s, r, c - 1, i); }
        i := i + 1;
        continue;
      }
      if w.numclusters >= AAS_MAX_CLUSTERS {
        assert false;
      }
      OpenCluster(w, c);
      ghost var o := Snapshot(w);
      assert Flooding(o, r, c, {}) && Enterable(o, r, c, i) && Roomy(o) && LinksMatch(o.settings, r.reach, r.g.links) by {
        ClusterOpens(s0, s, r, c, i);
      }
      ok := FloodClusterAreas(w, i, c, r, {});
      ghost var t := Snapshot(w);
      if !ok {
        assert DropsOne(s0.settings, t.settings, r.g) by { OpenedDrops(s0, s, t.settings, r, c, i); }
        return false;
      }
      assert Scanning(t, t, r, c, 1) by { ScanStarts(o, t, r, c, i); }
      ok := FloodClusterAreasUsingReachabilities(w, c, r);
      ghost var u := Snapshot(w);
      if !ok {
        assert DropsOne(s0.settings, u.settings, r.g) by { FloodedDrops(s0, s, t, u.settings, r, c, i); }
        return false;
      }
      assert Numberable(u, r, c) by { ScanningLabels(t, u, r, c, |t.settings|); }
      NumberClusterAreas(w, c, r);
      ghost var v := Snapshot(w);
      assert Finding(s0, v, r, c, i + 1) by { ClusterFound(s0, s, t, u, v, r, c, i); }
      w.numclusters := w.numclusters + 1;
      i := i + 1;
    }
    return true;
  }

  // ----- testing the portals

  /** A portal with a free side, once all clusters are found, does not separate two components. */
  lemma OneSidedPortalIsBad(s: Tables, r: Round, c: int, p: int)
    requires Complete(s, r, c) && ClusteredBelow(s, r, |s.settings|)
    requires 1 <= p < s.numportals && Sides(s.portals[p]) < 2
    ensures !SeparatesTwo(r.g, s.portals[p].areanum)
  {
    var d := s.portals[p].areanum;
    forall a, b | Feeds(r.g, a, d) && Feeds(r.g, b, d)
      ensures Connected(r.g, a, b)
    {
      assert Settled(s, r, s.settings[a].cluster, d);
      assert Settled(s, r, s.settings[b].cluster, d);
    }
  }

  /** Areas in clusters are connected only within their cluster. */
  lemma CompleteClusterHoldsComponent(s: Tables, r: Round, c: int, a: int, b: int)
    requires Complete(s, r, c) && Plain(r.g, a) && s.settings[a].cluster > 0 && Connected(r.g, a, b)
    ensures Plain(r.g, b) && s.settings[b].cluster == s.settings[a].cluster
  {
    var k := s.settings[a].cluster;
    var component := iset x | Plain(r.g, x) && s.settings[x].cluster == k;
    forall x, y | x in component && Linked(r.g, x, y)
      ensures y in component
    {
      if x in r.g.links[y] {
        assert s.settings[y].cluster > 0;
        assert Settled(s, r, s.settings[y].cluster, x);
      } else {
        assert Settled(s, r, k, y);
      }
    }
    ClosedSetHoldsComponent(r.g, component, a, b);
  }

  /** A portal with two sides separates exactly two components. */
  lemma TwoSidedPortalIsGood(s: Tables, r: Round, c: int, p: int)
    requires Complete(s, r, c) && ClusteredBelow(s, r, |s.settings|)
    requires 1 <= p < s.numportals && Sides(s.portals[p]) == 2
    ensures SeparatesTwo(r.g, s.portals[p].areanum)
  {
    var portal := s.portals[p];
    var d := portal.areanum;
    var a :| Feeds(r.g, a, d) && s.settings[a].cluster == portal.frontcluster;
    var b :| Feeds(r.g, b, d) && s.settings[b].cluster == portal.backcluster;
    if Connected(r.g, a, b) {
      CompleteClusterHoldsComponent(s, r, c, a, b);
    }
    forall x | Feeds(r.g, x, d)
      ensures Connected(r.g, x, a) || Connected(r.g, x, b)
    {
      assert Settled(s, r, s.settings[x].cluster, d);
    }
    assert SeparatedBy(r.g, d, a, b);
  }

  /** All clusters are found and every portal has two sides. */
  ghost predicate Success(s: Tables, r: Round, c: int) {
    && Complete(s, r, c)
    && ClusteredBelow(s, r, |s.settings|) && OpenedInOrder(s, r, c, |s.settings|)
    && forall p :: 1 <= p < s.numportals ==> Sides(s.portals[p]) == 2
  }

  function Unflagged(s: seq<AreaSettings>, d: int): seq<AreaSettings>
    requires 0 <= d < |s|
  {
    s[d := s[d].(contents := WithoutFlag(s[d].contents, AREACONTENTS_CLUSTERPORTAL))]
  }

  lemma OneSidedPortalDrops(s0: Tables, s: Tables, r: Round, c: int, p: int)
    requires Finding(s0, s, r, c, |s.settings|)
    requires 1 <= p < s.numportals <= |s.portals| && Sides(s.portals[p]) < 2
    requires 0 <= s.portals[p].areanum < |s.settings|
    ensures WellFormed(r.g) && DropsOne(s0.settings, Unflagged(s.settings, s.portals[p].areanum), r.g)
  {
    var d := s.portals[p].areanum;
    OneSidedPortalIsBad(s, r, c, p);
    InvBasics(s, r, c);
    assert Drops(s.settings, Unflagged(s.settings, d), r.g, d);
    SameFixedDrops(s0.settings, s.settings, Unflagged(s.settings, d), r.g);
  }

  ghost predicate PortalsRead(s: Tables) {
    && 1 <= s.numportals <= |s.portals|
    && forall p :: 1 <= p < s.numportals ==> 0 <= s.portals[p].areanum < |s.settings|
  }

  lemma FindingReadsPortals(s0: Tables, s: Tables, r: Round, c: int)
    requires Finding(s0, s, r, c, |s.settings|)
    ensures PortalsRead(s) && WellFormed(r.g)
  {
    InvBasics(s, r, c);
  }

  lemma TestsSucceed(s0: Tables, s: Tables, r: Round, c: int)
    requires Finding(s0, s, r, c, |s.settings|)
    requires s.numportals <= |s.portals| && forall p :: 1 <= p < s.numportals ==> Sides(s.portals[p]) == 2
    ensures Success(s, r, c)
  {
  }

  /** Clears the flag of the first portal that lacks a side. */
  method TestPortals(w: AasWorld, ghost s0: Tables, ghost r: Round) returns (ok: bool)
    requires Finding(s0, Snapshot(w), r, w.numclusters - 1, w.areasettings.Length)
    modifies w.areasettings
    ensures ok ==> Snapshot(w) == old(Snapshot(w)) && Success(Snapshot(w), r, w.numclusters - 1)
    ensures !ok ==> WellFormed(r.g) && DropsOne(s0.settings, Snapshot(w).settings, r.g)
  {
    hide Finding, Success, Inv, DropsOne, WellFormed, PortalTable;
    ghost var s := Snapshot(w);
    ghost var c := w.numclusters - 1;
    assert PortalsRead(s) && WellFormed(r.g) by { FindingReadsPortals(s0, s, r, c); }
    var i := 1;
    while i < w.numportals
      invariant 1 <= i <= w.numportals
      invariant Snapshot(w) == s
      invariant forall p :: 1 <= p < i ==> Sides(s.portals[p]) == 2
    {
      var portal := w.portals[i];
      if portal.frontcluster == 0 || portal.backcluster == 0 {
        w.areasettings[portal.areanum] := w.areasettings[portal.areanum].(contents :=
          WithoutFlag(w.areasettings[portal.areanum].contents, AREACONTENTS_CLUSTERPORTAL));
        assert DropsOne(s0.settings, Snapshot(w).settings, r.g) by {
          OneSidedPortalDrops(s0, s, r, c, i);
        }
        return false;
      }
      i := i + 1;
    }
    assert Success(s, r, c) by { TestsSucceed(s0, s, r, c); }
    return true;
  }
}
