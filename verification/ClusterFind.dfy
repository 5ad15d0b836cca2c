/** Finding all clusters of one round: what holds between clusters, the scan that pulls in the
    areas leading into a cluster, and the loop over all areas. */
module ClusterFind {
  import opened AasDef
  import opened ClusterGraph
  import opened ClusterState
  import opened ClusterFlood
  import opened ClusterNumber

  /** No unclustered area below n has a reachability into a clustered one. */
  ghost predicate SealedBelow(s: Tables, r: Round, n: int)
    requires WellFormed(r.g) && |s.settings| == |r.g.flag|
  {
    forall a, b ::
      Plain(r.g, a) && a < n && s.settings[a].cluster == 0 && b in r.g.links[a] && Plain(r.g, b) ==>
        s.settings[b].cluster == 0
  }

  ghost predicate Sealed(s: Tables, r: Round)
    requires WellFormed(r.g) && |s.settings| == |r.g.flag|
  {
    SealedBelow(s, r, |s.settings|)
  }

  /** An area with a reachability into a clustered area, both plain. */
  ghost predicate LeadsIn(s: Tables, r: Round, a: int)
    requires WellFormed(r.g) && |s.settings| == |r.g.flag| && Plain(r.g, a)
  {
    exists b :: b in r.g.links[a] && Plain(r.g, b) && s.settings[b].cluster != 0
  }

  /** An unclustered area that leads in may be entered by the running cluster. */
  lemma LeadsInIsEnterable(s: Tables, r: Round, c: int, a: int)
    requires Flooding(s, r, c, {}) && Plain(r.g, a) && s.settings[a].cluster == 0 && LeadsIn(s, r, a)
    ensures Enterable(s, r, c, a)
  {
    var b :| b in r.g.links[a] && Plain(r.g, b) && s.settings[b].cluster != 0;
    assert Fresh(s, c, a);
    assert Fresh(s, c, b);
    assert Linked(r.g, b, a);
    MembersReach(s, r, c, b, a);
  }

  /** The state of the scan for areas that lead into cluster c, which began in state s. */
  ghost predicate Scanning(s: Tables, t: Tables, r: Round, c: int, i: int) {
    && Flooding(t, r, c, {})
    && Grows(s, t, c)
    && Roomy(t)
    && LinksMatch(t.settings, r.reach, r.g.links)
    && SealedBelow(t, r, i)
  }

  /** What the scan may rely on when it reads the settings of area i. */
  ghost predicate Legible(t: Tables, r: Round) {
    && WellFormed(r.g)
    && LinksMatch(t.settings, r.reach, r.g.links)
    && FlagsMatch(t.settings, r.g.flag)
    && |t.settings| > 0 && t.settings[0].cluster == 0
  }

  lemma ScanningIsLegible(s: Tables, t: Tables, r: Round, c: int, i: int)
    requires Scanning(s, t, r, c, i)
    ensures Legible(t, r)
  {
  }

  /** Does area a have a reachability into an area that is in a cluster and is no portal? */
  method FindsCluster(w: AasWorld, a: int, ghost r: Round) returns (found: bool)
    requires Legible(Snapshot(w), r) && Plain(r.g, a) && w.reachability[..] == r.reach
    ensures found <==> LeadsIn(Snapshot(w), r, a)
  {
    ghost var links := r.g.links[a];
    var j := 0;
    while j < w.areasettings[a].numreachableareas
      invariant 0 <= j <= |links|
      invariant forall k :: 0 <= k < j && Plain(r.g, links[k]) ==> w.areasettings[links[k]].cluster == 0
    {
      var b := w.reachability[w.areasettings[a].firstreachablearea + j].areanum;
      assert b == links[j] && b in links;
      if !IsPortal(w.areasettings[b]) && w.areasettings[b].cluster != 0 {
        assert b in links && Plain(r.g, b);
        return true;
      }
      j := j + 1;
    }
    return false;
  }

  lemma ScanSkips(s: Tables, t: Tables, r: Round, c: int, i: int)
    requires Scanning(s, t, r, c, i) && 0 < i < |t.settings|
    requires t.settings[i].cluster != 0 || IsPortal(t.settings[i]) || (Plain(r.g, i) && !LeadsIn(t, r, i))
    ensures Scanning(s, t, r, c, i + 1)
  {
    InvBasics(t, r, c);
    hide Flooding, Grows;
  }

  lemma ScanEnters(s: Tables, t: Tables, r: Round, c: int, i: int)
    requires Scanning(s, t, r, c, i) && Plain(r.g, i) && t.settings[i].cluster == 0 && LeadsIn(t, r, i)
    ensures Flooding(t, r, c, {}) && Enterable(t, r, c, i) && Roomy(t) && LinksMatch(t.settings, r.reach, r.g.links)
  {
    LeadsInIsEnterable(t, r, c, i);
  }

  lemma ScanRestarts(s: Tables, t: Tables, u: Tables, r: Round, c: int, i: int)
    requires Scanning(s, t, r, c, i) && Plain(r.g, i) && t.settings[i].cluster == 0
    requires Flooded(t, u, r, c, {}, i)
    ensures Scanning(s, u, r, c, 1)
    ensures |u.settings| == |t.settings| && Unclustered(u, r) < Unclustered(t, r)
  {
    GrowsTransitive(s, t, u, c);
    GrowthKeepsLinks(t, u, c, r);
    GrowthShrinksUnclustered(t, u, r, c);
    assert i in Unclustered(t, r) && i !in Unclustered(u, r);
  }

  lemma ScanDrops(s: Tables, t: Tables, u: seq<AreaSettings>, r: Round, c: int, i: int)
    requires Scanning(s, t, r, c, i) && WellFormed(r.g) && DropsOne(t.settings, u, r.g)
    ensures DropsOne(s.settings, u, r.g)
  {
    DropAfterGrowth(s, t, u, r, c);
  }

  /** Pulls areas that lead into a cluster into cluster c, scanning anew after each flood. */
  method FloodClusterAreasUsingReachabilities(w: AasWorld, c: int, ghost r: Round) returns (ok: bool)
    requires Scanning(Snapshot(w), Snapshot(w), r, c, 1) && w.reachability[..] == r.reach
    modifies w`portalindexsize, w.areasettings, w.portals, w.portalindex, w.clusters
    ensures WellFormed(r.g) && |r.g.flag| == w.areasettings.Length
    ensures ok ==> Scanning(old(Snapshot(w)), Snapshot(w), r, c, w.areasettings.Length)
    ensures !ok ==> DropsOne(old(Snapshot(w)).settings, Snapshot(w).settings, r.g)
  {
    hide Scanning, Flooding, Flooded, Enterable, LinksMatch, Roomy, DropsOne, WellFormed, LeadsIn;
    ghost var s := Snapshot(w);
    assert Legible(s, r) by { ScanningIsLegible(s, s, r, c, 1); }
    var i := 1;
    while i < w.areasettings.Length
      invariant 1 <= i <= w.areasettings.Length
      invariant Scanning(s, Snapshot(w), r, c, i)
      decreases Unclustered(Snapshot(w), r), w.areasettings.Length - i
    {
      ghost var t := Snapshot(w);
      assert Legible(t, r) by { ScanningIsLegible(s, t, r, c, i); }
      var found := false;
      if w.areasettings[i].cluster == 0 && !IsPortal(w.areasettings[i]) {
        found := FindsCluster(w, i, r);
      }
      if found {
        assert Flooding(t, r, c, {}) && Enterable(t, r, c, i) && Roomy(t)
          && LinksMatch(t.settings, r.reach, r.g.links) by {
          ScanEnters(s, t, r, c, i);
        }
        ok := FloodClusterAreas(w, i, c, r, {});
        ghost var u := Snapshot(w);
        if !ok {
          assert DropsOne(s.settings, u.settings, r.g) by { ScanDrops(s, t, u.settings, r, c, i); }
          return false;
        }
        assert Scanning(s, u, r, c, 1) && Unclustered(u, r) < Unclustered(t, r) by {
          ScanRestarts(s, t, u, r, c, i);
        }
        i := 0;
      } else {
        assert Scanning(s, t, r, c, i + 1) by { ScanSkips(s, t, r, c, i); }
      }
      i := i + 1;
    }
    return true;
  }

  // ----- from one cluster to the next

  ghost predicate SameFixed(s: seq<AreaSettings>, t: seq<AreaSettings>) {
    |t| == |s| && forall a :: 0 <= a < |s| ==> Fixed(t[a]) == Fixed(s[a])
  }

  /** Every plain area below n that has reachabilities is in a cluster. */
  ghost predicate ClusteredBelow(s: Tables, r: Round, n: int)
    requires |s.settings| == |r.g.flag| == |r.g.links|
  {
    forall a :: Plain(r.g, a) && a < n && |r.g.links[a]| > 0 ==> s.settings[a].cluster > 0
  }

  ghost predicate AllNumbered(s: Tables, r: Round, c: int) {
    && |s.settings| == |r.g.flag| && PortalTable(s, r) && Labelled(s, r) && c < |s.clusters|
    && forall x :: 0 < x <= c ==> Numbered(s, r, x)
  }

  /** Area a is the first with a reachability in the clusters from x on, and it is in x. */
  ghost predicate OpensCluster(s: Tables, r: Round, x: int, a: int)
    requires |s.settings| == |r.g.flag| == |r.g.links|
  {
    && Plain(r.g, a) && |r.g.links[a]| > 0 && s.settings[a].cluster == x
    && forall b :: Plain(r.g, b) && |r.g.links[b]| > 0 && s.settings[b].cluster >= x ==> a <= b
  }

  ghost predicate OpenedBelow(s: Tables, r: Round, x: int, n: int)
    requires |s.settings| == |r.g.flag| == |r.g.links|
  {
    exists a :: a < n && OpensCluster(s, r, x, a)
  }

  /** Clusters are numbered in the order of the areas below n that opened them. */
  ghost predicate OpenedInOrder(s: Tables, r: Round, c: int, n: int) {
    && |s.settings| == |r.g.flag| == |r.g.links|
    && forall x :: 1 <= x <= c ==> OpenedBelow(s, r, x, n)
  }

  /** What holds after c complete clusters. */
  ghost predicate Complete(s: Tables, r: Round, c: int) {
    && Inv(s, r, c)
    && Closed(s, r, {})
    && Sealed(s, r)
    && AllNumbered(s, r, c)
  }

  lemma RenumberingKeepsInv(s: Tables, t: Tables, r: Round, c: int)
    requires Inv(s, r, c) && c > 0 && Renumbers(s, t, c)
    requires PortalTable(t, r)
    ensures Inv(t, r, c)
  {
    hide Indexed, SidesTouch, Renumbers, ClustersConnected, Rooted;
    assert SameShape(s, t) by { RenumberingKeepsShape(s, t, c); }
    assert Indexed(t, c) by { RenumberingKeepsIndex(s, t, r, c); }
    assert FlagsMatch(t.settings, r.g.flag);
    assert SidesTouch(t, r) by { SameShapeTouch(s, t, r); }
    assert ClustersConnected(t, r) && Rooted(t, r) by { SameShapeConnected(s, t, r); }
    assert t.portalindexsize == SideCount(t.portals, t.numportals) by {
      SideCountSame(s.portals, t.portals, s.numportals);
    }
  }

  /** Two states that differ in numbers alone. */
  ghost predicate SameShape(s: Tables, t: Tables) {
    && |t.settings| == |s.settings| && |t.portals| == |s.portals|
    && t.numportals == s.numportals && t.portalindexsize == s.portalindexsize
    && (forall p :: 0 <= p < |s.portals| ==>
          && t.portals[p].areanum == s.portals[p].areanum
          && t.portals[p].frontcluster == s.portals[p].frontcluster
          && t.portals[p].backcluster == s.portals[p].backcluster)
    && (forall a :: 0 <= a < |s.settings| ==>
          && t.settings[a].cluster == s.settings[a].cluster && t.settings[a].contents == s.settings[a].contents)
  }

  lemma SameShapeConnected(s: Tables, t: Tables, r: Round)
    requires WellFormed(r.g) && |s.settings| == |r.g.flag| && SameShape(s, t)
    requires ClustersConnected(s, r) && Rooted(s, r)
    ensures ClustersConnected(t, r) && Rooted(t, r)
  {
  }

  lemma RenumberingKeepsShape(s: Tables, t: Tables, c: int)
    requires Renumbers(s, t, c)
    ensures SameShape(s, t)
  {
    forall p | 0 <= p < |s.portals|
      ensures t.portals[p].areanum == s.portals[p].areanum
      ensures t.portals[p].frontcluster == s.portals[p].frontcluster
      ensures t.portals[p].backcluster == s.portals[p].backcluster
    {
      assert PortalRenumbered(s.portals[p], t.portals[p], c);
    }
  }

  lemma SameShapeSegment(s: Tables, t: Tables, x: int)
    requires 0 <= x < |s.clusters| == |t.clusters| && 1 <= s.numportals <= |s.portals|
    requires SameShape(s, t) && SegmentLists(s, x) && t.portalindex == s.portalindex
    requires t.clusters[x].firstportal == s.clusters[x].firstportal
    requires t.clusters[x].numportals == s.clusters[x].numportals
    ensures SegmentLists(t, x)
  {
    assert Segment(t, x) == Segment(s, x);
  }

  lemma RenumberingKeepsIndex(s: Tables, t: Tables, r: Round, c: int)
    requires PortalTable(s, r) && Indexed(s, c) && c > 0 && Renumbers(s, t, c)
    ensures |t.settings| == |s.settings| && t.numportals == s.numportals <= |t.portals| && Indexed(t, c)
  {
    hide SegmentLists, SameShape;
    assert SameShape(s, t) by { RenumberingKeepsShape(s, t, c); }
    assert Tiled(t, c);
    forall x | 1 <= x <= c
      ensures SegmentLists(t, x)
    {
      SameShapeSegment(s, t, x);
    }
  }

  lemma SameShapeTouch(s: Tables, t: Tables, r: Round)
    requires WellFormed(r.g) && |s.settings| == |r.g.flag| && PortalTable(s, r) && SidesTouch(s, r)
    requires SameShape(s, t) && PortalTable(t, r)
    ensures SidesTouch(t, r)
  {
    forall x, d | Touches(s, r, x, d)
      ensures Touches(t, r, x, d)
    {
      var f :| Feeds(r.g, f, d) && s.settings[f].cluster == x;
      assert t.settings[f].cluster == x;
    }
  }

  lemma RenumberingKeepsClosed(s: Tables, t: Tables, r: Round, c: int)
    requires WellFormed(r.g) && |s.settings| == |r.g.flag| && PortalTable(s, r) && PortalTable(t, r)
    requires Closed(s, r, {}) && Sealed(s, r) && Renumbers(s, t, c)
    ensures |t.settings| == |r.g.flag| && Closed(t, r, {}) && Sealed(t, r)
  {
    forall a, b | Plain(r.g, a) && t.settings[a].cluster > 0 && b in r.g.links[a]
      ensures Settled(t, r, t.settings[a].cluster, b)
    {
      assert Settled(s, r, s.settings[a].cluster, b);
      if PortalArea(r.g, b) {
        assert PortalRenumbered(s.portals[r.portalnum[b]], t.portals[r.portalnum[b]], c);
      }
    }
  }

  lemma InvLabels(s: Tables, r: Round, c: int)
    requires Inv(s, r, c)
    ensures |s.settings| == |r.g.flag| && PortalTable(s, r) && Labelled(s, r)
    ensures c > 0 ==> c < |s.clusters| && SegmentLists(s, c)
  {
  }

  function Opened(s: Tables, c: int): Tables
    requires 0 <= c < |s.clusters|
  {
    s.(clusters := s.clusters[c := Cluster(0, 0, 0, s.portalindexsize)])
  }

  lemma OpenedKeepsIndex(s: Tables, c: int)
    requires 1 <= s.numportals <= |s.portals| && PortalSides(s, c - 1)
    requires Indexed(s, c - 1) && 0 < c < |s.clusters| && s.portalindexsize >= 0
    ensures Indexed(Opened(s, c), c)
  {
    hide SegmentLists;
    var t := Opened(s, c);
    forall x | 1 <= x <= c
      ensures SegmentLists(t, x)
    {
      if x < c {
        assert SegmentLists(s, x);
        OpenedKeepsSegment(s, c, x);
      } else {
        OpenedIsEmpty(s, c);
      }
    }
  }

  lemma OpenedKeepsSegment(s: Tables, c: int, x: int)
    requires 1 <= s.numportals <= |s.portals| && 0 <= x < c < |s.clusters| && SegmentLists(s, x)
    ensures SegmentLists(Opened(s, c), x)
  {
    assert Segment(Opened(s, c), x) == Segment(s, x);
  }

  lemma OpenedIsEmpty(s: Tables, c: int)
    requires 1 <= s.numportals <= |s.portals| && 0 < c < |s.clusters| && PortalSides(s, c - 1)
    requires 0 <= s.portalindexsize <= |s.portalindex|
    ensures SegmentLists(Opened(s, c), c)
  {
    assert |Segment(Opened(s, c), c)| == 0;
  }

  lemma OpenedKeepsInv(s: Tables, r: Round, c: int)
    requires Inv(s, r, c - 1) && 0 < c < |s.clusters|
    ensures Inv(Opened(s, c), r, c)
  {
    hide Indexed, ClustersConnected, Rooted, SidesTouch;
    var t := Opened(s, c);
    assert Indexed(t, c) by { OpenedKeepsIndex(s, c); }
    assert SidesTouch(t, r) by { SameSettingsTouch(s, t, r); }
    assert ClustersConnected(t, r) && Rooted(t, r) by { SameSettingsConnected(s, t, r); }
  }

  lemma SameSettingsTouch(s: Tables, t: Tables, r: Round)
    requires WellFormed(r.g) && |s.settings| == |r.g.flag| && PortalTable(s, r) && SidesTouch(s, r)
    requires t == s.(clusters := t.clusters)
    ensures PortalTable(t, r) && SidesTouch(t, r)
  {
    forall x, d | Touches(s, r, x, d)
      ensures Touches(t, r, x, d)
    {
      var f :| Feeds(r.g, f, d) && s.settings[f].cluster == x;
      assert t.settings[f].cluster == x;
    }
  }

  lemma SameSettingsConnected(s: Tables, t: Tables, r: Round)
    requires WellFormed(r.g) && |s.settings| == |r.g.flag| && t == s.(clusters := t.clusters)
    requires ClustersConnected(s, r) && Rooted(s, r)
    ensures ClustersConnected(t, r) && Rooted(t, r)
  {
  }

  /** A new cluster may be flooded from any unclustered plain area. */
  lemma OpenedFloods(s: Tables, r: Round, c: int, a: int)
    requires Complete(s, r, c - 1) && 0 < c < |s.clusters|
    requires Plain(r.g, a) && s.settings[a].cluster == 0 && HasLink(r.g, a)
    ensures var t := Opened(s, c);
      Flooding(t, r, c, {}) && Enterable(t, r, c, a) && Grows(s, t, c)
  {
    hide Inv, AllNumbered, Grows, NoCrossing, PortalTable, Closed, MayJoin, Sealed;
    var t := Opened(s, c);
    assert WellFormed(r.g) && |s.settings| == |r.g.flag| && PortalTable(s, r) by { InvBasics(s, r, c - 1); }
    assert Inv(t, r, c) by { OpenedKeepsInv(s, r, c); }
    assert NoCrossing(t, r, c) && MayJoin(t, r, c, a) by { OpenedIsFresh(s, r, c, a); }
    assert PortalTable(t, r) by { InvBasics(t, r, c); }
    assert Closed(t, r, {}) by { SameSettingsClosed(s, t, r); }
    assert Grows(s, t, c) by { OpenedGrows(s, c); }
  }

  lemma OpenedGrows(s: Tables, c: int)
    requires 0 < c < |s.clusters|
    ensures Grows(s, Opened(s, c), c)
  {
  }

  lemma OpenedIsFresh(s: Tables, r: Round, c: int, a: int)
    requires Complete(s, r, c - 1) && 0 < c < |s.clusters|
    requires Plain(r.g, a) && s.settings[a].cluster == 0 && HasLink(r.g, a)
    ensures NoCrossing(Opened(s, c), r, c) && MayJoin(Opened(s, c), r, c, a)
  {
    InvBasics(s, r, c - 1);
    hide Inv, AllNumbered, Closed;
  }

  lemma SameSettingsClosed(s: Tables, t: Tables, r: Round)
    requires WellFormed(r.g) && |s.settings| == |r.g.flag| && PortalTable(s, r) && PortalTable(t, r)
    requires t == s.(clusters := t.clusters) && Closed(s, r, {})
    ensures Closed(t, r, {})
  {
    forall x, b | Plain(r.g, x) && t.settings[x].cluster > 0 && b in r.g.links[x]
      ensures Settled(t, r, t.settings[x].cluster, b)
    {
      assert Settled(s, r, s.settings[x].cluster, b);
    }
  }

  lemma OlderSegmentEnds(s: Tables, r: Round, c: int, x: int)
    requires Inv(s, r, c) && 0 < x <= c
    ensures x < |s.clusters| && s.clusters[x].firstportal + s.clusters[x].numportals <= s.portalindexsize
  {
    SegmentsEndBy(s, c, x);
  }

  /** Flooding, sealing and numbering cluster c completes it. */
  lemma NumberingCompletes(s: Tables, t: Tables, u: Tables, r: Round, c: int)
    requires Complete(s, r, c - 1) && 0 < c < |s.clusters| && Grows(s, t, c)
    requires Flooding(t, r, c, {}) && Sealed(t, r)
    requires Renumbers(t, u, c) && |u.settings| == |r.g.flag| && PortalTable(u, r) && Labelled(u, r) && Numbered(u, r, c)
    ensures Complete(u, r, c)
  {
    hide Inv, Closed, Sealed, Grows, Renumbers, Labelled, Numbered, PortalTable, NoCrossing, StackInCluster;
    assert Inv(u, r, c) by { RenumberingKeepsInv(t, u, r, c); }
    assert WellFormed(r.g) && |t.settings| == |r.g.flag| && PortalTable(t, r) by { InvBasics(t, r, c); }
    assert Closed(u, r, {}) && Sealed(u, r) by { RenumberingKeepsClosed(t, u, r, c); }
    assert c < |u.clusters| by { InvBasics(u, r, c); }
    forall x | 0 < x < c
      ensures Numbered(u, r, x)
    {
      OlderNumbersStay(s, t, u, r, c, x);
    }
  }

  lemma OlderNumbersStay(s: Tables, t: Tables, u: Tables, r: Round, c: int, x: int)
    requires Complete(s, r, c - 1) && 0 < x < c < |s.clusters| && Grows(s, t, c) && Inv(t, r, c) && Renumbers(t, u, c)
    ensures |u.settings| == |r.g.flag| && PortalTable(u, r) && Labelled(u, r) && x < |u.clusters| && Numbered(u, r, x)
  {
    hide Inv, Closed, Sealed, Grows, Renumbers, Labelled, Numbered, PortalTable;
    assert |s.settings| == |r.g.flag| && PortalTable(s, r) && Labelled(s, r) && Numbered(s, r, x);
    assert x < |s.clusters| && s.clusters[x].firstportal + s.clusters[x].numportals <= s.portalindexsize by {
      OlderSegmentEnds(s, r, c - 1, x);
    }
    assert |t.settings| == |r.g.flag| && PortalTable(t, r) && Labelled(t, r) && |t.clusters| == |s.clusters| by {
      InvBasics(t, r, c);
      InvLabels(t, r, c);
      SameTableSizes(s, t, c);
    }
    GrowthKeepsNumbers(s, t, r, c, x);
    RenumberingKeepsOthers(t, u, r, c, x);
    OtherClusterStays(t, u, c, x);
    RenumberingKeepsTables(t, u, r, c);
  }

  lemma SameTableSizes(s: Tables, t: Tables, c: int)
    requires Grows(s, t, c)
    ensures |t.clusters| == |s.clusters|
  {
  }
}
