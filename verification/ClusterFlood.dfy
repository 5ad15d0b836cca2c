/** Flooding one cluster: what a flood may change, why no flood runs into an older
    cluster, and why a portal that is full when a third cluster reaches it is a bad one. */
module ClusterFlood {
  import opened AasDef
  import opened ClusterGraph
  import opened ClusterState

  function Snapshot(w: AasWorld): Tables
    reads w`areasettings, w`portals, w`numportals, w`portalindex, w`portalindexsize, w`clusters
    reads w.areasettings, w.portals, w.portalindex, w.clusters
  {
    Tables(w.areasettings[..], w.portals[..], w.numportals,
           w.portalindex[..], w.portalindexsize, w.clusters[..])
  }

  /** The part of an area's settings that flooding never writes. */
  function Fixed(s: AreaSettings): AreaSettings {
    s.(cluster := 0, clusterareanum := 0)
  }

  ghost predicate SideGrows(before: int, after: int, c: int) {
    after == before || (before == 0 && after == c)
  }

  ghost predicate MarkGrows(before: AreaSettings, after: AreaSettings, c: int) {
    || after == before
    || (before.cluster == 0 && (after.cluster == c || after.cluster < 0) && Fixed(after) == Fixed(before))
  }

  /** Work on cluster c only fills empty fields with c and touches nothing older. */
  ghost predicate Grows(s: Tables, t: Tables, c: int) {
    && |t.settings| == |s.settings|
    && (forall a :: 0 <= a < |s.settings| ==> MarkGrows(s.settings[a], t.settings[a], c))
    && |t.portals| == |s.portals| && t.numportals == s.numportals
    && (forall p :: 0 <= p < |s.portals| ==>
          && SideGrows(s.portals[p].frontcluster, t.portals[p].frontcluster, c)
          && SideGrows(s.portals[p].backcluster, t.portals[p].backcluster, c)
          && t.portals[p].areanum == s.portals[p].areanum
          && t.portals[p].frontareanum == s.portals[p].frontareanum
          && t.portals[p].backareanum == s.portals[p].backareanum)
    && |t.portalindex| == |s.portalindex| && s.portalindexsize <= t.portalindexsize
    && (forall k :: 0 <= k < s.portalindexsize && k < |s.portalindex| ==> t.portalindex[k] == s.portalindex[k])
    && |t.clusters| == |s.clusters|
    && (forall x :: 0 <= x < |s.clusters| && x != c ==> t.clusters[x] == s.clusters[x])
  }

  lemma GrowsTransitive(s: Tables, t: Tables, u: Tables, c: int)
    requires Grows(s, t, c) && Grows(t, u, c)
    ensures Grows(s, u, c)
  {
  }

  lemma GrowthKeepsSettled(s: Tables, t: Tables, r: Round, c: int, x: int, b: int)
    requires |s.settings| == |r.g.flag| && PortalTable(s, r)
    requires Grows(s, t, c) && x > 0 && PortalTable(t, r)
    requires Settled(s, r, x, b)
    ensures Settled(t, r, x, b)
  {
  }

  /** A component that meets an older cluster lies inside that cluster. */
  lemma OlderClusterHoldsComponent(s: Tables, r: Round, c: int, stack: set<int>, a: int, b: int)
    requires Inv(s, r, c) && Closed(s, r, stack) && NoCrossing(s, r, c)
    requires forall x :: x in stack && Plain(r.g, x) ==> s.settings[x].cluster == c
    requires Plain(r.g, a) && 0 < s.settings[a].cluster < c && Connected(r.g, a, b)
    ensures Plain(r.g, b) && s.settings[b].cluster == s.settings[a].cluster
  {
    var k := s.settings[a].cluster;
    var component := iset x | Plain(r.g, x) && s.settings[x].cluster == k;
    forall x, y | x in component && Linked(r.g, x, y)
      ensures y in component
    {
      if x in r.g.links[y] {
        assert !Fresh(s, c, x);
        assert !Fresh(s, c, y);
        assert Settled(s, r, s.settings[y].cluster, x);
      } else {
        assert Settled(s, r, k, y);
      }
    }
    ClosedSetHoldsComponent(r.g, component, a, b);
  }

  /** A portal that two older clusters and the running one reach does not separate two components. */
  lemma FullPortalIsBad(s: Tables, r: Round, c: int, stack: set<int>, d: int)
    requires Inv(s, r, c) && Closed(s, r, stack) && NoCrossing(s, r, c)
    requires forall x :: x in stack && Plain(r.g, x) ==> s.settings[x].cluster == c
    requires PortalArea(r.g, d) && Touches(s, r, c, d) && c > 0
    requires !Joins(s.portals[r.portalnum[d]], c) && !HasRoom(s.portals[r.portalnum[d]], c)
    ensures !SeparatesTwo(r.g, d)
  {
    var portal := s.portals[r.portalnum[d]];
    var e :| Feeds(r.g, e, d) && s.settings[e].cluster == c;
    var f :| Feeds(r.g, f, d) && s.settings[f].cluster == portal.frontcluster;
    var b :| Feeds(r.g, b, d) && s.settings[b].cluster == portal.backcluster;
    forall x, y | x in {f, b} && y in {e, f, b} && x != y
      ensures !Connected(r.g, x, y)
    {
      if Connected(r.g, x, y) {
        OlderClusterHoldsComponent(s, r, c, stack, x, y);
      }
    }
    ThreeComponentsAreTooMany(r.g, d, f, b, e);
  }

  // ----- what the flood methods ask for and promise

  ghost predicate StackInCluster(s: Tables, r: Round, c: int, stack: set<int>)
    requires |s.settings| == |r.g.flag|
  {
    forall x :: x in stack && Plain(r.g, x) ==> s.settings[x].cluster == c
  }

  /** The state in which areas on the stack still have targets to visit. */
  ghost predicate Flooding(s: Tables, r: Round, c: int, stack: set<int>) {
    && 0 < c
    && Inv(s, r, c)
    && Closed(s, r, stack)
    && NoCrossing(s, r, c)
    && StackInCluster(s, r, c, stack)
  }

  /** Area a may be entered by the flood of cluster c. */
  ghost predicate Enterable(s: Tables, r: Round, c: int, a: int)
    requires WellFormed(r.g) && |s.settings| == |r.g.flag|
  {
    && (Plain(r.g, a) ==> Fresh(s, c, a) && MayJoin(s, r, c, a))
    && (PortalArea(r.g, a) ==> Touches(s, r, c, a))
  }

  /** A round that fails has cleared the portal flag of area d, a bad portal, and no other contents. */
  ghost predicate Drops(s: seq<AreaSettings>, t: seq<AreaSettings>, g: Graph, d: int)
    requires WellFormed(g)
  {
    && |t| == |s| == |g.flag|
    && PortalArea(g, d)
    && !SeparatesTwo(g, d)
    && t[0].cluster == 0
    && (forall a :: 0 <= a < |s| && a != d ==> Fixed(t[a]) == Fixed(s[a]))
    && Fixed(t[d]) == Fixed(s[d]).(contents := WithoutFlag(s[d].contents, AREACONTENTS_CLUSTERPORTAL))
  }

  ghost predicate DropsOne(s: seq<AreaSettings>, t: seq<AreaSettings>, g: Graph)
    requires WellFormed(g)
  {
    exists d :: Drops(s, t, g, d)
  }

  lemma DropAfterGrowth(s: Tables, t: Tables, u: seq<AreaSettings>, r: Round, c: int)
    requires WellFormed(r.g) && Grows(s, t, c) && DropsOne(t.settings, u, r.g)
    ensures DropsOne(s.settings, u, r.g)
  {
    var d :| Drops(t.settings, u, r.g, d);
    assert Fixed(t.settings[d]) == Fixed(s.settings[d]);
    assert Fixed(t.settings[d]).contents == t.settings[d].contents;
    assert Drops(s.settings, u, r.g, d);
  }

  /** The plain areas that are in no cluster yet. */
  ghost function Unclustered(s: Tables, r: Round): set<int>
    requires |s.settings| == |r.g.flag|
  {
    set a | 0 <= a < |s.settings| && Plain(r.g, a) && s.settings[a].cluster == 0
  }

  lemma GrowthShrinksUnclustered(s: Tables, t: Tables, r: Round, c: int)
    requires |s.settings| == |r.g.flag| && Grows(s, t, c) && c > 0
    ensures Unclustered(t, r) <= Unclustered(s, r)
  {
    forall a | a in Unclustered(t, r)
      ensures a in Unclustered(s, r)
    {
    }
  }

  /** The tables have the sizes the clustering allocates, and the world is small enough for them. */
  ghost predicate Roomy(s: Tables) {
    && |s.settings| <= MAX_AREAS
    && s.numportals <= |s.settings|
    && |s.portals| == AAS_MAX_PORTALS
    && |s.portalindex| == AAS_MAX_PORTALINDEXSIZE
    && |s.clusters| == AAS_MAX_CLUSTERS
  }

  lemma GrowthKeepsLinks(s: Tables, t: Tables, c: int, r: Round)
    requires Grows(s, t, c) && LinksMatch(s.settings, r.reach, r.g.links)
    ensures LinksMatch(t.settings, r.reach, r.g.links)
  {
    forall a | 0 <= a < |s.settings|
      ensures t.settings[a].firstreachablearea == s.settings[a].firstreachablearea
      ensures t.settings[a].numreachableareas == s.settings[a].numreachableareas
    {
      assert MarkGrows(s.settings[a], t.settings[a], c);
      assert Fixed(t.settings[a]).firstreachablearea == t.settings[a].firstreachablearea;
      assert Fixed(t.settings[a]).numreachableareas == t.settings[a].numreachableareas;
    }
  }

  /** Growth outside the stack keeps closed what was closed. */
  lemma GrowthKeepsClosed(s: Tables, t: Tables, r: Round, c: int, stack: set<int>, more: set<int>)
    requires WellFormed(r.g) && |s.settings| == |r.g.flag| && PortalTable(s, r) && PortalTable(t, r)
    requires c > 0 && Grows(s, t, c) && Closed(s, r, stack) && stack <= more
    requires forall a :: Plain(r.g, a) && t.settings[a].cluster != s.settings[a].cluster ==> a in more
    ensures Closed(t, r, more)
  {
    forall x, b | Plain(r.g, x) && t.settings[x].cluster > 0 && x !in more && b in r.g.links[x]
      ensures Settled(t, r, t.settings[x].cluster, b)
    {
      GrowthKeepsSettled(s, t, r, c, s.settings[x].cluster, b);
    }
  }

  lemma AttachGrows(s: Tables, c: int, a: int, p: int)
    requires 0 <= a < |s.settings| && 0 < p < |s.portals| && 0 < c < |s.clusters|
    requires s.settings[a].cluster == 0 || s.settings[a].cluster == -p
    requires 0 <= s.clusters[c].firstportal + s.clusters[c].numportals == s.portalindexsize < |s.portalindex|
    requires HasRoom(s.portals[p], c)
    ensures Grows(s, Attach(s, a, p, c), c)
  {
  }

  /** Growth that fills only areas of the stack keeps the flood's own conditions. */
  lemma GrowthKeepsOpen(s: Tables, t: Tables, r: Round, c: int, stack: set<int>, more: set<int>)
    requires WellFormed(r.g) && |s.settings| == |r.g.flag| && PortalTable(s, r) && PortalTable(t, r)
    requires c > 0 && Grows(s, t, c) && stack <= more
    requires Closed(s, r, stack) && NoCrossing(s, r, c) && StackInCluster(s, r, c, stack)
    requires forall a :: Plain(r.g, a) && t.settings[a].cluster != s.settings[a].cluster ==> a in more
    requires forall a :: Plain(r.g, a) ==> t.settings[a].cluster >= 0
    requires forall a :: a in more && a !in stack && Plain(r.g, a) ==> t.settings[a].cluster == c
    ensures Closed(t, r, more) && NoCrossing(t, r, c) && StackInCluster(t, r, c, more)
  {
    GrowthKeepsClosed(s, t, r, c, stack, more);
    assert forall x :: Plain(r.g, x) ==> (Fresh(t, c, x) <==> Fresh(s, c, x));
  }

  lemma AttachKeepsFlooding(s: Tables, r: Round, c: int, stack: set<int>, a: int)
    requires Flooding(s, r, c, stack) && PortalArea(r.g, a)
    requires HasRoom(s.portals[r.portalnum[a]], c) && Touches(s, r, c, a)
    requires s.portalindexsize < |s.portalindex|
    ensures s.clusters[c].firstportal + s.clusters[c].numportals == s.portalindexsize >= 0
    ensures var t := Attach(s, a, r.portalnum[a], c);
      Flooding(t, r, c, stack) && Grows(s, t, c) && Settled(t, r, c, a)
  {
    AttachKeepsInv(s, r, c, a);
    var t := Attach(s, a, r.portalnum[a], c);
    AttachGrows(s, c, a, r.portalnum[a]);
    hide Grows, Closed, NoCrossing, Indexed, SidesTouch, ClustersConnected, PortalSides;
    GrowthKeepsOpen(s, t, r, c, stack, stack);
  }

  lemma MarkOnlyGrows(s: Tables, c: int, a: int)
    requires 0 <= a < |s.settings| && 0 < c < |s.clusters|
    requires s.settings[a].cluster == 0
    ensures Grows(s, Mark(s, a, c), c)
  {
  }

  lemma MarkKeepsFlooding(s: Tables, r: Round, c: int, stack: set<int>, a: int)
    requires Flooding(s, r, c, stack) && Plain(r.g, a) && s.settings[a].cluster == 0
    requires MayJoin(s, r, c, a)
    ensures var t := Mark(s, a, c);
      Flooding(t, r, c, stack + {a}) && Grows(s, t, c) && Settled(t, r, c, a)
  {
    MarkKeepsInv(s, r, c, a);
    var t := Mark(s, a, c);
    MarkOnlyGrows(s, c, a);
    hide Grows, Closed, NoCrossing, Indexed, SidesTouch, ClustersConnected, PortalSides, MayJoin;
    GrowthKeepsOpen(s, t, r, c, stack, stack + {a});
  }

  /** The next free place in the portal index is where the segment of cluster c ends. */
  ghost predicate IndexFits(s: Tables, c: int) {
    && 0 < c < |s.clusters|
    && 0 <= s.clusters[c].firstportal + s.clusters[c].numportals == s.portalindexsize < AAS_MAX_PORTALINDEXSIZE
    && |s.portalindex| == AAS_MAX_PORTALINDEXSIZE
  }

  lemma FloodingFits(s: Tables, r: Round, c: int, stack: set<int>)
    requires Flooding(s, r, c, stack) && Roomy(s)
    ensures IndexFits(s, c)
  {
    SegmentsEndBy(s, c, c);
    SideCountBound(s.portals, s.numportals);
    assert SegmentLists(s, c);
  }

  /** What entering portal area a from cluster c does to the tables. */
  function Enter(s: Tables, a: int, p: int, c: int): Tables
    requires 0 <= a < |s.settings| && 0 <= p < |s.portals| && 0 <= c < |s.clusters|
    requires 0 <= s.clusters[c].firstportal + s.clusters[c].numportals < |s.portalindex|
  {
    if Joins(s.portals[p], c) then s
    else if HasRoom(s.portals[p], c) then Attach(s, a, p, c)
    else s.(settings := s.settings[a := s.settings[a].(contents :=
              WithoutFlag(s.settings[a].contents, AREACONTENTS_CLUSTERPORTAL))])
  }

  /** Gives the portal of an area that cluster c reaches a side of its own, or clears the area's
      portal flag when both sides are taken by other clusters. */
  method UpdatePortal(w: AasWorld, areanum: int, c: int, ghost r: Round, ghost stack: set<int>) returns (ok: bool)
    requires MeetsPortal(Snapshot(w), r, c, stack, areanum)
    modifies w`portalindexsize, w.areasettings, w.portals, w.portalindex, w.clusters
    ensures Snapshot(w) == old(Enter(Snapshot(w), areanum, r.portalnum[areanum], c))
    ensures ok ==> Flooded(old(Snapshot(w)), Snapshot(w), r, c, stack, areanum)
    ensures !ok ==> DropsOne(old(Snapshot(w)).settings, Snapshot(w).settings, r.g)
  {
    hide Flooded, DropsOne;
    ghost var s := Snapshot(w);
    var p := 1;
    while p < w.numportals
      invariant 1 <= p <= r.portalnum[areanum]
    {
      if w.portals[p].areanum == areanum { break; }
      p := p + 1;
    }
    assert p == r.portalnum[areanum];
    if p == w.numportals {
      assert false;
    }
    var portal := w.portals[p];
    if portal.frontcluster == c { return true; }
    if portal.backcluster == c { return true; }
    if portal.frontcluster == 0 {
      w.portals[p] := portal.(frontcluster := c);
    } else if portal.backcluster == 0 {
      w.portals[p] := portal.(backcluster := c);
    } else {
      w.areasettings[areanum] := w.areasettings[areanum].(contents :=
        WithoutFlag(w.areasettings[areanum].contents, AREACONTENTS_CLUSTERPORTAL));
      assert Snapshot(w) == Enter(s, areanum, p, c);
      return false;
    }
    if w.portalindexsize >= AAS_MAX_PORTALINDEXSIZE {
      assert false;
    }
    w.areasettings[areanum] := w.areasettings[areanum].(cluster := -p);
    w.portalindex[w.clusters[c].firstportal + w.clusters[c].numportals] := p;
    w.portalindexsize := w.portalindexsize + 1;
    w.clusters[c] := w.clusters[c].(numportals := w.clusters[c].numportals + 1);
    assert Snapshot(w) == Enter(s, areanum, p, c);
    return true;
  }

  lemma GrowsSelf(s: Tables, c: int)
    ensures Grows(s, s, c)
  {
  }

  /** Entering a portal keeps the flood going, or drops a bad portal. */
  lemma EnterOutcome(s: Tables, r: Round, c: int, stack: set<int>, a: int)
    requires Flooding(s, r, c, stack) && Roomy(s)
    requires PortalArea(r.g, a) && Touches(s, r, c, a)
    ensures IndexFits(s, c)
    ensures var p := s.portals[r.portalnum[a]]; var t := Enter(s, a, r.portalnum[a], c);
      if Joins(p, c) || HasRoom(p, c)
      then Flooding(t, r, c, stack) && Grows(s, t, c) && Settled(t, r, c, a)
      else DropsOne(s.settings, t.settings, r.g)
  {
    FloodingFits(s, r, c, stack);
    var p := r.portalnum[a];
    var t := Enter(s, a, p, c);
    if Joins(s.portals[p], c) {
      hide Inv, Closed, NoCrossing;
      GrowsSelf(s, c);
    } else if HasRoom(s.portals[p], c) {
      hide Flooding;
      AttachKeepsFlooding(s, r, c, stack, a);
    } else {
      FullPortalIsBad(s, r, c, stack, a);
      assert Drops(s.settings, t.settings, r.g, a);
    }
  }

  // ----- flooding areas

  /** The targets of a member of cluster c may be entered next. */
  lemma TargetIsEnterable(s: Tables, r: Round, c: int, stack: set<int>, a: int, b: int)
    requires Flooding(s, r, c, stack)
    requires Plain(r.g, a) && s.settings[a].cluster == c && b in r.g.links[a]
    ensures Enterable(s, r, c, b)
  {
    if Plain(r.g, b) {
      assert Linked(r.g, a, b) && Feeds(r.g, a, b);
      MembersReach(s, r, c, a, b);
    } else if PortalArea(r.g, b) {
      assert Feeds(r.g, a, b);
    }
  }

  /** An area linked to a member of cluster c is connected to all members. */
  lemma MembersReach(s: Tables, r: Round, c: int, a: int, b: int)
    requires WellFormed(r.g) && |s.settings| == |r.g.flag| && ClustersConnected(s, r)
    requires c > 0 && Plain(r.g, a) && s.settings[a].cluster == c && Linked(r.g, a, b)
    requires HasLink(r.g, b)
    ensures MayJoin(s, r, c, b)
  {
    ConnectedLink(r.g, a, b);
    forall x | Plain(r.g, x) && s.settings[x].cluster == c
      ensures Connected(r.g, x, b)
    {
      ConnectedTransitive(r.g, x, a, b);
    }
  }

  /** An area whose targets are all dealt with leaves the stack. */
  lemma LeaveStack(s: Tables, r: Round, c: int, stack: set<int>, a: int)
    requires Flooding(s, r, c, stack + {a}) && Plain(r.g, a)
    requires forall b :: b in r.g.links[a] ==> Settled(s, r, c, b)
    ensures Flooding(s, r, c, stack)
  {
    InvBasics(s, r, c);
    hide Inv, NoCrossing;
    forall x, b | Plain(r.g, x) && s.settings[x].cluster > 0 && x !in stack && b in r.g.links[x]
      ensures Settled(s, r, s.settings[x].cluster, b)
    {
      if x == a {
        assert a in stack + {a};
      }
    }
  }

  lemma InvBasics(s: Tables, r: Round, c: int)
    requires Inv(s, r, c)
    ensures WellFormed(r.g) && |s.settings| == |r.g.flag| && PortalTable(s, r)
    ensures forall a :: 0 <= a < |s.settings| ==> r.g.flag[a] == IsPortal(s.settings[a])
    ensures forall a :: Plain(r.g, a) ==> 0 <= s.settings[a].cluster <= c
    ensures s.settings[0].cluster == 0 && 0 <= c < |s.clusters|
    ensures forall a :: PortalArea(r.g, a) ==> s.settings[a].cluster <= 0
  {
  }

  /** The outcome of a flood that began in state s. */
  ghost predicate Flooded(s: Tables, t: Tables, r: Round, c: int, stack: set<int>, a: int) {
    && Flooding(t, r, c, stack)
    && Grows(s, t, c)
    && Settled(t, r, c, a)
  }

  /** The flood that began in state s has entered area a and dealt with its first i targets. */
  ghost predicate Midway(s: Tables, t: Tables, r: Round, c: int, stack: set<int>, a: int, i: int) {
    && Flooded(s, t, r, c, stack + {a}, a)
    && Plain(r.g, a)
    && 0 <= i <= |r.g.links[a]|
    && (forall j :: 0 <= j < i ==> Settled(t, r, c, r.g.links[a][j]))
    && Unclustered(t, r) < Unclustered(s, r)
  }

  lemma MidwayStarts(s: Tables, r: Round, c: int, stack: set<int>, a: int)
    requires Flooding(s, r, c, stack) && Plain(r.g, a) && s.settings[a].cluster == 0
    requires MayJoin(s, r, c, a)
    ensures 0 <= c < |s.clusters| && Midway(s, Mark(s, a, c), r, c, stack, a, 0)
  {
    MarkKeepsFlooding(s, r, c, stack, a);
    GrowthShrinksUnclustered(s, Mark(s, a, c), r, c);
    assert a in Unclustered(s, r) && a !in Unclustered(Mark(s, a, c), r);
  }

  lemma MidwayEnters(s: Tables, t: Tables, r: Round, c: int, stack: set<int>, a: int, i: int)
    requires Midway(s, t, r, c, stack, a, i) && i < |r.g.links[a]|
    ensures Flooding(t, r, c, stack + {a}) && Enterable(t, r, c, r.g.links[a][i])
    ensures 0 <= r.g.links[a][i] < |t.settings| && Unclustered(t, r) < Unclustered(s, r)
  {
    TargetIsEnterable(t, r, c, stack + {a}, a, r.g.links[a][i]);
  }

  lemma MidwaySkips(s: Tables, t: Tables, r: Round, c: int, stack: set<int>, a: int, i: int)
    requires Midway(s, t, r, c, stack, a, i) && i < |r.g.links[a]| && r.g.links[a][i] == 0
    ensures Midway(s, t, r, c, stack, a, i + 1)
  {
    hide Flooding, Grows;
  }

  lemma MidwayGoesOn(s: Tables, t: Tables, u: Tables, r: Round, c: int, stack: set<int>, a: int, i: int)
    requires Midway(s, t, r, c, stack, a, i) && i < |r.g.links[a]|
    requires Flooded(t, u, r, c, stack + {a}, r.g.links[a][i])
    ensures Midway(s, u, r, c, stack, a, i + 1) && Unclustered(u, r) <= Unclustered(t, r)
  {
    hide Flooding, Grows, Settled, PortalTable, Unclustered;
    assert c > 0 && WellFormed(r.g) && |t.settings| == |r.g.flag| && PortalTable(t, r) by {
      FloodingBasics(t, r, c, stack + {a});
    }
    assert |u.settings| == |r.g.flag| && PortalTable(u, r) by { FloodingBasics(u, r, c, stack + {a}); }
    assert Grows(s, u, c) by { GrowsTransitive(s, t, u, c); }
    assert Unclustered(u, r) <= Unclustered(t, r) by { GrowthShrinksUnclustered(t, u, r, c); }
    assert Settled(u, r, c, a) by { GrowthKeepsSettled(t, u, r, c, c, a); }
    forall j | 0 <= j < i
      ensures Settled(u, r, c, r.g.links[a][j])
    {
      GrowthKeepsSettled(t, u, r, c, c, r.g.links[a][j]);
    }
  }

  lemma FloodingBasics(s: Tables, r: Round, c: int, stack: set<int>)
    requires Flooding(s, r, c, stack)
    ensures c > 0 && WellFormed(r.g) && |s.settings| == |r.g.flag| && PortalTable(s, r)
  {
    InvBasics(s, r, c);
  }

  lemma MidwayEnds(s: Tables, t: Tables, r: Round, c: int, stack: set<int>, a: int)
    requires WellFormed(r.g) && Plain(r.g, a)
    requires Midway(s, t, r, c, stack, a, |r.g.links[a]|)
    ensures Flooded(s, t, r, c, stack, a)
  {
    hide Grows;
    LeaveStack(t, r, c, stack, a);
  }

  /** Midway, the area's settings still describe its reachabilities. */
  lemma MidwayReads(s: Tables, t: Tables, r: Round, c: int, stack: set<int>, a: int, i: int)
    requires Midway(s, t, r, c, stack, a, i)
    requires LinksMatch(s.settings, r.reach, r.g.links) && Roomy(s)
    ensures LinksMatch(t.settings, r.reach, r.g.links) && Roomy(t)
    ensures 0 < a < |t.settings| && a < |r.g.links|
    ensures t.settings[a].numreachableareas == |r.g.links[a]| && 0 <= i <= |r.g.links[a]|
    ensures i < |r.g.links[a]| ==>
      && 0 <= t.settings[a].firstreachablearea + i < |r.reach|
      && r.reach[t.settings[a].firstreachablearea + i].areanum == r.g.links[a][i]
  {
    GrowthKeepsLinks(s, t, c, r);
    hide Flooding;
  }

  lemma MidwayDrops(s: Tables, t: Tables, u: seq<AreaSettings>, r: Round, c: int, stack: set<int>, a: int, i: int)
    requires Midway(s, t, r, c, stack, a, i) && WellFormed(r.g) && DropsOne(t.settings, u, r.g)
    ensures DropsOne(s.settings, u, r.g)
  {
    DropAfterGrowth(s, t, u, r, c);
  }

  /** What a flood meets in the area it is about to enter. */
  ghost predicate Meets(s: Tables, r: Round, c: int, stack: set<int>, a: int) {
    && 0 < a < |s.settings| == |r.g.flag| && 0 < c < |s.clusters|
    && (s.settings[a].cluster > 0 ==> s.settings[a].cluster == c && Flooded(s, s, r, c, stack, a))
    && (s.settings[a].cluster <= 0 && IsPortal(s.settings[a]) ==> MeetsPortal(s, r, c, stack, a))
    && (s.settings[a].cluster <= 0 && !IsPortal(s.settings[a]) ==>
          WellFormed(r.g) && Plain(r.g, a) && Midway(s, Mark(s, a, c), r, c, stack, a, 0))
  }

  ghost predicate MeetsPortal(s: Tables, r: Round, c: int, stack: set<int>, a: int) {
    && |r.g.flag| == |s.settings| && WellFormed(r.g) && PortalTable(s, r) && IndexFits(s, c) && PortalArea(r.g, a)
    && var p := s.portals[r.portalnum[a]]; var t := Enter(s, a, r.portalnum[a], c);
       if Joins(p, c) || HasRoom(p, c) then Flooded(s, t, r, c, stack, a) else DropsOne(s.settings, t.settings, r.g)
  }

  lemma FloodMeets(s: Tables, r: Round, c: int, stack: set<int>, a: int)
    requires Flooding(s, r, c, stack) && Roomy(s)
    requires 0 < a < |s.settings| && Enterable(s, r, c, a)
    ensures Meets(s, r, c, stack, a)
  {
    InvBasics(s, r, c);
    FloodingFits(s, r, c, stack);
    if s.settings[a].cluster > 0 {
      GrowsSelf(s, c);
    } else if IsPortal(s.settings[a]) {
      EnterOutcome(s, r, c, stack, a);
    } else {
      MidwayStarts(s, r, c, stack, a);
    }
  }

  /** The area's settings say where its i-th target is to be read. */
  ghost predicate Reading(w: AasWorld, r: Round, a: int, i: int)
    reads w, w.areasettings, w.reachability
  {
    && 0 <= a < w.areasettings.Length == |r.g.flag| && a < |r.g.links|
    && w.areasettings[a].numreachableareas == |r.g.links[a]| && 0 <= i <= |r.g.links[a]|
    && (i < |r.g.links[a]| ==>
      && 0 <= w.areasettings[a].firstreachablearea + i < w.reachability.Length
      && w.reachability[w.areasettings[a].firstreachablearea + i].areanum == r.g.links[a][i])
  }

  /** Floods cluster c from an area, along reachabilities and around portals. The two error exits,
      an area out of range and a cluster touching an older one, are dead. */
  method FloodClusterAreas(w: AasWorld, areanum: int, c: int, ghost r: Round, ghost stack: set<int>)
    returns (ok: bool)
    requires Flooding(Snapshot(w), r, c, stack) && Roomy(Snapshot(w))
    requires LinksMatch(Snapshot(w).settings, r.reach, r.g.links) && w.reachability[..] == r.reach
    requires 0 < areanum < w.areasettings.Length && Enterable(Snapshot(w), r, c, areanum)
    modifies w`portalindexsize, w.areasettings, w.portals, w.portalindex, w.clusters
    ensures ok ==> Flooded(old(Snapshot(w)), Snapshot(w), r, c, stack, areanum)
    ensures !ok ==> DropsOne(old(Snapshot(w)).settings, Snapshot(w).settings, r.g)
    decreases Unclustered(Snapshot(w), r)
  {
    hide Flooding, Flooded, Enterable, LinksMatch, Midway, MeetsPortal, DropsOne, Mark, Enter, Roomy, PortalTable, IndexFits;
    hide WellFormed, Unclustered;
    ghost var s := Snapshot(w);
    assert Meets(s, r, c, stack, areanum) by { FloodMeets(s, r, c, stack, areanum); }
    if areanum <= 0 || areanum >= w.areasettings.Length {
      assert false;
    }
    if w.areasettings[areanum].cluster > 0 {
      if w.areasettings[areanum].cluster == c {
        return true;
      }
      assert false;
    }
    if IsPortal(w.areasettings[areanum]) {
      ok := UpdatePortal(w, areanum, c, r, stack);
      return ok;
    }
    MarkArea(w, areanum, c);
    assert Reading(w, r, areanum, 0) by {
      MidwayReads(s, Snapshot(w), r, c, stack, areanum, 0);
    }
    var i := 0;
    while i < w.areasettings[areanum].numreachableareas
      invariant Reading(w, r, areanum, i)
      invariant Midway(s, Snapshot(w), r, c, stack, areanum, i)
    {
      ghost var t := Snapshot(w);
      var other := w.reachability[w.areasettings[areanum].firstreachablearea + i].areanum;
      if other == 0 {
        assert Midway(s, t, r, c, stack, areanum, i + 1) by {
          MidwaySkips(s, t, r, c, stack, areanum, i);
        }
      } else {
        assert Flooding(t, r, c, stack + {areanum}) && Enterable(t, r, c, other) && 0 < other < |t.settings|
          && Unclustered(t, r) < Unclustered(s, r) by {
          MidwayEnters(s, t, r, c, stack, areanum, i);
        }
        assert LinksMatch(t.settings, r.reach, r.g.links) && Roomy(t) by {
          MidwayReads(s, t, r, c, stack, areanum, i);
        }
        ok := FloodClusterAreas(w, other, c, r, stack + {areanum});
        ghost var u := Snapshot(w);
        if !ok {
          assert DropsOne(s.settings, u.settings, r.g) by {
            MidwayDrops(s, t, u.settings, r, c, stack, areanum, i);
          }
          return false;
        }
        assert Midway(s, u, r, c, stack, areanum, i + 1) by {
          MidwayGoesOn(s, t, u, r, c, stack, areanum, i);
        }
      }
      i := i + 1;
      assert Reading(w, r, areanum, i) by {
        MidwayReads(s, Snapshot(w), r, c, stack, areanum, i);
      }
    }
    assert Flooded(s, Snapshot(w), r, c, stack, areanum) by {
      MidwayEnds(s, Snapshot(w), r, c, stack, areanum);
    }
    return true;
  }

  /** Puts area a in cluster c under the cluster's next number. */
  method MarkArea(w: AasWorld, areanum: int, c: int)
    requires 0 <= areanum < w.areasettings.Length && 0 <= c < w.clusters.Length
    modifies w.areasettings, w.clusters
    ensures Snapshot(w) == Mark(old(Snapshot(w)), areanum, c)
  {
    w.areasettings[areanum] := w.areasettings[areanum].(cluster := c, clusterareanum := w.clusters[c].numareas);
    w.clusters[c] := w.clusters[c].(numareas := w.clusters[c].numareas + 1);
  }
}
