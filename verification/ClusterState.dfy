/** The cluster tables as a value, what every step of clustering keeps true of them,
    and the proofs for the two steps: marking an area and attaching a portal. */
module ClusterState {
  import opened AasDef
  import opened ClusterGraph

  const AAS_MAX_PORTALS := 65536
  const AAS_MAX_PORTALINDEXSIZE := 65536
  const AAS_MAX_CLUSTERS := 65536

  // Up to this many areas none of the fixed table sizes can run out.
  const MAX_AREAS := 32768

  /** A snapshot of the tables that clustering writes. */
  datatype Tables = Tables(
    settings: seq<AreaSettings>,
    portals: seq<Portal>, numportals: int,
    portalindex: seq<int>, portalindexsize: int,
    clusters: seq<Cluster>)

  /** What stays fixed in one round: the graph, the portal number of each portal area, and the
      reachabilities that the graph's links are read from. */
  datatype Round = Round(g: Graph, portalnum: seq<int>, reach: seq<Reachability>)

  predicate IsPortal(s: AreaSettings) {
    HasFlag(s.contents, AREACONTENTS_CLUSTERPORTAL)
  }

  /** The reachability targets of each area. */
  ghost predicate LinksMatch(settings: seq<AreaSettings>, reach: seq<Reachability>, links: seq<seq<int>>) {
    && |links| == |settings|
    && (forall a :: 0 <= a < |settings| ==>
          && 0 <= settings[a].firstreachablearea
          && 0 <= settings[a].numreachableareas == |links[a]|
          && settings[a].firstreachablearea + settings[a].numreachableareas <= |reach|)
    && (forall a, j :: 0 <= a < |settings| && 0 <= j < |links[a]| ==>
          links[a][j] == reach[settings[a].firstreachablearea + j].areanum)
  }

  ghost predicate FlagsMatch(settings: seq<AreaSettings>, flag: seq<bool>) {
    |flag| == |settings| && forall a :: 0 <= a < |settings| ==> flag[a] == IsPortal(settings[a])
  }

  /** Every portal area owns one portal, and portals 1.. own nothing but portal areas, in order. */
  ghost predicate PortalTable(s: Tables, r: Round) {
    && |r.portalnum| == |r.g.flag|
    && 1 <= s.numportals <= |s.portals|
    && (forall p :: 1 <= p < s.numportals ==>
          PortalArea(r.g, s.portals[p].areanum) && r.portalnum[s.portals[p].areanum] == p)
    && (forall a :: PortalArea(r.g, a) ==>
          1 <= r.portalnum[a] < s.numportals && s.portals[r.portalnum[a]].areanum == a)
    && (forall p, q :: 1 <= p < q < s.numportals ==> s.portals[p].areanum < s.portals[q].areanum)
  }

  predicate Joins(p: Portal, c: int) {
    p.frontcluster == c || p.backcluster == c
  }

  /** A front cluster is set before a back cluster, and is the smaller one. */
  ghost predicate PortalSides(s: Tables, c: int) {
    forall p :: 1 <= p < s.numportals <= |s.portals| ==>
      && 0 <= s.portals[p].frontcluster <= c
      && 0 <= s.portals[p].backcluster <= c
      && (s.portals[p].backcluster != 0 ==> s.portals[p].frontcluster < s.portals[p].backcluster)
      && (s.portals[p].frontcluster == 0 ==> s.portals[p].backcluster == 0)
  }

  ghost predicate ClusterFields(s: Tables, r: Round, c: int)
    requires PortalTable(s, r) && |s.settings| == |r.g.flag|
  {
    && (|s.settings| > 0 ==> s.settings[0].cluster == 0)
    && (forall a :: Plain(r.g, a) ==> 0 <= s.settings[a].cluster <= c)
    && (forall a :: PortalArea(r.g, a) ==>
          s.settings[a].cluster ==
          if s.portals[r.portalnum[a]].frontcluster == 0 then 0 else -r.portalnum[a])
  }

  /** Some area of cluster c has a reachability into area d. */
  ghost predicate Touches(s: Tables, r: Round, c: int, d: int)
    requires WellFormed(r.g) && |s.settings| == |r.g.flag|
  {
    exists a :: Feeds(r.g, a, d) && s.settings[a].cluster == c
  }

  /** A portal joins only clusters that have a reachability into it. */
  ghost predicate SidesTouch(s: Tables, r: Round)
    requires WellFormed(r.g) && |s.settings| == |r.g.flag| && PortalTable(s, r)
  {
    forall p :: 1 <= p < s.numportals ==>
      && (s.portals[p].frontcluster != 0 ==> Touches(s, r, s.portals[p].frontcluster, s.portals[p].areanum))
      && (s.portals[p].backcluster != 0 ==> Touches(s, r, s.portals[p].backcluster, s.portals[p].areanum))
  }

  /** Area b is dealt with as a target of cluster c. */
  ghost predicate Settled(s: Tables, r: Round, c: int, b: int)
    requires |s.settings| == |r.g.flag| && PortalTable(s, r)
  {
    && (Plain(r.g, b) ==> s.settings[b].cluster == c)
    && (PortalArea(r.g, b) ==> Joins(s.portals[r.portalnum[b]], c))
  }

  /** Clustered areas outside the stack have all their targets dealt with. */
  ghost predicate Closed(s: Tables, r: Round, stack: set<int>)
    requires WellFormed(r.g) && |s.settings| == |r.g.flag| && PortalTable(s, r)
  {
    forall a, b :: Plain(r.g, a) && s.settings[a].cluster > 0 && a !in stack && b in r.g.links[a] ==>
      Settled(s, r, s.settings[a].cluster, b)
  }

  predicate Fresh(s: Tables, c: int, a: int)
    requires 0 <= a < |s.settings|
  {
    s.settings[a].cluster == 0 || s.settings[a].cluster == c
  }

  /** No area outside the clusters before c has a reachability into one of them. */
  ghost predicate NoCrossing(s: Tables, r: Round, c: int)
    requires WellFormed(r.g) && |s.settings| == |r.g.flag|
  {
    forall a, b :: Plain(r.g, a) && Fresh(s, c, a) && b in r.g.links[a] && Plain(r.g, b) ==> Fresh(s, c, b)
  }

  /** Areas of one cluster are connected. */
  ghost predicate ClustersConnected(s: Tables, r: Round)
    requires WellFormed(r.g) && |s.settings| == |r.g.flag|
  {
    forall a, b :: Plain(r.g, a) && Plain(r.g, b) && s.settings[a].cluster == s.settings[b].cluster > 0 ==>
      Connected(r.g, a, b)
  }

  ghost predicate Rooted(s: Tables, r: Round)
    requires WellFormed(r.g) && |s.settings| == |r.g.flag|
  {
    forall a :: Plain(r.g, a) && s.settings[a].cluster > 0 ==> HasLink(r.g, a)
  }

  /** The stretch of the portal index that belongs to cluster x. */
  ghost function Segment(s: Tables, x: int): seq<int>
    requires 0 <= x < |s.clusters|
    requires 0 <= s.clusters[x].firstportal <= s.clusters[x].firstportal + s.clusters[x].numportals <= |s.portalindex|
  {
    s.portalindex[s.clusters[x].firstportal..s.clusters[x].firstportal + s.clusters[x].numportals]
  }

  /** Segment x lists exactly the portals that join cluster x, each once. */
  ghost predicate SegmentLists(s: Tables, x: int)
    requires 0 <= x < |s.clusters| && 1 <= s.numportals <= |s.portals|
  {
    && 0 <= s.clusters[x].firstportal <= s.clusters[x].firstportal + s.clusters[x].numportals <= |s.portalindex|
    && (forall k :: 0 <= k < |Segment(s, x)| ==>
          1 <= Segment(s, x)[k] < s.numportals && Joins(s.portals[Segment(s, x)[k]], x))
    && (forall k, m :: 0 <= k < m < |Segment(s, x)| ==> Segment(s, x)[k] != Segment(s, x)[m])
    && (forall p :: 1 <= p < s.numportals && Joins(s.portals[p], x) ==> p in Segment(s, x))
  }

  /** The segments of clusters 1..c lie end to end and fill the index. */
  ghost predicate Tiled(s: Tables, c: int) {
    && 0 <= c < |s.clusters|
    && (c == 0 ==> s.portalindexsize == 0)
    && (c > 0 ==> s.clusters[1].firstportal == 0)
    && (forall x :: 1 <= x < c ==>
          s.clusters[x + 1].firstportal == s.clusters[x].firstportal + s.clusters[x].numportals)
    && (c > 0 ==> s.portalindexsize == s.clusters[c].firstportal + s.clusters[c].numportals)
    && s.portalindexsize <= |s.portalindex|
  }

  ghost predicate Indexed(s: Tables, c: int)
    requires 1 <= s.numportals <= |s.portals|
  {
    && Tiled(s, c)
    && (forall x :: 1 <= x <= c ==> SegmentLists(s, x))
  }

  function Sides(p: Portal): nat {
    (if p.frontcluster != 0 then 1 else 0) + (if p.backcluster != 0 then 1 else 0)
  }

  /** How many sides of portals 1..n-1 are taken. */
  function SideCount(portals: seq<Portal>, n: int): nat
    requires n <= |portals|
  {
    if n <= 1 then 0 else SideCount(portals, n - 1) + Sides(portals[n - 1])
  }

  /** What holds throughout a round while cluster c is being flooded. */
  ghost predicate Inv(s: Tables, r: Round, c: int) {
    && WellFormed(r.g)
    && FlagsMatch(s.settings, r.g.flag)
    && PortalTable(s, r)
    && PortalSides(s, c)
    && ClusterFields(s, r, c)
    && SidesTouch(s, r)
    && ClustersConnected(s, r)
    && Rooted(s, r)
    && Indexed(s, c)
    && s.portalindexsize == SideCount(s.portals, s.numportals)
  }

  lemma IndexedFits(s: Tables, c: int)
    requires 1 <= s.numportals <= |s.portals| && Indexed(s, c)
    ensures 0 <= c < |s.clusters|
  {
  }

  // ----- marking an area

  function Mark(s: Tables, a: int, c: int): Tables
    requires 0 <= a < |s.settings| && 0 <= c < |s.clusters|
  {
    s.(settings := s.settings[a := s.settings[a].(cluster := c, clusterareanum := s.clusters[c].numareas)],
       clusters := s.clusters[c := s.clusters[c].(numareas := s.clusters[c].numareas + 1)])
  }

  /** The new member a of cluster c is linked and is connected to all its present members. */
  ghost predicate MayJoin(s: Tables, r: Round, c: int, a: int)
    requires WellFormed(r.g) && |s.settings| == |r.g.flag| && Plain(r.g, a)
  {
    && HasLink(r.g, a)
    && forall b :: Plain(r.g, b) && s.settings[b].cluster == c ==> Connected(r.g, b, a)
  }

  lemma MarkKeepsInv(s: Tables, r: Round, c: int, a: int)
    requires Inv(s, r, c) && c > 0 && Plain(r.g, a) && s.settings[a].cluster == 0
    requires MayJoin(s, r, c, a)
    ensures Inv(Mark(s, a, c), r, c)
  {
    hide Indexed, SidesTouch, ClustersConnected, MayJoin;
    assert 0 <= c < |s.clusters| by { IndexedFits(s, c); }
    var t := Mark(s, a, c);
    assert Indexed(t, c) by { MarkKeepsIndex(s, a, c); }
    assert SidesTouch(t, r) by { MarkKeepsSidesTouch(s, r, c, a); }
    assert ClustersConnected(t, r) && Rooted(t, r) by { MarkKeepsConnected(s, r, c, a); }
  }

  lemma MarkKeepsIndex(s: Tables, a: int, c: int)
    requires 1 <= s.numportals <= |s.portals| && Indexed(s, c) && c > 0 && 0 <= a < |s.settings|
    ensures Indexed(Mark(s, a, c), c)
  {
    var t := Mark(s, a, c);
    forall x | 1 <= x <= c
      ensures SegmentLists(t, x)
    {
      assert SegmentLists(s, x);
      assert Segment(t, x) == Segment(s, x);
    }
  }

  lemma MarkKeepsSidesTouch(s: Tables, r: Round, c: int, a: int)
    requires WellFormed(r.g) && |s.settings| == |r.g.flag| && PortalTable(s, r) && 0 <= c < |s.clusters|
    requires Plain(r.g, a) && s.settings[a].cluster == 0 && SidesTouch(s, r)
    ensures PortalTable(Mark(s, a, c), r) && SidesTouch(Mark(s, a, c), r)
  {
    var t := Mark(s, a, c);
    forall p | 1 <= p < t.numportals
      ensures t.portals[p].frontcluster != 0 ==> Touches(t, r, t.portals[p].frontcluster, t.portals[p].areanum)
      ensures t.portals[p].backcluster != 0 ==> Touches(t, r, t.portals[p].backcluster, t.portals[p].areanum)
    {
      MarkKeepsTouches(s, r, c, a, t.portals[p].frontcluster, t.portals[p].areanum);
      MarkKeepsTouches(s, r, c, a, t.portals[p].backcluster, t.portals[p].areanum);
    }
  }

  lemma MarkKeepsTouches(s: Tables, r: Round, c: int, a: int, x: int, d: int)
    requires WellFormed(r.g) && |s.settings| == |r.g.flag| && 0 <= c < |s.clusters|
    requires Plain(r.g, a) && s.settings[a].cluster == 0
    ensures x != 0 && Touches(s, r, x, d) ==> Touches(Mark(s, a, c), r, x, d)
  {
    if x != 0 && Touches(s, r, x, d) {
      var f :| Feeds(r.g, f, d) && s.settings[f].cluster == x;
      assert Mark(s, a, c).settings[f].cluster == x;
    }
  }

  lemma MarkKeepsConnected(s: Tables, r: Round, c: int, a: int)
    requires WellFormed(r.g) && |s.settings| == |r.g.flag| && 0 < c < |s.clusters|
    requires Plain(r.g, a) && s.settings[a].cluster == 0
    requires ClustersConnected(s, r) && Rooted(s, r) && MayJoin(s, r, c, a)
    ensures ClustersConnected(Mark(s, a, c), r) && Rooted(Mark(s, a, c), r)
  {
    var t := Mark(s, a, c);
    forall x, y | Plain(r.g, x) && Plain(r.g, y) && t.settings[x].cluster == t.settings[y].cluster > 0
      ensures Connected(r.g, x, y)
    {
      if x == a && y == a {
        ConnectedSelf(r.g, a);
      } else if x == a {
        ConnectedSymmetric(r.g, y, a);
      }
    }
  }

  // ----- attaching a portal

  function Attached(p: Portal, c: int): Portal {
    if p.frontcluster == 0 then p.(frontcluster := c) else p.(backcluster := c)
  }

  function Attach(s: Tables, a: int, p: int, c: int): Tables
    requires 0 <= a < |s.settings| && 0 <= p < |s.portals| && 0 <= c < |s.clusters|
    requires 0 <= s.clusters[c].firstportal + s.clusters[c].numportals < |s.portalindex|
  {
    s.(settings := s.settings[a := s.settings[a].(cluster := -p)],
       portals := s.portals[p := Attached(s.portals[p], c)],
       portalindex := s.portalindex[s.clusters[c].firstportal + s.clusters[c].numportals := p],
       portalindexsize := s.portalindexsize + 1,
       clusters := s.clusters[c := s.clusters[c].(numportals := s.clusters[c].numportals + 1)])
  }

  /** A portal that can still take cluster c on one of its sides. */
  predicate HasRoom(p: Portal, c: int) {
    !Joins(p, c) && (p.frontcluster == 0 || p.backcluster == 0)
  }

  lemma {:induction false} SideCountUpdate(portals: seq<Portal>, n: int, p: int, q: Portal)
    requires 1 <= p < n <= |portals|
    ensures SideCount(portals[p := q], n) == SideCount(portals, n) - Sides(portals[p]) + Sides(q)
    decreases n
  {
    if p < n - 1 {
      SideCountUpdate(portals, n - 1, p, q);
    } else {
      SideCountSame(portals, portals[p := q], n - 1);
    }
  }

  lemma {:induction false} SideCountSame(portals: seq<Portal>, others: seq<Portal>, n: int)
    requires n <= |portals| && n <= |others|
    requires forall p :: 1 <= p < n ==> Sides(portals[p]) == Sides(others[p])
    ensures SideCount(portals, n) == SideCount(others, n)
  {
    if n > 1 {
      SideCountSame(portals, others, n - 1);
    }
  }

  lemma {:induction false} SideCountBound(portals: seq<Portal>, n: int)
    requires 1 <= n <= |portals|
    ensures SideCount(portals, n) <= 2 * (n - 1)
    ensures (forall p :: 1 <= p < n ==> portals[p].frontcluster != 0 && portals[p].backcluster != 0)
            ==> SideCount(portals, n) == 2 * (n - 1)
  {
    if n > 1 {
      SideCountBound(portals, n - 1);
    }
  }

  lemma AttachKeepsSegments(s: Tables, c: int, a: int, p: int)
    requires 1 <= p < s.numportals <= |s.portals| && 0 <= a < |s.settings|
    requires Indexed(s, c) && c > 0
    requires HasRoom(s.portals[p], c)
    requires s.portalindexsize < |s.portalindex|
    ensures s.clusters[c].firstportal + s.clusters[c].numportals == s.portalindexsize >= 0
    ensures Indexed(Attach(s, a, p, c), c)
  {
    SegmentsEndBy(s, c, c);
    assert SegmentLists(s, c);
    var t := Attach(s, a, p, c);
    assert Tiled(t, c);
    forall x | 1 <= x <= c
      ensures SegmentLists(t, x)
    {
      if x == c {
        AttachExtendsOwnSegment(s, c, a, p);
      } else {
        SegmentsEndBy(s, c, x);
        assert SegmentLists(s, x);
        AttachKeepsOtherSegment(s, c, a, p, x);
      }
    }
  }

  lemma AttachExtendsOwnSegment(s: Tables, c: int, a: int, p: int)
    requires 1 <= p < s.numportals <= |s.portals| && 0 <= a < |s.settings|
    requires 0 <= c < |s.clusters| && SegmentLists(s, c) && c > 0
    requires s.clusters[c].firstportal + s.clusters[c].numportals < |s.portalindex|
    requires HasRoom(s.portals[p], c)
    ensures SegmentLists(Attach(s, a, p, c), c)
  {
    var t := Attach(s, a, p, c);
    var before, after := Segment(s, c), Segment(t, c);
    assert after == before + [p];
    assert p !in before;
    forall q | 1 <= q < t.numportals && Joins(t.portals[q], c)
      ensures q in after
    {
      if q == p {
        assert after[|before|] == p;
      } else {
        assert q in before;
      }
    }
  }

  lemma AttachKeepsOtherSegment(s: Tables, c: int, a: int, p: int, x: int)
    requires 1 <= p < s.numportals <= |s.portals| && 0 <= a < |s.settings|
    requires 0 < x < c < |s.clusters| && SegmentLists(s, x)
    requires s.clusters[x].firstportal + s.clusters[x].numportals
             <= s.clusters[c].firstportal + s.clusters[c].numportals < |s.portalindex|
    requires HasRoom(s.portals[p], c)
    ensures SegmentLists(Attach(s, a, p, c), x)
  {
    var t := Attach(s, a, p, c);
    assert Segment(t, x) == Segment(s, x);
    assert forall q :: 1 <= q < t.numportals ==> (Joins(t.portals[q], x) <==> Joins(s.portals[q], x));
  }

  /** Earlier segments end before the running one. */
  lemma {:induction false} SegmentsEndBy(s: Tables, c: int, x: int)
    requires 1 <= x <= c && 1 <= s.numportals <= |s.portals| && Indexed(s, c)
    ensures s.clusters[x].firstportal + s.clusters[x].numportals <= s.portalindexsize
    ensures x < c ==> s.clusters[x].firstportal + s.clusters[x].numportals <= s.clusters[c].firstportal
    decreases c - x
  {
    if x < c {
      SegmentsEndBy(s, c, x + 1);
      assert SegmentLists(s, x + 1);
    }
  }

  lemma AttachKeepsInv(s: Tables, r: Round, c: int, a: int)
    requires Inv(s, r, c) && c > 0 && PortalArea(r.g, a)
    requires HasRoom(s.portals[r.portalnum[a]], c)
    requires Touches(s, r, c, a)
    requires s.portalindexsize < |s.portalindex|
    ensures s.clusters[c].firstportal + s.clusters[c].numportals == s.portalindexsize >= 0
    ensures Inv(Attach(s, a, r.portalnum[a], c), r, c)
  {
    hide Indexed, SidesTouch, ClustersConnected, Rooted, Touches;
    var p := r.portalnum[a];
    assert 0 <= c < |s.clusters| by { IndexedFits(s, c); }
    assert s.clusters[c].firstportal + s.clusters[c].numportals == s.portalindexsize >= 0 by {
      AttachKeepsSegments(s, c, a, p);
    }
    assert Indexed(Attach(s, a, p, c), c) by { AttachKeepsSegments(s, c, a, p); }
    var t := Attach(s, a, p, c);
    assert t.portalindexsize == SideCount(t.portals, t.numportals) by { AttachKeepsCount(s, c, a, p); }
    assert PortalTable(t, r) && PortalSides(t, c) && SidesTouch(t, r) by { AttachKeepsSides(s, r, c, a); }
    assert FlagsMatch(t.settings, r.g.flag) && ClusterFields(t, r, c) by { AttachKeepsFields(s, r, c, a); }
    assert ClustersConnected(t, r) && Rooted(t, r) by { AttachKeepsConnected(s, r, c, a); }
  }

  lemma AttachKeepsCount(s: Tables, c: int, a: int, p: int)
    requires 0 <= a < |s.settings| && 1 <= p < s.numportals <= |s.portals| && 0 < c < |s.clusters|
    requires 0 <= s.clusters[c].firstportal + s.clusters[c].numportals < |s.portalindex|
    requires HasRoom(s.portals[p], c) && s.portalindexsize == SideCount(s.portals, s.numportals)
    ensures var t := Attach(s, a, p, c); t.portalindexsize == SideCount(t.portals, t.numportals)
  {
    SideCountUpdate(s.portals, s.numportals, p, Attached(s.portals[p], c));
  }

  lemma AttachKeepsConnected(s: Tables, r: Round, c: int, a: int)
    requires WellFormed(r.g) && |s.settings| == |r.g.flag| && PortalTable(s, r) && PortalArea(r.g, a)
    requires 0 <= c < |s.clusters| && ClustersConnected(s, r) && Rooted(s, r)
    requires 0 <= s.clusters[c].firstportal + s.clusters[c].numportals < |s.portalindex|
    ensures var t := Attach(s, a, r.portalnum[a], c); ClustersConnected(t, r) && Rooted(t, r)
  {
  }

  lemma AttachKeepsSides(s: Tables, r: Round, c: int, a: int)
    requires WellFormed(r.g) && |s.settings| == |r.g.flag| && PortalTable(s, r) && PortalSides(s, c)
    requires SidesTouch(s, r) && c > 0 && PortalArea(r.g, a) && c < |s.clusters|
    requires HasRoom(s.portals[r.portalnum[a]], c) && Touches(s, r, c, a)
    requires 0 <= s.clusters[c].firstportal + s.clusters[c].numportals < |s.portalindex|
    ensures var t := Attach(s, a, r.portalnum[a], c);
      PortalTable(t, r) && PortalSides(t, c) && SidesTouch(t, r)
  {
    var p := r.portalnum[a];
    var t := Attach(s, a, p, c);
    assert PortalTable(t, r);
    forall x, d | Touches(s, r, x, d)
      ensures Touches(t, r, x, d)
    {
      var f :| Feeds(r.g, f, d) && s.settings[f].cluster == x;
      assert t.settings[f].cluster == x;
    }
  }

  lemma AttachKeepsFields(s: Tables, r: Round, c: int, a: int)
    requires WellFormed(r.g) && FlagsMatch(s.settings, r.g.flag) && PortalTable(s, r) && PortalSides(s, c)
    requires ClusterFields(s, r, c) && c > 0 && PortalArea(r.g, a) && c < |s.clusters|
    requires HasRoom(s.portals[r.portalnum[a]], c)
    requires 0 <= s.clusters[c].firstportal + s.clusters[c].numportals < |s.portalindex|
    ensures var t := Attach(s, a, r.portalnum[a], c);
      PortalTable(t, r) && FlagsMatch(t.settings, r.g.flag) && ClusterFields(t, r, c)
  {
  }
}
