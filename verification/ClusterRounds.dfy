/** The retry loop: rounds repeat, each failing round drops one bad portal, and the loop ends
    with clusters that are the components of plain areas and portals that each separate two. */
module ClusterRounds {
  import opened AasDef
  import opened ClusterGraph
  import opened ClusterState
  import opened ClusterFlood
  import opened ClusterNumber
  import opened ClusterFind
  import opened Clustering

  // ----- what a successful clustering means

  /** Two plain areas, one of them clustered, share a cluster exactly when they are connected. */
  lemma SameClusterIffConnected(s: Tables, r: Round, c: int, a: int, b: int)
    requires Success(s, r, c) && Plain(r.g, a) && Plain(r.g, b) && s.settings[a].cluster > 0
    ensures s.settings[a].cluster == s.settings[b].cluster <==> Connected(r.g, a, b)
  {
    if Connected(r.g, a, b) {
      CompleteClusterHoldsComponent(s, r, c, a, b);
    }
  }

  /** The plain areas in clusters are those with a reachability or with one leading into them from
      a plain area; so no plain area with reachabilities is left out. */
  lemma ClusteredIffLinked(s: Tables, r: Round, c: int, a: int)
    requires Success(s, r, c) && Plain(r.g, a)
    ensures 0 <= s.settings[a].cluster <= c
    ensures s.settings[a].cluster > 0 <==> HasLink(r.g, a)
  {
    if HasLink(r.g, a) && |r.g.links[a]| == 0 {
      var b :| Feeds(r.g, b, a);
      assert s.settings[b].cluster > 0;
      assert Settled(s, r, s.settings[b].cluster, a);
    }
  }

  /** The clusters that a portal joins are exactly the two that have reachabilities into it. */
  lemma PortalJoinsFeeders(s: Tables, r: Round, c: int, p: int, x: int)
    requires Success(s, r, c) && 1 <= p < s.numportals && x > 0
    ensures s.portals[p].frontcluster != s.portals[p].backcluster
    ensures 0 < s.portals[p].frontcluster <= c && 0 < s.portals[p].backcluster <= c
    ensures s.settings[s.portals[p].areanum].cluster == -p
    ensures Joins(s.portals[p], x) <==> Touches(s, r, x, s.portals[p].areanum)
  {
    var d := s.portals[p].areanum;
    if Touches(s, r, x, d) {
      var f :| Feeds(r.g, f, d) && s.settings[f].cluster == x;
      assert Settled(s, r, x, d);
    }
  }

  /** Every area that is still flagged separates exactly two components. */
  lemma PortalAreasSeparateTwo(s: Tables, r: Round, c: int, d: int)
    requires Success(s, r, c) && PortalArea(r.g, d)
    ensures SeparatesTwo(r.g, d)
  {
    TwoSidedPortalIsGood(s, r, c, r.portalnum[d]);
  }

  /** Place k of the portal index lies in the segment of exactly one cluster. */
  ghost predicate InOneSegment(s: Tables, c: int, k: int) {
    && (exists x :: 1 <= x <= c && InSegment(s, x, k))
    && (forall x, y :: 1 <= x < y <= c ==> !(InSegment(s, x, k) && InSegment(s, y, k)))
  }

  lemma SegmentOfPlace(s: Tables, c: int, k: int)
    requires 1 <= s.numportals <= |s.portals| && Indexed(s, c)
    requires 0 <= k < s.portalindexsize
    ensures InOneSegment(s, c, k)
  {
    SegmentAtOrBelow(s, c, c, k);
    forall x, y | 1 <= x < y <= c
      ensures !(InSegment(s, x, k) && InSegment(s, y, k))
    {
      SegmentsInOrder(s, c, x, y);
    }
  }

  predicate InSegment(s: Tables, x: int, k: int) {
    0 <= x < |s.clusters| && s.clusters[x].firstportal <= k < s.clusters[x].firstportal + s.clusters[x].numportals
  }

  lemma {:induction false} SegmentAtOrBelow(s: Tables, c: int, y: int, k: int)
    requires 1 <= s.numportals <= |s.portals| && Indexed(s, c) && 1 <= y <= c
    requires 0 <= k < s.clusters[y].firstportal + s.clusters[y].numportals
    ensures exists x :: 1 <= x <= c && InSegment(s, x, k)
  {
    if InSegment(s, y, k) {
    } else {
      assert y > 1 && s.clusters[y - 1 + 1].firstportal == s.clusters[y].firstportal;
      SegmentAtOrBelow(s, c, y - 1, k);
    }
  }

  lemma {:induction false} SegmentsInOrder(s: Tables, c: int, x: int, y: int)
    requires 1 <= s.numportals <= |s.portals| && Indexed(s, c) && 1 <= x < y <= c
    ensures s.clusters[x].firstportal + s.clusters[x].numportals <= s.clusters[y].firstportal
    decreases y - x
  {
    if x + 1 < y {
      SegmentsInOrder(s, c, x + 1, y);
      assert SegmentLists(s, x + 1);
    }
  }

  /** The segments tile the portal index, segment x lists exactly the portals of cluster x once
      each, and the index holds two entries for every portal. */
  lemma IndexIsExact(s: Tables, r: Round, c: int)
    requires Success(s, r, c)
    ensures s.portalindexsize == 2 * (s.numportals - 1)
    ensures forall x :: 1 <= x <= c ==> SegmentLists(s, x)
    ensures forall k :: 0 <= k < s.portalindexsize ==> InOneSegment(s, c, k)
  {
    SideCountBound(s.portals, s.numportals);
    forall k | 0 <= k < s.portalindexsize
      ensures InOneSegment(s, c, k)
    {
      SegmentOfPlace(s, c, k);
    }
  }

  /** In every cluster the members are numbered densely, those with reachabilities first. */
  lemma NumberingIsDense(s: Tables, r: Round, c: int, x: int)
    requires Success(s, r, c) && 0 < x <= c
    ensures forall a :: Member(s, r, x, a) ==>
      && 0 <= ClusterAreaNum(s, x, a) < s.clusters[x].numareas
      && (ClusterAreaNum(s, x, a) < s.clusters[x].numreachabilityareas <==> Reachable(s.settings[a]))
    ensures forall a, b :: Member(s, r, x, a) && Member(s, r, x, b) && a != b ==>
      ClusterAreaNum(s, x, a) != ClusterAreaNum(s, x, b)
    ensures forall k :: 0 <= k < s.clusters[x].numareas ==> Taken(s, r, x, k)
  {
    NumberedIsDense(s, r, x);
  }

  // ----- runs of rounds

  /** The flags after dropping these areas one by one, each of them a bad portal when it is dropped. */
  ghost predicate DropRun(links: seq<seq<int>>, flag: seq<bool>, drops: seq<int>, last: seq<bool>)
    requires WellFormed(Graph(links, flag))
    decreases |drops|
  {
    if drops == [] then last == flag
    else
      && PortalArea(Graph(links, flag), drops[0])
      && !SeparatesTwo(Graph(links, flag), drops[0])
      && DropRun(links, flag[drops[0] := false], drops[1..], last)
  }

  lemma {:induction false} DropRunGoesOn(links: seq<seq<int>>, flag: seq<bool>, drops: seq<int>, last: seq<bool>, d: int)
    requires WellFormed(Graph(links, flag)) && DropRun(links, flag, drops, last)
    requires |last| == |flag| ==> PortalArea(Graph(links, last), d) && !SeparatesTwo(Graph(links, last), d)
    ensures |last| == |flag|
    ensures DropRun(links, flag, drops + [d], last[d := false])
    decreases |drops|
  {
    if drops != [] {
      DropRunGoesOn(links, flag[drops[0] := false], drops[1..], last, d);
      assert (drops + [d])[1..] == drops[1..] + [d];
    }
  }

  /** A run drops each area at most once, and ends with just the areas it has not dropped. */
  lemma {:induction false} DropRunFlags(links: seq<seq<int>>, flag: seq<bool>, drops: seq<int>, last: seq<bool>)
    requires WellFormed(Graph(links, flag)) && DropRun(links, flag, drops, last)
    ensures |last| == |flag|
    ensures forall a :: 0 <= a < |flag| ==> (last[a] <==> flag[a] && a !in drops)
    ensures forall i, j :: 0 <= i < j < |drops| ==> drops[i] != drops[j]
    ensures forall d :: d in drops ==> PortalArea(Graph(links, flag), d)
    decreases |drops|
  {
    if drops != [] {
      var rest := drops[1..];
      DropRunFlags(links, flag[drops[0] := false], rest, last);
      assert drops == [drops[0]] + rest;
      assert forall j :: 0 < j < |drops| ==> drops[j] == rest[j - 1] && rest[j - 1] in rest;
      assert drops[0] !in rest;
    }
  }

  // ----- the loop

  /** The reachabilities of every area are in the table and lead to areas of the world. */
  ghost predicate ReachabilityInRange(settings: seq<AreaSettings>, reach: seq<Reachability>) {
    && (forall a :: 0 <= a < |settings| ==>
          && 0 <= settings[a].firstreachablearea && 0 <= settings[a].numreachableareas
          && settings[a].firstreachablearea + settings[a].numreachableareas <= |reach|)
    && (forall k :: 0 <= k < |reach| ==> 0 <= reach[k].areanum < |settings|)
  }

  /** A world that clustering accepts. */
  ghost predicate WorldFits(settings: seq<AreaSettings>, reach: seq<Reachability>) {
    && 0 < |settings| <= MAX_AREAS
    && ReachabilityInRange(settings, reach)
    && settings[0].cluster == 0
  }

  ghost function AreaLinks(s: AreaSettings, reach: seq<Reachability>): seq<int>
    requires 0 <= s.firstreachablearea && 0 <= s.numreachableareas
    requires s.firstreachablearea + s.numreachableareas <= |reach|
  {
    seq(s.numreachableareas, j requires 0 <= j < s.numreachableareas => reach[s.firstreachablearea + j].areanum)
  }

  ghost function LinksOf(settings: seq<AreaSettings>, reach: seq<Reachability>): seq<seq<int>>
    requires ReachabilityInRange(settings, reach)
  {
    seq(|settings|, a requires 0 <= a < |settings| => AreaLinks(settings[a], reach))
  }

  ghost function FlagsOf(settings: seq<AreaSettings>): seq<bool> {
    seq(|settings|, a requires 0 <= a < |settings| => IsPortal(settings[a]))
  }

  lemma LinksOfMatch(settings: seq<AreaSettings>, reach: seq<Reachability>)
    requires ReachabilityInRange(settings, reach) && |settings| > 0
    ensures LinksMatch(settings, reach, LinksOf(settings, reach))
    ensures FlagsMatch(settings, FlagsOf(settings))
    ensures WellFormed(Graph(LinksOf(settings, reach), FlagsOf(settings)))
  {
    var links := LinksOf(settings, reach);
    forall a, b | 0 <= a < |links| && b in links[a]
      ensures 0 <= b < |links|
    {
      var j :| 0 <= j < |links[a]| && links[a][j] == b;
      assert links[a] == AreaLinks(settings[a], reach);
    }
  }

  /** Settings after some rounds: only cluster fields and the portal flags of dropped areas differ. */
  ghost predicate OnlyDropped(s: seq<AreaSettings>, t: seq<AreaSettings>, drops: seq<int>) {
    && |t| == |s|
    && forall a :: 0 <= a < |s| ==>
         Fixed(t[a]) == Fixed(s[a]).(contents :=
           if a in drops then WithoutFlag(s[a].contents, AREACONTENTS_CLUSTERPORTAL) else s[a].contents)
  }

  ghost function FlaggedAreas(settings: seq<AreaSettings>): set<int> {
    set a | 0 <= a < |settings| && IsPortal(settings[a])
  }

  lemma ClearedFlag(word: Flags)
    ensures !HasFlag(WithoutFlag(word, AREACONTENTS_CLUSTERPORTAL), AREACONTENTS_CLUSTERPORTAL)
  {
  }

  /** Where the rounds have got to: the run so far leads from the first settings to the present ones. */
  ghost predicate Running(s: seq<AreaSettings>, t: seq<AreaSettings>, links: seq<seq<int>>, drops: seq<int>) {
    && OnlyDropped(s, t, drops)
    && WellFormed(Graph(links, FlagsOf(s)))
    && DropRun(links, FlagsOf(s), drops, FlagsOf(t))
  }

  /** A failed round extends the run by the one area it dropped, and leaves one flag fewer. */
  lemma RunGoesOn(s: seq<AreaSettings>, t: seq<AreaSettings>, u: seq<AreaSettings>, links: seq<seq<int>>,
                  drops: seq<int>, d: int)
    requires Running(s, t, links, drops)
    requires WellFormed(Graph(links, FlagsOf(t))) && Drops(t, u, Graph(links, FlagsOf(t)), d)
    ensures Running(s, u, links, drops + [d])
    ensures FlaggedAreas(u) < FlaggedAreas(t)
  {
    ClearedFlag(t[d].contents);
    forall a | 0 <= a < |t|
      ensures IsPortal(u[a]) == (a != d && IsPortal(t[a]))
    {
      assert Fixed(u[a]).contents == u[a].contents && Fixed(t[a]).contents == t[a].contents;
    }
    assert FlagsOf(u) == FlagsOf(t)[d := false];
    DropRunFlags(links, FlagsOf(s), drops, FlagsOf(t));
    DropRunGoesOn(links, FlagsOf(s), drops, FlagsOf(t), d);
    forall a | 0 <= a < |s|
      ensures Fixed(u[a]) == Fixed(s[a]).(contents :=
        if a in drops + [d] then WithoutFlag(s[a].contents, AREACONTENTS_CLUSTERPORTAL) else s[a].contents)
    {
      assert Fixed(t[a]).contents == t[a].contents;
    }
    assert d in FlaggedAreas(t) && d !in FlaggedAreas(u);
    assert forall a :: a in FlaggedAreas(u) ==> a in FlaggedAreas(t);
  }

  /** The tables have the sizes that clustering allocates. */
  predicate Allocated(w: AasWorld)
    reads w
  {
    && w.portals.Length == AAS_MAX_PORTALS
    && w.portalindex.Length == AAS_MAX_PORTALINDEXSIZE
    && w.clusters.Length == AAS_MAX_CLUSTERS
  }

  /** Where the loop has got to: the run so far, in a world that still fits and has the same links. */
  ghost predicate Rounds(s: seq<AreaSettings>, t: seq<AreaSettings>, reach: seq<Reachability>,
                         links: seq<seq<int>>, drops: seq<int>) {
    && Running(s, t, links, drops)
    && WorldFits(t, reach) && LinksOf(t, reach) == links
  }

  /** The outcome of the loop. */
  ghost predicate Settles(s: seq<AreaSettings>, t: Tables, r: Round, c: int, drops: seq<int>) {
    && ReachabilityInRange(s, r.reach)
    && Running(s, t.settings, LinksOf(s, r.reach), drops)
    && r.g == Graph(LinksOf(s, r.reach), FlagsOf(t.settings))
    && Success(t, r, c)
  }

  lemma RoundsStart(s: seq<AreaSettings>, reach: seq<Reachability>)
    requires WorldFits(s, reach)
    ensures ReachabilityInRange(s, reach) && Rounds(s, s, reach, LinksOf(s, reach), [])
  {
    LinksOfMatch(s, reach);
  }

  /** A round of the loop begins with a graph that matches the tables. */
  lemma RoundsMatch(s: seq<AreaSettings>, t: seq<AreaSettings>, reach: seq<Reachability>,
                    links: seq<seq<int>>, drops: seq<int>)
    requires Rounds(s, t, reach, links, drops)
    ensures FlagsMatch(t, FlagsOf(t)) && 0 < |t| <= MAX_AREAS && WellFormed(Graph(links, FlagsOf(t)))
  {
    LinksOfMatch(t, reach);
  }

  lemma RoundIsReady(s: seq<AreaSettings>, t: Tables, r: Round, drops: seq<int>)
    requires Rounds(s, t.settings, r.reach, r.g.links, drops) && r.g.flag == FlagsOf(t.settings)
    requires t.portalindexsize == 0 && t.numportals <= |t.settings|
    requires |t.portals| == AAS_MAX_PORTALS && |t.portalindex| == AAS_MAX_PORTALINDEXSIZE
    requires |t.clusters| == AAS_MAX_CLUSTERS
    requires Created(t, r.g, r.portalnum, |t.settings|)
    ensures RoundReady(t, r)
  {
    LinksOfMatch(t.settings, r.reach);
  }

  lemma FixedKeepsLinks(s: seq<AreaSettings>, t: seq<AreaSettings>, reach: seq<Reachability>)
    requires WorldFits(s, reach) && |t| == |s| && t[0].cluster == 0
    requires forall a :: 0 <= a < |s| ==> Fixed(t[a]) == Fixed(s[a]).(contents := t[a].contents)
    ensures WorldFits(t, reach) && LinksOf(t, reach) == LinksOf(s, reach)
  {
    forall a | 0 <= a < |s|
      ensures t[a].firstreachablearea == s[a].firstreachablearea
      ensures t[a].numreachableareas == s[a].numreachableareas
    {
      assert Fixed(t[a]).firstreachablearea == t[a].firstreachablearea;
      assert Fixed(t[a]).numreachableareas == t[a].numreachableareas;
    }
    forall a | 0 <= a < |s|
      ensures LinksOf(t, reach)[a] == LinksOf(s, reach)[a]
    {
      assert AreaLinks(t[a], reach) == AreaLinks(s[a], reach);
    }
  }

  lemma RoundFails(s: seq<AreaSettings>, t: seq<AreaSettings>, u: seq<AreaSettings>, reach: seq<Reachability>,
                   g: Graph, drops: seq<int>, d: int)
    requires Rounds(s, t, reach, g.links, drops) && g.flag == FlagsOf(t)
    requires WellFormed(g) && Drops(t, u, g, d)
    ensures Rounds(s, u, reach, g.links, drops + [d])
    ensures FlaggedAreas(u) < FlaggedAreas(t)
  {
    RunGoesOn(s, t, u, g.links, drops, d);
    forall a | 0 <= a < |t|
      ensures Fixed(u[a]) == Fixed(t[a]).(contents := u[a].contents)
    {
      assert Fixed(u[a]).contents == u[a].contents;
    }
    FixedKeepsLinks(t, u, reach);
  }

  lemma RoundSucceeds(s: seq<AreaSettings>, s0: Tables, t: Tables, r: Round, c: int, drops: seq<int>)
    requires ReachabilityInRange(s, r.reach) && r.g.links == LinksOf(s, r.reach)
    requires Rounds(s, s0.settings, r.reach, r.g.links, drops) && r.g.flag == FlagsOf(s0.settings)
    requires SameFixed(s0.settings, t.settings) && Success(t, r, c)
    ensures Settles(s, t, r, c, drops)
  {
    forall a | 0 <= a < |s0.settings|
      ensures t.settings[a].contents == s0.settings[a].contents
    {
      assert Fixed(t.settings[a]).contents == t.settings[a].contents;
      assert Fixed(s0.settings[a]).contents == s0.settings[a].contents;
    }
    assert FlagsOf(t.settings) == FlagsOf(s0.settings);
  }

  /** Repeats rounds until one succeeds. Each failing round drops one bad portal, so the loop ends. */
  method ClusterWorld(w: AasWorld) returns (ghost r: Round, ghost drops: seq<int>)
    requires Allocated(w) && WorldFits(w.areasettings[..], w.reachability[..])
    modifies w`numportals, w`portalindexsize, w`numclusters, w.areasettings, w.portals, w.portalindex, w.clusters
    ensures r.reach == w.reachability[..]
    ensures Settles(old(w.areasettings[..]), Snapshot(w), r, w.numclusters - 1, drops)
  {
    hide Rounds, WorldFits, Drops, Created, RoundReady, Finding, Success, FlagsMatch, WellFormed, Settles;
    ghost var s, reach := w.areasettings[..], w.reachability[..];
    assert ReachabilityInRange(s, reach) by { RoundsStart(s, reach); }
    ghost var links := LinksOf(s, reach);
    drops := [];
    assert Rounds(s, s, reach, links, drops) by { RoundsStart(s, reach); }
    while true
      invariant w.reachability[..] == reach
      invariant Rounds(s, Snapshot(w).settings, reach, links, drops)
      decreases FlaggedAreas(Snapshot(w).settings)
    {
      w.numportals := 1;
      w.portalindexsize := 0;
      w.numclusters := 1;
      ghost var t := Snapshot(w).settings;
      ghost var g := Graph(links, FlagsOf(t));
      assert FlagsMatch(t, g.flag) && 0 < |t| <= MAX_AREAS && WellFormed(g) by { RoundsMatch(s, t, reach, links, drops); }
      ghost var portalnum := CreatePortals(w, g);
      r := Round(g, portalnum, reach);
      ghost var s0 := Snapshot(w);
      assert RoundReady(s0, r) by { RoundIsReady(s, s0, r, drops); }
      var ok := FindClusters(w, r);
      if ok {
        assert SameFixed(s0.settings, Snapshot(w).settings) by { FindingSameFixed(s0, Snapshot(w), r, w.numclusters - 1, |t|); }
        ok := TestPortals(w, s0, r);
        if ok {
          assert Settles(s, Snapshot(w), r, w.numclusters - 1, drops) by {
            RoundSucceeds(s, s0, Snapshot(w), r, w.numclusters - 1, drops);
          }
          return;
        }
      }
      ghost var u := Snapshot(w).settings;
      ghost var d :| Drops(t, u, g, d);
      assert Rounds(s, u, reach, links, drops + [d]) && FlaggedAreas(u) < FlaggedAreas(t) by {
        RoundFails(s, t, u, reach, g, drops, d);
      }
      drops := drops + [d];
    }
  }

  lemma FindingSameFixed(s: Tables, t: Tables, r: Round, c: int, i: int)
    requires Finding(s, t, r, c, i)
    ensures SameFixed(s.settings, t.settings)
  {
  }

  /** The flags at the end are the first flags less the dropped areas, no area is dropped twice,
      and an area keeps its flag only if it separates exactly two components. */
  lemma LoopOutcome(s: seq<AreaSettings>, t: Tables, r: Round, c: int, drops: seq<int>)
    requires Settles(s, t, r, c, drops)
    ensures |t.settings| == |s|
    ensures forall a :: 0 <= a < |s| ==> (IsPortal(t.settings[a]) <==> IsPortal(s[a]) && a !in drops)
    ensures forall i, j :: 0 <= i < j < |drops| ==> drops[i] != drops[j]
    ensures forall a :: PortalArea(r.g, a) ==> SeparatesTwo(r.g, a)
  {
    DropRunFlags(r.g.links, FlagsOf(s), drops, r.g.flag);
    forall a | PortalArea(r.g, a)
      ensures SeparatesTwo(r.g, a)
    {
      PortalAreasSeparateTwo(t, r, c, a);
    }
    forall a | 0 <= a < |s|
      ensures IsPortal(t.settings[a]) <==> IsPortal(s[a]) && a !in drops
    {
      assert r.g.flag[a] == IsPortal(t.settings[a]) && FlagsOf(s)[a] == IsPortal(s[a]);
    }
  }
}
