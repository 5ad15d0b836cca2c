/** The whole of clustering: choosing the candidate portals, and settling which of them stay. */
module InitClustering {
  import opened AasDef
  import opened ClusterGraph
  import opened ClusterState
  import opened ClusterFlood
  import opened Clustering
  import opened ClusterRounds
  import opened FaceGraph
  import opened PortalCheck

  predicate IsViewPortal(s: AreaSettings) {
    HasFlag(s.contents, AREACONTENTS_VIEWPORTAL)
  }

  // ----- flag words

  const PORTAL_FLAGS: Flags := AREACONTENTS_CLUSTERPORTAL | AREACONTENTS_ROUTEPORTAL | AREACONTENTS_VIEWPORTAL

  /** Nothing but portal flags has been added to a flag word, and nothing taken away. */
  predicate Gains(word: Flags, later: Flags) {
    word & later == word && word | PORTAL_FLAGS == later | PORTAL_FLAGS
  }

  lemma GainsTransitive(a: Flags, b: Flags, c: Flags)
    requires Gains(a, b) && Gains(b, c)
    ensures Gains(a, c)
  {
    KeptBits(a, b, c);
  }

  lemma GainsSelf(word: Flags)
    ensures Gains(word, word)
  {
  }

  lemma KeptBits(a: Flags, b: Flags, c: Flags)
    requires a & b == a && b & c == b
    ensures a & c == a
  {
  }

  lemma ClusterFlagGained(word: Flags)
    ensures Gains(word, WithFlag(word, AREACONTENTS_CLUSTERPORTAL))
    ensures HasFlag(WithFlag(word, AREACONTENTS_CLUSTERPORTAL), AREACONTENTS_CLUSTERPORTAL)
    ensures HasFlag(WithFlag(word, AREACONTENTS_CLUSTERPORTAL), AREACONTENTS_VIEWPORTAL)
      <==> HasFlag(word, AREACONTENTS_VIEWPORTAL)
  {
  }

  lemma ViewFlagGained(word: Flags)
    ensures Gains(word, WithFlag(word, AREACONTENTS_VIEWPORTAL))
    ensures HasFlag(WithFlag(word, AREACONTENTS_VIEWPORTAL), AREACONTENTS_VIEWPORTAL)
    ensures HasFlag(WithFlag(word, AREACONTENTS_VIEWPORTAL), AREACONTENTS_CLUSTERPORTAL)
      <==> HasFlag(word, AREACONTENTS_CLUSTERPORTAL)
  {
  }

  lemma MarkedGains(s: AreaSettings)
    ensures Gains(s.contents, Marked(s).contents) && IsPortal(Marked(s))
    ensures IsViewPortal(Marked(s)) <==> IsViewPortal(s)
  {
  }

  lemma DroppedFlag(word: Flags)
    ensures HasFlag(WithoutFlag(word, AREACONTENTS_CLUSTERPORTAL), AREACONTENTS_VIEWPORTAL)
      <==> HasFlag(word, AREACONTENTS_VIEWPORTAL)
  {
  }

  // ----- the two loops over view portals

  /** The settings once every portal of one kind is also a portal of the other. */
  ghost predicate AlsoFlagged(s: seq<AreaSettings>, t: seq<AreaSettings>, kind: Flags, other: Flags, n: int) {
    && |t| == |s|
    && forall a :: 0 <= a < |s| ==>
         t[a] == if 1 <= a < n && HasFlag(s[a].contents, kind)
                 then s[a].(contents := WithFlag(s[a].contents, other)) else s[a]
  }

  method SetViewPortalsAsClusterPortals(w: AasWorld)
    requires w.areasettings.Length > 0
    modifies w.areasettings
    ensures AlsoFlagged(old(w.areasettings[..]), w.areasettings[..],
                        AREACONTENTS_VIEWPORTAL, AREACONTENTS_CLUSTERPORTAL, w.areasettings.Length)
  {
    var i := 1;
    while i < w.areasettings.Length
      invariant 1 <= i <= w.areasettings.Length
      invariant AlsoFlagged(old(w.areasettings[..]), w.areasettings[..],
                            AREACONTENTS_VIEWPORTAL, AREACONTENTS_CLUSTERPORTAL, i)
    {
      assert w.areasettings[..][i] == old(w.areasettings[..])[i];
      if HasFlag(w.areasettings[i].contents, AREACONTENTS_VIEWPORTAL) {
        w.areasettings[i] := w.areasettings[i].(contents :=
          WithFlag(w.areasettings[i].contents, AREACONTENTS_CLUSTERPORTAL));
      }
      i := i + 1;
    }
  }

  method CreateViewPortals(w: AasWorld)
    requires w.areasettings.Length > 0
    modifies w.areasettings
    ensures AlsoFlagged(old(w.areasettings[..]), w.areasettings[..],
                        AREACONTENTS_CLUSTERPORTAL, AREACONTENTS_VIEWPORTAL, w.areasettings.Length)
  {
    var i := 1;
    while i < w.areasettings.Length
      invariant 1 <= i <= w.areasettings.Length
      invariant AlsoFlagged(old(w.areasettings[..]), w.areasettings[..],
                            AREACONTENTS_CLUSTERPORTAL, AREACONTENTS_VIEWPORTAL, i)
    {
      assert w.areasettings[..][i] == old(w.areasettings[..])[i];
      if HasFlag(w.areasettings[i].contents, AREACONTENTS_CLUSTERPORTAL) {
        w.areasettings[i] := w.areasettings[i].(contents :=
          WithFlag(w.areasettings[i].contents, AREACONTENTS_VIEWPORTAL));
      }
      i := i + 1;
    }
  }

  // ----- the candidates

  /** Only cluster numbers are cleared and only portal flags are added. */
  ghost predicate Prepared(s: seq<AreaSettings>, t: seq<AreaSettings>) {
    && |t| == |s|
    && forall a :: 0 <= a < |s| ==> Prepares(s[a], t[a])
  }

  predicate Prepares(s: AreaSettings, t: AreaSettings) {
    && t == s.(contents := t.contents, cluster := t.cluster)
    && (t.cluster == 0 || t.cluster == s.cluster)
    && Gains(s.contents, t.contents)
  }

  lemma MarkedPrepares(s: AreaSettings)
    ensures Prepares(s, Marked(s))
  {
    MarkedGains(s);
  }

  lemma PreparesTransitive(s: AreaSettings, t: AreaSettings, u: AreaSettings)
    requires Prepares(s, t) && Prepares(t, u)
    ensures Prepares(s, u)
  {
    GainsTransitive(s.contents, t.contents, u.contents);
  }

  lemma AlsoFlaggedPrepares(s: seq<AreaSettings>, t: seq<AreaSettings>, kind: Flags, other: Flags)
    requires AlsoFlagged(s, t, kind, other, |s|)
    requires other == AREACONTENTS_CLUSTERPORTAL || other == AREACONTENTS_VIEWPORTAL
    ensures Prepared(s, t)
  {
    hide Gains, HasFlag, WithFlag;
    forall a | 0 <= a < |s|
      ensures Prepares(s[a], t[a])
    {
      assert Gains(s[a].contents, s[a].contents) by { GainsSelf(s[a].contents); }
      assert Gains(s[a].contents, WithFlag(s[a].contents, AREACONTENTS_CLUSTERPORTAL)) by {
        ClusterFlagGained(s[a].contents);
      }
      assert Gains(s[a].contents, WithFlag(s[a].contents, AREACONTENTS_VIEWPORTAL)) by {
        ViewFlagGained(s[a].contents);
      }
    }
  }

  lemma PreparedTransitive(s: seq<AreaSettings>, t: seq<AreaSettings>, u: seq<AreaSettings>)
    requires Prepared(s, t) && Prepared(t, u)
    ensures Prepared(s, u)
  {
    forall a | 0 <= a < |s|
      ensures Prepares(s[a], u[a])
    {
      PreparesTransitive(s[a], t[a], u[a]);
    }
  }

  lemma SomeMarkedPrepares(s: seq<AreaSettings>, t: seq<AreaSettings>)
    requires SomeMarked(s, t)
    ensures Prepared(s, t)
  {
    hide Gains, Marked;
    forall a | 0 <= a < |s|
      ensures Prepares(s[a], t[a])
    {
      assert Prepares(s[a], s[a]) by { GainsSelf(s[a].contents); }
      assert Prepares(s[a], Marked(s[a])) by { MarkedPrepares(s[a]); }
    }
  }

  /** The settings that the rounds start from: cluster portals and view portals are the same areas,
      among them every area that was a portal of either kind before. */
  ghost predicate Candidates(s: seq<AreaSettings>, t: seq<AreaSettings>) {
    && Prepared(s, t)
    && forall a :: 1 <= a < |s| ==>
         && (IsViewPortal(t[a]) <==> IsPortal(t[a]))
         && (IsViewPortal(s[a]) || IsPortal(s[a]) ==> IsPortal(t[a]))
  }

  lemma PreparedKeepsPortals(s: AreaSettings, t: AreaSettings)
    requires Prepares(s, t)
    ensures IsPortal(s) ==> IsPortal(t)
    ensures IsViewPortal(s) ==> IsViewPortal(t)
  {
  }

  lemma CandidatesChosen(s: seq<AreaSettings>, t: seq<AreaSettings>, u: seq<AreaSettings>,
                         v: seq<AreaSettings>, x: seq<AreaSettings>)
    requires AlsoFlagged(s, t, AREACONTENTS_VIEWPORTAL, AREACONTENTS_CLUSTERPORTAL, |s|)
    requires Prepared(t, u) && SomeMarked(u, v)
    requires forall a :: 0 <= a < |t| ==> u[a].contents == t[a].contents
    requires AlsoFlagged(v, x, AREACONTENTS_CLUSTERPORTAL, AREACONTENTS_VIEWPORTAL, |v|)
    ensures Candidates(s, x)
  {
    AlsoFlaggedPrepares(s, t, AREACONTENTS_VIEWPORTAL, AREACONTENTS_CLUSTERPORTAL);
    SomeMarkedPrepares(u, v);
    AlsoFlaggedPrepares(v, x, AREACONTENTS_CLUSTERPORTAL, AREACONTENTS_VIEWPORTAL);
    PreparedTransitive(s, t, u);
    PreparedTransitive(s, u, v);
    PreparedTransitive(s, v, x);
    forall a | 1 <= a < |s|
      ensures IsViewPortal(x[a]) <==> IsPortal(x[a])
      ensures IsViewPortal(s[a]) || IsPortal(s[a]) ==> IsPortal(x[a])
    {
      ClusterFlagGained(s[a].contents);
      MarkedGains(u[a]);
      ViewFlagGained(v[a].contents);
      PreparedKeepsPortals(s[a], x[a]);
    }
  }

  lemma CandidatesFit(s: seq<AreaSettings>, t: seq<AreaSettings>, reach: seq<Reachability>)
    requires WorldFits(s, reach) && Candidates(s, t)
    ensures WorldFits(t, reach) && LinksOf(t, reach) == LinksOf(s, reach)
  {
    assert Prepares(s[0], t[0]);
    forall a | 0 <= a < |s|
      ensures Fixed(t[a]) == Fixed(s[a]).(contents := t[a].contents)
    {
      assert Prepares(s[a], t[a]);
    }
    FixedKeepsLinks(s, t, reach);
  }

  lemma RemovalPrepares(s: Tables, t: Tables)
    requires ClustersRemoved(s, t)
    ensures Prepared(s.settings, t.settings)
    ensures forall a :: 0 <= a < |s.settings| ==> t.settings[a].contents == s.settings[a].contents
  {
  }

  /** An area that was no portal of either kind is a candidate only if it is in a group that passed the
      tests, in a search that began with the settings u. */
  ghost predicate OnlyPassedAdded(sc: Scene, s: seq<AreaSettings>, u: seq<AreaSettings>, t: seq<AreaSettings>)
  {
    && Prepared(s, u) && |t| == |s|
    && forall a :: 1 <= a < |s| && IsPortal(t[a]) && !IsPortal(s[a]) && !IsViewPortal(s[a]) ==> Passed(sc, u, a)
  }

  lemma AddedHavePassed(sc: Scene, s: seq<AreaSettings>, t: seq<AreaSettings>, u: seq<AreaSettings>,
                        v: seq<AreaSettings>, x: seq<AreaSettings>)
    requires AlsoFlagged(s, t, AREACONTENTS_VIEWPORTAL, AREACONTENTS_CLUSTERPORTAL, |s|)
    requires Prepared(t, u) && AllPassed(sc, u, v)
    requires forall a :: 0 <= a < |t| ==> u[a].contents == t[a].contents
    requires AlsoFlagged(v, x, AREACONTENTS_CLUSTERPORTAL, AREACONTENTS_VIEWPORTAL, |v|)
    ensures OnlyPassedAdded(sc, s, u, x)
  {
    hide Passed, Gains;
    assert Prepared(s, t) by { AlsoFlaggedPrepares(s, t, AREACONTENTS_VIEWPORTAL, AREACONTENTS_CLUSTERPORTAL); }
    assert Prepared(s, u) by { PreparedTransitive(s, t, u); }
    forall a | 1 <= a < |s| && IsPortal(x[a]) && !IsPortal(s[a]) && !IsViewPortal(s[a])
      ensures Passed(sc, u, a)
    {
      ViewFlagGained(v[a].contents);
      assert u[a].contents == s[a].contents;
    }
  }

  /** Chooses the candidate portals; searched holds the settings when the search for possible portals began. */
  method ChooseCandidates(w: AasWorld) returns (ghost searched: seq<AreaSettings>)
    requires GeometryFits(w) && w.areasettings.Length > 0
    modifies w.areasettings
    ensures Candidates(old(w.areasettings[..]), w.areasettings[..])
    ensures OnlyPassedAdded(SceneOf(w), old(w.areasettings[..]), searched, w.areasettings[..])
  {
    hide Candidates, Prepared, GeometryFits, SomeMarked, AlsoFlagged, ClustersRemoved, AllPassed, OnlyPassedAdded;
    ghost var s := w.areasettings[..];
    SetViewPortalsAsClusterPortals(w);
    ghost var t := Snapshot(w);
    RemoveClusterAreas(w);
    ghost var u := Snapshot(w);
    assert Prepared(t.settings, u.settings)
      && |u.settings| == |t.settings|
      && forall a :: 0 <= a < |t.settings| ==> u.settings[a].contents == t.settings[a].contents by {
      RemovalPrepares(t, u);
    }
    searched := u.settings;
    ghost var turns;
    var numpossibleportals;
    numpossibleportals, turns := FindPossiblePortals(w);
    ghost var v := w.areasettings[..];
    CreateViewPortals(w);
    assert Candidates(s, w.areasettings[..]) by {
      CandidatesChosen(s, t.settings, u.settings, v, w.areasettings[..]);
    }
    assert OnlyPassedAdded(SceneOf(w), s, searched, w.areasettings[..]) by {
      AddedHavePassed(SceneOf(w), s, t.settings, u.settings, v, w.areasettings[..]);
    }
  }

  // ----- the call

  method AllocateTables(w: AasWorld)
    modifies w`portals, w`portalindex, w`clusters
    ensures w.portals.Length == 65536 && w.portalindex.Length == 65536 && w.clusters.Length == 65536
    ensures Allocated(w) && fresh(w.portals) && fresh(w.portalindex) && fresh(w.clusters)
    ensures forall k :: 0 <= k < AAS_MAX_PORTALS ==> w.portals[k] == Portal(0, 0, 0, 0, 0)
    ensures forall k :: 0 <= k < AAS_MAX_PORTALINDEXSIZE ==> w.portalindex[k] == 0
    ensures forall k :: 0 <= k < AAS_MAX_CLUSTERS ==> w.clusters[k] == Cluster(0, 0, 0, 0)
  {
    w.portals := new Portal[AAS_MAX_PORTALS](_ => Portal(0, 0, 0, 0, 0));
    w.portalindex := new int[AAS_MAX_PORTALINDEXSIZE](_ => 0);
    w.clusters := new Cluster[AAS_MAX_CLUSTERS](_ => Cluster(0, 0, 0, 0));
  }

  /** The tables that clustering only reads. */
  datatype Fixture = Fixture(
    sc: Scene, edges: seq<Edge>, vertexes: seq<Vec3>, reachability: seq<Reachability>)

  function FixtureOf(w: AasWorld): Fixture
    reads w`areas, w`faces, w`faceindex, w`edgeindex, w`edges, w`vertexes, w`reachability
    reads w.areas, w.faces, w.faceindex, w.edgeindex, w.edges, w.vertexes, w.reachability
  {
    Fixture(SceneOf(w), w.edges[..], w.vertexes[..], w.reachability[..])
  }

  /** Allocates the tables and goes through the rounds. */
  method FindClustersAnew(w: AasWorld) returns (ghost r: Round, ghost drops: seq<int>)
    requires WorldFits(w.areasettings[..], w.reachability[..])
    modifies w`portals, w`numportals, w`portalindex, w`portalindexsize, w`clusters, w`numclusters, w`savefile
    modifies w.areasettings
    ensures FixtureOf(w) == old(FixtureOf(w)) && w.savefile
    ensures Settles(old(w.areasettings[..]), Snapshot(w), r, w.numclusters - 1, drops) && r.reach == w.reachability[..]
  {
    hide Settles, WorldFits, FixtureOf;
    AllocateTables(w);
    r, drops := ClusterWorld(w);
    w.savefile := true;
  }

  /** Clusters the world; settings are those the rounds started from, drops the portals given up, and
      searched the settings when the search for possible portals began. */
  method InitClustering(w: AasWorld, forceclustering: bool, forcereachability: bool)
    returns (ghost searched: seq<AreaSettings>, ghost settings: seq<AreaSettings>, ghost r: Round, ghost drops: seq<int>)
    requires GeometryFits(w) && WorldFits(w.areasettings[..], w.reachability[..])
    modifies w`savefile, w`portals, w`numportals, w`portalindex, w`portalindexsize, w`clusters, w`numclusters
    modifies w.areasettings
    ensures FixtureOf(w) == old(FixtureOf(w))
    ensures !old(w.loaded) || (old(w.numclusters) > 0 && !forceclustering && !forcereachability) ==>
      unchanged(w) && unchanged(w.areasettings)
    ensures old(w.loaded) && (old(w.numclusters) < 1 || forceclustering || forcereachability) ==>
      && w.savefile
      && Candidates(old(w.areasettings[..]), settings)
      && OnlyPassedAdded(FixtureOf(w).sc, old(w.areasettings[..]), searched, settings)
      && Settles(settings, Snapshot(w), r, w.numclusters - 1, drops)
      && r.reach == w.reachability[..]
  {
    hide Candidates, Settles, GeometryFits, WorldFits, OnlyPassedAdded, SceneOf;
    searched, settings, drops := [], [], [];
    r := Round(Graph([], []), [], []);
    if !w.loaded { return; }
    if w.numclusters >= 1 {
      if !forceclustering && !forcereachability { return; }
    }
    ghost var s := w.areasettings[..];
    assert |s| > 0 by { assert WorldFits(s, w.reachability[..]); WorldIsNonEmpty(s, w.reachability[..]); }
    searched := ChooseCandidates(w);
    settings := w.areasettings[..];
    assert WorldFits(settings, w.reachability[..]) by { CandidatesFit(s, settings, w.reachability[..]); }
    r, drops := FindClustersAnew(w);
  }

  lemma WorldIsNonEmpty(s: seq<AreaSettings>, reach: seq<Reachability>)
    requires WorldFits(s, reach)
    ensures |s| > 0
  {
  }

  // ----- what the call leaves behind

  /** View portals remember the candidates: the areas that are view but not cluster portals afterwards
      are the dropped ones, and a second call would start from at least the same candidates. */
  lemma ViewPortalsRemember(s: seq<AreaSettings>, settings: seq<AreaSettings>, t: Tables, r: Round,
                            c: int, drops: seq<int>, a: int)
    requires Candidates(s, settings) && Settles(settings, t, r, c, drops) && 1 <= a < |s|
    ensures |t.settings| == |settings|
    ensures IsViewPortal(t.settings[a]) <==> IsPortal(settings[a])
    ensures IsPortal(t.settings[a]) <==> IsViewPortal(t.settings[a]) && a !in drops
    ensures a in drops ==> IsViewPortal(t.settings[a])
  {
    LoopOutcome(settings, t, r, c, drops);
    DropRunFlags(r.g.links, FlagsOf(settings), drops, r.g.flag);
    DroppedFlag(settings[a].contents);
    assert Fixed(t.settings[a]).contents == t.settings[a].contents;
  }

  /** A portal of either kind before the call is a candidate of the call, so it is dropped only if, at
      the time, it did not separate exactly two components; what stays a portal does. */
  lemma PortalsSettle(s: seq<AreaSettings>, settings: seq<AreaSettings>, t: Tables, r: Round,
                      c: int, drops: seq<int>, a: int)
    requires Candidates(s, settings) && Settles(settings, t, r, c, drops) && 1 <= a < |s|
    requires IsPortal(s[a]) || IsViewPortal(s[a])
    ensures |t.settings| == |s| == |r.g.flag|
    ensures IsPortal(t.settings[a]) ==> SeparatesTwo(r.g, a)
    ensures !IsPortal(t.settings[a]) <==> a in drops
  {
    LoopOutcome(settings, t, r, c, drops);
    DropRunFlags(r.g.links, FlagsOf(settings), drops, r.g.flag);
    assert IsPortal(settings[a]);
  }

  /** No bit of the contents has changed but the three bits of portals: 3, 5 and 9. */
  ghost predicate OtherBitsKept(before: Flags, after: Flags) {
    after & 0xFFFF_FDD7 == before & 0xFFFF_FDD7
  }

  /** The bits of the contents of an area, before the call, when the rounds start, and afterwards: bits
      3 and 9 are one when the rounds start, and were set if either was before; afterwards bit 9 is
      what it was then, bit 3 is cleared where the area was dropped, and bit 5 is never cleared. */
  lemma PortalBits(s: seq<AreaSettings>, settings: seq<AreaSettings>, t: Tables, r: Round, c: int, drops: seq<int>, a: int)
    requires Candidates(s, settings) && Settles(settings, t, r, c, drops) && 1 <= a < |s|
    ensures |t.settings| == |settings| == |s|
    ensures HasFlag(settings[a].contents, 8) <==> HasFlag(settings[a].contents, 512)
    ensures HasFlag(s[a].contents, 8) || HasFlag(s[a].contents, 512) ==> HasFlag(settings[a].contents, 8)
    ensures HasFlag(t.settings[a].contents, 512) <==> HasFlag(settings[a].contents, 8)
    ensures HasFlag(t.settings[a].contents, 8) <==> HasFlag(settings[a].contents, 8) && a !in drops
    ensures HasFlag(s[a].contents, 32) ==> HasFlag(t.settings[a].contents, 32)
    ensures OtherBitsKept(s[a].contents, t.settings[a].contents)
  {
    hide Settles, HasFlag, Gains, WithoutFlag, OtherBitsKept;
    ViewPortalsRemember(s, settings, t, r, c, drops, a);
    LoopOutcome(settings, t, r, c, drops);
    assert Prepares(s[a], settings[a]);
    var before, word, after := s[a].contents, settings[a].contents, t.settings[a].contents;
    assert after == word || after == WithoutFlag(word, AREACONTENTS_CLUSTERPORTAL) by {
      SettledContents(settings, t, r, c, drops, a);
    }
    assert (HasFlag(before, 32) ==> HasFlag(after, 32)) && OtherBitsKept(before, after) by {
      GainedBits(before, word);
      DroppedRest(word);
      DroppedRoute(word);
      RestKeptTwice(before, word, after);
    }
  }

  lemma SettledContents(settings: seq<AreaSettings>, t: Tables, r: Round, c: int, drops: seq<int>, a: int)
    requires Settles(settings, t, r, c, drops) && 0 <= a < |settings| == |t.settings|
    ensures t.settings[a].contents == settings[a].contents
      || t.settings[a].contents == WithoutFlag(settings[a].contents, AREACONTENTS_CLUSTERPORTAL)
  {
    hide Success, DropRun, WithoutFlag;
    assert Fixed(t.settings[a]).contents == t.settings[a].contents;
  }

  lemma GainedBits(word: Flags, later: Flags)
    requires Gains(word, later)
    ensures OtherBitsKept(word, later) && (HasFlag(word, 32) ==> HasFlag(later, 32))
  {
    GainedRest(word, later);
    GainedRoute(word, later);
  }

  lemma GainedRest(word: Flags, later: Flags)
    requires Gains(word, later)
    ensures later & 0xFFFF_FDD7 == word & 0xFFFF_FDD7
  {
  }

  lemma GainedRoute(word: Flags, later: Flags)
    requires Gains(word, later)
    ensures word & 32 != 0 ==> later & 32 != 0
  {
  }

  lemma DroppedRest(word: Flags)
    ensures OtherBitsKept(word, WithoutFlag(word, AREACONTENTS_CLUSTERPORTAL))
  {
  }

  lemma DroppedRoute(word: Flags)
    ensures HasFlag(WithoutFlag(word, AREACONTENTS_CLUSTERPORTAL), 32) <==> HasFlag(word, 32)
  {
  }

  lemma RestKeptTwice(before: Flags, word: Flags, after: Flags)
    ensures OtherBitsKept(before, word) && OtherBitsKept(word, after) ==> OtherBitsKept(before, after)
  {
  }
}
