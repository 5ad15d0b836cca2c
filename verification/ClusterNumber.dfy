/** Numbering the members of a cluster: the four passes give areas with reachabilities the
    numbers before areas without, and leave every other cluster's numbers alone. */
module ClusterNumber {
  import opened AasDef
  import opened ClusterGraph
  import opened ClusterState
  import opened ClusterFlood

  /** Area a belongs to cluster c, as one of its areas or as one of its portals. */
  ghost predicate Member(s: Tables, r: Round, c: int, a: int)
    requires |s.settings| == |r.g.flag| && PortalTable(s, r)
  {
    || (Plain(r.g, a) && s.settings[a].cluster == c)
    || (PortalArea(r.g, a) && Joins(s.portals[r.portalnum[a]], c))
  }

  predicate Reachable(s: AreaSettings) {
    s.numreachableareas != 0
  }

  /** The number that routing looks up for an area within a cluster. */
  function ClusterAreaNum(s: Tables, c: int, a: int): int
    requires 0 <= a < |s.settings|
    requires s.settings[a].cluster > 0 || -s.settings[a].cluster < |s.portals|
  {
    var k := s.settings[a].cluster;
    if k > 0 then s.settings[a].clusterareanum
    else if s.portals[-k].frontcluster != c then s.portals[-k].backareanum
    else s.portals[-k].frontareanum
  }

  /** Portal areas that are joined carry their negated portal number. */
  ghost predicate Labelled(s: Tables, r: Round)
    requires |s.settings| == |r.g.flag| && PortalTable(s, r)
  {
    && (forall a :: Plain(r.g, a) ==> s.settings[a].cluster >= 0)
    && (forall a :: PortalArea(r.g, a) ==>
          s.settings[a].cluster ==
          if s.portals[r.portalnum[a]].frontcluster == 0 then 0 else -r.portalnum[a])
    && (forall p :: 1 <= p < s.numportals ==>
          && 0 <= s.portals[p].frontcluster && 0 <= s.portals[p].backcluster
          && (s.portals[p].frontcluster == 0 ==> s.portals[p].backcluster == 0)
          && (s.portals[p].backcluster != 0 ==> s.portals[p].frontcluster != s.portals[p].backcluster))
  }

  // ----- the order of the numbers

  /** The areas of cluster c below n that have reachabilities, or those that have none, in order. */
  ghost function AreasWith(settings: seq<AreaSettings>, c: int, linked: bool, n: int): seq<int>
    requires n <= |settings|
    decreases n
  {
    if n <= 1 then []
    else
      AreasWith(settings, c, linked, n - 1) +
      if settings[n - 1].cluster == c && (settings[n - 1].numreachableareas != 0) == linked then [n - 1] else []
  }

  /** Does the area of this portal have reachabilities? */
  ghost predicate PortalLinked(s: Tables, p: int) {
    && 0 <= p < |s.portals| && 0 <= s.portals[p].areanum < |s.settings|
    && s.settings[s.portals[p].areanum].numreachableareas != 0
  }

  ghost function PortalAreaOf(s: Tables, p: int): int {
    if 0 <= p < |s.portals| then s.portals[p].areanum else 0
  }

  /** The portal areas of a stretch of the portal index that have reachabilities, or those that have none. */
  ghost function PortalsWith(s: Tables, segment: seq<int>, linked: bool, n: nat): seq<int>
    requires n <= |segment|
  {
    if n == 0 then []
    else
      PortalsWith(s, segment, linked, n - 1) +
      if PortalLinked(s, segment[n - 1]) == linked then [PortalAreaOf(s, segment[n - 1])] else []
  }

  ghost predicate SegmentInTable(s: Tables, x: int) {
    && 0 <= x < |s.clusters|
    && 0 <= s.clusters[x].firstportal <= s.clusters[x].firstportal + s.clusters[x].numportals <= |s.portalindex|
  }

  /** The members of cluster c with reachabilities, or those without: areas first, then portals in the
      order of the portal index. */
  ghost function Half(s: Tables, c: int, linked: bool): seq<int>
    requires SegmentInTable(s, c)
  {
    AreasWith(s.settings, c, linked, |s.settings|) + PortalsWith(s, Segment(s, c), linked, |Segment(s, c)|)
  }

  /** The members of cluster c in the order of their numbers. */
  ghost function Listing(s: Tables, c: int): seq<int>
    requires SegmentInTable(s, c)
  {
    Half(s, c, true) + Half(s, c, false)
  }

  lemma {:induction false} SameAreasWith(s: seq<AreaSettings>, t: seq<AreaSettings>, c: int, linked: bool, n: int)
    requires n <= |s| == |t|
    requires forall a :: 0 <= a < |s| ==>
      (t[a].cluster == c <==> s[a].cluster == c) && t[a].numreachableareas == s[a].numreachableareas
    ensures AreasWith(t, c, linked, n) == AreasWith(s, c, linked, n)
    decreases n
  {
    if n > 1 {
      SameAreasWith(s, t, c, linked, n - 1);
    }
  }

  lemma {:induction false} SamePortalsWith(s: Tables, t: Tables, segment: seq<int>, linked: bool, n: nat)
    requires n <= |segment| && |s.settings| == |t.settings| && |s.portals| == |t.portals|
    requires forall a :: 0 <= a < |s.settings| ==> t.settings[a].numreachableareas == s.settings[a].numreachableareas
    requires forall p :: 0 <= p < |s.portals| ==> t.portals[p].areanum == s.portals[p].areanum
    ensures PortalsWith(t, segment, linked, n) == PortalsWith(s, segment, linked, n)
  {
    if n > 0 {
      SamePortalsWith(s, t, segment, linked, n - 1);
    }
  }

  /** What the listing of a cluster is read from stays the same. */
  ghost predicate SameListed(s: Tables, t: Tables, x: int) {
    && SegmentInTable(s, x) && SegmentInTable(t, x) && Segment(t, x) == Segment(s, x)
    && |s.settings| == |t.settings| && |s.portals| == |t.portals|
    && (forall a :: 0 <= a < |s.settings| ==>
          && (t.settings[a].cluster == x <==> s.settings[a].cluster == x)
          && t.settings[a].numreachableareas == s.settings[a].numreachableareas)
    && (forall p :: 0 <= p < |s.portals| ==> t.portals[p].areanum == s.portals[p].areanum)
  }

  lemma SameListing(s: Tables, t: Tables, x: int)
    requires SameListed(s, t, x)
    ensures Listing(t, x) == Listing(s, x) && Half(t, x, true) == Half(s, x, true)
  {
    forall linked: bool
      ensures Half(t, x, linked) == Half(s, x, linked)
    {
      SameAreasWith(s.settings, t.settings, x, linked, |s.settings|);
      SamePortalsWith(s, t, Segment(s, x), linked, |Segment(s, x)|);
    }
  }

  /** The k-th of these members has number k. */
  ghost predicate InOrder(s: Tables, r: Round, c: int, order: seq<int>)
    requires |s.settings| == |r.g.flag| && PortalTable(s, r) && Labelled(s, r) && c > 0
  {
    forall k :: 0 <= k < |order| ==> Member(s, r, c, order[k]) && ClusterAreaNum(s, c, order[k]) == k
  }

  /** The order is that of the listing, has all members, those with reachabilities first, and the counts say so. */
  ghost predicate Numbers(s: Tables, r: Round, c: int, order: seq<int>)
    requires |s.settings| == |r.g.flag| && PortalTable(s, r) && Labelled(s, r) && 0 < c < |s.clusters|
  {
    && InOrder(s, r, c, order)
    && SegmentInTable(s, c) && order == Listing(s, c)
    && s.clusters[c].numreachabilityareas == |Half(s, c, true)|
    && |order| == s.clusters[c].numareas
    && 0 <= s.clusters[c].numreachabilityareas <= |order|
    && (forall a :: Member(s, r, c, a) ==> a in order)
    && (forall k :: 0 <= k < |order| ==>
          (k < s.clusters[c].numreachabilityareas <==> Reachable(s.settings[order[k]])))
  }

  ghost predicate Numbered(s: Tables, r: Round, c: int)
    requires |s.settings| == |r.g.flag| && PortalTable(s, r) && Labelled(s, r) && 0 < c < |s.clusters|
  {
    exists order :: Numbers(s, r, c, order)
  }

  ghost predicate Taken(s: Tables, r: Round, c: int, k: int)
    requires |s.settings| == |r.g.flag| && PortalTable(s, r) && Labelled(s, r) && c > 0
  {
    exists a :: Member(s, r, c, a) && ClusterAreaNum(s, c, a) == k
  }

  /** Numbers a cluster densely: its members map one-to-one onto 0..numareas-1, and exactly those
      with reachabilities onto 0..numreachabilityareas-1. */
  lemma NumberedIsDense(s: Tables, r: Round, c: int)
    requires |s.settings| == |r.g.flag| && PortalTable(s, r) && Labelled(s, r) && 0 < c < |s.clusters|
    requires Numbered(s, r, c)
    ensures forall a :: Member(s, r, c, a) ==>
      && 0 <= ClusterAreaNum(s, c, a) < s.clusters[c].numareas
      && (ClusterAreaNum(s, c, a) < s.clusters[c].numreachabilityareas <==> Reachable(s.settings[a]))
    ensures forall a, b :: Member(s, r, c, a) && Member(s, r, c, b) && a != b ==>
      ClusterAreaNum(s, c, a) != ClusterAreaNum(s, c, b)
    ensures forall k :: 0 <= k < s.clusters[c].numareas ==> Taken(s, r, c, k)
  {
    var order :| Numbers(s, r, c, order);
    forall a | Member(s, r, c, a)
      ensures 0 <= ClusterAreaNum(s, c, a) < |order| && order[ClusterAreaNum(s, c, a)] == a
    {
      var k :| 0 <= k < |order| && order[k] == a;
    }
    forall k | 0 <= k < s.clusters[c].numareas
      ensures Taken(s, r, c, k)
    {
      assert Member(s, r, c, order[k]) && ClusterAreaNum(s, c, order[k]) == k;
    }
  }

  // ----- what numbering changes

  predicate PortalRenumbered(before: Portal, after: Portal, c: int) {
    && after == before.(frontareanum := after.frontareanum, backareanum := after.backareanum)
    && (before.frontcluster != c ==> after.frontareanum == before.frontareanum)
    && (before.frontcluster == c || before.backcluster != c ==> after.backareanum == before.backareanum)
  }

  /** Numbering cluster c writes the numbers of its own members and its counts, and nothing else. */
  ghost predicate Renumbers(s: Tables, t: Tables, c: int) {
    && |t.settings| == |s.settings|
    && (forall a :: 0 <= a < |s.settings| ==>
          t.settings[a] == s.settings[a].(clusterareanum := t.settings[a].clusterareanum))
    && (forall a :: 0 <= a < |s.settings| && s.settings[a].cluster != c ==> t.settings[a] == s.settings[a])
    && |t.portals| == |s.portals| && t.numportals == s.numportals
    && (forall p :: 0 <= p < |s.portals| ==> PortalRenumbered(s.portals[p], t.portals[p], c))
    && t.portalindex == s.portalindex && t.portalindexsize == s.portalindexsize
    && 0 <= c < |s.clusters| == |t.clusters|
    && (forall x :: 0 <= x < |s.clusters| && x != c ==> t.clusters[x] == s.clusters[x])
    && t.clusters[c].firstportal == s.clusters[c].firstportal
    && t.clusters[c].numportals == s.clusters[c].numportals
  }

  lemma RenumberingKeepsTables(s: Tables, t: Tables, r: Round, c: int)
    requires |s.settings| == |r.g.flag| && PortalTable(s, r) && Labelled(s, r) && Renumbers(s, t, c)
    ensures |t.settings| == |r.g.flag| && PortalTable(t, r) && Labelled(t, r)
    ensures forall x, a :: Member(t, r, x, a) <==> Member(s, r, x, a)
  {
    forall p | 0 <= p < |s.portals|
      ensures t.portals[p].areanum == s.portals[p].areanum
      ensures t.portals[p].frontcluster == s.portals[p].frontcluster
      ensures t.portals[p].backcluster == s.portals[p].backcluster
    {
      assert PortalRenumbered(s.portals[p], t.portals[p], c);
    }
  }

  lemma RenumberingKeepsMember(s: Tables, t: Tables, r: Round, c: int, x: int, a: int)
    requires |s.settings| == |r.g.flag| && PortalTable(s, r) && Labelled(s, r) && Renumbers(s, t, c)
    requires |t.settings| == |r.g.flag| && PortalTable(t, r) && Labelled(t, r)
    requires 0 < x < |s.clusters| && x != c
    ensures Member(s, r, x, a) <==> Member(t, r, x, a)
    ensures Member(s, r, x, a) && Member(t, r, x, a) ==>
      ClusterAreaNum(t, x, a) == ClusterAreaNum(s, x, a) && Reachable(t.settings[a]) == Reachable(s.settings[a])
  {
    if PortalArea(r.g, a) {
      assert PortalRenumbered(s.portals[r.portalnum[a]], t.portals[r.portalnum[a]], c);
    }
  }

  lemma RenumberingKeepsOthers(s: Tables, t: Tables, r: Round, c: int, x: int)
    requires |s.settings| == |r.g.flag| && PortalTable(s, r) && Labelled(s, r) && Renumbers(s, t, c)
    requires 0 < x < |s.clusters| && x != c && Numbered(s, r, x)
    ensures PortalTable(t, r) && Labelled(t, r) && Numbered(t, r, x)
  {
    hide Renumbers, Listing, Half;
    assert PortalTable(t, r) && Labelled(t, r) && |t.settings| == |r.g.flag| by { RenumberingKeepsTables(s, t, r, c); }
    var order :| Numbers(s, r, x, order);
    assert |t.clusters| == |s.clusters| && t.clusters[x] == s.clusters[x] by { OtherClusterStays(s, t, c, x); }
    assert SameListed(s, t, x) by { RenumberingKeepsListed(s, t, c, x); }
    SameListing(s, t, x);
    forall a
      ensures Member(s, r, x, a) <==> Member(t, r, x, a)
    {
      RenumberingKeepsMember(s, t, r, c, x, a);
    }
    forall k | 0 <= k < |order|
      ensures ClusterAreaNum(t, x, order[k]) == k
      ensures Reachable(t.settings[order[k]]) == Reachable(s.settings[order[k]])
    {
      assert Member(s, r, x, order[k]) && ClusterAreaNum(s, x, order[k]) == k;
      RenumberingKeepsMember(s, t, r, c, x, order[k]);
    }
    assert Numbers(t, r, x, order);
  }

  lemma OtherClusterStays(s: Tables, t: Tables, c: int, x: int)
    requires Renumbers(s, t, c) && 0 < x < |s.clusters| && x != c
    ensures |t.clusters| == |s.clusters| && t.clusters[x] == s.clusters[x]
  {
  }

  lemma RenumberingKeepsListed(s: Tables, t: Tables, c: int, x: int)
    requires Renumbers(s, t, c) && SegmentInTable(s, x)
    ensures SameListed(s, t, x)
  {
    forall p | 0 <= p < |s.portals|
      ensures t.portals[p].areanum == s.portals[p].areanum
    {
      assert PortalRenumbered(s.portals[p], t.portals[p], c);
    }
  }

  lemma GrowthKeepsListed(s: Tables, t: Tables, c: int, x: int)
    requires Grows(s, t, c) && 0 < x < c < |s.clusters| && SegmentInTable(s, x)
    requires s.clusters[x].firstportal + s.clusters[x].numportals <= s.portalindexsize
    ensures SameListed(s, t, x)
  {
    forall a | 0 <= a < |s.settings|
      ensures t.settings[a].cluster == x <==> s.settings[a].cluster == x
      ensures t.settings[a].numreachableareas == s.settings[a].numreachableareas
    {
      assert MarkGrows(s.settings[a], t.settings[a], c);
      assert Fixed(t.settings[a]).numreachableareas == t.settings[a].numreachableareas;
      assert Fixed(s.settings[a]).numreachableareas == s.settings[a].numreachableareas;
    }
    assert Segment(t, x) == Segment(s, x);
  }

  lemma GrowthKeepsMember(s: Tables, t: Tables, r: Round, c: int, x: int, a: int)
    requires |s.settings| == |r.g.flag| && PortalTable(s, r) && Labelled(s, r)
    requires |t.settings| == |r.g.flag| && PortalTable(t, r) && Labelled(t, r)
    requires Grows(s, t, c) && 0 < x < c && c < |s.clusters|
    ensures Member(s, r, x, a) <==> Member(t, r, x, a)
    ensures Member(s, r, x, a) && Member(t, r, x, a) ==>
      ClusterAreaNum(t, x, a) == ClusterAreaNum(s, x, a) && Reachable(t.settings[a]) == Reachable(s.settings[a])
  {
    if 0 <= a < |s.settings| {
      assert MarkGrows(s.settings[a], t.settings[a], c);
    }
  }

  /** Flooding a later cluster leaves the numbers of the clusters before it alone. */
  lemma GrowthKeepsNumbers(s: Tables, t: Tables, r: Round, c: int, x: int)
    requires |s.settings| == |r.g.flag| && PortalTable(s, r) && Labelled(s, r)
    requires |t.settings| == |r.g.flag| && PortalTable(t, r) && Labelled(t, r)
    requires Grows(s, t, c) && 0 < x < c && c < |s.clusters| && Numbered(s, r, x)
    requires s.clusters[x].firstportal + s.clusters[x].numportals <= s.portalindexsize
    ensures Numbered(t, r, x)
  {
    hide Grows, Listing, Half;
    var order :| Numbers(s, r, x, order);
    assert SameListed(s, t, x) by { GrowthKeepsListed(s, t, c, x); }
    SameListing(s, t, x);
    forall k | 0 <= k < |order|
      ensures Member(t, r, x, order[k]) && ClusterAreaNum(t, x, order[k]) == k
      ensures Reachable(t.settings[order[k]]) == Reachable(s.settings[order[k]])
    {
      assert Member(s, r, x, order[k]) && ClusterAreaNum(s, x, order[k]) == k;
      GrowthKeepsMember(s, t, r, c, x, order[k]);
    }
    forall a | Member(t, r, x, a)
      ensures a in order
    {
      GrowthKeepsMember(s, t, r, c, x, a);
    }
    assert t.clusters[x] == s.clusters[x] by { OlderClusterStays(s, t, c, x); }
    assert Numbers(t, r, x, order);
  }

  lemma OlderClusterStays(s: Tables, t: Tables, c: int, x: int)
    requires Grows(s, t, c) && 0 < x < c < |s.clusters|
    ensures |t.clusters| == |s.clusters| && t.clusters[x] == s.clusters[x]
  {
  }

  // ----- the four passes

  /** Partway through numbering cluster c, which began in state s: these members have numbers. */
  ghost predicate Counting(s: Tables, t: Tables, r: Round, c: int, order: seq<int>) {
    && |s.settings| == |r.g.flag| && PortalTable(s, r) && Labelled(s, r) && c > 0
    && Renumbers(s, t, c)
    && t.clusters[c].numareas == |order|
    && (forall k :: 0 <= k < |order| ==> Member(s, r, c, order[k]))
    && (forall k :: 0 <= k < |order| ==> NumberIn(s, t, r, c, order[k]) == k)
  }

  /** The number that state t holds for a member of cluster c in state s. */
  ghost function NumberIn(s: Tables, t: Tables, r: Round, c: int, a: int): int
    requires |s.settings| == |r.g.flag| && PortalTable(s, r)
    requires |t.settings| == |s.settings| && |t.portals| == |s.portals|
    requires 0 <= a < |s.settings|
  {
    if !r.g.flag[a] || a == 0 then t.settings[a].clusterareanum
    else if s.portals[r.portalnum[a]].frontcluster == c then t.portals[r.portalnum[a]].frontareanum
    else t.portals[r.portalnum[a]].backareanum
  }

  function Counted(x: Cluster, reachable: bool): Cluster {
    x.(numareas := x.numareas + 1,
       numreachabilityareas := if reachable then x.numreachabilityareas + 1 else x.numreachabilityareas)
  }

  function NumberArea(t: Tables, c: int, a: int, reachable: bool): Tables
    requires 0 <= a < |t.settings| && 0 <= c < |t.clusters|
  {
    t.(settings := t.settings[a := t.settings[a].(clusterareanum := t.clusters[c].numareas)],
       clusters := t.clusters[c := Counted(t.clusters[c], reachable)])
  }

  function NumberPortal(t: Tables, c: int, p: int, reachable: bool): Tables
    requires 0 <= p < |t.portals| && 0 <= c < |t.clusters|
  {
    var q := t.portals[p];
    t.(portals := t.portals[p :=
         if q.frontcluster == c then q.(frontareanum := t.clusters[c].numareas)
         else q.(backareanum := t.clusters[c].numareas)],
       clusters := t.clusters[c := Counted(t.clusters[c], reachable)])
  }

  lemma NumberAreaCounts(s: Tables, t: Tables, r: Round, c: int, order: seq<int>, a: int, reachable: bool)
    requires Counting(s, t, r, c, order)
    requires Plain(r.g, a) && s.settings[a].cluster == c && a !in order
    ensures Counting(s, NumberArea(t, c, a, reachable), r, c, order + [a])
  {
    var u := NumberArea(t, c, a, reachable);
    forall k | 0 <= k < |order|
      ensures NumberIn(s, u, r, c, order[k]) == k
    {
      assert order[k] != a;
      assert NumberIn(s, t, r, c, order[k]) == k;
    }
  }

  lemma NumberPortalCounts(s: Tables, t: Tables, r: Round, c: int, order: seq<int>, p: int, reachable: bool)
    requires Counting(s, t, r, c, order)
    requires 1 <= p < s.numportals && Joins(s.portals[p], c) && s.portals[p].areanum !in order
    ensures Counting(s, NumberPortal(t, c, p, reachable), r, c, order + [s.portals[p].areanum])
  {
    var u := NumberPortal(t, c, p, reachable);
    assert PortalRenumbered(s.portals[p], t.portals[p], c);
    forall q | 0 <= q < |s.portals|
      ensures PortalRenumbered(s.portals[q], u.portals[q], c)
    {
      assert PortalRenumbered(s.portals[q], t.portals[q], c);
    }
    forall k | 0 <= k < |order|
      ensures NumberIn(s, u, r, c, order[k]) == k
    {
      assert Member(s, r, c, order[k]);
      assert order[k] != s.portals[p].areanum;
      assert NumberIn(s, t, r, c, order[k]) == k;
    }
  }

  /** The areas of cluster c below n whose reachability is as asked have been added to the order. */
  ghost predicate AreasAdded(s: Tables, r: Round, c: int, reachable: bool, n: int,
                             before: seq<int>, order: seq<int>)
    requires |s.settings| == |r.g.flag|
  {
    && before <= order
    && (forall k :: |before| <= k < |order| ==>
          && Plain(r.g, order[k]) && order[k] < n
          && s.settings[order[k]].cluster == c && Reachable(s.settings[order[k]]) == reachable)
    && (forall a ::
          Plain(r.g, a) && a < n && s.settings[a].cluster == c && Reachable(s.settings[a]) == reachable ==>
            a in order)
  }

  /** The portals in the first n places of segment c whose reachability is as asked have been added. */
  ghost predicate PortalsAdded(s: Tables, r: Round, c: int, reachable: bool, n: int,
                               before: seq<int>, order: seq<int>)
    requires |s.settings| == |r.g.flag| && PortalTable(s, r)
    requires 0 <= c < |s.clusters| && SegmentLists(s, c)
  {
    && 0 <= n <= |Segment(s, c)|
    && before <= order
    && (forall k :: |before| <= k < |order| ==>
          && PortalArea(r.g, order[k])
          && r.portalnum[order[k]] in Segment(s, c)[..n] && Reachable(s.settings[order[k]]) == reachable)
    && (forall a ::
          PortalArea(r.g, a) && r.portalnum[a] in Segment(s, c)[..n] && Reachable(s.settings[a]) == reachable ==>
            a in order)
  }

  /** What the next turn of an area pass does to the order. */
  lemma NextArea(s: Tables, t: Tables, r: Round, c: int, reachable: bool, i: int,
                 before: seq<int>, order: seq<int>)
    requires Counting(s, t, r, c, order) && AreasAdded(s, r, c, reachable, i, before, order)
    requires 0 < i < |s.settings|
    requires forall a :: a in before && Plain(r.g, a) ==> Reachable(s.settings[a]) != reachable
    ensures t.settings[i].cluster == s.settings[i].cluster && Reachable(t.settings[i]) == Reachable(s.settings[i])
    ensures s.settings[i].cluster == c && Reachable(s.settings[i]) == reachable ==>
      && Counting(s, NumberArea(t, c, i, reachable), r, c, order + [i])
      && AreasAdded(s, r, c, reachable, i + 1, before, order + [i])
    ensures !(s.settings[i].cluster == c && Reachable(s.settings[i]) == reachable) ==>
      AreasAdded(s, r, c, reachable, i + 1, before, order)
  {
    if s.settings[i].cluster == c && Reachable(s.settings[i]) == reachable {
      assert i !in order;
      NumberAreaCounts(s, t, r, c, order, i, reachable);
      var after := order + [i];
      assert after[|order|] == i;
      forall a | Plain(r.g, a) && a < i + 1 && s.settings[a].cluster == c && Reachable(s.settings[a]) == reachable
        ensures a in after
      {
        assert a == i || a in order;
      }
    }
  }

  /** The i-th portal of segment c, read in state t, is the one it was in state s. */
  ghost predicate PortalReads(s: Tables, t: Tables, c: int, i: int)
    requires 0 <= c < |s.clusters| && 1 <= s.numportals <= |s.portals| && SegmentLists(s, c)
  {
    && 0 <= i < |Segment(s, c)|
    && var p := Segment(s, c)[i];
       && 0 <= p < |t.portals| && 0 <= s.portals[p].areanum < |t.settings|
       && t.portals[p].areanum == s.portals[p].areanum
       && t.portals[p].frontcluster == s.portals[p].frontcluster
       && |t.clusters| == |s.clusters| && t.clusters[c].firstportal == s.clusters[c].firstportal
       && t.portalindex == s.portalindex
  }

  lemma CountingReads(s: Tables, t: Tables, r: Round, c: int, order: seq<int>)
    requires Counting(s, t, r, c, order)
    ensures |s.settings| == |r.g.flag| && PortalTable(s, r) && 1 <= s.numportals <= |s.portals|
    ensures 0 <= c < |s.clusters| == |t.clusters|
    ensures SegmentLists(s, c) ==> t.clusters[c].numportals == |Segment(s, c)|
  {
  }

  lemma CountingSizes(s: Tables, t: Tables, r: Round, c: int, order: seq<int>)
    requires Counting(s, t, r, c, order)
    ensures |s.settings| == |r.g.flag| == |t.settings| && 0 <= c < |s.clusters| == |t.clusters|
  {
  }

  lemma NoAreasAdded(s: Tables, r: Round, c: int, reachable: bool, before: seq<int>)
    requires |s.settings| == |r.g.flag|
    ensures AreasAdded(s, r, c, reachable, 1, before, before)
  {
  }

  lemma NoPortalsAdded(s: Tables, r: Round, c: int, reachable: bool, before: seq<int>)
    requires |s.settings| == |r.g.flag| && PortalTable(s, r)
    requires 0 <= c < |s.clusters| && SegmentLists(s, c)
    ensures PortalsAdded(s, r, c, reachable, 0, before, before)
  {
  }

  lemma PortalReadsSame(s: Tables, t: Tables, r: Round, c: int, i: int, order: seq<int>)
    requires Counting(s, t, r, c, order) && SegmentLists(s, c) && 0 <= i < |Segment(s, c)|
    ensures PortalReads(s, t, c, i) && |t.settings| == |s.settings|
    ensures Reachable(t.settings[s.portals[Segment(s, c)[i]].areanum])
      == Reachable(s.settings[s.portals[Segment(s, c)[i]].areanum])
  {
    assert PortalRenumbered(s.portals[Segment(s, c)[i]], t.portals[Segment(s, c)[i]], c);
  }

  /** The order after the next turn of a portal pass. */
  ghost function NextOrder(s: Tables, c: int, reachable: bool, i: int, order: seq<int>): seq<int>
    requires 0 <= c < |s.clusters| && 1 <= s.numportals <= |s.portals| && SegmentLists(s, c)
    requires 0 <= i < |Segment(s, c)| && 0 <= s.portals[Segment(s, c)[i]].areanum < |s.settings|
  {
    var a := s.portals[Segment(s, c)[i]].areanum;
    if Reachable(s.settings[a]) == reachable then order + [a] else order
  }

  lemma NextPortalAdds(s: Tables, r: Round, c: int, reachable: bool, i: int, before: seq<int>, order: seq<int>)
    requires |s.settings| == |r.g.flag| && PortalTable(s, r)
    requires 0 <= c < |s.clusters| && SegmentLists(s, c)
    requires PortalsAdded(s, r, c, reachable, i, before, order) && i < |Segment(s, c)|
    requires forall a :: a in before && PortalArea(r.g, a) ==> Reachable(s.settings[a]) != reachable
    ensures var a := s.portals[Segment(s, c)[i]].areanum;
      && PortalsAdded(s, r, c, reachable, i + 1, before, NextOrder(s, c, reachable, i, order))
      && (Reachable(s.settings[a]) == reachable ==> a !in order)
  {
    var segment := Segment(s, c);
    var p := segment[i];
    var a := s.portals[p].areanum;
    assert segment[..i + 1] == segment[..i] + [p];
    assert p !in segment[..i];
    if Reachable(s.settings[a]) == reachable {
      var after := order + [a];
      assert after[|order|] == a;
      forall b | PortalArea(r.g, b) && r.portalnum[b] in segment[..i + 1] && Reachable(s.settings[b]) == reachable
        ensures b in after
      {
        assert b == a || b in order;
      }
    }
  }

  /** What the next turn of a portal pass does to the order. */
  lemma NextPortal(s: Tables, t: Tables, r: Round, c: int, reachable: bool, i: int,
                   before: seq<int>, order: seq<int>)
    requires Counting(s, t, r, c, order) && SegmentLists(s, c)
    requires PortalsAdded(s, r, c, reachable, i, before, order) && i < |Segment(s, c)|
    requires forall a :: a in before && PortalArea(r.g, a) ==> Reachable(s.settings[a]) != reachable
    ensures var p := Segment(s, c)[i]; var a := s.portals[p].areanum;
      && 0 <= p < |t.portals|
      && PortalsAdded(s, r, c, reachable, i + 1, before, NextOrder(s, c, reachable, i, order))
      && (Reachable(s.settings[a]) == reachable ==>
            Counting(s, NumberPortal(t, c, p, reachable), r, c, order + [a]))
  {
    NextPortalAdds(s, r, c, reachable, i, before, order);
    var p := Segment(s, c)[i];
    if Reachable(s.settings[s.portals[p].areanum]) == reachable {
      NumberPortalCounts(s, t, r, c, order, p, reachable);
    }
  }

  method PutAreaNumber(w: AasWorld, c: int, a: int, reachable: bool)
    requires 0 <= a < w.areasettings.Length && 0 <= c < w.clusters.Length
    modifies w.areasettings, w.clusters
    ensures Snapshot(w) == NumberArea(old(Snapshot(w)), c, a, reachable)
  {
    w.areasettings[a] := w.areasettings[a].(clusterareanum := w.clusters[c].numareas);
    w.clusters[c] := Counted(w.clusters[c], reachable);
  }

  method PutPortalNumber(w: AasWorld, c: int, p: int, reachable: bool)
    requires 0 <= p < w.portals.Length && 0 <= c < w.clusters.Length
    modifies w.portals, w.clusters
    ensures Snapshot(w) == NumberPortal(old(Snapshot(w)), c, p, reachable)
  {
    var portal := w.portals[p];
    if portal.frontcluster == c {
      w.portals[p] := portal.(frontareanum := w.clusters[c].numareas);
    } else {
      w.portals[p] := portal.(backareanum := w.clusters[c].numareas);
    }
    w.clusters[c] := Counted(w.clusters[c], reachable);
  }

  lemma AreasWithStart(settings: seq<AreaSettings>, c: int, linked: bool)
    requires |settings| >= 1
    ensures AreasWith(settings, c, linked, 1) == []
  {
  }

  lemma AreasWithNext(settings: seq<AreaSettings>, c: int, linked: bool, n: int)
    requires 1 <= n < |settings|
    ensures AreasWith(settings, c, linked, n + 1)
      == AreasWith(settings, c, linked, n) +
         if settings[n].cluster == c && Reachable(settings[n]) == linked then [n] else []
  {
  }

  lemma PortalsWithNext(s: Tables, segment: seq<int>, linked: bool, n: nat)
    requires n < |segment| && 0 <= segment[n] < |s.portals| && 0 <= s.portals[segment[n]].areanum < |s.settings|
    ensures PortalsWith(s, segment, linked, n + 1)
      == PortalsWith(s, segment, linked, n) +
         var a := s.portals[segment[n]].areanum;
         if Reachable(s.settings[a]) == linked then [a] else []
  {
  }

  lemma PortalsWithStart(s: Tables, segment: seq<int>, linked: bool)
    ensures PortalsWith(s, segment, linked, 0) == []
  {
  }

  /** One pass over the areas of cluster c, with or without reachabilities. */
  method NumberAreas(w: AasWorld, c: int, reachable: bool, ghost s: Tables, ghost r: Round, ghost before: seq<int>)
    returns (ghost order: seq<int>)
    requires Counting(s, Snapshot(w), r, c, before) && w.areasettings.Length > 0
    requires forall a :: a in before && Plain(r.g, a) ==> Reachable(s.settings[a]) != reachable
    modifies w.areasettings, w.clusters
    ensures Counting(s, Snapshot(w), r, c, order)
    ensures AreasAdded(s, r, c, reachable, w.areasettings.Length, before, order)
    ensures w.areasettings.Length == |s.settings| && order == before + AreasWith(s.settings, c, reachable, |s.settings|)
    ensures w.clusters[c].numreachabilityareas ==
      old(w.clusters[c].numreachabilityareas) + if reachable then |order| - |before| else 0
  {
    hide AreasAdded, PortalTable, AreasWith, Counting, Labelled;
    assert |s.settings| == |r.g.flag| == w.areasettings.Length && 0 <= c < w.clusters.Length by {
      CountingSizes(s, Snapshot(w), r, c, before);
    }
    order := before;
    assert AreasWith(s.settings, c, reachable, 1) == [] by { AreasWithStart(s.settings, c, reachable); }
    assert AreasAdded(s, r, c, reachable, 1, before, order) by { NoAreasAdded(s, r, c, reachable, before); }
    var i := 1;
    while i < w.areasettings.Length
      invariant 1 <= i <= w.areasettings.Length
      invariant Counting(s, Snapshot(w), r, c, order)
      invariant AreasAdded(s, r, c, reachable, i, before, order)
      invariant order == before + AreasWith(s.settings, c, reachable, i)
      invariant w.clusters[c].numreachabilityareas ==
        old(w.clusters[c].numreachabilityareas) + if reachable then |order| - |before| else 0
    {
      ghost var t := Snapshot(w);
      NextArea(s, t, r, c, reachable, i, before, order);
      AreasWithNext(s.settings, c, reachable, i);
      if w.areasettings[i].cluster == c && Reachable(w.areasettings[i]) == reachable {
        PutAreaNumber(w, c, i, reachable);
        order := order + [i];
      }
      i := i + 1;
    }
  }

  /** One pass over the portals of cluster c, with or without reachabilities. */
  method NumberPortals(w: AasWorld, c: int, reachable: bool, ghost s: Tables, ghost r: Round, ghost before: seq<int>)
    returns (ghost order: seq<int>)
    requires Counting(s, Snapshot(w), r, c, before) && SegmentLists(s, c)
    requires forall a :: a in before && PortalArea(r.g, a) ==> Reachable(s.settings[a]) != reachable
    modifies w.portals, w.clusters
    ensures Counting(s, Snapshot(w), r, c, order)
    ensures PortalsAdded(s, r, c, reachable, |Segment(s, c)|, before, order)
    ensures order == before + PortalsWith(s, Segment(s, c), reachable, |Segment(s, c)|)
    ensures w.clusters[c].numreachabilityareas ==
      old(w.clusters[c].numreachabilityareas) + if reachable then |order| - |before| else 0
  {
    hide PortalsAdded, PortalTable, Labelled, Counting, PortalsWith;
    assert |s.settings| == |r.g.flag| && PortalTable(s, r) && 1 <= s.numportals <= |s.portals|
      && 0 <= c < |s.clusters| == w.clusters.Length && w.clusters[c].numportals == |Segment(s, c)| by {
      CountingReads(s, Snapshot(w), r, c, before);
    }
    order := before;
    PortalsWithStart(s, Segment(s, c), reachable);
    assert PortalsAdded(s, r, c, reachable, 0, before, order) by { NoPortalsAdded(s, r, c, reachable, before); }
    var i := 0;
    while i < w.clusters[c].numportals
      invariant 0 <= i <= |Segment(s, c)|
      invariant Counting(s, Snapshot(w), r, c, order)
      invariant w.clusters[c].numportals == |Segment(s, c)|
      invariant PortalsAdded(s, r, c, reachable, i, before, order)
      invariant order == before + PortalsWith(s, Segment(s, c), reachable, i)
      invariant w.clusters[c].numreachabilityareas ==
        old(w.clusters[c].numreachabilityareas) + if reachable then |order| - |before| else 0
    {
      ghost var t := Snapshot(w);
      PortalReadsSame(s, t, r, c, i, order);
      PortalsWithNext(s, Segment(s, c), reachable, i);
      var p := w.portalindex[w.clusters[c].firstportal + i];
      var portal := w.portals[p];
      ghost var next := NextOrder(s, c, reachable, i, order);
      if Reachable(w.areasettings[portal.areanum]) == reachable {
        PutPortalNumber(w, c, p, reachable);
      }
      assert PortalsAdded(s, r, c, reachable, i + 1, before, next) && Counting(s, Snapshot(w), r, c, next) by {
        NextPortal(s, t, r, c, reachable, i, before, order);
      }
      order := next;
      i := i + 1;
    }
  }

  /** After the four passes the order lists every member, those with reachabilities first. */
  lemma PassesListMembers(s: Tables, r: Round, c: int, o1: seq<int>, o2: seq<int>, o3: seq<int>, o4: seq<int>)
    requires |s.settings| == |r.g.flag| && PortalTable(s, r)
    requires 0 <= c < |s.clusters| && SegmentLists(s, c)
    requires AreasAdded(s, r, c, true, |s.settings|, [], o1)
    requires PortalsAdded(s, r, c, true, |Segment(s, c)|, o1, o2)
    requires AreasAdded(s, r, c, false, |s.settings|, o2, o3)
    requires PortalsAdded(s, r, c, false, |Segment(s, c)|, o3, o4)
    ensures forall a :: Member(s, r, c, a) ==> a in o4
    ensures |o2| <= |o4| && forall k :: 0 <= k < |o4| ==> (k < |o2| <==> Reachable(s.settings[o4[k]]))
  {
    var segment := Segment(s, c);
    assert segment[..|segment|] == segment;
    forall a | Member(s, r, c, a)
      ensures a in o4
    {
      if Plain(r.g, a) {
        assert a in o1 || a in o3;
      } else {
        assert r.portalnum[a] in segment;
        assert a in o2 || a in o4;
      }
    }
    forall k | 0 <= k < |o4|
      ensures k < |o2| <==> Reachable(s.settings[o4[k]])
    {
      if k < |o1| {
        assert o4[k] == o1[k];
      } else if k < |o2| {
        assert o4[k] == o2[k];
      } else if k < |o3| {
        assert o4[k] == o3[k];
      }
    }
  }

  lemma AreasAddedKind(s: Tables, r: Round, c: int, reachable: bool, before: seq<int>, order: seq<int>)
    requires |s.settings| == |r.g.flag| && AreasAdded(s, r, c, reachable, |s.settings|, before, order)
    requires forall a :: a in before && 0 <= a < |s.settings| ==> Reachable(s.settings[a])
    ensures forall a :: a in order && PortalArea(r.g, a) ==> a in before && Reachable(s.settings[a])
    ensures reachable ==> forall a :: a in order && 0 <= a < |s.settings| ==> Reachable(s.settings[a])
  {
  }

  lemma PortalsAddedKind(s: Tables, r: Round, c: int, reachable: bool, before: seq<int>, order: seq<int>)
    requires |s.settings| == |r.g.flag| && PortalTable(s, r)
    requires 0 <= c < |s.clusters| && SegmentLists(s, c)
    requires PortalsAdded(s, r, c, reachable, |Segment(s, c)|, before, order)
    requires reachable && forall a :: a in before && 0 <= a < |s.settings| ==> Reachable(s.settings[a])
    ensures forall a :: a in order && 0 <= a < |s.settings| ==> Reachable(s.settings[a])
  {
  }

  /** A complete count is a numbering. */
  lemma CountingEnds(s: Tables, t: Tables, r: Round, c: int, order: seq<int>)
    requires Counting(s, t, r, c, order) && SegmentInTable(s, c) && order == Listing(s, c)
    requires forall a :: Member(s, r, c, a) ==> a in order
    requires t.clusters[c].numreachabilityareas == |Half(s, c, true)| <= |order|
    requires forall k :: 0 <= k < |order| ==>
      (k < t.clusters[c].numreachabilityareas <==> Reachable(s.settings[order[k]]))
    ensures Renumbered(s, t, r, c)
  {
    hide Listing, Half;
    RenumberingKeepsTables(s, t, r, c);
    RenumberingKeepsListed(s, t, c, c);
    SameListing(s, t, c);
    forall k | 0 <= k < |order|
      ensures ClusterAreaNum(t, c, order[k]) == k
      ensures Reachable(t.settings[order[k]]) == Reachable(s.settings[order[k]])
    {
      assert Member(s, r, c, order[k]) && NumberIn(s, t, r, c, order[k]) == k;
      if PortalArea(r.g, order[k]) {
        assert PortalRenumbered(s.portals[r.portalnum[order[k]]], t.portals[r.portalnum[order[k]]], c);
      }
    }
    assert Numbers(t, r, c, order);
  }

  /** The outcome of numbering cluster c, which began in state s. */
  ghost predicate Renumbered(s: Tables, t: Tables, r: Round, c: int) {
    && Renumbers(s, t, c)
    && |t.settings| == |r.g.flag| && PortalTable(t, r) && Labelled(t, r)
    && 0 < c < |t.clusters| && Numbered(t, r, c)
  }

  /** What numbering cluster c relies on. */
  ghost predicate Numberable(s: Tables, r: Round, c: int) {
    && |s.settings| == |r.g.flag| > 0 && PortalTable(s, r) && Labelled(s, r)
    && 0 < c < |s.clusters| && SegmentLists(s, c)
  }

  /** Numbers the areas and portals of cluster c. */
  method NumberClusterAreas(w: AasWorld, c: int, ghost r: Round)
    requires Numberable(Snapshot(w), r, c)
    modifies w.areasettings, w.portals, w.clusters
    ensures Renumbered(old(Snapshot(w)), Snapshot(w), r, c)
  {
    hide PortalTable, Labelled, SegmentLists, Renumbers, Member, Numbered, Counting, AreasAdded, PortalsAdded;
    hide AreasWith, PortalsWith, Half, Listing;
    ghost var s := Snapshot(w);
    w.clusters[c] := w.clusters[c].(numareas := 0, numreachabilityareas := 0);
    assert Counting(s, Snapshot(w), r, c, []) by { CountingStarts(s, Snapshot(w), r, c); }
    ghost var o1 := NumberAreas(w, c, true, s, r, []);
    AreasAddedKind(s, r, c, true, [], o1);
    ghost var o2 := NumberPortals(w, c, true, s, r, o1);
    PortalsAddedKind(s, r, c, true, o1, o2);
    ghost var o3 := NumberAreas(w, c, false, s, r, o2);
    AreasAddedKind(s, r, c, false, o2, o3);
    ghost var o4 := NumberPortals(w, c, false, s, r, o3);
    PassesListMembers(s, r, c, o1, o2, o3, o4);
    assert SegmentInTable(s, c) && o4 == Listing(s, c) && o2 == Half(s, c, true) by {
      NumberableReads(s, r, c);
      PassesMakeListing(s, c, o1, o2, o3, o4);
    }
    ghost var t := Snapshot(w);
    assert Renumbered(s, t, r, c) by {
      CountingEnds(s, t, r, c, o4);
    }
  }

  lemma NumberableReads(s: Tables, r: Round, c: int)
    requires Numberable(s, r, c)
    ensures 1 <= s.numportals <= |s.portals| && 0 <= c < |s.clusters| && SegmentLists(s, c)
  {
  }

  lemma CountingStarts(s: Tables, t: Tables, r: Round, c: int)
    requires Numberable(s, r, c)
    requires t == s.(clusters := s.clusters[c := s.clusters[c].(numareas := 0, numreachabilityareas := 0)])
    ensures Counting(s, t, r, c, [])
  {
  }

  lemma PassesMakeListing(s: Tables, c: int, o1: seq<int>, o2: seq<int>, o3: seq<int>, o4: seq<int>)
    requires 1 <= s.numportals <= |s.portals| && 0 <= c < |s.clusters| && SegmentLists(s, c)
    requires o1 == AreasWith(s.settings, c, true, |s.settings|)
    requires o2 == o1 + PortalsWith(s, Segment(s, c), true, |Segment(s, c)|)
    requires o3 == o2 + AreasWith(s.settings, c, false, |s.settings|)
    requires o4 == o3 + PortalsWith(s, Segment(s, c), false, |Segment(s, c)|)
    ensures SegmentInTable(s, c) && o4 == Listing(s, c) && o2 == Half(s, c, true)
  {
    hide AreasWith, PortalsWith;
  }
}
