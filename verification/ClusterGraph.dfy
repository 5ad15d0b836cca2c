/** The directed graph that clustering works on: areas joined by reachabilities,
    some of them flagged as cluster portals. Area 0 is a dummy. */
module ClusterGraph {

  datatype Graph = Graph(links: seq<seq<int>>, flag: seq<bool>)

  ghost predicate WellFormed(g: Graph) {
    && |g.links| == |g.flag|
    && |g.flag| > 0
    && forall a, b :: 0 <= a < |g.links| && b in g.links[a] ==> 0 <= b < |g.links|
  }

  /** A real area that is not a portal. */
  predicate Plain(g: Graph, a: int) {
    0 < a < |g.flag| && !g.flag[a]
  }

  /** A real area that is flagged as a portal. */
  predicate PortalArea(g: Graph, a: int) {
    0 < a < |g.flag| && g.flag[a]
  }

  /** Two plain areas with a reachability between them in either direction. */
  ghost predicate Linked(g: Graph, a: int, b: int)
    requires WellFormed(g)
  {
    Plain(g, a) && Plain(g, b) && (b in g.links[a] || a in g.links[b])
  }

  ghost predicate Path(g: Graph, p: seq<int>)
    requires WellFormed(g)
  {
    && |p| > 0
    && Plain(g, p[0])
    && forall i :: 0 <= i < |p| - 1 ==> Linked(g, p[i], p[i + 1])
  }

  /** Joined by an undirected path of reachabilities through plain areas. */
  ghost predicate Connected(g: Graph, a: int, b: int)
    requires WellFormed(g)
  {
    exists p :: Path(g, p) && p[0] == a && p[|p| - 1] == b
  }

  /** A plain area with a reachability into area d. */
  ghost predicate Feeds(g: Graph, a: int, d: int)
    requires WellFormed(g)
  {
    Plain(g, a) && d in g.links[a]
  }

  /** An area that has a reachability, or that some plain area has a reachability into. */
  ghost predicate HasLink(g: Graph, a: int)
    requires WellFormed(g) && Plain(g, a)
  {
    |g.links[a]| > 0 || exists b :: Feeds(g, b, a)
  }

  /** Areas a and b feed d from two separate components, and no third component feeds d. */
  ghost predicate SeparatedBy(g: Graph, d: int, a: int, b: int)
    requires WellFormed(g)
  {
    && Feeds(g, a, d)
    && Feeds(g, b, d)
    && !Connected(g, a, b)
    && forall x :: Feeds(g, x, d) ==> Connected(g, x, a) || Connected(g, x, b)
  }

  /** Area d is entered from exactly two components of plain areas. */
  ghost predicate SeparatesTwo(g: Graph, d: int)
    requires WellFormed(g)
  {
    exists a, b :: SeparatedBy(g, d, a, b)
  }

  lemma ConnectedSelf(g: Graph, a: int)
    requires WellFormed(g) && Plain(g, a)
    ensures Connected(g, a, a)
  {
    var p := [a];
    assert Path(g, p) && p[0] == a && p[|p| - 1] == a;
  }

  lemma ConnectedLink(g: Graph, a: int, b: int)
    requires WellFormed(g) && Linked(g, a, b)
    ensures Connected(g, a, b)
  {
    var p := [a, b];
    assert Path(g, p) && p[0] == a && p[|p| - 1] == b;
  }

  lemma ConnectedTransitive(g: Graph, a: int, b: int, c: int)
    requires WellFormed(g) && Connected(g, a, b) && Connected(g, b, c)
    ensures Connected(g, a, c)
  {
    var p :| Path(g, p) && p[0] == a && p[|p| - 1] == b;
    var q :| Path(g, q) && q[0] == b && q[|q| - 1] == c;
    var r := p + q[1..];
    forall i | 0 <= i < |r| - 1
      ensures Linked(g, r[i], r[i + 1])
    {
      if i >= |p| - 1 {
        assert r[i] == q[i - (|p| - 1)] && r[i + 1] == q[i + 1 - (|p| - 1)];
      }
    }
    assert Path(g, r) && r[0] == a && r[|r| - 1] == c;
  }

  lemma ConnectedSymmetric(g: Graph, a: int, b: int)
    requires WellFormed(g) && Connected(g, a, b)
    ensures Connected(g, b, a)
  {
    var p :| Path(g, p) && p[0] == a && p[|p| - 1] == b;
    var r := seq(|p|, i requires 0 <= i < |p| => p[|p| - 1 - i]);
    forall i | 0 <= i < |r| - 1
      ensures Linked(g, r[i], r[i + 1])
    {
      assert Linked(g, p[|p| - 2 - i], p[|p| - 2 - i + 1]);
    }
    if |p| > 1 {
      assert Linked(g, p[|p| - 2], p[|p| - 2 + 1]);
    }
    assert Path(g, r) && r[0] == b && r[|r| - 1] == a;
  }

  /** A set of plain areas that no link leaves holds the whole component of each of its members. */
  lemma {:induction false} ClosedSetHoldsPath(g: Graph, s: iset<int>, p: seq<int>, i: nat)
    requires WellFormed(g) && Path(g, p) && i < |p|
    requires p[0] in s
    requires forall a, b :: a in s && Linked(g, a, b) ==> b in s
    ensures p[i] in s
  {
    if i > 0 {
      ClosedSetHoldsPath(g, s, p, i - 1);
      assert Linked(g, p[i - 1], p[i - 1 + 1]);
    }
  }

  lemma ClosedSetHoldsComponent(g: Graph, s: iset<int>, a: int, b: int)
    requires WellFormed(g) && Connected(g, a, b)
    requires a in s
    requires forall x, y :: x in s && Linked(g, x, y) ==> y in s
    ensures b in s
  {
    var p :| Path(g, p) && p[0] == a && p[|p| - 1] == b;
    ClosedSetHoldsPath(g, s, p, |p| - 1);
  }

  /** An area fed from three separate components does not separate two. */
  lemma ThreeComponentsAreTooMany(g: Graph, d: int, a: int, b: int, c: int)
    requires WellFormed(g) && Feeds(g, a, d) && Feeds(g, b, d) && Feeds(g, c, d)
    requires !Connected(g, a, b) && !Connected(g, a, c) && !Connected(g, b, c)
    ensures !SeparatesTwo(g, d)
  {
    forall u, v
      ensures !SeparatedBy(g, d, u, v)
    {
      forall x, y, z | !Connected(g, x, y)
        ensures !(Connected(g, x, z) && Connected(g, y, z))
      {
        if Connected(g, x, z) && Connected(g, y, z) {
          ConnectedSymmetric(g, y, z);
          ConnectedTransitive(g, x, z, y);
        }
      }
    }
  }
}
