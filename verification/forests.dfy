/** Forests given as edge lists: how many connected components they leave,
    and when they span their vertices. Kruskal's construction in
    initGraphMin and algoKruskal stops after n - 1 edges; these lemmas say
    what that count means. A component is counted by its least vertex. */
module Forests {
  import opened Paths

  /** Two connections that meet chain up. */
  lemma ConnectedTrans(g: Graph, x: int, y: int, z: int)
    requires Connected(g, x, y) && Connected(g, y, z)
    ensures Connected(g, x, z)
  {
    var p :| IsUPath(g, p) && p[0] == x && p[|p| - 1] == y;
    var q :| IsUPath(g, q) && q[0] == y && q[|q| - 1] == z;
    var r := p + q[1..];
    forall k | 0 <= k < |r| - 1
      ensures UEdge(g, r[k], r[k + 1])
    {
      if k + 1 < |p| {
        assert r[k] == p[k] && r[k + 1] == p[k + 1];
      } else {
        var j := k - |p| + 1;
        assert r[k] == q[j] && r[k + 1] == q[j + 1];
      }
    }
    assert r[|r| - 1] == z;
    assert IsUPath(g, r);
  }

  lemma UEdgeConnected(g: Graph, x: int, y: int)
    requires UEdge(g, x, y)
    ensures Connected(g, x, y)
  {
    assert IsUPath(g, [x, y]);
  }

  /** The undirected edges of the graph grown by e: the old ones and e. */
  lemma UEdgeSnoc(n: nat, es: seq<ArcPair>, e: ArcPair, x: int, y: int)
    requires PairsIn(es, n) && 0 <= e.0 < n && 0 <= e.1 < n && PairsIn(es + [e], n)
    requires UEdge(EdgeGraph(n, es + [e]), x, y)
    ensures UEdge(EdgeGraph(n, es), x, y) || (x == e.0 && y == e.1) || (x == e.1 && y == e.0)
  {
    EdgeGraphSnoc(n, es, e);
  }

  /** u reaches v in g, or through the extra edge (a, b) taken either way. */
  ghost predicate Joined(g: Graph, u: int, v: int, a: int, b: int) {
    || Connected(g, u, v)
    || (Connected(g, u, a) && Connected(g, b, v))
    || (Connected(g, u, b) && Connected(g, a, v))
  }

  lemma JoinedStep(g: Graph, u: int, x: int, y: int, a: int, b: int)
    requires Joined(g, u, x, a, b)
    requires UEdge(g, x, y) || (x == a && y == b) || (x == b && y == a)
    ensures Joined(g, u, y, a, b)
  {
    if UEdge(g, x, y) {
      UEdgeConnected(g, x, y);
      if Connected(g, u, x) {
        ConnectedTrans(g, u, x, y);
      } else if Connected(g, u, a) && Connected(g, b, x) {
        ConnectedTrans(g, b, x, y);
      } else {
        ConnectedTrans(g, a, x, y);
      }
    } else if x == a && y == b {
      ConnectedRefl(g, b);
    } else {
      ConnectedRefl(g, a);
    }
  }

  /** A connection in the graph grown by the edge e either exists already
      or goes through e. */
  lemma ConnectedSplit(n: nat, es: seq<ArcPair>, e: ArcPair, u: int, v: int)
    requires PairsIn(es, n) && 0 <= e.0 < n && 0 <= e.1 < n && PairsIn(es + [e], n)
    requires Connected(EdgeGraph(n, es + [e]), u, v)
    ensures Joined(EdgeGraph(n, es), u, v, e.0, e.1)
  {
    var g, g' := EdgeGraph(n, es), EdgeGraph(n, es + [e]);
    var p :| IsUPath(g', p) && p[0] == u && p[|p| - 1] == v;
    ConnectedRefl(g, u);
    var k := 0;
    while k < |p| - 1
      invariant 0 <= k < |p| && Joined(g, u, p[k], e.0, e.1)
    {
      assert UEdge(g', p[k], p[k + 1]);
      UEdgeSnoc(n, es, e, p[k], p[k + 1]);
      JoinedStep(g, u, p[k], p[k + 1], e.0, e.1);
      k := k + 1;
    }
  }

  /** r is the least vertex of its component. */
  ghost predicate IsRoot(g: Graph, r: int) {
    forall u :: 0 <= u < r ==> !Connected(g, u, r)
  }

  /** The least vertex of each component: as many as there are components. */
  ghost function Roots(g: Graph): set<int> {
    set r | r in Below(|g|) && IsRoot(g, r)
  }

  /** Every vertex has a least vertex in its component. */
  lemma HasRoot(g: Graph, v: int) returns (r: int)
    requires 0 <= v < |g|
    ensures 0 <= r <= v && IsRoot(g, r) && Connected(g, r, v)
  {
    ConnectedRefl(g, v);
    r := 0;
    while !Connected(g, r, v)
      invariant 0 <= r <= v
      invariant forall u :: 0 <= u < r ==> !Connected(g, u, v)
      decreases v - r
    {
      r := r + 1;
    }
    forall u | 0 <= u < r
      ensures !Connected(g, u, r)
    {
      if Connected(g, u, r) {
        ConnectedTrans(g, u, r, v);
      }
    }
  }

  /** A component has one least vertex. */
  lemma RootUnique(g: Graph, r1: int, r2: int)
    requires 0 <= r1 && 0 <= r2 && IsRoot(g, r1) && IsRoot(g, r2) && Connected(g, r1, r2)
    ensures r1 == r2
  {
    if r2 < r1 {
      ConnectedSymmetric(g, r1, r2);
    }
  }

  /** The vertices 0 .. n - 1. */
  function Below(n: nat): (s: set<int>)
    ensures |s| == n && forall r :: r in s <==> 0 <= r < n
  {
    if n == 0 then {} else Below(n - 1) + {n - 1}
  }

  /** With no edges, a vertex is connected to itself only. */
  lemma EmptyConnected(n: nat, u: int, v: int)
    requires Connected(EmptyGraph(n), u, v)
    ensures u == v
  {
    var g := EmptyGraph(n);
    var p :| IsUPath(g, p) && p[0] == u && p[|p| - 1] == v;
    assert |p| > 1 ==> UEdge(g, p[0], p[1]);
  }

  /** The edgeless graph on n vertices has n components. */
  lemma RootsEmpty(n: nat)
    ensures |Roots(EmptyGraph(n))| == n
  {
    var g := EmptyGraph(n);
    forall r | 0 <= r < n
      ensures IsRoot(g, r)
    {
      forall u | 0 <= u < r
        ensures !Connected(g, u, r)
      {
        if Connected(g, u, r) {
          EmptyConnected(n, u, r);
        }
      }
    }
    assert Roots(g) == Below(n);
  }

  /** A vertex r of neither component of a and b keeps its standing when
      the edge (a, b) is added. */
  lemma RootAway(n: nat, es: seq<ArcPair>, e: ArcPair, r: int)
    requires PairsIn(es, n) && 0 <= e.0 < n && 0 <= e.1 < n && PairsIn(es + [e], n)
    requires !Connected(EdgeGraph(n, es), r, e.0) && !Connected(EdgeGraph(n, es), r, e.1)
    ensures IsRoot(EdgeGraph(n, es + [e]), r) <==> IsRoot(EdgeGraph(n, es), r)
  {
    var g, g' := EdgeGraph(n, es), EdgeGraph(n, es + [e]);
    forall u | 0 <= u < r && Connected(g, u, r)
      ensures Connected(g', u, r)
    {
      ConnectedGrow(n, es, e, u, r);
    }
    forall u | 0 <= u < r && Connected(g', u, r)
      ensures Connected(g, u, r)
    {
      ConnectedSplit(n, es, e, u, r);
      if Connected(g, e.1, r) {
        ConnectedSymmetric(g, e.1, r);
      }
      if Connected(g, e.0, r) {
        ConnectedSymmetric(g, e.0, r);
      }
    }
  }

  /** For a vertex r of x's component, where the edge joins x to y, two
      vertices of separate components with least vertices rx and ry: r is
      the least vertex of its component before exactly when it is rx, and
      after exactly when it is rx and rx < ry. */
  lemma RootSide(n: nat, es: seq<ArcPair>, e: ArcPair, x: int, y: int, rx: int, ry: int, r: int)
    requires PairsIn(es, n) && 0 <= e.0 < n && 0 <= e.1 < n && PairsIn(es + [e], n)
    requires (x == e.0 && y == e.1) || (x == e.1 && y == e.0)
    requires !Connected(EdgeGraph(n, es), x, y)
    requires 0 <= rx && IsRoot(EdgeGraph(n, es), rx) && Connected(EdgeGraph(n, es), rx, x)
    requires 0 <= ry && IsRoot(EdgeGraph(n, es), ry) && Connected(EdgeGraph(n, es), ry, y)
    requires 0 <= r && Connected(EdgeGraph(n, es), r, x)
    ensures rx != ry
    ensures IsRoot(EdgeGraph(n, es), r) <==> r == rx
    ensures IsRoot(EdgeGraph(n, es + [e]), r) <==> r == rx && rx < ry
  {
    var g, g' := EdgeGraph(n, es), EdgeGraph(n, es + [e]);
    ConnectedSymmetric(g, rx, x);
    ConnectedSymmetric(g, ry, y);
    ConnectedTrans(g, r, x, rx);
    if rx == ry {
      ConnectedTrans(g, x, rx, y);
    }
    if IsRoot(g, r) {
      RootUnique(g, r, rx);
    }
    // A vertex that is not least in its component before is not after.
    forall u | 0 <= u < r && Connected(g, u, r)
      ensures Connected(g', u, r)
    {
      ConnectedGrow(n, es, e, u, r);
    }
    // After, ry reaches rx through the new edge.
    ConnectedByEdge(n, es, e);
    ConnectedSymmetric(g', e.0, e.1);
    ConnectedGrow(n, es, e, ry, y);
    ConnectedGrow(n, es, e, x, rx);
    ConnectedTrans(g', ry, y, x);
    ConnectedTrans(g', ry, x, rx);
    // Whatever reaches rx after reaches rx or ry before.
    if rx < ry {
      forall u | 0 <= u < rx
        ensures !Connected(g', u, rx)
      {
        if Connected(g', u, rx) {
          ConnectedSplit(n, es, e, u, rx);
          if Connected(g, u, x) {
            ConnectedTrans(g, u, x, rx);
          }
          if Connected(g, u, y) {
            ConnectedTrans(g, u, y, ry);
          }
        }
      }
    }
  }

  /** The standing of one vertex r when the edge e joins the components
      of least vertices ra and rb: r is least after exactly when it was
      before and is not the larger of ra and rb. */
  lemma RootStep(n: nat, es: seq<ArcPair>, e: ArcPair, ra: int, rb: int, r: int)
    requires PairsIn(es, n) && 0 <= e.0 < n && 0 <= e.1 < n && PairsIn(es + [e], n)
    requires !Connected(EdgeGraph(n, es), e.0, e.1)
    requires 0 <= ra && IsRoot(EdgeGraph(n, es), ra) && Connected(EdgeGraph(n, es), ra, e.0)
    requires 0 <= rb && IsRoot(EdgeGraph(n, es), rb) && Connected(EdgeGraph(n, es), rb, e.1)
    requires 0 <= r
    ensures IsRoot(EdgeGraph(n, es + [e]), r) <==> IsRoot(EdgeGraph(n, es), r) && r != (if ra < rb then rb else ra)
  {
    var g := EdgeGraph(n, es);
    if Connected(g, r, e.0) {
      RootSide(n, es, e, e.0, e.1, ra, rb, r);
    } else if Connected(g, r, e.1) {
      if Connected(g, e.1, e.0) {
        ConnectedSymmetric(g, e.1, e.0);
      }
      RootSide(n, es, e, e.1, e.0, rb, ra, r);
    } else {
      RootAway(n, es, e, r);
      if r == ra {
        ConnectedRefl(g, ra);
      }
      if r == rb {
        ConnectedRefl(g, rb);
      }
    }
  }

  /** Adding an edge between two components merges them: one component
      fewer, the larger of their two least vertices stops being least. */
  lemma RootsSnoc(n: nat, es: seq<ArcPair>, e: ArcPair)
    requires PairsIn(es, n) && 0 <= e.0 < n && 0 <= e.1 < n && PairsIn(es + [e], n)
    requires !Connected(EdgeGraph(n, es), e.0, e.1)
    ensures |Roots(EdgeGraph(n, es + [e]))| == |Roots(EdgeGraph(n, es))| - 1
  {
    var g, g' := EdgeGraph(n, es), EdgeGraph(n, es + [e]);
    var ra := HasRoot(g, e.0);
    var rb := HasRoot(g, e.1);
    var m := if ra < rb then rb else ra;
    forall r | 0 <= r < n
      ensures IsRoot(g', r) <==> IsRoot(g, r) && r != m
    {
      RootStep(n, es, e, ra, rb, r);
    }
    RootSide(n, es, e, e.0, e.1, ra, rb, ra);
    assert Roots(g) == Roots(g') + {m};
  }

  lemma SplitLast(es: seq<ArcPair>)
    requires es != []
    ensures es == es[..|es| - 1] + [es[|es| - 1]]
  {
  }

  /** Dropping the last edge of a forest leaves a forest, which does not
      connect the ends of that edge. */
  lemma ForestFront(n: nat, es: seq<ArcPair>)
    requires PairsIn(es, n) && Forest(n, es) && es != []
    ensures var front, e := es[..|es| - 1], es[|es| - 1];
      && PairsIn(front, n) && 0 <= e.0 < n && 0 <= e.1 < n
      && Forest(n, front) && !Connected(EdgeGraph(n, front), e.0, e.1)
  {
    var front := es[..|es| - 1];
    forall t | 0 <= t < |front|
      ensures !Connected(EdgeGraph(n, front[..t]), front[t].0, front[t].1)
    {
      assert front[..t] == es[..t];
    }
  }

  /** A forest of k edges on n vertices leaves n - k components. */
  lemma {:induction false} ForestRoots(n: nat, es: seq<ArcPair>)
    requires PairsIn(es, n) && Forest(n, es)
    ensures |Roots(EdgeGraph(n, es))| == n - |es|
  {
    if es == [] {
      RootsEmpty(n);
    } else {
      var front, e := es[..|es| - 1], es[|es| - 1];
      ForestFront(n, es);
      SplitLast(es);
      ForestRoots(n, front);
      RootsSnoc(n, front, e);
    }
  }

  /** Every two vertices of g are connected. */
  ghost predicate Spanning(g: Graph) {
    forall u, v :: 0 <= u < |g| && 0 <= v < |g| ==> Connected(g, u, v)
  }

  /** A forest on n >= 1 vertices has at most n - 1 edges, and it connects
      all n vertices exactly when it has n - 1. */
  lemma ForestSpanning(n: nat, es: seq<ArcPair>)
    requires n >= 1 && PairsIn(es, n) && Forest(n, es)
    ensures |es| <= n - 1
    ensures Spanning(EdgeGraph(n, es)) <==> |es| == n - 1
  {
    var g := EdgeGraph(n, es);
    ForestRoots(n, es);
    assert 0 in Roots(g);
    if Spanning(g) {
      forall r | r in Roots(g)
        ensures r == 0
      {
        assert r > 0 ==> Connected(g, 0, r);
      }
      assert Roots(g) == {0};
    }
    if |es| == n - 1 {
      assert Roots(g) == {0} by {
        var rest := Roots(g) - {0};
        assert Roots(g) == rest + {0};
      }
      forall u, v | 0 <= u < n && 0 <= v < n
        ensures Connected(g, u, v)
      {
        var ru := HasRoot(g, u);
        var rv := HasRoot(g, v);
        assert ru in Roots(g) && rv in Roots(g);
        ConnectedSymmetric(g, ru, u);
        ConnectedTrans(g, u, ru, v);
      }
    }
  }

  /** Every edge of the graph comes from an edge of the list. */
  lemma {:induction false} EdgeGraphEdge(n: nat, es: seq<ArcPair>, x: int, y: int)
    requires PairsIn(es, n) && Edge(EdgeGraph(n, es), x, y)
    ensures exists t :: 0 <= t < |es| && es[t] == (x, y)
  {
    if es != [] {
      var front, e := es[..|es| - 1], es[|es| - 1];
      assert es == front + [e];
      EdgeGraphSnoc(n, front, e);
      if (x, y) == e {
        assert es[|es| - 1] == (x, y);
      } else {
        EdgeGraphEdge(n, front, x, y);
        var t :| 0 <= t < |front| && front[t] == (x, y);
        assert es[t] == (x, y);
      }
    }
  }

  /** When es connects the two ends of every edge of cover, es connects
      every pair that cover connects. */
  lemma CoverConnected(n: nat, es: seq<ArcPair>, cover: seq<ArcPair>, u: int, v: int)
    requires PairsIn(es, n) && PairsIn(cover, n)
    requires forall t :: 0 <= t < |cover| ==> Connected(EdgeGraph(n, es), cover[t].0, cover[t].1)
    requires Connected(EdgeGraph(n, cover), u, v)
    ensures Connected(EdgeGraph(n, es), u, v)
  {
    var g, h := EdgeGraph(n, es), EdgeGraph(n, cover);
    var p :| IsUPath(h, p) && p[0] == u && p[|p| - 1] == v;
    ConnectedRefl(g, u);
    var k := 0;
    while k < |p| - 1
      invariant 0 <= k < |p| && Connected(g, u, p[k])
    {
      var x, y := p[k], p[k + 1];
      assert UEdge(h, x, y);
      if Edge(h, x, y) {
        EdgeGraphEdge(n, cover, x, y);
        var t :| 0 <= t < |cover| && cover[t] == (x, y);
        assert Connected(g, cover[t].0, cover[t].1);
      } else {
        EdgeGraphEdge(n, cover, y, x);
        var t :| 0 <= t < |cover| && cover[t] == (y, x);
        assert Connected(g, cover[t].0, cover[t].1);
        ConnectedSymmetric(g, y, x);
      }
      ConnectedTrans(g, u, x, y);
      k := k + 1;
    }
  }
}
