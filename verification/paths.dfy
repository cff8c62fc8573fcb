/** Successor-list graphs, paths, reachability and undirected connectivity.
    These are the mathematical notions against which the breadth-first
    explorations, the symmetric closures and Kruskal's construction are
    specified. */
module Paths {

  /** A graph on the vertices 0 .. |g|-1: g[u] lists the successors of u,
      in list order (repetitions allowed). */
  type Graph = seq<seq<int>>

  /** An arc (tail, head). */
  type ArcPair = (int, int)

  /** Every successor named in the lists is a vertex of the graph. */
  ghost predicate WellFormed(g: Graph) {
    forall u, k :: 0 <= u < |g| && 0 <= k < |g[u]| ==> 0 <= g[u][k] < |g|
  }

  ghost predicate Edge(g: Graph, u: int, w: int) {
    0 <= u < |g| && w in g[u]
  }

  /** An edge when arc directions are ignored. */
  ghost predicate UEdge(g: Graph, u: int, w: int) {
    Edge(g, u, w) || Edge(g, w, u)
  }

  ghost predicate IsPath(g: Graph, p: seq<int>) {
    |p| > 0 && forall k :: 0 <= k < |p| - 1 ==> Edge(g, p[k], p[k + 1])
  }

  ghost predicate IsUPath(g: Graph, p: seq<int>) {
    |p| > 0 && forall k :: 0 <= k < |p| - 1 ==> UEdge(g, p[k], p[k + 1])
  }

  /** y can be reached from x by following arcs. */
  ghost predicate Reachable(g: Graph, x: int, y: int) {
    exists p :: IsPath(g, p) && p[0] == x && p[|p| - 1] == y
  }

  /** x and y are connected when arc directions are ignored. */
  ghost predicate Connected(g: Graph, x: int, y: int) {
    exists p :: IsUPath(g, p) && p[0] == x && p[|p| - 1] == y
  }

  /** Every marked vertex has all its successors marked. */
  ghost predicate Closed(g: Graph, z: seq<bool>) {
    |z| == |g| &&
    forall u, k :: 0 <= u < |g| && 0 <= k < |g[u]| && z[u] && 0 <= g[u][k] < |g| ==> z[g[u][k]]
  }

  /** Every marked vertex outside pend has all its successors marked: the
      state of a breadth-first exploration whose pending vertices are pend. */
  ghost predicate ClosedExcept(g: Graph, z: seq<bool>, pend: seq<int>) {
    |z| == |g| &&
    forall u, k :: 0 <= u < |g| && 0 <= k < |g[u]| && z[u] && u !in pend && 0 <= g[u][k] < |g| ==> z[g[u][k]]
  }

  /** Every vertex of s is a marked vertex of z. */
  ghost predicate AllMarked(z: seq<bool>, s: seq<int>) {
    forall v :: v in s ==> 0 <= v < |z| && z[v]
  }

  lemma ClosedExceptMono(g: Graph, z: seq<bool>, pend: seq<int>, pend': seq<int>)
    requires ClosedExcept(g, z, pend) && forall v :: v in pend ==> v in pend'
    ensures ClosedExcept(g, z, pend')
  {
  }

  /** With nothing pending, the marking is closed. */
  lemma ClosedExceptDone(g: Graph, z: seq<bool>)
    requires ClosedExcept(g, z, [])
    ensures Closed(g, z)
  {
  }

  /** Every vertex marked in z is reachable from x. */
  ghost predicate MarkedReachable(g: Graph, x: int, z: seq<bool>) {
    forall v :: 0 <= v < |z| && z[v] ==> Reachable(g, x, v)
  }

  /** The state of a breadth-first exploration from x: x is marked, every
      marked vertex is reachable from x, the pending vertices are marked, and
      every other marked vertex has all its successors marked. */
  ghost predicate Frontier(g: Graph, x: int, z: seq<bool>, pend: seq<int>) {
    && |z| == |g| && 0 <= x < |g| && z[x]
    && MarkedReachable(g, x, z) && ClosedExcept(g, z, pend) && AllMarked(z, pend)
  }

  /** Marking an unmarked successor w of a pending vertex y, and making it
      pending, keeps the exploration state and counts one more mark. */
  lemma FrontierMark(g: Graph, x: int, z: seq<bool>, pend: seq<int>, pend': seq<int>, y: int, w: int)
    requires Frontier(g, x, z, pend) && y in pend && Edge(g, y, w) && 0 <= w < |g| && !z[w]
    requires forall v :: v in pend' <==> v in pend || v == w
    ensures Frontier(g, x, z[w := true], pend')
    ensures CountTrue(z[w := true]) == CountTrue(z) + 1 && CountTrue(z) < |z|
  {
    var i :| 0 <= i < |pend| && pend[i] == y;
    ReachableStep(g, x, y, w);
    CountTrueMark(z, w);
    CountTrueLess(z, w);
  }

  /** A pending vertex whose successors are all marked stops being pending. */
  lemma FrontierDone(g: Graph, x: int, z: seq<bool>, pend: seq<int>, pend': seq<int>, y: int)
    requires Frontier(g, x, z, pend) && 0 <= y < |g|
    requires forall k :: 0 <= k < |g[y]| ==> 0 <= g[y][k] < |z| && z[g[y][k]]
    requires forall v :: v in pend ==> v in pend' || v == y
    requires forall v :: v in pend' ==> v in pend
    ensures Frontier(g, x, z, pend')
  {
  }

  /** Only which vertices are pending matters, not their order. */
  lemma FrontierSame(g: Graph, x: int, z: seq<bool>, pend: seq<int>, pend': seq<int>)
    requires Frontier(g, x, z, pend)
    requires forall v :: v in pend' <==> v in pend
    ensures Frontier(g, x, z, pend')
  {
  }

  /** The exploration starts with x alone marked and pending. */
  lemma FrontierStart(g: Graph, x: int, z: seq<bool>)
    requires |z| == |g| && 0 <= x < |g|
    requires forall v :: 0 <= v < |z| ==> (z[v] <==> v == x)
    ensures Frontier(g, x, z, [x]) && CountTrue(z) >= 1
  {
    ReachableRefl(g, x);
    CountTrueMark(z[x := false], x);
    assert z == z[x := false][x := true];
  }

  /** The exploration is over once nothing is pending or every vertex is
      marked: the marked vertices are then exactly those reachable from x. */
  lemma FrontierFinal(g: Graph, x: int, z: seq<bool>, pend: seq<int>)
    requires WellFormed(g) && Frontier(g, x, z, pend)
    requires pend == [] || CountTrue(z) >= |z|
    ensures forall y :: 0 <= y < |z| ==> (z[y] <==> Reachable(g, x, y))
  {
    if pend == [] {
      ClosedExceptDone(g, z);
      forall y | 0 <= y < |z| && Reachable(g, x, y)
        ensures z[y]
      {
        ClosedContainsReachable(g, z, x, y);
      }
    } else {
      CountTrueAll(z);
    }
  }


  /** g2 has exactly the arcs of g1 in both directions. */
  ghost predicate IsSymClosure(g2: Graph, g1: Graph) {
    |g2| == |g1| && forall u, w :: Edge(g2, u, w) <==> UEdge(g1, u, w)
  }

  lemma ReachableRefl(g: Graph, x: int)
    ensures Reachable(g, x, x)
  {
    assert IsPath(g, [x]);
  }

  lemma ReachableStep(g: Graph, x: int, y: int, z: int)
    requires Reachable(g, x, y) && Edge(g, y, z)
    ensures Reachable(g, x, z)
  {
    var p :| IsPath(g, p) && p[0] == x && p[|p| - 1] == y;
    var q := p + [z];
    forall k | 0 <= k < |q| - 1
      ensures Edge(g, q[k], q[k + 1])
    {
      if k + 1 < |p| {
        assert q[k] == p[k] && q[k + 1] == p[k + 1];
      } else {
        assert q[k] == y && q[k + 1] == z;
      }
    }
    assert IsPath(g, q);
  }

  /** A closed marking that contains x contains every vertex reachable from x:
      this is why a breadth-first exploration that runs out of work is complete. */
  lemma {:induction false} ClosedContainsReachable(g: Graph, z: seq<bool>, x: int, y: int)
    requires WellFormed(g) && Closed(g, z)
    requires 0 <= x < |g| && z[x]
    requires Reachable(g, x, y)
    ensures 0 <= y < |g| && z[y]
  {
    var p :| IsPath(g, p) && p[0] == x && p[|p| - 1] == y;
    var k := 0;
    while k < |p| - 1
      invariant 0 <= k < |p|
      invariant 0 <= p[k] < |g| && z[p[k]]
    {
      assert Edge(g, p[k], p[k + 1]);
      var i :| 0 <= i < |g[p[k]]| && g[p[k]][i] == p[k + 1];
      k := k + 1;
    }
  }

  /** Connectivity ignores direction: it is symmetric. */
  lemma {:induction false} ConnectedSymmetric(g: Graph, x: int, y: int)
    requires Connected(g, x, y)
    ensures Connected(g, y, x)
  {
    var p :| IsUPath(g, p) && p[0] == x && p[|p| - 1] == y;
    var q := seq(|p|, k requires 0 <= k < |p| => p[|p| - 1 - k]);
    forall k | 0 <= k < |q| - 1
      ensures UEdge(g, q[k], q[k + 1])
    {
      var j := |p| - 2 - k;
      assert 0 <= j < |p| - 1 && q[k] == p[j + 1] && q[k + 1] == p[j];
      assert UEdge(g, p[j], p[j + 1]);
    }
    assert IsUPath(g, q);
  }

  lemma ConnectedRefl(g: Graph, x: int)
    ensures Connected(g, x, x)
  {
    assert IsUPath(g, [x]);
  }

  /** Reachability in a symmetric closure is undirected connectivity in the
      original graph. */
  lemma SymClosureReachable(g2: Graph, g1: Graph, x: int, y: int)
    requires IsSymClosure(g2, g1)
    ensures Reachable(g2, x, y) <==> Connected(g1, x, y)
  {
    if Reachable(g2, x, y) {
      var p :| IsPath(g2, p) && p[0] == x && p[|p| - 1] == y;
      assert forall k :: 0 <= k < |p| - 1 ==> Edge(g2, p[k], p[k + 1]);
      assert IsUPath(g1, p);
    }
    if Connected(g1, x, y) {
      var p :| IsUPath(g1, p) && p[0] == x && p[|p| - 1] == y;
      assert forall k :: 0 <= k < |p| - 1 ==> UEdge(g1, p[k], p[k + 1]);
      assert IsPath(g2, p);
    }
  }

  // ---------------------------------------------------------------------
  // Counting marks

  function CountTrue(s: seq<bool>): (c: nat)
    ensures c <= |s|
  {
    if s == [] then 0 else CountTrue(s[..|s| - 1]) + (if s[|s| - 1] then 1 else 0)
  }

  /** Marking a fresh vertex raises the count by exactly one. */
  lemma {:induction false} CountTrueMark(s: seq<bool>, i: int)
    requires 0 <= i < |s| && !s[i]
    ensures CountTrue(s[i := true]) == CountTrue(s) + 1
  {
    var t := s[i := true];
    if i == |s| - 1 {
      assert t[..|t| - 1] == s[..|s| - 1];
    } else {
      assert t[..|t| - 1] == s[..|s| - 1][i := true];
      CountTrueMark(s[..|s| - 1], i);
    }
  }

  /** All marks set exactly when the count reaches the length. */
  lemma {:induction false} CountTrueFull(s: seq<bool>)
    ensures CountTrue(s) == |s| <==> forall k :: 0 <= k < |s| ==> s[k]
  {
    if s != [] {
      CountTrueFull(s[..|s| - 1]);
      assert forall k :: 0 <= k < |s| - 1 ==> s[..|s| - 1][k] == s[k];
    }
  }

  /** An unmarked entry keeps the count below the length. */
  lemma CountTrueLess(s: seq<bool>, i: int)
    requires 0 <= i < |s| && !s[i]
    ensures CountTrue(s) < |s|
  {
    CountTrueFull(s);
  }

  /** A count reaching the length means every entry is marked. */
  lemma CountTrueAll(s: seq<bool>)
    requires CountTrue(s) >= |s|
    ensures forall k :: 0 <= k < |s| ==> s[k]
  {
    CountTrueFull(s);
  }

  // ---------------------------------------------------------------------
  // Enumerating arcs and building symmetric closures

  /** The arcs (u, g[u][m]) for m < k, in list order. */
  function ArcsFrom(g: Graph, u: int, k: int): (r: seq<ArcPair>)
    requires 0 <= u < |g| && 0 <= k <= |g[u]|
    ensures |r| == k
    ensures forall m :: 0 <= m < k ==> r[m] == (u, g[u][m])
  {
    seq(k, m requires 0 <= m < k => (u, g[u][m]))
  }

  /** The arcs of the vertices below x, vertex by vertex and in list order:
      the order in which a loop "for each vertex, for each successor" meets them. */
  function ArcsBelow(g: Graph, x: int): seq<ArcPair>
    requires 0 <= x <= |g|
    decreases x
  {
    if x == 0 then [] else ArcsBelow(g, x - 1) + ArcsFrom(g, x - 1, |g[x - 1]|)
  }

  /** ArcsBelow lists exactly the arcs whose tail is below x. */
  lemma {:induction false} ArcsBelowMembers(g: Graph, x: int, u: int, w: int)
    requires 0 <= x <= |g|
    ensures (u, w) in ArcsBelow(g, x) <==> 0 <= u < x && w in g[u]
  {
    if x > 0 {
      ArcsBelowMembers(g, x - 1, u, w);
      var a := ArcsFrom(g, x - 1, |g[x - 1]|);
      assert (u, w) in a <==> u == x - 1 && w in g[x - 1] by {
        if (u, w) in a {
          var m :| 0 <= m < |a| && a[m] == (u, w);
        }
        if u == x - 1 && w in g[x - 1] {
          var m :| 0 <= m < |g[x - 1]| && g[x - 1][m] == w;
          assert a[m] == (u, w);
        }
      }
    }
  }

  /** Every enumerated arc stays inside a well-formed graph. */
  lemma {:induction false} ArcsBelowInRange(g: Graph, x: int)
    requires WellFormed(g) && 0 <= x <= |g|
    ensures PairsIn(ArcsBelow(g, x), |g|)
  {
    if x > 0 {
      ArcsBelowInRange(g, x - 1);
    }
  }

  /** The number of arcs below x. */
  function ArcCountBelow(g: Graph, x: int): nat
    requires 0 <= x <= |g|
  {
    if x == 0 then 0 else ArcCountBelow(g, x - 1) + |g[x - 1]|
  }

  /** Walking one more cell of u's list meets one more arc. */
  lemma ArcsFromSnoc(g: Graph, u: int, k: int)
    requires 0 <= u < |g| && 0 <= k < |g[u]|
    ensures ArcsFrom(g, u, k + 1) == ArcsFrom(g, u, k) + [(u, g[u][k])]
  {
  }

  /** The arcs met by "for each vertex, for each successor" before reaching
      the m-th successor of x. */
  function ArcsUpTo(g: Graph, x: int, m: int): (r: seq<ArcPair>)
    requires 0 <= x < |g| && 0 <= m <= |g[x]|
  {
    ArcsBelow(g, x) + ArcsFrom(g, x, m)
  }

  lemma ArcsUpToStart(g: Graph, x: int)
    requires 0 <= x < |g|
    ensures ArcsUpTo(g, x, 0) == ArcsBelow(g, x)
  {
  }

  lemma ArcsUpToEnd(g: Graph, x: int)
    requires 0 <= x < |g|
    ensures ArcsUpTo(g, x, |g[x]|) == ArcsBelow(g, x + 1)
  {
  }

  lemma ArcsUpToSnoc(g: Graph, x: int, m: int)
    requires 0 <= x < |g| && 0 <= m < |g[x]|
    ensures ArcsUpTo(g, x, m + 1) == ArcsUpTo(g, x, m) + [(x, g[x][m])]
  {
    ArcsFromSnoc(g, x, m);
  }

  /** The arcs met so far stay inside a well-formed graph and are counted by
      the vertices below x plus m. */
  lemma ArcsUpToFacts(g: Graph, x: int, m: int)
    requires WellFormed(g) && 0 <= x < |g| && 0 <= m <= |g[x]|
    ensures PairsIn(ArcsUpTo(g, x, m), |g|)
    ensures |ArcsUpTo(g, x, m)| == ArcCountBelow(g, x) + m <= ArcCountBelow(g, |g|)
  {
    ArcsBelowInRange(g, x);
    ArcsBelowLength(g, x);
    ArcCountBelowMono(g, x + 1, |g|);
  }

  lemma {:induction false} ArcCountBelowMono(g: Graph, x: int, y: int)
    requires 0 <= x <= y <= |g|
    ensures ArcCountBelow(g, x) <= ArcCountBelow(g, y)
  {
    if x < y {
      ArcCountBelowMono(g, x, y - 1);
    }
  }

  lemma {:induction false} ArcsBelowLength(g: Graph, x: int)
    requires 0 <= x <= |g|
    ensures |ArcsBelow(g, x)| == ArcCountBelow(g, x)
  {
    if x > 0 {
      ArcsBelowLength(g, x - 1);
    }
  }

  function EmptyGraph(n: nat): (g: Graph)
    ensures |g| == n && forall u :: 0 <= u < n ==> g[u] == []
  {
    seq(n, _ => [])
  }

  ghost predicate PairsIn(arcs: seq<ArcPair>, n: int) {
    forall t :: 0 <= t < |arcs| ==> 0 <= arcs[t].0 < n && 0 <= arcs[t].1 < n
  }

  /** Prepends x to the list of s, then s to the list of x: the two arcs a
      symmetric closure adds for the arc (x, s). */
  function AddBoth(h: Graph, x: int, s: int): (r: Graph)
    requires 0 <= x < |h| && 0 <= s < |h|
    ensures |r| == |h|
  {
    var h1 := h[s := [x] + h[s]];
    h1[x := [s] + h1[x]]
  }

  /** The graph h after AddBoth for every arc of the list, in order. */
  function SymAdd(h: Graph, arcs: seq<ArcPair>): (r: Graph)
    requires PairsIn(arcs, |h|)
    ensures |r| == |h|
    decreases |arcs|
  {
    if arcs == [] then h
    else
      var last := arcs[|arcs| - 1];
      AddBoth(SymAdd(h, arcs[..|arcs| - 1]), last.0, last.1)
  }

  lemma SymAddSnoc(h: Graph, arcs: seq<ArcPair>, a: ArcPair)
    requires PairsIn(arcs, |h|) && 0 <= a.0 < |h| && 0 <= a.1 < |h|
    ensures PairsIn(arcs + [a], |h|)
    ensures SymAdd(h, arcs + [a]) == AddBoth(SymAdd(h, arcs), a.0, a.1)
  {
    assert (arcs + [a])[..|arcs|] == arcs;
  }

  /** After SymAdd, u -> w is an arc exactly when it was one before or the
      list holds (u, w) or (w, u). */
  lemma {:induction false} SymAddEdges(h: Graph, arcs: seq<ArcPair>, u: int, w: int)
    requires PairsIn(arcs, |h|)
    ensures Edge(SymAdd(h, arcs), u, w) <==>
      Edge(h, u, w) || (u, w) in arcs || (w, u) in arcs
  {
    if arcs != [] {
      var front := arcs[..|arcs| - 1];
      var last := arcs[|arcs| - 1];
      assert arcs == front + [last];
      SymAddEdges(h, front, u, w);
      var g := SymAdd(h, front);
      var x, s := last.0, last.1;
      var h1 := g[s := [x] + g[s]];
      assert Edge(h1, u, w) <==> Edge(g, u, w) || (u == s && w == x);
      assert Edge(AddBoth(g, x, s), u, w) <==> Edge(h1, u, w) || (u == x && w == s);
    }
  }

  /** The symmetric closure of g built by one pass over its arcs. */
  lemma SymAddIsClosure(g: Graph)
    requires WellFormed(g)
    ensures PairsIn(ArcsBelow(g, |g|), |g|)
    ensures IsSymClosure(SymAdd(EmptyGraph(|g|), ArcsBelow(g, |g|)), g)
  {
    var arcs := ArcsBelow(g, |g|);
    ArcsBelowInRange(g, |g|);
    var h := SymAdd(EmptyGraph(|g|), arcs);
    forall u, w
      ensures Edge(h, u, w) <==> UEdge(g, u, w)
    {
      SymAddEdges(EmptyGraph(|g|), arcs, u, w);
      ArcsBelowMembers(g, |g|, u, w);
      ArcsBelowMembers(g, |g|, w, u);
    }
  }

  lemma SymAddWellFormed(h: Graph, arcs: seq<ArcPair>)
    requires WellFormed(h) && PairsIn(arcs, |h|)
    ensures WellFormed(SymAdd(h, arcs))
  {
    var r := SymAdd(h, arcs);
    forall u, k | 0 <= u < |r| && 0 <= k < |r[u]|
      ensures 0 <= r[u][k] < |r|
    {
      assert r[u][k] in r[u];
      SymAddEdges(h, arcs, u, r[u][k]);
      if (u, r[u][k]) in arcs {
        var t :| 0 <= t < |arcs| && arcs[t] == (u, r[u][k]);
      } else if (r[u][k], u) in arcs {
        var t :| 0 <= t < |arcs| && arcs[t] == (r[u][k], u);
      } else {
        var i :| 0 <= i < |h[u]| && h[u][i] == r[u][k];
      }
    }
  }

  // ---------------------------------------------------------------------
  // Edge lists as graphs, and forests

  /** The graph whose lists are built by prepending, edge after edge, the
      head of each (tail, head) pair to the list of its tail. */
  function EdgeGraph(n: nat, es: seq<ArcPair>): (r: Graph)
    requires PairsIn(es, n)
    ensures |r| == n
    decreases |es|
  {
    if es == [] then EmptyGraph(n)
    else
      var g := EdgeGraph(n, es[..|es| - 1]);
      var e := es[|es| - 1];
      g[e.0 := [e.1] + g[e.0]]
  }

  /** An edge list is a forest when every edge joins two vertices that the
      edges before it do not already connect: no edge closes a cycle. */
  ghost predicate Forest(n: nat, es: seq<ArcPair>)
    requires PairsIn(es, n)
  {
    forall t :: 0 <= t < |es| ==> !Connected(EdgeGraph(n, es[..t]), es[t].0, es[t].1)
  }

  lemma EdgeGraphSnoc(n: nat, es: seq<ArcPair>, e: ArcPair)
    requires PairsIn(es, n) && 0 <= e.0 < n && 0 <= e.1 < n
    ensures PairsIn(es + [e], n)
    ensures EdgeGraph(n, es + [e]) == EdgeGraph(n, es)[e.0 := [e.1] + EdgeGraph(n, es)[e.0]]
  {
    assert (es + [e])[..|es|] == es;
  }

  /** Growing a forest by an edge between unconnected vertices keeps it a forest. */
  lemma ForestSnoc(n: nat, es: seq<ArcPair>, e: ArcPair)
    requires PairsIn(es + [e], n)
    requires PairsIn(es, n) && Forest(n, es)
    requires !Connected(EdgeGraph(n, es), e.0, e.1)
    ensures Forest(n, es + [e])
  {
    var es' := es + [e];
    forall t | 0 <= t < |es'|
      ensures !Connected(EdgeGraph(n, es'[..t]), es'[t].0, es'[t].1)
    {
      if t < |es| {
        assert es'[..t] == es[..t];
      } else {
        assert es'[..t] == es;
      }
    }
  }

  lemma EdgeGraphWellFormed(n: nat, es: seq<ArcPair>)
    requires PairsIn(es, n)
    ensures WellFormed(EdgeGraph(n, es))
  {
    if es != [] {
      var front := es[..|es| - 1];
      EdgeGraphWellFormed(n, front);
    }
  }

  /** Adding an edge keeps every connection. */
  lemma ConnectedGrow(n: nat, es: seq<ArcPair>, e: ArcPair, a: int, b: int)
    requires PairsIn(es, n) && 0 <= e.0 < n && 0 <= e.1 < n
    requires Connected(EdgeGraph(n, es), a, b)
    ensures PairsIn(es + [e], n) && Connected(EdgeGraph(n, es + [e]), a, b)
  {
    EdgeGraphSnoc(n, es, e);
    var g, g' := EdgeGraph(n, es), EdgeGraph(n, es + [e]);
    var p :| IsUPath(g, p) && p[0] == a && p[|p| - 1] == b;
    forall k | 0 <= k < |p| - 1
      ensures UEdge(g', p[k], p[k + 1])
    {
      assert UEdge(g, p[k], p[k + 1]);
    }
    assert IsUPath(g', p);
  }

  /** The ends of the last edge added are connected. */
  lemma ConnectedByEdge(n: nat, es: seq<ArcPair>, e: ArcPair)
    requires PairsIn(es, n) && 0 <= e.0 < n && 0 <= e.1 < n
    ensures PairsIn(es + [e], n) && Connected(EdgeGraph(n, es + [e]), e.0, e.1)
  {
    EdgeGraphSnoc(n, es, e);
    var g' := EdgeGraph(n, es + [e]);
    assert Edge(g', e.0, e.1);
    assert IsUPath(g', [e.0, e.1]);
  }
}
