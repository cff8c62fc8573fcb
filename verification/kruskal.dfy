/** kruskal.c: breadth-first exploration, symmetric closure, connected
    components, sorting of the arcs by weight, and Kruskal's minimum
    spanning tree, all on the arena graph of graph_basic.c. */
module Kruskal {
  import opened Paths
  import opened Fifo
  import opened GraphBasic
  import opened QuickSort
  import opened Forests

  /** The body of the innermost loop of explorationLargeur, for a successor
      z of the vertex y being explored: an unmarked z is queued in D and
      marked; a marked one is left alone. */
  method Discover(Z: array<bool>, D: ListeFIFO, z: int,
                  ghost g: Graph, ghost x: int, ghost pendE: seq<int>, ghost y: int, ghost c0: int)
    requires Edge(g, y, z) && 0 <= z < |g|
    requires D.Valid() && D.capacite == |g| && 1 <= c0
    requires Frontier(g, x, Z[..], pendE + D.Contents + [y])
    requires |D.Contents| + c0 == CountTrue(Z[..])
    modifies Z, D, D.elements
    ensures D.Valid() && D.capacite == |g| && D.elements == old(D.elements)
    ensures Frontier(g, x, Z[..], pendE + D.Contents + [y])
    ensures |D.Contents| + c0 == CountTrue(Z[..])
    ensures Z[..] == old(Z[..])[z := true] && |D.Contents| >= old(|D.Contents|)
  {
    if !Z[z] {
      ghost var z0, d0 := Z[..], D.Contents;
      FrontierMark(g, x, z0, pendE + d0 + [y], pendE + (d0 + [z]) + [y], y, z);
      var ok := D.Insertion(z);
      // every queued vertex is marked, so the queue is never full here
      assert ok;
      Z[z] := true;
      assert Z[..] == z0[z := true];
    }
  }

  /** The state of the scan of y's successors after the first m of them:
      the exploration's frontier still lists y, the first m successors are
      marked, and every vertex queued in d was marked by this round. */
  ghost predicate Scanned(g: Graph, x: int, z: seq<bool>, d: seq<int>, pendE: seq<int>,
                          y: int, m: int, c0: int)
  {
    && WellFormed(g) && 0 <= y < |g| && 0 <= m <= |g[y]|
    && Frontier(g, x, z, pendE + d + [y])
    && (forall t :: 0 <= t < m ==> z[g[y][t]])
    && |d| + c0 == CountTrue(z)
  }

  /** One step of the inner loop of explorationLargeur: the successor held
      by cell p, the m-th of y's list, is discovered and p moves on. */
  method VisitStep(reserve: array<Cell>, p: int, Z: array<bool>, D: ListeFIFO, y: int,
                   ghost g: Graph, ghost head: int, ghost cells: seq<int>, ghost arcs: seq<Arc>,
                   ghost x: int, ghost pendE: seq<int>, ghost c0: int, ghost m: int)
    returns (p': int)
    requires Scanned(g, x, Z[..], D.Contents, pendE, y, m, c0)
    requires g[y] == Targets(arcs) && ListLayout(reserve[..], head, cells, arcs)
    requires 0 <= m < |cells| && p == cells[m]
    requires D.Valid() && D.capacite == |g| && 1 <= c0
    modifies Z, D, D.elements
    ensures D.Valid() && D.capacite == |g| && D.elements == old(D.elements)
    ensures Scanned(g, x, Z[..], D.Contents, pendE, y, m + 1, c0)
    ensures p' == if m + 1 < |cells| then cells[m + 1] else NIL
  {
    ChainAt(reserve[..], head, cells, m);
    var z := reserve[p].som;
    assert z == g[y][m] && Edge(g, y, z);
    Discover(Z, D, z, g, x, pendE, y, c0);
    p' := reserve[p].next;
  }

  /** The inner loop of explorationLargeur for one vertex y, whose list
      starts at cell head of reserve: every successor z of y, in list order,
      that is not marked yet is queued in D and marked. Afterwards all of
      y's successors are marked and y is no longer pending. */
  method Visit(reserve: array<Cell>, head: int, Z: array<bool>, D: ListeFIFO, y: int,
               ghost g: Graph, ghost cells: seq<int>, ghost arcs: seq<Arc>,
               ghost x: int, ghost pendE: seq<int>, ghost c0: int)
    requires WellFormed(g) && 0 <= y < |g| && g[y] == Targets(arcs)
    requires ListLayout(reserve[..], head, cells, arcs)
    requires D.Valid() && D.capacite == |g| && 1 <= c0
    requires Frontier(g, x, Z[..], pendE + D.Contents + [y])
    requires |D.Contents| + c0 == CountTrue(Z[..])
    modifies Z, D, D.elements
    ensures D.Valid() && D.capacite == |g| && D.elements == old(D.elements)
    ensures Frontier(g, x, Z[..], pendE + D.Contents)
    ensures |D.Contents| + c0 == CountTrue(Z[..])
  {
    var p := head;
    ghost var m := 0;
    while p != NIL
      invariant 0 <= m <= |cells| && p == if m < |cells| then cells[m] else NIL
      invariant D.Valid() && D.capacite == |g| && D.elements == old(D.elements)
      invariant Scanned(g, x, Z[..], D.Contents, pendE, y, m, c0)
      decreases |cells| - m
    {
      p := VisitStep(reserve, p, Z, D, y, g, head, cells, arcs, x, pendE, c0, m);
      m := m + 1;
    }
    FrontierDone(g, x, Z[..], pendE + D.Contents + [y], pendE + D.Contents, y);
  }

  /** The body of a round of explorationLargeur: the oldest vertex y of E
      is taken out and visited. */
  method Serve(reserve: array<Cell>, gamma: array<int>, E: ListeFIFO, D: ListeFIFO, Z: array<bool>,
               ghost g: Graph, ghost lists: seq<seq<int>>, ghost adjs: seq<seq<Arc>>,
               ghost x: int, ghost c0: int)
    requires WellFormed(g) && g == GraphOf(adjs) && Layout(reserve[..], gamma[..], lists, adjs)
    requires E != D && E.elements != D.elements && gamma != E.elements && gamma != D.elements
    requires E.Valid() && D.Valid() && E.capacite == |g| && D.capacite == |g|
    requires Frontier(g, x, Z[..], E.Contents + D.Contents)
    requires |D.Contents| + c0 == CountTrue(Z[..]) && 1 <= c0 && E.Contents != []
    modifies E, E.elements, D, D.elements, Z
    ensures E.Valid() && D.Valid() && E.capacite == |g| && D.capacite == |g|
    ensures E.elements == old(E.elements) && D.elements == old(D.elements)
    ensures Frontier(g, x, Z[..], E.Contents + D.Contents)
    ensures |D.Contents| + c0 == CountTrue(Z[..]) && |E.Contents| < old(|E.Contents|)
  {
    ghost var before := E.Contents + D.Contents;
    var y := E.SelectionSuppression();
    assert y == before[0] && y in before;
    FrontierSame(g, x, Z[..], before, E.Contents + D.Contents + [y]);
    Visit(reserve, gamma[y], Z, D, y, g, lists[y], adjs[y], x, E.Contents, c0);
  }

  /** One round of explorationLargeur: every vertex of E is taken out in
      turn and visited, its newly marked successors going to D. */
  method Round(reserve: array<Cell>, gamma: array<int>, E: ListeFIFO, D: ListeFIFO, Z: array<bool>,
               ghost g: Graph, ghost lists: seq<seq<int>>, ghost adjs: seq<seq<Arc>>, ghost x: int)
    requires WellFormed(g) && g == GraphOf(adjs) && Layout(reserve[..], gamma[..], lists, adjs)
    requires E != D && E.elements != D.elements && gamma != E.elements && gamma != D.elements
    requires E.Valid() && D.Valid() && E.capacite == |g| && D.capacite == |g|
    requires D.Contents == [] && Frontier(g, x, Z[..], E.Contents) && CountTrue(Z[..]) >= 1
    modifies E, E.elements, D, D.elements, Z
    ensures E.Valid() && D.Valid() && E.capacite == |g| && D.capacite == |g|
    ensures E.elements == old(E.elements) && D.elements == old(D.elements)
    ensures E.Contents == [] && Frontier(g, x, Z[..], D.Contents)
    ensures |D.Contents| + old(CountTrue(Z[..])) == CountTrue(Z[..])
    ensures old(E.Contents) == [] ==> D.Contents == []
  {
    ghost var c0 := CountTrue(Z[..]);
    assert E.Contents + D.Contents == E.Contents;
    while E.EstNonVide()
      invariant E.Valid() && D.Valid() && E.capacite == |g| && D.capacite == |g|
      invariant E.elements == old(E.elements) && D.elements == old(D.elements)
      invariant Frontier(g, x, Z[..], E.Contents + D.Contents)
      invariant |D.Contents| + c0 == CountTrue(Z[..])
      invariant old(E.Contents) == [] ==> D.Contents == []
      decreases |E.Contents|
    {
      Serve(reserve, gamma, E, D, Z, g, lists, adjs, x, c0);
    }
    assert E.Contents + D.Contents == D.Contents;
  }

  /** explorationLargeur on the lists of an arena (reserve, gamma) of
      nsom vertices: the vertices reachable from x. The exploration runs
      nsom - 1 rounds; in each round the vertices of E are taken out and
      their unmarked successors marked and queued in D, then E and D are
      exchanged. */
  method Explore(reserve: array<Cell>, gamma: array<int>, nsom: int, x: int,
                 ghost g: Graph, ghost lists: seq<seq<int>>, ghost adjs: seq<seq<Arc>>)
    returns (Z: array<bool>)
    requires WellFormed(g) && g == GraphOf(adjs) && Layout(reserve[..], gamma[..], lists, adjs)
    requires nsom == |g| && 0 <= x < nsom
    ensures fresh(Z) && Z.Length == nsom
    ensures forall y :: 0 <= y < nsom ==> (Z[y] <==> Reachable(g, x, y))
  {
    var E := new ListeFIFO(nsom);
    var ok := E.Insertion(x);
    Z := new bool[nsom](_ => false);
    Z[x] := true;
    var D := new ListeFIFO(nsom);
    FrontierStart(g, x, Z[..]);
    for k := 1 to nsom
      invariant fresh(E) && fresh(E.elements) && fresh(D) && fresh(D.elements)
      invariant E != D && E.elements != D.elements
      invariant E.Valid() && D.Valid() && E.capacite == nsom && D.capacite == nsom
      invariant D.Contents == [] && CountTrue(Z[..]) >= 1
      invariant Frontier(g, x, Z[..], E.Contents)
      invariant E.Contents == [] || CountTrue(Z[..]) >= k
    {
      Round(reserve, gamma, E, D, Z, g, lists, adjs, x);
      E, D := D, E;
    }
    FrontierFinal(g, x, Z[..], E.Contents);
  }

  /** explorationLargeur(G, x): marks exactly the vertices reachable from x. */
  method ExplorationLargeur(G: Graphe, x: int) returns (Z: array<bool>)
    requires G.Valid() && WellFormed(G.Graph()) && 0 <= x < G.nsom
    ensures fresh(Z) && Z.Length == G.nsom
    ensures forall y :: 0 <= y < G.nsom ==> (Z[y] <==> Reachable(G.Graph(), x, y))
  {
    G.LayoutOf();
    Z := Explore(G.reserve, G.gamma, G.nsom, x, G.Graph(), G.Lists, G.Adjs);
  }

  // -----------------------------------------------------------------------
  // fermetureSymEfficace and CC

  /** The arc triples of a closure: entries 2j and 2j + 1 of I/T/poids hold
      the j-th arc (x, s) met, reversed and then as is, both with weight w[j]. */
  ghost predicate Paired(I: seq<int>, T: seq<int>, P: seq<int>, arcs: seq<ArcPair>, w: seq<int>)
  {
    && 2 * |arcs| <= |I| && 2 * |arcs| <= |T| && 2 * |arcs| <= |P| && |arcs| <= |w|
    && forall j :: 0 <= j < |arcs| ==>
         && I[2 * j] == arcs[j].1 && T[2 * j] == arcs[j].0 && P[2 * j] == w[j]
         && I[2 * j + 1] == arcs[j].0 && T[2 * j + 1] == arcs[j].1 && P[2 * j + 1] == w[j]
  }

  lemma PairedSnoc(I: seq<int>, T: seq<int>, P: seq<int>, arcs: seq<ArcPair>, w: seq<int>,
                   x: int, s: int, i: int, c: int)
    requires Paired(I, T, P, arcs, w) && |arcs| < |w| && i == 2 * |arcs| && c == w[|arcs|]
    requires i + 2 <= |I| && i + 2 <= |T| && i + 2 <= |P|
    ensures Paired(I[i := s][i + 1 := x], T[i := x][i + 1 := s], P[i := c][i + 1 := c], arcs + [(x, s)], w)
  {
    var I', T', P', arcs' := I[i := s][i + 1 := x], T[i := x][i + 1 := s], P[i := c][i + 1 := c], arcs + [(x, s)];
    forall j | 0 <= j < |arcs'|
      ensures I'[2 * j] == arcs'[j].1 && T'[2 * j] == arcs'[j].0 && P'[2 * j] == w[j]
      ensures I'[2 * j + 1] == arcs'[j].0 && T'[2 * j + 1] == arcs'[j].1 && P'[2 * j + 1] == w[j]
    {
      if j < |arcs| {
        assert arcs'[j] == arcs[j];
      }
    }
  }

  /** The closure g1 of G under construction, once the arcs done of G have
      been met: g1 holds exactly their symmetric pairs, its triples record
      them with their weights wts, and two cells were taken per arc. */
  ghost predicate Building(g1: Graphe, G: Graph, done: seq<ArcPair>, wts: seq<int>)
    reads g1, g1.reserve, g1.gamma, g1.I, g1.T, g1.poids
  {
    && g1.Valid() && g1.nsom == |G| && PairsIn(done, |G|)
    && g1.Graph() == SymAdd(EmptyGraph(|G|), done)
    && Paired(g1.I[..], g1.T[..], g1.poids[..], done, wts)
    && |g1.Free| == g1.nmaxarc - 2 * |done| && g1.narc == 2 * |done|
  }

  /** The body of the inner loop of fermetureSymEfficace for the arc (x, s)
      met after the arcs done, with i = 2 |done|: the triples i and i + 1
      become (s, x) and (x, s) with the weight w of that arc, and the arcs
      s -> x and x -> s are added to g1. */
  method SymStep(g1: Graphe, x: int, s: int, w: int, i: int,
                 ghost G: Graph, ghost done: seq<ArcPair>, ghost wts: seq<int>)
    requires Building(g1, G, done, wts) && 0 <= x < |G| && 0 <= s < |G|
    requires i == 2 * |done| && i + 2 <= g1.nmaxarc && |done| < |wts| && w == wts[|done|]
    modifies g1, g1.reserve, g1.gamma, g1.I, g1.T, g1.poids
    ensures Building(g1, G, done + [(x, s)], wts)
  {
    PairedSnoc(g1.I[..], g1.T[..], g1.poids[..], done, wts, x, s, i, w);
    SymAddSnoc(EmptyGraph(|G|), done, (x, s));
    GraphOfPrepend(g1.Adjs, s, Arc(x, 0));
    GraphOfPrepend(g1.Adjs[s := [Arc(x, 0)] + g1.Adjs[s]], x, Arc(s, 0));
    SetPair(g1, x, s, w, i);
  }

  /** The writes of SymStep: triples i and i + 1 become (s, x, w) and
      (x, s, w), and the arcs s -> x then x -> s are added to g1. */
  method SetPair(g1: Graphe, x: int, s: int, w: int, i: int)
    requires g1.Valid() && 0 <= x < g1.nsom && 0 <= s < g1.nsom && 0 <= i && i + 2 <= g1.nmaxarc
    requires |g1.Free| >= 2
    modifies g1, g1.reserve, g1.gamma, g1.I, g1.T, g1.poids
    ensures g1.Valid()
    ensures g1.I[..] == old(g1.I[..])[i := s][i + 1 := x] && g1.T[..] == old(g1.T[..])[i := x][i + 1 := s]
    ensures g1.poids[..] == old(g1.poids[..])[i := w][i + 1 := w]
    ensures g1.Adjs == old(g1.Adjs)[s := [Arc(x, 0)] + old(g1.Adjs)[s]][x := [Arc(s, 0)] + old(g1.Adjs)[s := [Arc(x, 0)] + old(g1.Adjs)[s]][x]]
    ensures g1.narc == old(g1.narc) + 2 && g1.Free == old(g1.Free)[2..]
  {
    var ok := SetArc(g1, s, x, w, i);
    ok := SetArc(g1, x, s, w, i + 1);
  }

  /** Half of SymStep: triple k becomes (u, v, w), then the arc u -> v is
      added to g1. */
  method SetArc(g1: Graphe, u: int, v: int, w: int, k: int) returns (ok: bool)
    requires g1.Valid() && 0 <= u < g1.nsom && 0 <= k < g1.nmaxarc
    modifies g1, g1.reserve, g1.gamma, g1.I, g1.T, g1.poids
    ensures g1.Valid()
    ensures g1.I[..] == old(g1.I[..])[k := u] && g1.T[..] == old(g1.T[..])[k := v]
    ensures g1.poids[..] == old(g1.poids[..])[k := w]
    ensures ok <==> old(g1.Free) != []
    ensures ok ==> g1.Adjs == old(g1.Adjs)[u := [Arc(v, 0)] + old(g1.Adjs)[u]] && g1.narc == old(g1.narc) + 1
    ensures ok ==> g1.Free == old(g1.Free)[1..]
  {
    g1.I[k] := u;
    g1.T[k] := v;
    g1.poids[k] := w;
    ok := g1.AjouteArc(u, v);
  }

  /** One turn of the inner loop of fermetureSymEfficace: the m-th cell p
      of x's list in the source graph G holds the arc (x, s), the j-th arc
      met; it goes through SymStep with weight wts[j], and p moves on. */
  method SymCell(res: array<Cell>, p: int, wts: array<int>, g1: Graphe, x: int, j: int,
                 ghost G: Graph, ghost head: int, ghost cells: seq<int>, ghost adj: seq<Arc>,
                 ghost m: int)
    returns (p': int)
    requires WellFormed(G) && 0 <= x < |G| && G[x] == Targets(adj)
    requires ListLayout(res[..], head, cells, adj) && 0 <= m < |cells| && p == cells[m]
    requires res != g1.reserve && wts != g1.gamma && wts != g1.I && wts != g1.T && wts != g1.poids
    requires 2 * ArcCountBelow(G, |G|) <= g1.nmaxarc && ArcCountBelow(G, |G|) <= wts.Length
    requires Building(g1, G, ArcsUpTo(G, x, m), wts[..]) && j == |ArcsUpTo(G, x, m)|
    modifies g1, g1.reserve, g1.gamma, g1.I, g1.T, g1.poids
    ensures Building(g1, G, ArcsUpTo(G, x, m + 1), wts[..]) && j + 1 == |ArcsUpTo(G, x, m + 1)|
    ensures p' == if m + 1 < |cells| then cells[m + 1] else NIL
  {
    ChainAt(res[..], head, cells, m);
    var s := res[p].som;
    assert s == G[x][m];
    ArcsUpToFacts(G, x, m + 1);
    ArcsUpToSnoc(G, x, m);
    SymStep(g1, x, s, wts[j], 2 * j, G, ArcsUpTo(G, x, m), wts[..]);
    p' := res[p].next;
  }

  /** The inner loop of fermetureSymEfficace for vertex x, whose list in
      the source graph G starts at cell head of res: each arc (x, s), in
      list order, goes through SymStep, with the weight wts[j] of the j-th
      arc met. */
  method SymList(res: array<Cell>, head: int, wts: array<int>, g1: Graphe, x: int, i: int, j: int,
                 ghost G: Graph, ghost cells: seq<int>, ghost adj: seq<Arc>)
    returns (i': int, j': int)
    requires WellFormed(G) && 0 <= x < |G| && G[x] == Targets(adj)
    requires ListLayout(res[..], head, cells, adj)
    requires res != g1.reserve && wts != g1.gamma && wts != g1.I && wts != g1.T && wts != g1.poids
    requires 2 * ArcCountBelow(G, |G|) <= g1.nmaxarc && ArcCountBelow(G, |G|) <= wts.Length
    requires Building(g1, G, ArcsBelow(G, x), wts[..]) && j == |ArcsBelow(G, x)| && i == 2 * j
    modifies g1, g1.reserve, g1.gamma, g1.I, g1.T, g1.poids
    ensures Building(g1, G, ArcsBelow(G, x + 1), wts[..])
    ensures j' == |ArcsBelow(G, x + 1)| && i' == 2 * j'
  {
    var p := head;
    ghost var m := 0;
    i', j' := i, j;
    ArcsUpToStart(G, x);
    while p != NIL
      invariant 0 <= m <= |cells| && p == if m < |cells| then cells[m] else NIL
      invariant Building(g1, G, ArcsUpTo(G, x, m), wts[..])
      invariant j' == |ArcsUpTo(G, x, m)| && i' == 2 * j'
      decreases |cells| - m
    {
      p := SymCell(res, p, wts, g1, x, j', G, head, cells, adj, m);
      m := m + 1;
      i', j' := i' + 2, j' + 1;
    }
    ChainEnd(res[..], head, cells, m);
    ArcsUpToEnd(G, x);
  }

  /** What fermetureSymEfficace reads: the arena (res, gamma) lays out the
      well-formed graph G, wts holds at least one weight per arc, and none
      of them is an array of the graph g1 being filled, which has room for
      two cells per arc of G. */
  ghost predicate Source(res: array<Cell>, gamma: array<int>, wts: array<int>, g1: Graphe,
                         G: Graph, lists: seq<seq<int>>, adjs: seq<seq<Arc>>)
    reads res, gamma, wts
  {
    && WellFormed(G) && G == GraphOf(adjs) && Layout(res[..], gamma[..], lists, adjs)
    && res != g1.reserve
    && gamma != g1.gamma && gamma != g1.I && gamma != g1.T && gamma != g1.poids
    && wts != g1.gamma && wts != g1.I && wts != g1.T && wts != g1.poids
    && 2 * ArcCountBelow(G, |G|) <= g1.nmaxarc && ArcCountBelow(G, |G|) <= wts.Length
  }

  /** One turn of the outer loop of fermetureSymEfficace: the list of
      vertex x goes through SymList. */
  method SymVertex(res: array<Cell>, gamma: array<int>, wts: array<int>, g1: Graphe, x: int,
                   i: int, j: int, ghost G: Graph, ghost lists: seq<seq<int>>, ghost adjs: seq<seq<Arc>>)
    returns (i': int, j': int)
    requires Source(res, gamma, wts, g1, G, lists, adjs) && 0 <= x < |G|
    requires Building(g1, G, ArcsBelow(G, x), wts[..]) && j == |ArcsBelow(G, x)| && i == 2 * j
    modifies g1, g1.reserve, g1.gamma, g1.I, g1.T, g1.poids
    ensures Source(res, gamma, wts, g1, G, lists, adjs)
    ensures Building(g1, G, ArcsBelow(G, x + 1), wts[..])
    ensures j' == |ArcsBelow(G, x + 1)| && i' == 2 * j'
  {
    assert ListLayout(res[..], gamma[x], lists[x], adjs[x]) && G[x] == Targets(adjs[x]);
    i', j' := SymList(res, gamma[x], wts, g1, x, i, j, G, lists[x], adjs[x]);
  }

  /** The two loops of fermetureSymEfficace over the lists of an arena
      (res, gamma) of nsom vertices, filling g1, with wts the weights of
      the arcs. */
  method SymClose(res: array<Cell>, gamma: array<int>, wts: array<int>, g1: Graphe, nsom: int,
                  ghost G: Graph, ghost lists: seq<seq<int>>, ghost adjs: seq<seq<Arc>>)
    requires Source(res, gamma, wts, g1, G, lists, adjs) && nsom == |G|
    requires Building(g1, G, [], wts[..])
    modifies g1, g1.reserve, g1.gamma, g1.I, g1.T, g1.poids
    ensures Building(g1, G, ArcsBelow(G, nsom), wts[..])
  {
    var i, j := 0, 0;
    for x := 0 to nsom
      invariant Source(res, gamma, wts, g1, G, lists, adjs)
      invariant Building(g1, G, ArcsBelow(G, x), wts[..])
      invariant j == |ArcsBelow(G, x)| && i == 2 * j
    {
      i, j := SymVertex(res, gamma, wts, g1, x, i, j, G, lists, adjs);
    }
  }

  /** The allocation at the start of fermetureSymEfficace: an empty graph
      on nsom vertices with room for 2 narc cells, or 1 when narc < 1. */
  method NewClosure(nsom: int, narc: int, ghost G: Graph, ghost wts: seq<int>) returns (g1: Graphe)
    requires nsom == |G| && narc <= |wts|
    ensures fresh(g1) && fresh(g1.reserve) && fresh(g1.gamma)
    ensures fresh(g1.I) && fresh(g1.T) && fresh(g1.poids)
    ensures g1.nmaxarc == (if narc < 1 then 1 else 2 * narc)
    ensures Building(g1, G, [], wts)
  {
    if narc < 1 {
      g1 := new Graphe(nsom, 1);
    } else {
      g1 := new Graphe(nsom, 2 * narc);
    }
    assert g1.Graph() == EmptyGraph(nsom);
  }

  /** fermetureSymEfficace: a new graph holding, for every arc (x, s) of g
      met in the order "for each vertex x, for each successor s", the arcs
      s -> x and x -> s, with the triples 2j and 2j + 1 recording them and
      the weight g.poids[j] of the j-th arc. Its reserve has room for 2 narc
      cells, or 1 when g has no arc. */
  method FermetureSymEfficace(g: Graphe) returns (g1: Graphe)
    requires g.Valid() && WellFormed(g.Graph()) && g.narc == g.ArcCount()
    ensures fresh(g1) && fresh(g1.reserve) && fresh(g1.gamma)
    ensures fresh(g1.I) && fresh(g1.T) && fresh(g1.poids)
    ensures g1.nsom == g.nsom && g1.nmaxarc == (if g.narc < 1 then 1 else 2 * g.narc)
    ensures Building(g1, g.Graph(), ArcsBelow(g.Graph(), g.nsom), g.poids[..])
    ensures IsSymClosure(g1.Graph(), g.Graph())
  {
    g.LayoutOf();
    ArcCountBelowTotal(g.Adjs);
    g1 := NewClosure(g.nsom, g.narc, g.Graph(), g.poids[..]);
    SymClose(g.reserve, g.gamma, g.poids, g1, g.nsom, g.Graph(), g.Lists, g.Adjs);
    SymAddIsClosure(g.Graph());
  }

  /** CC(G, x): the connected component of x, arc directions ignored,
      computed as the vertices reachable from x in the symmetric closure of G. */
  method CC(G: Graphe, x: int) returns (Z: array<bool>)
    requires G.Valid() && WellFormed(G.Graph()) && G.narc == G.ArcCount() && 0 <= x < G.nsom
    ensures fresh(Z) && Z.Length == G.nsom
    ensures forall y :: 0 <= y < G.nsom ==> (Z[y] <==> Connected(G.Graph(), x, y))
  {
    ghost var g := G.Graph();
    var GG := FermetureSymEfficace(G);
    SymAddWellFormed(EmptyGraph(|g|), ArcsBelow(g, |g|));
    Z := ExplorationLargeur(GG, x);
    forall y | 0 <= y < G.nsom
      ensures Z[y] <==> Connected(g, x, y)
    {
      SymClosureReachable(GG.Graph(), g, x, y);
    }
  }

  /** isConnexe(G, x): whether every vertex is in the connected component of x. */
  method IsConnexe(G: Graphe, x: int) returns (r: bool)
    requires G.Valid() && WellFormed(G.Graph()) && G.narc == G.ArcCount() && 0 <= x < G.nsom
    ensures r <==> forall y :: 0 <= y < G.nsom ==> Connected(G.Graph(), x, y)
  {
    var Z := CC(G, x);
    for i := 0 to G.nsom
      invariant forall y :: 0 <= y < i ==> Z[y]
    {
      if !Z[i] {
        return false;
      }
    }
    return true;
  }

  // -----------------------------------------------------------------------
  // initGraphMin

  /** The sum of the weights P[k] of the arcs k listed. */
  function WeightOf(P: seq<int>, ks: seq<int>): (r: int)
    requires forall t :: 0 <= t < |ks| ==> 0 <= ks[t] < |P|
  {
    if ks == [] then 0 else WeightOf(P, ks[..|ks| - 1]) + P[ks[|ks| - 1]]
  }

  /** The arc triples (I, T, P) ordered by o: every entry of o names a
      triple whose ends are vertices among n, and o is in ascending order
      of weight. */
  ghost predicate Ordered(n: int, I: seq<int>, T: seq<int>, P: seq<int>, o: seq<int>)
  {
    && (forall u :: 0 <= u < |o| ==> 0 <= o[u] < |o| && o[u] < |I| && o[u] < |T| && o[u] < |P|)
    && (forall u :: 0 <= u < |o| ==> 0 <= I[o[u]] < n && 0 <= T[o[u]] < n)
    && forall u, v :: 0 <= u < v < |o| ==> P[o[u]] <= P[o[v]]
  }

  /** The outcome of triAretes on the triples (I, T, P) of m arcs whose
      ends are vertices among n orders them, and lists every one of them. */
  lemma OrderedFromSort(n: int, I: seq<int>, T: seq<int>, P: seq<int>, o: seq<int>, m: int)
    requires |o| == m <= |I| && m <= |T| && m <= |P|
    requires multiset(o) == multiset(seq(m, i => i)) && SortedRange(o, P, 0, m - 1)
    requires forall k :: 0 <= k < m ==> 0 <= I[k] < n && 0 <= T[k] < n
    ensures Ordered(n, I, T, P, o)
    ensures forall k :: 0 <= k < m ==> k in o
  {
    var ids := seq(m, i => i);
    SamePieces(o, ids);
    forall u | 0 <= u < |o|
      ensures 0 <= o[u] < m
    {
      assert o[u] in ids;
    }
    forall k | 0 <= k < m
      ensures k in o
    {
      assert ids[k] == k;
    }
  }

  /** picked names, for each edge of es, the triple it comes from, and their
      weights are in ascending order. */
  ghost predicate Picks(I: seq<int>, T: seq<int>, P: seq<int>, es: seq<ArcPair>, picked: seq<int>)
  {
    && |picked| == |es|
    && (forall t :: 0 <= t < |picked| ==>
          0 <= picked[t] < |I| && picked[t] < |T| && picked[t] < |P| && es[t] == (I[picked[t]], T[picked[t]]))
    && forall t, t' :: 0 <= t < t' < |picked| ==> P[picked[t]] <= P[picked[t']]
  }

  /** What initGraphMin knows once the first i arcs of the order o have been
      examined: the edges es taken form a forest, picked names their
      triples, none heavier than an arc still to come, w is w0 plus their
      weights, and the ends of every arc examined are connected by es. */
  ghost predicate Kept(n: nat, I: seq<int>, T: seq<int>, P: seq<int>, o: seq<int>,
                       i: int, es: seq<ArcPair>, picked: seq<int>, w: int, w0: int)
  {
    && Ordered(n, I, T, P, o) && 0 <= i <= |o| && PairsIn(es, n) && Forest(n, es)
    && Picks(I, T, P, es, picked)
    && (forall t :: 0 <= t < |picked| ==> picked[t] < |o|)
    && (forall t, u :: 0 <= t < |picked| && i <= u < |o| ==> P[picked[t]] <= P[o[u]])
    && w == w0 + WeightOf(P, picked)
    && forall u :: 0 <= u < i ==> Connected(EdgeGraph(n, es), I[o[u]], T[o[u]])
  }

  /** An arc whose ends are already connected is passed over. */
  lemma KeptReject(n: nat, I: seq<int>, T: seq<int>, P: seq<int>, o: seq<int>,
                   i: int, es: seq<ArcPair>, picked: seq<int>, w: int, w0: int)
    requires Kept(n, I, T, P, o, i, es, picked, w, w0) && i < |o|
    requires Connected(EdgeGraph(n, es), I[o[i]], T[o[i]])
    ensures Kept(n, I, T, P, o, i + 1, es, picked, w, w0)
  {
  }

  /** A heaviest-so-far triple a added to the picks. */
  lemma PicksSnoc(I: seq<int>, T: seq<int>, P: seq<int>, es: seq<ArcPair>, picked: seq<int>, a: int)
    requires Picks(I, T, P, es, picked) && 0 <= a < |I| && a < |T| && a < |P|
    requires forall t :: 0 <= t < |picked| ==> P[picked[t]] <= P[a]
    ensures Picks(I, T, P, es + [(I[a], T[a])], picked + [a])
    ensures WeightOf(P, picked + [a]) == WeightOf(P, picked) + P[a]
  {
    assert (picked + [a])[..|picked|] == picked;
  }

  /** Connections of the arcs examined survive the growth of the forest,
      and the arc added connects its own ends. */
  lemma ConnectedSnoc(n: nat, I: seq<int>, T: seq<int>, o: seq<int>, i: int, es: seq<ArcPair>)
    requires 0 <= i < |o| && PairsIn(es, n)
    requires forall u :: 0 <= u < |o| ==> 0 <= o[u] < |I| && o[u] < |T| && 0 <= I[o[u]] < n && 0 <= T[o[u]] < n
    requires forall u :: 0 <= u < i ==> Connected(EdgeGraph(n, es), I[o[u]], T[o[u]])
    ensures PairsIn(es + [(I[o[i]], T[o[i]])], n)
    ensures forall u :: 0 <= u < i + 1 ==> Connected(EdgeGraph(n, es + [(I[o[i]], T[o[i]])]), I[o[u]], T[o[u]])
  {
    var e := (I[o[i]], T[o[i]]);
    forall u | 0 <= u < i + 1
      ensures Connected(EdgeGraph(n, es + [e]), I[o[u]], T[o[u]])
    {
      if u < i {
        ConnectedGrow(n, es, e, I[o[u]], T[o[u]]);
      } else {
        ConnectedByEdge(n, es, e);
      }
    }
  }

  /** An arc whose ends are not connected is taken: the forest grows by it. */
  lemma KeptAccept(n: nat, I: seq<int>, T: seq<int>, P: seq<int>, o: seq<int>,
                   i: int, es: seq<ArcPair>, picked: seq<int>, w: int, w0: int)
    requires Kept(n, I, T, P, o, i, es, picked, w, w0) && i < |o|
    requires !Connected(EdgeGraph(n, es), I[o[i]], T[o[i]])
    ensures Kept(n, I, T, P, o, i + 1, es + [(I[o[i]], T[o[i]])], picked + [o[i]], w + P[o[i]], w0)
  {
    var e := (I[o[i]], T[o[i]]);
    EdgeGraphSnoc(n, es, e);
    ForestSnoc(n, es, e);
    PicksSnoc(I, T, P, es, picked, o[i]);
    ConnectedSnoc(n, I, T, o, i, es);
    LighterSnoc(n, I, T, P, o, i, picked);
  }

  /** The arc o[i] is no heavier than the arcs after it in the order. */
  lemma LighterSnoc(n: nat, I: seq<int>, T: seq<int>, P: seq<int>, o: seq<int>, i: int, picked: seq<int>)
    requires Ordered(n, I, T, P, o) && 0 <= i < |o|
    requires forall t :: 0 <= t < |picked| ==> 0 <= picked[t] < |P| && picked[t] < |o|
    requires forall t, u :: 0 <= t < |picked| && i <= u < |o| ==> P[picked[t]] <= P[o[u]]
    ensures forall t :: 0 <= t < |picked + [o[i]]| ==> 0 <= (picked + [o[i]])[t] < |P| && (picked + [o[i]])[t] < |o|
    ensures forall t, u :: 0 <= t < |picked + [o[i]]| && i + 1 <= u < |o| ==> P[(picked + [o[i]])[t]] <= P[o[u]]
  {
    var picked' := picked + [o[i]];
    forall t, u | 0 <= t < |picked'| && i + 1 <= u < |o|
      ensures P[picked'[t]] <= P[o[u]]
    {
      if t == |picked| {
        assert picked'[t] == o[i];
      } else {
        assert picked'[t] == picked[t];
      }
    }
  }

  /** The tree Tr under construction holds exactly the edges es, each once
      as an arc, with one cell taken per edge. */
  ghost predicate TreeOf(Tr: Graphe, n: nat, es: seq<ArcPair>)
    reads Tr, Tr.reserve, Tr.gamma
  {
    && Tr.Valid() && Tr.nsom == n && PairsIn(es, n) && Tr.Graph() == EdgeGraph(n, es)
    && Tr.narc == |es| && Tr.ArcCount() == |es| && |Tr.Free| == Tr.nmaxarc - |es|
  }

  /** AjouteArcValue on the tree, with a free cell left: the edge (x, y) is added. */
  method AddTreeEdge(Tr: Graphe, x: int, y: int, v: int, ghost n: nat, ghost es: seq<ArcPair>)
    requires TreeOf(Tr, n, es) && |es| < Tr.nmaxarc && 0 <= x < n && 0 <= y < n
    modifies Tr, Tr.reserve, Tr.gamma
    ensures TreeOf(Tr, n, es + [(x, y)])
  {
    ghost var adjs0 := Tr.Adjs;
    var ok := Tr.AjouteArcValue(x, y, v);
    GraphOfPrepend(adjs0, x, Arc(y, v));
    TotalLenUpdate(adjs0, x, [Arc(y, v)] + adjs0[x]);
    EdgeGraphSnoc(n, es, (x, y));
  }

  /** One turn of the loop of initGraphMin: the i-th arc (x, y) in weight
      order joins Tr when CC finds x and y not yet connected in Tr, and its
      weight is added to w. */
  method Consider(Tr: Graphe, G: Graphe, O: array<int>, i: int, k: int, w: int,
                  ghost n: nat, ghost I: seq<int>, ghost T: seq<int>, ghost P: seq<int>, ghost o: seq<int>,
                  ghost es: seq<ArcPair>, ghost picked: seq<int>, ghost w0: int)
    returns (k': int, w': int, ghost es': seq<ArcPair>, ghost picked': seq<int>)
    requires G.I[..] == I && G.T[..] == T && G.poids[..] == P && O[..] == o
    requires TreeOf(Tr, n, es) && Kept(n, I, T, P, o, i, es, picked, w, w0)
    requires i < |o| && k == |es| < Tr.nmaxarc
    modifies Tr, Tr.reserve, Tr.gamma
    ensures TreeOf(Tr, n, es') && Kept(n, I, T, P, o, i + 1, es', picked', w', w0)
    ensures k' == |es'|
    ensures Connected(EdgeGraph(n, es), I[o[i]], T[o[i]]) ==> es' == es && picked' == picked && w' == w
    ensures !Connected(EdgeGraph(n, es), I[o[i]], T[o[i]]) ==>
              es' == es + [(I[o[i]], T[o[i]])] && picked' == picked + [o[i]] && w' == w + P[o[i]]
  {
    var a := O[i];
    var x, y, v := G.I[a], G.T[a], G.poids[a];
    var linked := Linked(Tr, x, y, n, es);
    if !linked {
      AddTreeEdge(Tr, x, y, v, n, es);
      KeptAccept(n, I, T, P, o, i, es, picked, w, w0);
      k', w', es', picked' := k + 1, w + v, es + [(x, y)], picked + [a];
    } else {
      KeptReject(n, I, T, P, o, i, es, picked, w, w0);
      k', w', es', picked' := k, w, es, picked;
    }
  }

  /** The test of initGraphMin: CC(Tr, x) is computed and read at y. */
  method Linked(Tr: Graphe, x: int, y: int, ghost n: nat, ghost es: seq<ArcPair>) returns (c: bool)
    requires TreeOf(Tr, n, es) && 0 <= x < n && 0 <= y < n
    ensures c <==> Connected(EdgeGraph(n, es), x, y)
  {
    EdgeGraphWellFormed(n, es);
    var Z := CC(Tr, x);
    c := Z[y];
  }

  /** When every arc 0 .. m - 1 is among the arcs o examined and the ends
      of each arc examined are connected in g, the ends of every arc are. */
  lemma ConnectedAll(g: Graph, I: seq<int>, T: seq<int>, o: seq<int>, m: int)
    requires forall u :: 0 <= u < |o| ==> 0 <= o[u] < |I| && o[u] < |T|
    requires forall u :: 0 <= u < |o| ==> Connected(g, I[o[u]], T[o[u]])
    requires m <= |I| && m <= |T| && forall k :: 0 <= k < m ==> k in o
    ensures forall k :: 0 <= k < m ==> Connected(g, I[k], T[k])
  {
    forall k | 0 <= k < m
      ensures Connected(g, I[k], T[k])
    {
      assert k in o;
      var u :| 0 <= u < |o| && o[u] == k;
    }
  }
  /** The arcs numbered 0 .. m - 1 of the arrays I and T, as an edge list. */
  ghost function ArcsOf(I: seq<int>, T: seq<int>, m: int): (r: seq<ArcPair>)
    requires 0 <= m <= |I| && m <= |T|
    ensures |r| == m && forall k :: 0 <= k < m ==> r[k] == (I[k], T[k])
  {
    seq(m, k requires 0 <= k < m => (I[k], T[k]))
  }

  /** The arcs 0 .. m - 1 of (I, T), taken as undirected edges, connect all
      n vertices. */
  ghost predicate ArcsSpan(n: nat, I: seq<int>, T: seq<int>, m: int) {
    && 0 <= m <= |I| && m <= |T| && PairsIn(ArcsOf(I, T, m), n)
    && Spanning(EdgeGraph(n, ArcsOf(I, T, m)))
  }

  /** What Kruskal's loop leaves: a forest es on n vertices that, when it
      stops short of n - 1 edges, connects the ends of each arc the order o
      lists, o listing the arcs 0 .. m - 1. Then es connects the ends of
      each of those arcs when it has fewer than n - 1 edges; it has n - 1
      edges exactly when it connects all n vertices; and it has n - 1 edges
      whenever the arcs connect all n vertices. */
  lemma TreeOutcome(n: nat, es: seq<ArcPair>, I: seq<int>, T: seq<int>, P: seq<int>, o: seq<int>, m: int)
    requires n >= 1 && PairsIn(es, n) && Forest(n, es)
    requires Ordered(n, I, T, P, o) && |o| == m <= |I| && m <= |T| && forall k :: 0 <= k < m ==> k in o
    requires |es| < n - 1 ==> forall u :: 0 <= u < |o| ==> Connected(EdgeGraph(n, es), I[o[u]], T[o[u]])
    ensures |es| < n - 1 ==> forall k :: 0 <= k < m ==> Connected(EdgeGraph(n, es), I[k], T[k])
    ensures |es| == n - 1 <==> Spanning(EdgeGraph(n, es))
    ensures ArcsSpan(n, I, T, m) ==> |es| == n - 1
  {
    forall k | 0 <= k < m
      ensures 0 <= I[k] < n && 0 <= T[k] < n
    {
      assert k in o;
      var u :| 0 <= u < |o| && o[u] == k;
    }
    if |es| < n - 1 {
      ConnectedAll(EdgeGraph(n, es), I, T, o, m);
    }
    var arcs := ArcsOf(I, T, m);
    if Spanning(EdgeGraph(n, arcs)) && |es| < n - 1 {
      forall u, v | 0 <= u < n && 0 <= v < n
        ensures Connected(EdgeGraph(n, es), u, v)
      {
        CoverConnected(n, es, arcs, u, v);
      }
    }
    ForestSpanning(n, es);
  }


  /** Before any arc is examined: no edge, no pick, weight w0. */
  lemma KeptStart(n: nat, I: seq<int>, T: seq<int>, P: seq<int>, o: seq<int>, w0: int)
    requires Ordered(n, I, T, P, o)
    ensures Kept(n, I, T, P, o, 0, [], [], w0, w0)
  {
  }

  /** The allocation of the tree at the start of initGraphMin: n vertices,
      room for n - 1 edges, no edge yet. */
  method NewTree(n: int) returns (Tr: Graphe)
    requires n >= 2
    ensures fresh(Tr) && fresh(Tr.reserve) && fresh(Tr.gamma)
    ensures TreeOf(Tr, n, []) && Tr.nmaxarc == n - 1
  {
    Tr := new Graphe(n, n - 1);
    assert Tr.Graph() == EdgeGraph(n, []);
  }

  /** The loop of initGraphMin over the arcs in the order O, growing the
      tree Tr until it has n - 1 edges or the arcs run out. */
  method Grow(Tr: Graphe, G: Graphe, O: array<int>, w0: int,
              ghost n: nat, ghost I: seq<int>, ghost T: seq<int>, ghost P: seq<int>, ghost o: seq<int>)
    returns (k: int, w: int, ghost es: seq<ArcPair>, ghost picked: seq<int>)
    requires G.I[..] == I && G.T[..] == T && G.poids[..] == P && O[..] == o
    requires Tr.gamma != G.I && Tr.gamma != G.T && Tr.gamma != G.poids && Tr.gamma != O
    requires TreeOf(Tr, n, []) && Kept(n, I, T, P, o, 0, [], [], w0, w0)
    requires n == G.nsom && Tr.nmaxarc == n - 1
    modifies Tr, Tr.reserve, Tr.gamma
    ensures G.I[..] == I && G.T[..] == T && G.poids[..] == P
    ensures TreeOf(Tr, n, es) && k == |es| <= n - 1
    ensures Forest(n, es) && Picks(I, T, P, es, picked) && w == w0 + WeightOf(P, picked)
    ensures forall t :: 0 <= t < |picked| ==> picked[t] < |o|
    ensures k < n - 1 ==> forall u :: 0 <= u < |o| ==> Connected(EdgeGraph(n, es), I[o[u]], T[o[u]])
  {
    var i := 0;
    k, w, es, picked := 0, w0, [], [];
    while k < G.nsom - 1 && i < O.Length
      invariant G.I[..] == I && G.T[..] == T && G.poids[..] == P && O[..] == o
      invariant TreeOf(Tr, n, es) && Kept(n, I, T, P, o, i, es, picked, w, w0)
      invariant k == |es| <= n - 1
      decreases O.Length - i
    {
      k, w, es, picked := Consider(Tr, G, O, i, k, w, n, I, T, P, o, es, picked, w0);
      i := i + 1;
    }
  }

  /** The call triAretes(G.poids, G.narc) of initGraphMin: O orders the
      first narc arcs of G by weight and holds each of them. */
  method SortArcs(G: Graphe) returns (O: array<int>)
    requires 0 <= G.narc <= G.I.Length && G.narc <= G.T.Length && G.narc <= G.poids.Length
    requires forall k :: 0 <= k < G.narc ==> 0 <= G.I[k] < G.nsom && 0 <= G.T[k] < G.nsom
    ensures fresh(O) && O.Length == G.narc
    ensures Ordered(G.nsom, G.I[..], G.T[..], G.poids[..], O[..])
    ensures forall k :: 0 <= k < G.narc ==> k in O[..]
  {
    O := TriAretes(G.poids, G.narc);
    OrderedFromSort(G.nsom, G.I[..], G.T[..], G.poids[..], O[..], G.narc);
  }

  /** initGraphMin(G, w0): Kruskal's algorithm. The arcs of G are examined
      in ascending order of weight, and each one whose ends CC does not
      find connected in the tree Tr joins it, until Tr has nsom - 1 edges;
      the weight of every edge taken is added to w0. The source takes the
      connectivity of G for granted and reads past the sorted arcs
      otherwise; here running out of arcs ends the loop with ok false. */
  method InitGraphMin(G: Graphe, w0: int)
    returns (Tr: Graphe, w: int, ok: bool, ghost es: seq<ArcPair>, ghost picked: seq<int>)
    requires G.nsom >= 2 && 0 <= G.narc <= G.I.Length && G.narc <= G.T.Length && G.narc <= G.poids.Length
    requires forall k :: 0 <= k < G.narc ==> 0 <= G.I[k] < G.nsom && 0 <= G.T[k] < G.nsom
    ensures fresh(Tr) && TreeOf(Tr, G.nsom, es) && Forest(G.nsom, es) && Tr.nmaxarc == G.nsom - 1
    ensures ok <==> |es| == G.nsom - 1
    ensures Picks(G.I[..], G.T[..], G.poids[..], es, picked)
    ensures forall t :: 0 <= t < |picked| ==> 0 <= picked[t] < G.narc
    ensures w == w0 + WeightOf(G.poids[..], picked)
    ensures !ok ==> forall k :: 0 <= k < G.narc ==> Connected(Tr.Graph(), G.I[k], G.T[k])
    ensures ok <==> Spanning(EdgeGraph(G.nsom, es))
    ensures ArcsSpan(G.nsom, G.I[..], G.T[..], G.narc) ==> ok
  {
    Tr := NewTree(G.nsom);
    var O := SortArcs(G);
    ghost var n, I, T, P, o := G.nsom, G.I[..], G.T[..], G.poids[..], O[..];
    KeptStart(n, I, T, P, o, w0);
    var k;
    k, w, es, picked := Grow(Tr, G, O, w0, n, I, T, P, o);
    assert G.narc == |o| && G.nsom == n && G.I[..] == I && G.T[..] == T;
    ok := k == G.nsom - 1;
    TreeOutcome(G.nsom, es, G.I[..], G.T[..], G.poids[..], o, G.narc);
  }
}
