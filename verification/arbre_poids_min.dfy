/** arbrePoidsMin.c, an earlier version of kruskal.c: breadth-first
    exploration, a breadth-first predecessor tree, symmetric closure,
    connected components and Kruskal's construction. Its graphs come from a
    successor-list library (graphes.h) that is not part of this model; they
    are modelled as their successor lists (Paths.Graph), and
    ajouteSuccesseur(g, a, b) as making b the first successor of a. */
module ArbrePoidsMin {
  import opened Paths
  import opened Fifo
  import opened QuickSort
  import opened Forests
  import Kruskal

  // -----------------------------------------------------------------------
  // explorationLargeur

  /** The inner loop of explorationLargeur for one vertex y: every
      successor z of y, in list order, that is not marked yet is queued in
      D and marked. Afterwards all of y's successors are marked and y is no
      longer pending. */
  method Visit(g: Graph, Z: array<bool>, D: ListeFIFO, y: int,
               ghost x: int, ghost pendE: seq<int>, ghost c0: int)
    requires WellFormed(g) && 0 <= y < |g|
    requires D.Valid() && D.capacite == |g| && 1 <= c0
    requires Frontier(g, x, Z[..], pendE + D.Contents + [y])
    requires |D.Contents| + c0 == CountTrue(Z[..])
    modifies Z, D, D.elements
    ensures D.Valid() && D.capacite == |g| && D.elements == old(D.elements)
    ensures Frontier(g, x, Z[..], pendE + D.Contents)
    ensures |D.Contents| + c0 == CountTrue(Z[..]) && |D.Contents| >= old(|D.Contents|)
  {
    for m := 0 to |g[y]|
      invariant D.Valid() && D.capacite == |g| && D.elements == old(D.elements)
      invariant Kruskal.Scanned(g, x, Z[..], D.Contents, pendE, y, m, c0)
      invariant |D.Contents| >= old(|D.Contents|)
    {
      Kruskal.Discover(Z, D, g[y][m], g, x, pendE, y, c0);
    }
    FrontierDone(g, x, Z[..], pendE + D.Contents + [y], pendE + D.Contents, y);
  }

  /** The body of a round of explorationLargeur: the oldest vertex y of E
      is taken out and visited. */
  method Serve(g: Graph, E: ListeFIFO, D: ListeFIFO, Z: array<bool>, ghost x: int, ghost c0: int)
    requires WellFormed(g) && E != D && E.elements != D.elements
    requires E.Valid() && D.Valid() && E.capacite == |g| && D.capacite == |g|
    requires Frontier(g, x, Z[..], E.Contents + D.Contents)
    requires |D.Contents| + c0 == CountTrue(Z[..]) && 1 <= c0 && E.Contents != []
    modifies E, E.elements, D, D.elements, Z
    ensures E.Valid() && D.Valid() && E.capacite == |g| && D.capacite == |g|
    ensures E.elements == old(E.elements) && D.elements == old(D.elements)
    ensures Frontier(g, x, Z[..], E.Contents + D.Contents)
    ensures |D.Contents| + c0 == CountTrue(Z[..]) && |E.Contents| < old(|E.Contents|)
  {
    ghost var before := E.Contents + D.Contents;
    var y := E.SelectionSuppression();
    assert y == before[0] && y in before;
    FrontierSame(g, x, Z[..], before, E.Contents + D.Contents + [y]);
    Visit(g, Z, D, y, x, E.Contents, c0);
  }

  /** One round of explorationLargeur: every vertex of E is taken out in
      turn and visited, its newly marked successors going to D. */
  method Round(g: Graph, E: ListeFIFO, D: ListeFIFO, Z: array<bool>, ghost x: int)
    requires WellFormed(g) && E != D && E.elements != D.elements
    requires E.Valid() && D.Valid() && E.capacite == |g| && D.capacite == |g|
    requires D.Contents == [] && Frontier(g, x, Z[..], E.Contents) && CountTrue(Z[..]) >= 1
    modifies E, E.elements, D, D.elements, Z
    ensures E.Valid() && D.Valid() && E.capacite == |g| && D.capacite == |g|
    ensures E.elements == old(E.elements) && D.elements == old(D.elements)
    ensures E.Contents == [] && Frontier(g, x, Z[..], D.Contents)
    ensures |D.Contents| + old(CountTrue(Z[..])) == CountTrue(Z[..])
    ensures old(E.Contents) == [] ==> D.Contents == []
  {
    ghost var c0 := CountTrue(Z[..]);
    assert E.Contents + D.Contents == E.Contents;
    while E.EstNonVide()
      invariant E.Valid() && D.Valid() && E.capacite == |g| && D.capacite == |g|
      invariant E.elements == old(E.elements) && D.elements == old(D.elements)
      invariant Frontier(g, x, Z[..], E.Contents + D.Contents)
      invariant |D.Contents| + c0 == CountTrue(Z[..])
      invariant old(E.Contents) == [] ==> D.Contents == []
      decreases |E.Contents|
    {
      Serve(g, E, D, Z, x, c0);
    }
    assert E.Contents + D.Contents == D.Contents;
  }

  /** The start of a breadth-first exploration from x: a queue E of
      capacity nsom holding x, and the marks Z with x alone marked. */
  method Start(g: Graph, x: int) returns (E: ListeFIFO, Z: array<bool>)
    requires 0 <= x < |g|
    ensures fresh(E) && fresh(E.elements) && fresh(Z)
    ensures E.Valid() && E.capacite == |g| && E.Contents == [x] && Z.Length == |g|
    ensures forall v :: 0 <= v < |g| ==> (Z[v] <==> v == x)
    ensures Frontier(g, x, Z[..], E.Contents) && CountTrue(Z[..]) >= 1
  {
    E := new ListeFIFO(|g|);
    var ok := E.Insertion(x);
    Z := new bool[|g|](_ => false);
    Z[x] := true;
    FrontierStart(g, x, Z[..]);
  }

  /** explorationLargeur(G, x): marks exactly the vertices reachable from
      x, in nsom - 1 rounds; in each round the vertices of E are taken out
      and their unmarked successors marked and queued in D, then E and D
      are exchanged. */
  method ExplorationLargeur(g: Graph, x: int) returns (Z: array<bool>)
    requires WellFormed(g) && 0 <= x < |g|
    ensures fresh(Z) && Z.Length == |g|
    ensures forall y :: 0 <= y < |g| ==> (Z[y] <==> Reachable(g, x, y))
  {
    var E;
    E, Z := Start(g, x);
    var D := new ListeFIFO(|g|);
    for k := 1 to |g|
      invariant fresh(E) && fresh(E.elements) && fresh(D) && fresh(D.elements)
      invariant E != D && E.elements != D.elements
      invariant E.Valid() && D.Valid() && E.capacite == |g| && D.capacite == |g|
      invariant D.Contents == [] && CountTrue(Z[..]) >= 1
      invariant Frontier(g, x, Z[..], E.Contents)
      invariant E.Contents == [] || CountTrue(Z[..]) >= k
    {
      Round(g, E, D, Z, x);
      E, D := D, E;
    }
    FrontierFinal(g, x, Z[..], E.Contents);
  }

  // -----------------------------------------------------------------------
  // arborescence

  /** pred is a breadth-first tree of the marked vertices of z rooted at
      x: pred[x] is -1, every other marked vertex v has a marked
      predecessor pred[v] with an arc pred[v] -> v, one level nearer to x,
      and every unmarked vertex keeps the 0 it was allocated with. */
  ghost predicate PredTree(g: Graph, x: int, z: seq<bool>, pred: seq<int>, rank: seq<nat>) {
    && |z| == |g| && |pred| == |g| && |rank| == |g| && 0 <= x < |g|
    && z[x] && pred[x] == -1 && rank[x] == 0
    && forall v :: 0 <= v < |g| && v != x ==>
         if z[v] then 0 <= pred[v] < |g| && z[pred[v]] && Edge(g, pred[v], v) && rank[v] == rank[pred[v]] + 1
         else pred[v] == 0
  }

  /** The vertex reached from v by following pred k times. */
  function Follow(pred: seq<int>, v: int, k: nat): int
    decreases k
  {
    if k == 0 || !(0 <= v < |pred|) then v else Follow(pred, pred[v], k - 1)
  }

  /** Following pred from v some number of times leads to x. */
  ghost predicate LeadsTo(pred: seq<int>, v: int, x: int) {
    exists k: nat :: Follow(pred, v, k) == x
  }

  /** Following pred from a marked vertex v as many times as its level
      leads to the root x. */
  lemma {:induction false} FollowRoot(g: Graph, x: int, z: seq<bool>, pred: seq<int>, rank: seq<nat>, v: int)
    requires PredTree(g, x, z, pred, rank) && 0 <= v < |g| && z[v]
    ensures Follow(pred, v, rank[v]) == x
    decreases rank[v]
  {
    if v != x {
      FollowRoot(g, x, z, pred, rank, pred[v]);
    }
  }

  /** Once the marked vertices are exactly those reachable from x, a
      breadth-first tree of them gives every reachable vertex other than x
      a reachable predecessor with an arc to it and a Pred chain back to x,
      and every unreachable vertex Pred 0. */
  lemma PredTreeSpec(g: Graph, x: int, z: seq<bool>, pred: seq<int>, rank: seq<nat>)
    requires PredTree(g, x, z, pred, rank)
    requires forall v :: 0 <= v < |g| ==> (z[v] <==> Reachable(g, x, v))
    ensures forall v :: 0 <= v < |g| && v != x && Reachable(g, x, v) ==>
              0 <= pred[v] < |g| && Edge(g, pred[v], v) && Reachable(g, x, pred[v])
    ensures forall v :: 0 <= v < |g| && v != x && !Reachable(g, x, v) ==> pred[v] == 0
    ensures forall v :: 0 <= v < |g| && Reachable(g, x, v) ==> LeadsTo(pred, v, x)
  {
    forall v | 0 <= v < |g| && Reachable(g, x, v)
      ensures LeadsTo(pred, v, x)
    {
      FollowRoot(g, x, z, pred, rank, v);
      var k: nat := rank[v];
      assert Follow(pred, v, k) == x;
    }
  }

  /** The innermost body of arborescence for a successor z of y: an
      unmarked z is queued, marked, and gets y as its predecessor; the
      predecessor of a vertex already marked is never changed. */
  method DiscoverPred(Z: array<bool>, Pred: array<int>, D: ListeFIFO, z: int,
                      y: int, ghost g: Graph, ghost x: int, ghost pendE: seq<int>, ghost c0: int,
                      ghost m: int, ghost rank: seq<nat>)
    returns (ghost rank': seq<nat>)
    requires Kruskal.Scanned(g, x, Z[..], D.Contents, pendE, y, m, c0)
    requires m < |g[y]| && z == g[y][m] && Pred != D.elements
    requires D.Valid() && D.capacite == |g| && 1 <= c0
    requires PredTree(g, x, Z[..], Pred[..], rank)
    modifies Z, Pred, D, D.elements
    ensures D.Valid() && D.capacite == |g| && D.elements == old(D.elements)
    ensures Kruskal.Scanned(g, x, Z[..], D.Contents, pendE, y, m + 1, c0)
    ensures PredTree(g, x, Z[..], Pred[..], rank')
    ensures forall v :: 0 <= v < Pred.Length && old(Z[v]) ==> Pred[v] == old(Pred[v])
  {
    assert z in g[y];
    var newly := !Z[z];
    ghost var z0, p0 := Z[..], Pred[..];
    assert AllMarked(z0, pendE + D.Contents + [y]);
    Kruskal.Discover(Z, D, z, g, x, pendE, y, c0);
    rank' := rank;
    if newly {
      Pred[z] := y;
      PredMark(g, x, z0, p0, rank, y, z);
      rank' := rank[z := rank[y] + 1];
      assert Pred[..] == p0[z := y];
    } else {
      assert z0[z := true] == z0;
    }
  }

  /** Marking an unmarked successor w of a marked vertex y, with y as its
      predecessor one level further from x, keeps the tree. */
  lemma PredMark(g: Graph, x: int, z: seq<bool>, pred: seq<int>, rank: seq<nat>, y: int, w: int)
    requires PredTree(g, x, z, pred, rank) && 0 <= y < |g| && z[y]
    requires Edge(g, y, w) && 0 <= w < |g| && !z[w]
    ensures PredTree(g, x, z[w := true], pred[w := y], rank[w := rank[y] + 1])
  {
    var z', pred', rank' := z[w := true], pred[w := y], rank[w := rank[y] + 1];
    forall v | 0 <= v < |g| && v != x && z'[v]
      ensures 0 <= pred'[v] < |g| && z'[pred'[v]] && Edge(g, pred'[v], v) && rank'[v] == rank'[pred'[v]] + 1
    {
      if v != w {
        assert z[v] && z[pred[v]] && pred[v] != w;
      }
    }
  }

  /** The inner loop of arborescence for one vertex y. */
  method VisitPred(g: Graph, Z: array<bool>, Pred: array<int>, D: ListeFIFO, y: int,
                   ghost x: int, ghost pendE: seq<int>, ghost c0: int, ghost rank: seq<nat>)
    returns (ghost rank': seq<nat>)
    requires WellFormed(g) && 0 <= y < |g| && Pred != D.elements
    requires D.Valid() && D.capacite == |g| && 1 <= c0
    requires Frontier(g, x, Z[..], pendE + D.Contents + [y])
    requires |D.Contents| + c0 == CountTrue(Z[..])
    requires PredTree(g, x, Z[..], Pred[..], rank)
    modifies Z, Pred, D, D.elements
    ensures D.Valid() && D.capacite == |g| && D.elements == old(D.elements)
    ensures Frontier(g, x, Z[..], pendE + D.Contents)
    ensures |D.Contents| + c0 == CountTrue(Z[..])
    ensures PredTree(g, x, Z[..], Pred[..], rank')
  {
    rank' := rank;
    for m := 0 to |g[y]|
      invariant D.Valid() && D.capacite == |g| && D.elements == old(D.elements)
      invariant Kruskal.Scanned(g, x, Z[..], D.Contents, pendE, y, m, c0)
      invariant PredTree(g, x, Z[..], Pred[..], rank')
    {
      rank' := DiscoverPred(Z, Pred, D, g[y][m], y, g, x, pendE, c0, m, rank');
    }
    FrontierDone(g, x, Z[..], pendE + D.Contents + [y], pendE + D.Contents, y);
  }

  /** The body of a round of arborescence. */
  method ServePred(g: Graph, E: ListeFIFO, D: ListeFIFO, Z: array<bool>, Pred: array<int>,
                   ghost x: int, ghost c0: int, ghost rank: seq<nat>)
    returns (ghost rank': seq<nat>)
    requires WellFormed(g) && E != D && E.elements != D.elements
    requires Pred != E.elements && Pred != D.elements
    requires E.Valid() && D.Valid() && E.capacite == |g| && D.capacite == |g|
    requires Frontier(g, x, Z[..], E.Contents + D.Contents)
    requires |D.Contents| + c0 == CountTrue(Z[..]) && 1 <= c0 && E.Contents != []
    requires PredTree(g, x, Z[..], Pred[..], rank)
    modifies E, E.elements, D, D.elements, Z, Pred
    ensures E.Valid() && D.Valid() && E.capacite == |g| && D.capacite == |g|
    ensures E.elements == old(E.elements) && D.elements == old(D.elements)
    ensures Frontier(g, x, Z[..], E.Contents + D.Contents)
    ensures |D.Contents| + c0 == CountTrue(Z[..]) && |E.Contents| < old(|E.Contents|)
    ensures PredTree(g, x, Z[..], Pred[..], rank')
  {
    ghost var before := E.Contents + D.Contents;
    var y := E.SelectionSuppression();
    assert y == before[0] && y in before;
    FrontierSame(g, x, Z[..], before, E.Contents + D.Contents + [y]);
    rank' := VisitPred(g, Z, Pred, D, y, x, E.Contents, c0, rank);
  }

  /** One round of arborescence. */
  method RoundPred(g: Graph, E: ListeFIFO, D: ListeFIFO, Z: array<bool>, Pred: array<int>,
                   ghost x: int, ghost rank: seq<nat>)
    returns (ghost rank': seq<nat>)
    requires WellFormed(g) && E != D && E.elements != D.elements
    requires Pred != E.elements && Pred != D.elements
    requires E.Valid() && D.Valid() && E.capacite == |g| && D.capacite == |g|
    requires D.Contents == [] && Frontier(g, x, Z[..], E.Contents) && CountTrue(Z[..]) >= 1
    requires PredTree(g, x, Z[..], Pred[..], rank)
    modifies E, E.elements, D, D.elements, Z, Pred
    ensures E.Valid() && D.Valid() && E.capacite == |g| && D.capacite == |g|
    ensures E.elements == old(E.elements) && D.elements == old(D.elements)
    ensures E.Contents == [] && Frontier(g, x, Z[..], D.Contents)
    ensures |D.Contents| + old(CountTrue(Z[..])) == CountTrue(Z[..])
    ensures old(E.Contents) == [] ==> D.Contents == []
    ensures PredTree(g, x, Z[..], Pred[..], rank')
  {
    ghost var c0 := CountTrue(Z[..]);
    assert E.Contents + D.Contents == E.Contents;
    rank' := rank;
    while E.EstNonVide()
      invariant E.Valid() && D.Valid() && E.capacite == |g| && D.capacite == |g|
      invariant E.elements == old(E.elements) && D.elements == old(D.elements)
      invariant Frontier(g, x, Z[..], E.Contents + D.Contents)
      invariant |D.Contents| + c0 == CountTrue(Z[..])
      invariant old(E.Contents) == [] ==> D.Contents == []
      invariant PredTree(g, x, Z[..], Pred[..], rank')
      decreases |E.Contents|
    {
      rank' := ServePred(g, E, D, Z, Pred, x, c0, rank');
    }
    assert E.Contents + D.Contents == D.Contents;
  }

  /** The start of arborescence: Pred all 0 except Pred[x] == -1, Z
      marking x alone. */
  method NewPred(g: Graph, x: int) returns (Z: array<bool>, Pred: array<int>, ghost rank: seq<nat>)
    requires 0 <= x < |g|
    ensures fresh(Z) && fresh(Pred) && Z.Length == |g| && Pred.Length == |g|
    ensures forall v :: 0 <= v < |g| ==> (Z[v] <==> v == x)
    ensures PredTree(g, x, Z[..], Pred[..], rank)
  {
    Pred := new int[|g|](_ => 0);
    Pred[x] := -1;
    Z := new bool[|g|](_ => false);
    Z[x] := true;
    rank := seq(|g|, _ => 0);
  }

  /** arborescence(G, x): the breadth-first exploration from x that also
      records, for each vertex it reaches, the vertex through which it
      reached it. Pred[x] is -1; every other reachable vertex v has a
      reachable predecessor with an arc Pred[v] -> v, and following Pred
      from v leads back to x; the unreachable vertices keep 0, which cannot
      be told apart from vertex 0. */
  method Arborescence(g: Graph, x: int) returns (Pred: array<int>)
    requires WellFormed(g) && 0 <= x < |g|
    ensures fresh(Pred) && Pred.Length == |g| && Pred[x] == -1
    ensures forall v :: 0 <= v < |g| && v != x && Reachable(g, x, v) ==>
              0 <= Pred[v] < |g| && Edge(g, Pred[v], v) && Reachable(g, x, Pred[v])
    ensures forall v :: 0 <= v < |g| && v != x && !Reachable(g, x, v) ==> Pred[v] == 0
    ensures forall v :: 0 <= v < |g| && Reachable(g, x, v) ==> LeadsTo(Pred[..], v, x)
  {
    var Z;
    ghost var rank;
    Z, Pred, rank := NewPred(g, x);
    var E := new ListeFIFO(|g|);
    var ok := E.Insertion(x);
    var D := new ListeFIFO(|g|);
    FrontierStart(g, x, Z[..]);
    for k := 1 to |g|
      invariant fresh(E) && fresh(E.elements) && fresh(D) && fresh(D.elements)
      invariant E != D && E.elements != D.elements && Pred != E.elements && Pred != D.elements
      invariant E.Valid() && D.Valid() && E.capacite == |g| && D.capacite == |g|
      invariant D.Contents == [] && CountTrue(Z[..]) >= 1
      invariant Frontier(g, x, Z[..], E.Contents)
      invariant E.Contents == [] || CountTrue(Z[..]) >= k
      invariant PredTree(g, x, Z[..], Pred[..], rank)
    {
      rank := RoundPred(g, E, D, Z, Pred, x, rank);
      E, D := D, E;
    }
    FrontierFinal(g, x, Z[..], E.Contents);
    PredTreeSpec(g, x, Z[..], Pred[..], rank);
  }

  // -----------------------------------------------------------------------
  // fermetureSymEfficace and CC

  /** fermetureSymEfficace(g): for each arc (x, s) of g, vertex by vertex
      and in list order, s -> x and then x -> s are added to a graph that
      starts without arcs. The result has exactly the arcs of g in both
      directions. */
  method FermetureSymEfficace(g: Graph) returns (g1: Graph)
    requires WellFormed(g)
    ensures IsSymClosure(g1, g) && WellFormed(g1)
  {
    var nsom := |g|;
    g1 := EmptyGraph(nsom);
    for x := 0 to nsom
      invariant PairsIn(ArcsBelow(g, x), nsom)
      invariant g1 == SymAdd(EmptyGraph(nsom), ArcsBelow(g, x))
    {
      ArcsUpToStart(g, x);
      for m := 0 to |g[x]|
        invariant PairsIn(ArcsUpTo(g, x, m), nsom)
        invariant g1 == SymAdd(EmptyGraph(nsom), ArcsUpTo(g, x, m))
      {
        var s := g[x][m];
        ArcsUpToSnoc(g, x, m);
        ArcsUpToFacts(g, x, m + 1);
        SymAddSnoc(EmptyGraph(nsom), ArcsUpTo(g, x, m), (x, s));
        g1 := g1[s := [x] + g1[s]];
        g1 := g1[x := [s] + g1[x]];
      }
      ArcsUpToEnd(g, x);
    }
    SymAddIsClosure(g);
    SymAddWellFormed(EmptyGraph(nsom), ArcsBelow(g, nsom));
  }

  /** CC(G, x): the vertices connected to x when arc directions are ignored. */
  method CC(g: Graph, x: int) returns (Z: array<bool>)
    requires WellFormed(g) && 0 <= x < |g|
    ensures fresh(Z) && Z.Length == |g|
    ensures forall y :: 0 <= y < |g| ==> (Z[y] <==> Connected(g, x, y))
  {
    var gg := FermetureSymEfficace(g);
    Z := ExplorationLargeur(gg, x);
    forall y | 0 <= y < |g|
      ensures Z[y] <==> Connected(g, x, y)
    {
      SymClosureReachable(gg, g, x, y);
    }
  }

  // -----------------------------------------------------------------------
  // algoKruskal

  /** One turn of the loop of algoKruskal: the i-th arc (x, y) in weight
      order joins Tr when CC finds x and y not yet connected in Tr. */
  method Consider(Tr: Graph, I: array<int>, T: array<int>, O: array<int>, i: int, k: int,
                  ghost n: nat, ghost P: seq<int>, ghost o: seq<int>,
                  ghost es: seq<ArcPair>, ghost picked: seq<int>, ghost w: int)
    returns (Tr': Graph, k': int, ghost es': seq<ArcPair>, ghost picked': seq<int>, ghost w': int)
    requires O[..] == o && Kruskal.Kept(n, I[..], T[..], P, o, i, es, picked, w, 0)
    requires Tr == EdgeGraph(n, es) && k == |es| && i < |o|
    ensures Kruskal.Kept(n, I[..], T[..], P, o, i + 1, es', picked', w', 0)
    ensures Tr' == EdgeGraph(n, es') && k' == |es'| && |es'| <= |es| + 1
    ensures Connected(EdgeGraph(n, es), I[o[i]], T[o[i]]) ==> es' == es && picked' == picked && w' == w
    ensures !Connected(EdgeGraph(n, es), I[o[i]], T[o[i]]) ==>
              es' == es + [(I[o[i]], T[o[i]])] && picked' == picked + [o[i]] && w' == w + P[o[i]]
  {
    var a := O[i];
    var x, y := I[a], T[a];
    EdgeGraphWellFormed(n, es);
    var Z := CC(Tr, x);
    if !Z[y] {
      Kruskal.KeptAccept(n, I[..], T[..], P, o, i, es, picked, w, 0);
      EdgeGraphSnoc(n, es, (x, y));
      Tr', k', es', picked', w' := Tr[x := [y] + Tr[x]], k + 1, es + [(x, y)], picked + [a], w + P[a];
    } else {
      Kruskal.KeptReject(n, I[..], T[..], P, o, i, es, picked, w, 0);
      Tr', k', es', picked', w' := Tr, k, es, picked, w;
    }
  }

  /** algoKruskal(Gp): Kruskal's algorithm on the weighted graph of nsom
      vertices whose arc k runs from I[k] to T[k] with weight poids[k]. The
      arcs are examined in ascending order of weight, and each one whose
      ends CC does not find connected in the tree Tr joins it, until Tr has
      nsom - 1 edges. The source takes the connectivity of the graph for
      granted and reads past the sorted arcs otherwise; here running out
      of arcs ends the loop with ok false. */
  method AlgoKruskal(nsom: int, narc: int, I: array<int>, T: array<int>, poids: array<int>)
    returns (Tr: Graph, ok: bool, ghost es: seq<ArcPair>, ghost picked: seq<int>)
    requires nsom >= 1 && 0 <= narc <= I.Length && narc <= T.Length && narc <= poids.Length
    requires forall k :: 0 <= k < narc ==> 0 <= I[k] < nsom && 0 <= T[k] < nsom
    ensures PairsIn(es, nsom) && Tr == EdgeGraph(nsom, es) && Forest(nsom, es)
    ensures ok <==> |es| == nsom - 1
    ensures |es| <= nsom - 1
    ensures Kruskal.Picks(I[..], T[..], poids[..], es, picked)
    ensures forall t :: 0 <= t < |picked| ==> 0 <= picked[t] < narc
    ensures !ok ==> forall k :: 0 <= k < narc ==> Connected(Tr, I[k], T[k])
    ensures ok <==> Spanning(Tr)
    ensures Kruskal.ArcsSpan(nsom, I[..], T[..], narc) ==> ok
  {
    Tr := EmptyGraph(nsom);
    var O := TriAretes(poids, narc);
    ghost var Iv, Tv, P, o := I[..], T[..], poids[..], O[..];
    Kruskal.OrderedFromSort(nsom, Iv, Tv, P, o, narc);
    Kruskal.KeptStart(nsom, Iv, Tv, P, o, 0);
    var i, k := 0, 0;
    es, picked := [], [];
    ghost var w := 0;
    while k < nsom - 1 && i < O.Length
      invariant O[..] == o && I[..] == Iv && T[..] == Tv && poids[..] == P
      invariant Kruskal.Kept(nsom, Iv, Tv, P, o, i, es, picked, w, 0)
      invariant Tr == EdgeGraph(nsom, es) && k == |es| <= nsom - 1
      decreases O.Length - i
    {
      Tr, k, es, picked, w := Consider(Tr, I, T, O, i, k, nsom, P, o, es, picked, w);
      i := i + 1;
    }
    ok := k == nsom - 1;
    Kruskal.TreeOutcome(nsom, es, Iv, Tv, P, o, narc);
  }
}
