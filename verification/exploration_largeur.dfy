/** explorationLargeur.c, the first version of the breadth-first
    exploration: one queue E, from which vertices are taken and into which
    their unmarked successors go, until it is empty. Its graphs come from
    the same successor-list library as arbrePoidsMin.c and are modelled the
    same way. */
module Exploration {
  import opened Paths
  import opened Fifo
  import ArbrePoidsMin

  /** The body of the loop of arborescence: the oldest vertex y of E is
      taken out, and its unmarked successors are marked and queued in E. */
  method Serve(g: Graph, E: ListeFIFO, Z: array<bool>, ghost x: int, ghost served: int)
    requires WellFormed(g) && E.Valid() && E.capacite == |g|
    requires Frontier(g, x, Z[..], E.Contents) && E.Contents != []
    requires |E.Contents| + served == CountTrue(Z[..]) && served >= 0
    modifies E, E.elements, Z
    ensures E.Valid() && E.capacite == |g| && E.elements == old(E.elements)
    ensures Frontier(g, x, Z[..], E.Contents)
    ensures |E.Contents| + served + 1 == CountTrue(Z[..])
    ensures |E.Contents| >= old(|E.Contents|) - 1
  {
    ghost var before := E.Contents;
    var y := E.SelectionSuppression();
    assert y == before[0] && y in before;
    FrontierSame(g, x, Z[..], before, [] + E.Contents + [y]);
    ArbrePoidsMin.Visit(g, Z, E, y, x, [], served + 1);
    assert [] + E.Contents == E.Contents;
  }

  /** arborescence(G, x): marks exactly the vertices reachable from x. A
      vertex is marked when it is queued and never queued again, so the
      queue of capacity nsom never overflows. The second queue D is
      allocated and never used. */
  method Arborescence(g: Graph, x: int) returns (Z: array<bool>)
    requires WellFormed(g) && 0 <= x < |g|
    ensures fresh(Z) && Z.Length == |g|
    ensures forall y :: 0 <= y < |g| ==> (Z[y] <==> Reachable(g, x, y))
  {
    var E;
    E, Z := ArbrePoidsMin.Start(g, x);
    var D := new ListeFIFO(|g|);
    ghost var served := CountTrue(Z[..]) - 1;
    while E.EstNonVide()
      invariant fresh(E) && fresh(E.elements)
      invariant E.Valid() && E.capacite == |g|
      invariant Frontier(g, x, Z[..], E.Contents)
      invariant |E.Contents| + served == CountTrue(Z[..]) && served >= 0
      decreases |g| - CountTrue(Z[..]), |E.Contents|
    {
      Serve(g, E, Z, x, served);
      served := served + 1;
    }
    FrontierFinal(g, x, Z[..], E.Contents);
  }
}
