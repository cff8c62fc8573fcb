/** vdc.c: the pieces of the A* search for a travelling-salesman circuit
    (the "voyageur de commerce"). A node of the problem-resolution graph
    holds a route, the cities visited so far (listsom[0 .. len)), the cost
    estimates estim_g and estim_f, and the link next to the following node
    of a list. The road map is a graph of graph_basic.c; these functions
    only read its successor lists, which are passed as the value adjs
    (adjs[u] lists the arcs (som, v_arc) leaving u, in list order). */
module Vdc {
  import opened GraphBasic

  datatype Option<T> = None | Some(value: T)

  /** LONG_MAX for a 64-bit long. */
  const LONG_MAX: int := 0x7FFF_FFFF_FFFF_FFFF

  /** Every arc of the road map leads to one of its cities. */
  ghost predicate ArcsIn(adjs: seq<seq<Arc>>) {
    forall u, k :: 0 <= u < |adjs| && 0 <= k < |adjs[u]| ==> 0 <= adjs[u][k].som < |adjs|
  }

  ghost predicate Distinct(route: seq<int>) {
    forall j, k :: 0 <= j < k < |route| ==> route[j] != route[k]
  }

  /** A node of the problem-resolution graph (struct node). */
  class Node {
    var estimG: int
    var estimF: int
    const listsom: array<int>
    var len: int
    const n: int
    var next: Node?

    /** AllocNode(n): an empty route in a zero-filled table of n cities,
        both estimates 0, no next node. */
    constructor (n: int)
      requires n >= 0
      ensures this.n == n && len == 0 && estimG == 0 && estimF == 0 && next == null
      ensures fresh(listsom) && listsom.Length == n && forall k :: 0 <= k < n ==> listsom[k] == 0
    {
      this.n := n;
      listsom := new int[n](_ => 0);
      estimG := 0;
      estimF := 0;
      len := 0;
      next := null;
    }

    /** AllocNode(m->n) followed by a copy of every field of m: the route
        table and the next link are shared with m, not copied. */
    constructor Copy(m: Node)
      ensures estimG == m.estimG && estimF == m.estimF && listsom == m.listsom
      ensures len == m.len && n == m.n && next == m.next
    {
      n := m.n;
      listsom := m.listsom;
      estimG, estimF, len, next := m.estimG, m.estimF, m.len, m.next;
    }
  }

  /** The route of p: listsom[0 .. len). */
  ghost function Route(p: Node): seq<int>
    reads p, p.listsom
    requires 0 <= p.len <= p.listsom.Length
  {
    p.listsom[..p.len]
  }

  // -----------------------------------------------------------------------
  // NotInListSom, get_distance, arcmin

  /** NotInListSom(s, p): whether s is absent from the route of p. */
  method NotInListSom(s: int, p: Node) returns (r: bool)
    requires 0 <= p.len <= p.listsom.Length
    ensures r <==> s !in p.listsom[..p.len]
  {
    var som := p.listsom;
    for i := 0 to p.len
      invariant s !in som[..i]
    {
      if som[i] == s {
        return false;
      }
    }
    return true;
  }

  /** The value of the first arc of the list leading to b, if any. */
  function FirstArc(arcs: seq<Arc>, b: int): Option<int> {
    if arcs == [] then None
    else if arcs[0].som == b then Some(arcs[0].vArc)
    else FirstArc(arcs[1..], b)
  }

  /** FirstArc finds nothing exactly when no arc leads to b, and otherwise
      the value of an arc to b that no earlier arc to b precedes. */
  lemma {:induction false} FirstArcSpec(arcs: seq<Arc>, b: int)
    ensures FirstArc(arcs, b).None? <==> forall k :: 0 <= k < |arcs| ==> arcs[k].som != b
    ensures FirstArc(arcs, b).Some? ==>
              exists k :: 0 <= k < |arcs| && arcs[k].som == b && arcs[k].vArc == FirstArc(arcs, b).value &&
                          forall j :: 0 <= j < k ==> arcs[j].som != b
  {
    if arcs != [] && arcs[0].som != b {
      FirstArcSpec(arcs[1..], b);
      assert forall k :: 1 <= k < |arcs| ==> arcs[k] == arcs[1..][k - 1];
      if FirstArc(arcs, b).Some? {
        var k :| 0 <= k < |arcs[1..]| && arcs[1..][k].som == b && arcs[1..][k].vArc == FirstArc(arcs, b).value &&
                 forall j :: 0 <= j < k ==> arcs[1..][j].som != b;
        assert arcs[k + 1] == arcs[1..][k];
      }
    }
  }

  /** The distance between cities a and b: the value of the first arc
      a -> b, failing that of the first arc b -> a, failing that -1. */
  function Distance(adjs: seq<seq<Arc>>, a: int, b: int): (d: int)
    requires 0 <= a < |adjs| && 0 <= b < |adjs|
  {
    match FirstArc(adjs[a], b)
    case Some(v) => v
    case None =>
      match FirstArc(adjs[b], a)
      case Some(v) => v
      case None => -1
  }

  /** Whether either list holds an arc between a and b does not depend on
      the order of a and b; so, when no arc carries the value -1, neither
      does whether get_distance answers -1. */
  lemma DistanceSymmetric(adjs: seq<seq<Arc>>, a: int, b: int)
    requires 0 <= a < |adjs| && 0 <= b < |adjs|
    requires forall u, k :: 0 <= u < |adjs| && 0 <= k < |adjs[u]| ==> adjs[u][k].vArc != -1
    ensures Distance(adjs, a, b) == -1 <==> Distance(adjs, b, a) == -1
    ensures Distance(adjs, a, b) == -1 <==>
              (forall k :: 0 <= k < |adjs[a]| ==> adjs[a][k].som != b) &&
              (forall k :: 0 <= k < |adjs[b]| ==> adjs[b][k].som != a)
  {
    var ab, ba := FirstArc(adjs[a], b), FirstArc(adjs[b], a);
    FirstArcSpec(adjs[a], b);
    FirstArcSpec(adjs[b], a);
    if ab.Some? {
      var k :| 0 <= k < |adjs[a]| && adjs[a][k].som == b && adjs[a][k].vArc == ab.value;
    }
    if ba.Some? {
      var k :| 0 <= k < |adjs[b]| && adjs[b][k].som == a && adjs[b][k].vArc == ba.value;
    }
  }

  /** get_distance(a, b, G): walks the list of a looking for b, then the
      list of b looking for a. */
  method GetDistance(a: int, b: int, adjs: seq<seq<Arc>>) returns (d: int)
    requires 0 <= a < |adjs| && 0 <= b < |adjs|
    ensures d == Distance(adjs, a, b)
  {
    var cellA, cellB := adjs[a], adjs[b];
    for k := 0 to |cellA|
      invariant FirstArc(cellA, b) == FirstArc(cellA[k..], b)
    {
      if cellA[k].som == b {
        return cellA[k].vArc;
      }
      assert cellA[k..][1..] == cellA[k + 1..];
    }
    for k := 0 to |cellB|
      invariant FirstArc(cellB, a) == FirstArc(cellB[k..], a)
    {
      if cellB[k].som == a {
        return cellB[k].vArc;
      }
      assert cellB[k..][1..] == cellB[k + 1..];
    }
    return -1;
  }

  /** The least of LONG_MAX and of the distances from s to its first k
      successors. */
  function MinDistance(adjs: seq<seq<Arc>>, s: int, k: int): int
    requires ArcsIn(adjs) && 0 <= s < |adjs| && 0 <= k <= |adjs[s]|
  {
    if k == 0 then LONG_MAX
    else
      var m := MinDistance(adjs, s, k - 1);
      var d := Distance(adjs, s, adjs[s][k - 1].som);
      if d < m then d else m
  }

  /** MinDistance is at most LONG_MAX and at most every distance it looks
      at, and is LONG_MAX or one of them. */
  lemma {:induction false} MinDistanceSpec(adjs: seq<seq<Arc>>, s: int, k: int)
    requires ArcsIn(adjs) && 0 <= s < |adjs| && 0 <= k <= |adjs[s]|
    ensures MinDistance(adjs, s, k) <= LONG_MAX
    ensures forall t :: 0 <= t < k ==> MinDistance(adjs, s, k) <= Distance(adjs, s, adjs[s][t].som)
    ensures MinDistance(adjs, s, k) == LONG_MAX ||
            exists t :: 0 <= t < k && MinDistance(adjs, s, k) == Distance(adjs, s, adjs[s][t].som)
  {
    if k > 0 {
      MinDistanceSpec(adjs, s, k - 1);
    }
  }

  /** arcmin(s, G): the smallest distance from s to one of its successors,
      LONG_MAX when s has none. */
  method ArcMin(s: int, adjs: seq<seq<Arc>>) returns (val: int)
    requires ArcsIn(adjs) && 0 <= s < |adjs|
    ensures val == MinDistance(adjs, s, |adjs[s]|)
    ensures adjs[s] == [] ==> val == LONG_MAX
  {
    val := LONG_MAX;
    var itSom := adjs[s];
    for k := 0 to |itSom|
      invariant val == MinDistance(adjs, s, k)
    {
      var d := GetDistance(s, itSom[k].som, adjs);
      if d < val {
        val := GetDistance(s, itSom[k].som, adjs);
      }
    }
  }

  // -----------------------------------------------------------------------
  // ComputeH

  /** The number of cities 0 .. m - 1 absent from the route. */
  function CountMissing(route: seq<int>, m: nat): (c: nat)
    ensures c <= m
  {
    if m == 0 then 0 else CountMissing(route, m - 1) + (if m - 1 in route then 0 else 1)
  }

  ghost function Present(route: seq<int>, m: nat): set<int> {
    set i | 0 <= i < m && i in route
  }

  lemma {:induction false} CountMissingPresent(route: seq<int>, m: nat)
    ensures CountMissing(route, m) + |Present(route, m)| == m
  {
    if m > 0 {
      CountMissingPresent(route, m - 1);
      if m - 1 in route {
        assert Present(route, m) == Present(route, m - 1) + {m - 1};
      } else {
        assert Present(route, m) == Present(route, m - 1);
      }
    }
  }

  lemma {:induction false} DistinctCard(route: seq<int>)
    requires Distinct(route)
    ensures |set x | x in route| == |route|
  {
    if route != [] {
      var front, last := route[..|route| - 1], route[|route| - 1];
      DistinctCard(front);
      assert (set x | x in route) == (set x | x in front) + {last};
    }
  }

  /** A route of distinct cities among n misses exactly n - |route| of them. */
  lemma CountMissingDistinct(route: seq<int>, n: nat)
    requires Distinct(route) && forall k :: 0 <= k < |route| ==> 0 <= route[k] < n
    ensures CountMissing(route, n) == n - |route|
  {
    CountMissingPresent(route, n);
    DistinctCard(route);
    assert Present(route, n) == set x | x in route;
  }

  /** a, added once for every city 0 .. m - 1 absent from the route. */
  function AddMissing(route: seq<int>, m: nat, a: int): int {
    if m == 0 then 0 else AddMissing(route, m - 1, a) + (if m - 1 in route then 0 else a)
  }

  lemma {:induction false} AddMissingCount(route: seq<int>, m: nat, a: int)
    ensures AddMissing(route, m, a) == CountMissing(route, m) * a
  {
    if m > 0 {
      AddMissingCount(route, m - 1, a);
      if m - 1 !in route {
        calc {
          AddMissing(route, m, a);
          CountMissing(route, m - 1) * a + a;
          (CountMissing(route, m - 1) + 1) * a;
        }
      }
    }
  }

  /** The estimate heuristic 1 gives for a node of estim_g g whose route
      ends at city s: g plus, for each city not yet on the route, the
      smallest distance out of s. */
  function HeuristicOne(adjs: seq<seq<Arc>>, route: seq<int>, s: int, g: int): int
    requires ArcsIn(adjs) && 0 <= s < |adjs|
  {
    g + AddMissing(route, |adjs|, MinDistance(adjs, s, |adjs[s]|))
  }

  /** For a route of distinct cities, heuristic 1 adds arcmin of the last
      city once for each of the nsom - len cities still to visit. */
  lemma HeuristicOneDistinct(adjs: seq<seq<Arc>>, route: seq<int>, g: int)
    requires ArcsIn(adjs) && |route| >= 1
    requires Distinct(route) && forall k :: 0 <= k < |route| ==> 0 <= route[k] < |adjs|
    ensures HeuristicOne(adjs, route, route[|route| - 1], g) ==
              g + (|adjs| - |route|) * MinDistance(adjs, route[|route| - 1], |adjs[route[|route| - 1]]|)
  {
    var s := route[|route| - 1];
    AddMissingCount(route, |adjs|, MinDistance(adjs, s, |adjs[s]|));
    CountMissingDistinct(route, |adjs|);
  }

  /** ComputeH(p, G, code): sets estim_f to estim_g, then, for heuristic 1,
      adds arcmin of the last city of the route once for every city not on
      the route; any other code leaves estim_f equal to estim_g. The result
      is the new estim_f. */
  method ComputeH(p: Node, adjs: seq<seq<Arc>>, code: int) returns (h: int)
    requires ArcsIn(adjs) && 0 <= p.len <= p.listsom.Length
    requires forall k :: 0 <= k < p.len ==> 0 <= p.listsom[k] < |adjs|
    requires code == 1 && |adjs| > 0 ==> p.len >= 1
    modifies p`estimF
    ensures h == p.estimF
    ensures code != 1 || p.len == 0 ==> h == p.estimG
    ensures code == 1 && p.len >= 1 ==> h == HeuristicOne(adjs, p.listsom[..p.len], p.listsom[p.len - 1], p.estimG)
  {
    var len, som := p.len, p.listsom;
    ghost var route := som[..len];
    ghost var arcm := if len >= 1 then MinDistance(adjs, som[len - 1], |adjs[som[len - 1]]|) else 0;
    p.estimF := p.estimG;
    if code == 1 {
      for i := 0 to |adjs|
        invariant som[..len] == route
        invariant p.estimF == p.estimG + AddMissing(route, i, arcm)
      {
        var notIn := NotInListSom(i, p);
        if notIn {
          var a := ArcMin(som[len - 1], adjs);
          p.estimF := p.estimF + a;
        }
      }
      if len >= 1 {
        assert |route| == len && route[len - 1] == som[len - 1];
        assert arcm == MinDistance(adjs, route[|route| - 1], |adjs[route[|route| - 1]]|);
        assert p.estimF == p.estimG + AddMissing(route, |adjs|, arcm);
        assert p.estimF == HeuristicOne(adjs, route, som[len - 1], p.estimG);
      }
    }
    h := p.estimF;
  }

  // -----------------------------------------------------------------------
  // DevelopNode

  /** c is the child of a node with the n-city table full and route
      full[..len] obtained by going on to city i from the last city s:
      route extended by i, estim_g the distance from s to i, estim_f
      heuristic 1 of the new route. */
  ghost predicate Child(c: Node, adjs: seq<seq<Arc>>, full: seq<int>, len: int, i: int)
    reads c`len, c`estimG, c`estimF, c.listsom
    requires ArcsIn(adjs) && 1 <= len < |full| == |adjs| && 0 <= i < |adjs| && 0 <= full[len - 1] < |adjs|
  {
    && c.n == |full| && c.len == len + 1 && c.listsom[..] == full[len := i]
    && c.estimG == Distance(adjs, full[len - 1], i)
    && c.estimF == HeuristicOne(adjs, full[..len] + [i], i, c.estimG)
  }

  /** The body of DevelopNode's loop for a city i that qualifies: the node
      of p's route extended by i, with its estimates. */
  method NewChild(p: Node, i: int, adjs: seq<seq<Arc>>) returns (c: Node)
    requires ArcsIn(adjs) && 1 <= p.len < p.n == p.listsom.Length == |adjs| && 0 <= i < |adjs|
    requires forall k :: 0 <= k < p.len ==> 0 <= p.listsom[k] < |adjs|
    ensures fresh(c) && fresh(c.listsom) && c.next == null
    ensures Child(c, adjs, p.listsom[..], p.len, i)
  {
    c := new Node(p.n);
    c.len := p.len + 1;
    forall k | 0 <= k < p.n {
      c.listsom[k] := p.listsom[k];
    }
    c.listsom[c.len - 1] := i;
    assert c.listsom[..c.len] == p.listsom[..p.len] + [i];
    var d := GetDistance(p.listsom[p.len - 1], i, adjs);
    c.estimG := c.estimG + d;
    c.estimF := ComputeH(c, adjs, 1);
  }

  /** The cities DevelopNode goes on to from p: those off the route that
      an arc joins to the last city, either way. */
  ghost predicate Qualifies(adjs: seq<seq<Arc>>, route: seq<int>, i: int)
    requires |route| >= 1 && 0 <= route[|route| - 1] < |adjs| && 0 <= i < |adjs|
  {
    i !in route && Distance(adjs, route[|route| - 1], i) != -1
  }

  /** The test of DevelopNode's loop: NotInListSom(i, p), then
      get_distance from the last city of p to i is not -1. */
  method Qualifying(p: Node, i: int, adjs: seq<seq<Arc>>) returns (ok: bool)
    requires 1 <= p.len <= p.listsom.Length && 0 <= p.listsom[p.len - 1] < |adjs| && 0 <= i < |adjs|
    ensures ok <==> Qualifies(adjs, p.listsom[..p.len], i)
  {
    ok := NotInListSom(i, p);
    if ok {
      var d := GetDistance(p.listsom[p.len - 1], i, adjs);
      ok := d != -1;
    }
  }

  /** The list of nodes starting at head is nodes, linked by next and
      ended by null. */
  ghost predicate ListFrom(head: Node?, nodes: seq<Node>)
    reads set j | 0 <= j < |nodes| :: nodes[j]
  {
    && (head == null <==> nodes == [])
    && (nodes != [] ==> head == nodes[0] && nodes[|nodes| - 1].next == null)
    && forall j :: 0 <= j < |nodes| - 1 ==> nodes[j].next == nodes[j + 1]
  }

  /** The cities DevelopNode has gone on to before city i: exactly the
      qualifying ones below i, in ascending order. */
  ghost predicate Listed(adjs: seq<seq<Arc>>, route: seq<int>, i: int, cities: seq<int>)
    requires |route| >= 1 && 0 <= route[|route| - 1] < |adjs| && 0 <= i <= |adjs|
  {
    && (forall j :: 0 <= j < |cities| ==> 0 <= cities[j] < i && Qualifies(adjs, route, cities[j]))
    && (forall j, j' :: 0 <= j < j' < |cities| ==> cities[j] < cities[j'])
    && (forall v :: 0 <= v < i && Qualifies(adjs, route, v) ==> v in cities)
  }

  /** The nodes DevelopNode has made so far: kids, chained from p, the
      children going on to cities; itRes is the last node of the chain. */
  ghost predicate Chained(p: Node, adjs: seq<seq<Arc>>, full: seq<int>, itRes: Node,
                          kids: seq<Node>, cities: seq<int>)
    reads p, p.listsom, set j | 0 <= j < |kids| :: kids[j], set j | 0 <= j < |kids| :: kids[j].listsom
  {
    && ArcsIn(adjs) && 1 <= p.len <= p.n == p.listsom.Length == |adjs| && p.listsom[..] == full
    && (forall k :: 0 <= k < p.len ==> 0 <= full[k] < |adjs|)
    && (p.len < p.n || forall v :: 0 <= v < p.n ==> v in full[..p.len])
    && |cities| == |kids| && (kids != [] ==> p.len < p.n)
    && itRes == (if kids == [] then p else kids[|kids| - 1])
    && (kids != [] ==> p.next == kids[0] && ListFrom(p.next, kids))
    && (forall j :: 0 <= j < |kids| ==> kids[j] != p)
    && (forall j :: 0 <= j < |kids| ==> 0 <= cities[j] < |adjs| && Child(kids[j], adjs, full, p.len, cities[j]))
  }

  /** A city that does not qualify is left out. */
  lemma ListedSkip(adjs: seq<seq<Arc>>, route: seq<int>, i: int, cities: seq<int>)
    requires |route| >= 1 && 0 <= route[|route| - 1] < |adjs| && 0 <= i < |adjs|
    requires Listed(adjs, route, i, cities) && !Qualifies(adjs, route, i)
    ensures Listed(adjs, route, i + 1, cities)
  {
  }

  /** A city that qualifies goes at the end. */
  lemma ListedSnoc(adjs: seq<seq<Arc>>, route: seq<int>, i: int, cities: seq<int>)
    requires |route| >= 1 && 0 <= route[|route| - 1] < |adjs| && 0 <= i < |adjs|
    requires Listed(adjs, route, i, cities) && Qualifies(adjs, route, i)
    ensures Listed(adjs, route, i + 1, cities + [i])
  {
  }

  /** The test of DevelopNode's loop, run with the loop's state at hand. */
  method Check(p: Node, adjs: seq<seq<Arc>>, i: int, ghost itRes: Node, ghost kids: seq<Node>,
               ghost cities: seq<int>, ghost full: seq<int>) returns (ok: bool)
    requires Chained(p, adjs, full, itRes, kids, cities) && 0 <= i < |adjs|
    ensures Chained(p, adjs, full, itRes, kids, cities)
    ensures ok <==> Qualifies(adjs, full[..p.len], i)
  {
    ok := Qualifying(p, i, adjs);
  }

  /** One turn of DevelopNode's loop, for city i. */
  method Develop(p: Node, adjs: seq<seq<Arc>>, i: int, itRes: Node, ghost kids: seq<Node>,
                 ghost cities: seq<int>, ghost full: seq<int>, ok: bool)
    returns (itRes': Node, ghost kids': seq<Node>, ghost cities': seq<int>, ghost c: Node?)
    requires Chained(p, adjs, full, itRes, kids, cities)
    requires 0 <= i < |adjs| && Listed(adjs, full[..p.len], i, cities)
    requires ok <==> Qualifies(adjs, full[..p.len], i)
    modifies itRes`next
    ensures Chained(p, adjs, full, itRes', kids', cities') && Listed(adjs, full[..p.len], i + 1, cities')
    ensures (c == null && kids' == kids) || (c != null && kids' == kids + [c] && fresh(c) && fresh(c.listsom))
    ensures kids' == [] ==> p.next == old(p.next)
  {
    itRes', kids', cities', c := itRes, kids, cities, null;
    if ok {
      ListedSnoc(adjs, full[..p.len], i, cities);
      var n := Append(p, adjs, i, itRes, kids, cities, full);
      itRes', kids', cities', c := n, kids + [n], cities + [i], n;
    } else {
      ListedSkip(adjs, full[..p.len], i, cities);
    }
  }

  /** DevelopNode(p, G): for every city i in ascending order that is off
      the route of p and joined by an arc to its last city, a new node of
      the route extended by i; the new nodes are chained from p.next in
      that order and the first of them is returned (p.next unchanged, and
      returned, when there is none). cities lists the city each new node
      goes on to. */
  method DevelopNode(p: Node, adjs: seq<seq<Arc>>) returns (r: Node?, ghost kids: seq<Node>, ghost cities: seq<int>)
    requires ArcsIn(adjs) && 1 <= p.len <= p.n == p.listsom.Length == |adjs|
    requires forall k :: 0 <= k < p.len ==> 0 <= p.listsom[k] < |adjs|
    requires p.len < p.n || forall i :: 0 <= i < p.n ==> i in p.listsom[..p.len]
    modifies p`next
    ensures r == p.next && (kids == [] ==> r == old(p.next))
    ensures kids != [] ==> ListFrom(r, kids)
    ensures |cities| == |kids| && (kids != [] ==> p.len < p.n)
    ensures forall j :: 0 <= j < |kids| ==> fresh(kids[j])
    ensures forall j :: 0 <= j < |kids| ==>
              0 <= cities[j] < |adjs| && Child(kids[j], adjs, p.listsom[..], p.len, cities[j])
    ensures forall j :: 0 <= j < |kids| ==> 0 <= cities[j] < |adjs| && Qualifies(adjs, p.listsom[..p.len], cities[j])
    ensures forall j, j' :: 0 <= j < j' < |cities| ==> cities[j] < cities[j']
    ensures forall i :: 0 <= i < |adjs| && Qualifies(adjs, p.listsom[..p.len], i) ==> i in cities
  {
    ghost var full := p.listsom[..];
    var itRes := p;
    kids, cities := [], [];
    for i := 0 to |adjs|
      invariant Chained(p, adjs, full, itRes, kids, cities) && Listed(adjs, full[..p.len], i, cities)
      invariant kids == [] ==> p.next == old(p.next)
      invariant forall j :: 0 <= j < |kids| ==> fresh(kids[j])
    {
      ghost var before := kids;
      ghost var c;
      var ok := Check(p, adjs, i, itRes, kids, cities, full);
      itRes, kids, cities, c := Develop(p, adjs, i, itRes, kids, cities, full, ok);
      forall j | 0 <= j < |kids|
        ensures fresh(kids[j])
      {
        if j < |before| {
          assert kids[j] == before[j];
        } else {
          assert c != null && kids[j] == c;
        }
      }
    }
    r := p.next;
  }

  /** The body of DevelopNode's loop for a city i that qualifies: the new
      node is linked after the last node of the list growing from p. */
  method Append(p: Node, adjs: seq<seq<Arc>>, i: int, itRes: Node, ghost kids: seq<Node>,
                ghost cities: seq<int>, ghost full: seq<int>) returns (c: Node)
    requires Chained(p, adjs, full, itRes, kids, cities)
    requires 0 <= i < |adjs| && Qualifies(adjs, full[..p.len], i)
    modifies itRes`next
    ensures fresh(c) && fresh(c.listsom)
    ensures Chained(p, adjs, full, c, kids + [c], cities + [i])
  {
    assert p.len < p.n;
    c := NewChild(p, i, adjs);
    itRes.next := c;
  }

  /** A child of a route of distinct cities, going on to a city off the
      route, has a route of distinct cities. */
  lemma ChildDistinct(c: Node, adjs: seq<seq<Arc>>, full: seq<int>, len: int, i: int)
    requires ArcsIn(adjs) && 1 <= len < |full| == |adjs| && 0 <= i < |adjs| && 0 <= full[len - 1] < |adjs|
    requires Child(c, adjs, full, len, i) && Distinct(full[..len]) && i !in full[..len]
    ensures c.listsom[..c.len] == full[..len] + [i] && Distinct(c.listsom[..c.len])
  {
    assert c.listsom[..c.len] == full[len := i][..len + 1];
    assert full[len := i][..len + 1] == full[..len] + [i];
  }

  // -----------------------------------------------------------------------
  // ExtractFirstOpen and the pruning of AStar

  /** The estim_f of each node of the list, as a long. */
  ghost function Keys(nodes: seq<Node>): (r: seq<int>)
    reads set j | 0 <= j < |nodes| :: nodes[j]
    ensures |r| == |nodes| && forall j :: 0 <= j < |nodes| ==> r[j] == nodes[j].estimF
  {
    if nodes == [] then [] else [nodes[0].estimF] + Keys(nodes[1..])
  }

  /** The position of the first smallest key. */
  function FirstMin(keys: seq<int>): (k: nat)
    requires |keys| > 0
    ensures k < |keys|
  {
    if |keys| == 1 then 0
    else
      var m := FirstMin(keys[..|keys| - 1]);
      if keys[|keys| - 1] < keys[m] then |keys| - 1 else m
  }

  /** FirstMin of a prefix one longer: the new key wins only if it is
      strictly smaller. */
  lemma FirstMinSnoc(keys: seq<int>, j: int)
    requires 1 <= j < |keys|
    ensures FirstMin(keys[..j + 1]) == if keys[j] < keys[FirstMin(keys[..j])] then j else FirstMin(keys[..j])
  {
    assert keys[..j + 1][..j] == keys[..j];
  }

  /** FirstMin finds a smallest key, and every key before it is larger. */
  lemma {:induction false} FirstMinSpec(keys: seq<int>)
    requires |keys| > 0
    ensures forall j :: 0 <= j < |keys| ==> keys[FirstMin(keys)] <= keys[j]
    ensures forall j :: 0 <= j < FirstMin(keys) ==> keys[j] > keys[FirstMin(keys)]
  {
    if |keys| > 1 {
      var front := keys[..|keys| - 1];
      FirstMinSpec(front);
      assert forall j :: 0 <= j < |front| ==> front[j] == keys[j];
    }
  }

  /** The scan of ExtractFirstOpen over a non-empty list: the first node
      whose estim_f is strictly smaller than that of every node before it
      and no larger than any after it. */
  method FirstOpen(open: Node, ghost nodes: seq<Node>, ghost keys: seq<int>) returns (nMin: Node)
    requires ListFrom(open, nodes) && keys == Keys(nodes)
    ensures |nodes| > 0 && nMin == nodes[FirstMin(keys)]
    ensures forall j :: 0 <= j < |nodes| ==> nMin.estimF <= nodes[j].estimF
  {
    var estimFMin := open.estimF;
    nMin := open;
    var nNext := open.next;
    ghost var j, mi := 1, 0;
    assert keys[..1] == [keys[0]];
    while nNext != null
      invariant 1 <= j <= |nodes|
      invariant nNext == if j < |nodes| then nodes[j] else null
      invariant mi == FirstMin(keys[..j]) && nMin == nodes[mi] && estimFMin == keys[mi]
      decreases |nodes| - j
    {
      var test := nNext.estimF;
      FirstMinSnoc(keys, j);
      if test < estimFMin {
        estimFMin := test;
        nMin := nNext;
        mi := j;
      }
      nNext := nNext.next;
      j := j + 1;
    }
    assert keys[..j] == keys;
    FirstMinSpec(keys);
  }

  /** ExtractFirstOpen(Open): NULL for an empty list; otherwise a new node
      with every field of the first node of the list whose estim_f is the
      smallest. The list itself is left as it is. */
  method ExtractFirstOpen(open: Node?, ghost nodes: seq<Node>) returns (r: Node?)
    requires ListFrom(open, nodes)
    ensures open == null ==> r == null
    ensures open != null ==> (|nodes| > 0 && r != null && fresh(r) &&
              (var m := nodes[FirstMin(old(Keys(nodes)))];
               r.estimG == m.estimG && r.estimF == m.estimF && r.listsom == m.listsom &&
               r.len == m.len && r.n == m.n && r.next == m.next))
  {
    if open == null {
      return null;
    }
    ghost var keys := Keys(nodes);
    var nMin := FirstOpen(open, nodes, keys);
    r := new Node.Copy(nMin);
  }

  /** The test of AStar that sets a candidate aside: its last city is the
      start 0 before all n cities are on the route, or all n are on the
      route and the last is not 0. */
  predicate Discarded(last: int, len: int, n: int) {
    (last == 0 && len != n) || (len == n && last != 0)
  }

  /** A child of a route that starts at city 0 never ends at 0 again, so
      the test sets it aside exactly when its route is complete: no
      candidate of DevelopNode can close the circuit. */
  lemma ChildDiscarded(route: seq<int>, i: int, n: int)
    requires |route| >= 1 && route[0] == 0 && i !in route
    ensures Discarded(i, |route| + 1, n) <==> |route| + 1 == n
  {
    assert route[0] in route;
  }
}
