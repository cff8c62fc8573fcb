/** The adjacency-list graph store: successor lists (gamma) whose cells come
    from a reserve of nmaxarc cells allocated once, the unused cells being
    threaded as a free list (libre). Pointers to cells are indices into the
    reserve; NULL is NIL. */
module GraphBasic {
  import opened Paths

  const NIL := -1

  /** A reserve cell: the link to the next cell, a vertex and an arc value. */
  datatype Cell = Cell(next: int, som: int, vArc: int)

  /** What a successor list holds for one arc: its head and its value. */
  datatype Arc = Arc(som: int, vArc: int)

  /** A "pointer to a cell pointer" (pcell *): either the head of a
      successor list or the next field of a cell. */
  datatype Slot = Gamma(v: int) | NextOf(cell: int)

  function Targets(arcs: seq<Arc>): (r: seq<int>)
    ensures |r| == |arcs| && forall k :: 0 <= k < |arcs| ==> r[k] == arcs[k].som
  {
    seq(|arcs|, k requires 0 <= k < |arcs| => arcs[k].som)
  }

  /** The successor-vertex view of a graph's lists. */
  function GraphOf(adjs: seq<seq<Arc>>): (g: Graph)
    ensures |g| == |adjs| && forall i :: 0 <= i < |adjs| ==> g[i] == Targets(adjs[i])
  {
    seq(|adjs|, i requires 0 <= i < |adjs| => Targets(adjs[i]))
  }

  /** Prepending an arc to one list prepends its head to that vertex's successors. */
  lemma GraphOfPrepend(adjs: seq<seq<Arc>>, i: int, a: Arc)
    requires 0 <= i < |adjs|
    ensures GraphOf(adjs[i := [a] + adjs[i]]) == GraphOf(adjs)[i := [a.som] + GraphOf(adjs)[i]]
  {
    assert Targets([a] + adjs[i]) == [a.som] + Targets(adjs[i]);
  }

  function TotalLen<X>(s: seq<seq<X>>): nat
  {
    if s == [] then 0 else TotalLen(s[..|s| - 1]) + |s[|s| - 1]|
  }

  /** Replacing one list changes the total length by the difference of the lengths. */
  lemma {:induction false} TotalLenUpdate<X>(s: seq<seq<X>>, i: int, l: seq<X>)
    requires 0 <= i < |s|
    ensures TotalLen(s[i := l]) == TotalLen(s) - |s[i]| + |l|
  {
    var t := s[i := l];
    if i < |s| - 1 {
      assert t[..|t| - 1] == s[..|s| - 1][i := l];
      TotalLenUpdate(s[..|s| - 1], i, l);
    } else {
      assert t[..|t| - 1] == s[..|s| - 1];
    }
  }

  lemma {:induction false} TotalLenEmpty<X>(s: seq<seq<X>>)
    requires forall i :: 0 <= i < |s| ==> s[i] == []
    ensures TotalLen(s) == 0
  {
    if s != [] {
      TotalLenEmpty(s[..|s| - 1]);
    }
  }

  /** The lengths of GraphOf's lists add up to the arc count. */
  lemma {:induction false} ArcCountBelowTotal(adjs: seq<seq<Arc>>)
    ensures ArcCountBelow(GraphOf(adjs), |adjs|) == TotalLen(adjs)
  {
    if adjs != [] {
      var front := adjs[..|adjs| - 1];
      ArcCountBelowTotal(front);
      ArcCountBelowPrefix(GraphOf(adjs), GraphOf(front), |front|);
    }
  }

  lemma {:induction false} ArcCountBelowPrefix(g: Graph, h: Graph, x: int)
    requires 0 <= x <= |h| <= |g| && forall u :: 0 <= u < x ==> g[u] == h[u]
    ensures ArcCountBelow(g, x) == ArcCountBelow(h, x)
  {
    if x > 0 {
      ArcCountBelowPrefix(g, h, x - 1);
    }
  }

  ghost predicate NoDup(s: seq<int>) {
    forall a, b :: 0 <= a < b < |s| ==> s[a] != s[b]
  }

  /** The position of the first arc to s, or |arcs| when there is none. */
  function FirstIndex(arcs: seq<Arc>, s: int): (k: nat)
    ensures k <= |arcs|
    ensures forall m :: 0 <= m < k ==> arcs[m].som != s
    ensures k < |arcs| ==> arcs[k].som == s
  {
    if arcs == [] then 0
    else if arcs[0].som == s then 0
    else 1 + FirstIndex(arcs[1..], s)
  }

  /** Starting from head and following next through res reaches exactly the
      given cells, then NIL. */
  ghost predicate ChainIn(res: seq<Cell>, head: int, cells: seq<int>)
  {
    && (forall k :: 0 <= k < |cells| ==> 0 <= cells[k] < |res|)
    && head == (if cells == [] then NIL else cells[0])
    && (forall k :: 0 <= k < |cells| ==>
          res[cells[k]].next == (if k + 1 < |cells| then cells[k + 1] else NIL))
  }

  /** The chain of cells from head spells out the arcs, in order. */
  ghost predicate ListLayout(res: seq<Cell>, head: int, cells: seq<int>, arcs: seq<Arc>) {
    && ChainIn(res, head, cells) && |cells| == |arcs|
    && forall k :: 0 <= k < |cells| ==> Arc(res[cells[k]].som, res[cells[k]].vArc) == arcs[k]
  }

  /** Every list gam[i] is laid out as the chain lists[i] holding adjs[i]. */
  ghost predicate Layout(res: seq<Cell>, gam: seq<int>, lists: seq<seq<int>>, adjs: seq<seq<Arc>>) {
    && |lists| == |gam| && |adjs| == |gam|
    && forall i :: 0 <= i < |gam| ==> ListLayout(res, gam[i], lists[i], adjs[i])
  }

  /** One link of a chain. */
  lemma ChainAt(res: seq<Cell>, head: int, cells: seq<int>, k: int)
    requires ChainIn(res, head, cells) && 0 <= k < |cells|
    ensures 0 <= cells[k] < |res|
    ensures res[cells[k]].next == if k + 1 < |cells| then cells[k + 1] else NIL
  {
  }

  /** A walk along a chain reaches NIL exactly at its end. */
  lemma ChainEnd(res: seq<Cell>, head: int, cells: seq<int>, m: int)
    requires ChainIn(res, head, cells) && 0 <= m <= |cells|
    requires (if m < |cells| then cells[m] else NIL) == NIL
    ensures m == |cells|
  {
  }

  /** A duplicate-free chain from head whose cells all belong to who. */
  ghost predicate Owned(res: seq<Cell>, head: int, cells: seq<int>, owner: seq<int>, who: int)
  {
    && |owner| == |res| && ChainIn(res, head, cells) && NoDup(cells)
    && forall k :: 0 <= k < |cells| ==> owner[cells[k]] == who
  }

  /** arcs is what the cells hold. */
  ghost predicate Reads(res: seq<Cell>, cells: seq<int>, arcs: seq<Arc>)
  {
    && |arcs| == |cells|
    && forall k :: 0 <= k < |cells| && 0 <= cells[k] < |res| ==>
         arcs[k] == Arc(res[cells[k]].som, res[cells[k]].vArc)
  }

  /** The invariant of the store, on its values: the free list and every
      successor list are well-linked, duplicate-free chains; owner says
      which chain a cell is on, so the chains are disjoint; adjs reads the
      arcs off the cells; and no cell is lost. */
  ghost predicate Store(res: seq<Cell>, gam: seq<int>, libre: int, lists: seq<seq<int>>,
                        free: seq<int>, owner: seq<int>, adjs: seq<seq<Arc>>)
  {
    && |lists| == |gam| && |adjs| == |gam|
    && Owned(res, libre, free, owner, NIL)
    && (forall i :: 0 <= i < |gam| ==>
          Owned(res, gam[i], lists[i], owner, i) && Reads(res, lists[i], adjs[i]))
    && |free| + TotalLen(adjs) == |res|
  }

  /** A chain is unaffected by changes to cells outside it. */
  lemma OwnedFrame(res: seq<Cell>, res': seq<Cell>, owner: seq<int>, owner': seq<int>,
                   head: int, cells: seq<int>, who: int, changed: set<int>)
    requires Owned(res, head, cells, owner, who) && |res'| == |res| && |owner'| == |owner|
    requires forall x :: 0 <= x < |res| && x !in changed ==>
      res'[x].next == res[x].next && owner'[x] == owner[x]
    requires forall k :: 0 <= k < |cells| ==> cells[k] !in changed
    ensures Owned(res', head, cells, owner', who)
  {
  }

  lemma ReadsFrame(res: seq<Cell>, res': seq<Cell>, cells: seq<int>, arcs: seq<Arc>)
    requires Reads(res, cells, arcs) && |res'| == |res|
    requires forall k :: 0 <= k < |cells| && 0 <= cells[k] < |res| ==>
      res'[cells[k]].som == res[cells[k]].som && res'[cells[k]].vArc == res[cells[k]].vArc
    ensures Reads(res', cells, arcs)
  {
  }

  /** Dropping the k-th cell and the k-th arc together keeps the reading. */
  lemma ReadsRemove(res: seq<Cell>, l: seq<int>, arcs: seq<Arc>, k: int)
    requires Reads(res, l, arcs) && 0 <= k < |l|
    ensures Reads(res, l[..k] + l[k + 1..], arcs[..k] + arcs[k + 1..])
  {
    var nl, na := l[..k] + l[k + 1..], arcs[..k] + arcs[k + 1..];
    forall m | 0 <= m < |nl| && 0 <= nl[m] < |res|
      ensures na[m] == Arc(res[nl[m]].som, res[nl[m]].vArc)
    {
      var m0 := if m < k then m else m + 1;
      assert nl[m] == l[m0] && na[m] == arcs[m0];
    }
  }

  /** A cell owned by someone else is not on who's chain. */
  lemma NotOwned(res: seq<Cell>, head: int, cells: seq<int>, owner: seq<int>, who: int, x: int)
    requires Owned(res, head, cells, owner, who) && 0 <= x < |owner| && owner[x] != who
    ensures forall k :: 0 <= k < |cells| ==> cells[k] != x
  {
  }

  lemma OwnedCons(res: seq<Cell>, head: int, cells: seq<int>, owner: seq<int>, who: int, p: int)
    requires Owned(res, head, cells, owner, who)
    requires 0 <= p < |res| && res[p].next == head && owner[p] == who
    requires forall k :: 0 <= k < |cells| ==> cells[k] != p
    ensures Owned(res, p, [p] + cells, owner, who)
  {
    var l := [p] + cells;
    forall k | 0 <= k < |l|
      ensures res[l[k]].next == (if k + 1 < |l| then l[k + 1] else NIL)
    {
      if k > 0 {
        assert l[k] == cells[k - 1];
        assert res[cells[k - 1]].next == (if k < |cells| then cells[k] else NIL);
        if k + 1 < |l| {
          assert l[k + 1] == cells[k];
        }
      } else if cells != [] {
        assert l[1] == cells[0];
      }
    }
    assert ChainIn(res, p, l);
  }

  lemma OwnedTail(res: seq<Cell>, head: int, cells: seq<int>, owner: seq<int>, who: int)
    requires Owned(res, head, cells, owner, who) && cells != []
    ensures Owned(res, res[cells[0]].next, cells[1..], owner, who)
    ensures forall k :: 0 <= k < |cells| - 1 ==> cells[1..][k] != cells[0]
  {
    var l := cells[1..];
    forall k | 0 <= k < |l|
      ensures res[l[k]].next == (if k + 1 < |l| then l[k + 1] else NIL)
    {
      assert l[k] == cells[k + 1];
      ChainAt(res, head, cells, k + 1);
      if k + 1 < |l| {
        assert l[k + 1] == cells[k + 2];
      }
    }
    ChainAt(res, head, cells, 0);
    assert ChainIn(res, res[cells[0]].next, l);
  }

  /** The list l without its k-th cell, position by position; it has no
      repeated cell when l has none. */
  lemma RemoveAt(l: seq<int>, k: int)
    requires 0 <= k < |l|
    ensures |l[..k] + l[k + 1..]| == |l| - 1
    ensures forall m :: 0 <= m < |l| - 1 ==> (l[..k] + l[k + 1..])[m] == if m < k then l[m] else l[m + 1]
    ensures NoDup(l) ==> NoDup(l[..k] + l[k + 1..])
  {
    var nl := l[..k] + l[k + 1..];
    if NoDup(l) {
      forall a, b | 0 <= a < b < |nl|
        ensures nl[a] != nl[b]
      {
        var a0 := if a < k then a else a + 1;
        var b0 := if b < k then b else b + 1;
        assert nl[a] == l[a0] && nl[b] == l[b0] && a0 < b0;
      }
    }
  }

  /** Bypassing the k-th cell c of a chain: the predecessor's next (or the
      head) takes c's old next. Only c and its predecessor change. */
  lemma OwnedRemove(res: seq<Cell>, res': seq<Cell>, owner: seq<int>, owner': seq<int>,
                    head: int, head': int, l: seq<int>, who: int, k: int)
    requires Owned(res, head, l, owner, who) && 0 <= k < |l|
    requires |res'| == |res| && |owner'| == |owner|
    requires forall x :: 0 <= x < |res| && x != l[k] && (k == 0 || x != l[k - 1]) ==>
      res'[x].next == res[x].next
    requires forall x :: 0 <= x < |res| && x != l[k] ==> owner'[x] == owner[x]
    requires k > 0 ==> res'[l[k - 1]].next == res[l[k]].next && head' == head
    requires k == 0 ==> head' == res[l[k]].next
    ensures Owned(res', head', l[..k] + l[k + 1..], owner', who)
  {
    var nl := l[..k] + l[k + 1..];
    assert ChainIn(res, head, l);
    RemoveAt(l, k);
    forall m | 0 <= m < |nl|
      ensures 0 <= nl[m] < |res'| && owner'[nl[m]] == who
      ensures res'[nl[m]].next == (if m + 1 < |nl| then nl[m + 1] else NIL)
    {
      if m < k - 1 {
        assert l[m] != l[k] && l[m] != l[k - 1];
        ChainAt(res, head, l, m);
        assert nl[m + 1] == l[m + 1];
      } else if m == k - 1 {
        assert l[m] != l[k];
        ChainAt(res, head, l, k);
        if m + 1 < |nl| {
          assert nl[m + 1] == l[k + 1];
        }
      } else {
        assert l[m + 1] != l[k];
        if k > 0 {
          assert l[m + 1] != l[k - 1];
        }
        ChainAt(res, head, l, m + 1);
        if m + 1 < |nl| {
          assert nl[m + 1] == l[m + 2];
        }
      }
    }
    if k == 0 {
      ChainAt(res, head, l, 0);
    }
    assert ChainIn(res', head', nl);
  }

  /** Linking the first free cell at the head of list i keeps the invariant. */
  lemma StorePush(res: seq<Cell>, gam: seq<int>, libre: int, lists: seq<seq<int>>,
                  free: seq<int>, owner: seq<int>, adjs: seq<seq<Arc>>, i: int, a: int, v: int)
    requires Store(res, gam, libre, lists, free, owner, adjs)
    requires 0 <= i < |gam| && free != []
    ensures var p := free[0];
      Store(res[p := Cell(gam[i], a, v)], gam[i := p], res[p].next, lists[i := [p] + lists[i]],
            free[1..], owner[p := i], adjs[i := [Arc(a, v)] + adjs[i]])
  {
    var p := free[0];
    var res' := res[p := Cell(gam[i], a, v)];
    var gam' := gam[i := p];
    var lists' := lists[i := [p] + lists[i]];
    var owner' := owner[p := i];
    var adjs' := adjs[i := [Arc(a, v)] + adjs[i]];
    assert owner[p] == NIL;
    OwnedTail(res, libre, free, owner, NIL);
    OwnedFrame(res, res', owner, owner', res[p].next, free[1..], NIL, {p});
    forall j | 0 <= j < |gam|
      ensures Owned(res', gam'[j], lists'[j], owner', j) && Reads(res', lists'[j], adjs'[j])
    {
      NotOwned(res, gam[j], lists[j], owner, j, p);
      OwnedFrame(res, res', owner, owner', gam[j], lists[j], j, {p});
      ReadsFrame(res, res', lists[j], adjs[j]);
      if j == i {
        OwnedCons(res', gam[i], lists[i], owner', i, p);
        var l := lists'[i];
        forall k | 0 <= k < |l| && 0 <= l[k] < |res'|
          ensures adjs'[i][k] == Arc(res'[l[k]].som, res'[l[k]].vArc)
        {
          if k > 0 {
            assert l[k] == lists[i][k - 1] && adjs'[i][k] == adjs[i][k - 1];
          }
        }
      }
    }
    TotalLenUpdate(adjs, i, adjs'[i]);
  }

  /** The value of the reserve after unlinking the k-th cell c of a list l
      and pushing it on the free list: c's next becomes the old free-list
      head, and c's predecessor, if any, takes c's old next. */
  ghost function UnlinkRes(res: seq<Cell>, libre: int, l: seq<int>, k: int): seq<Cell>
    requires 0 <= k < |l| && forall m :: 0 <= m < |l| ==> 0 <= l[m] < |res|
  {
    var c := l[k];
    var res1 := res[c := res[c].(next := libre)];
    if k == 0 then res1 else res1[l[k - 1] := res1[l[k - 1]].(next := res[c].next)]
  }

  /** The list heads after the same unlinking: only the first cell moves a head. */
  ghost function UnlinkGam(res: seq<Cell>, gam: seq<int>, i: int, l: seq<int>, k: int): seq<int>
    requires 0 <= i < |gam| && 0 <= k < |l| && 0 <= l[k] < |res|
  {
    if k == 0 then gam[i := res[l[k]].next] else gam
  }

  /** Unlinking the k-th cell of list i and pushing it on the free list keeps
      the invariant. */
  lemma StoreUnlink(res: seq<Cell>, gam: seq<int>, libre: int, lists: seq<seq<int>>,
                    free: seq<int>, owner: seq<int>, adjs: seq<seq<Arc>>, i: int, k: int)
    requires Store(res, gam, libre, lists, free, owner, adjs)
    requires 0 <= i < |gam| && 0 <= k < |lists[i]|
    ensures var l := lists[i];
      Store(UnlinkRes(res, libre, l, k), UnlinkGam(res, gam, i, l, k), l[k],
            lists[i := l[..k] + l[k + 1..]], [l[k]] + free, owner[l[k] := NIL],
            adjs[i := adjs[i][..k] + adjs[i][k + 1..]])
  {
    var l := lists[i];
    assert Owned(res, gam[i], l, owner, i) && Reads(res, l, adjs[i]);
    var c := l[k];
    var res' := UnlinkRes(res, libre, l, k);
    var gam' := UnlinkGam(res, gam, i, l, k);
    var lists' := lists[i := l[..k] + l[k + 1..]];
    var owner' := owner[c := NIL];
    var adjs' := adjs[i := adjs[i][..k] + adjs[i][k + 1..]];
    var changed := if k == 0 then {c} else {c, l[k - 1]};
    assert forall x :: x in changed ==> 0 <= x < |owner| && owner[x] == i;
    assert forall x :: 0 <= x < |res| && x !in changed ==> res'[x] == res[x];
    assert forall x :: 0 <= x < |res| ==> res'[x].som == res[x].som && res'[x].vArc == res[x].vArc;
    // the free list gains c
    NotOwned(res, libre, free, owner, NIL, c);
    if k > 0 {
      NotOwned(res, libre, free, owner, NIL, l[k - 1]);
    }
    OwnedFrame(res, res', owner, owner', libre, free, NIL, changed);
    OwnedCons(res', libre, free, owner', NIL, c);
    forall j | 0 <= j < |gam|
      ensures Owned(res', gam'[j], lists'[j], owner', j) && Reads(res', lists'[j], adjs'[j])
    {
      if j == i {
        OwnedRemove(res, res', owner, owner', gam[i], gam'[i], l, i, k);
        ReadsRemove(res, l, adjs[i], k);
        ReadsFrame(res, res', lists'[i], adjs'[i]);
      } else {
        NotOwned(res, gam[j], lists[j], owner, j, c);
        if k > 0 {
          NotOwned(res, gam[j], lists[j], owner, j, l[k - 1]);
        }
        OwnedFrame(res, res', owner, owner', gam[j], lists[j], j, changed);
        ReadsFrame(res, res', lists[j], adjs[j]);
      }
    }
    TotalLenUpdate(adjs, i, adjs'[i]);
  }

  /** The store as InitGraphe leaves it: every cell on the free list, in
      index order, and every successor list empty. */
  lemma StoreInit(res: seq<Cell>, nsom: nat)
    requires |res| >= 1
    requires forall c :: 0 <= c < |res| ==> res[c].next == if c + 1 < |res| then c + 1 else NIL
    ensures Store(res, seq(nsom, _ => NIL), 0, seq(nsom, _ => []), seq(|res|, c => c),
                  seq(|res|, _ => NIL), seq(nsom, _ => []))
  {
    var free: seq<int> := seq(|res|, c => c);
    assert ChainIn(res, 0, free);
    var adjs: seq<seq<Arc>> := seq(nsom, _ => []);
    TotalLenEmpty(adjs);
  }

  /** The graph: nsom vertices, a reserve of nmaxarc cells, narc the arc
      counter, and the arc triples I/T/poids used by the sorting code. */
  class Graphe {
    const nsom: int
    const nmaxarc: int
    var narc: int
    const reserve: array<Cell>
    const gamma: array<int>
    var libre: int
    const I: array<int>
    const T: array<int>
    const poids: array<int>

    /** The cells of each successor list, in list order. */
    ghost var Lists: seq<seq<int>>
    /** The cells of the free list, in list order. */
    ghost var Free: seq<int>
    /** The list each cell belongs to: a vertex, or NIL for the free list. */
    ghost var Owner: seq<int>
    /** The contents of each successor list. */
    ghost var Adjs: seq<seq<Arc>>

    ghost predicate Chain(head: int, cells: seq<int>)
      reads this, reserve
    {
      ChainIn(reserve[..], head, cells)
    }

    ghost predicate Valid()
      reads this, reserve, gamma
    {
      && reserve.Length == nmaxarc && gamma.Length == nsom
      && I.Length == nmaxarc && T.Length == nmaxarc && poids.Length == nmaxarc
      && gamma != I && gamma != T && gamma != poids && I != T && I != poids && T != poids
      && Store(reserve[..], gamma[..], libre, Lists, Free, Owner, Adjs)
    }

    /** The successor lists seen as a graph. */
    ghost function Graph(): Graph
      reads this
    {
      GraphOf(Adjs)
    }

    /** The number of arcs actually stored in the lists. */
    ghost function ArcCount(): nat
      reads this
    {
      TotalLen(Adjs)
    }

    /** Every list, as a chain of cells, spells out its arcs. */
    lemma LayoutOf()
      requires Valid()
      ensures Layout(reserve[..], gamma[..], Lists, Adjs)
    {
      forall i | 0 <= i < |gamma[..]|
        ensures ListLayout(reserve[..], gamma[..][i], Lists[i], Adjs[i])
      {
        assert Owned(reserve[..], gamma[..][i], Lists[i], Owner, i);
        assert Reads(reserve[..], Lists[i], Adjs[i]);
      }
    }

    /** InitGraphe: no arc, narc = 0, all reserve cells chained in index order. */
    constructor (nsom: int, nmaxarc: int)
      requires nsom >= 0 && nmaxarc >= 1
      ensures Valid()
      ensures fresh(reserve) && fresh(gamma) && fresh(I) && fresh(T) && fresh(poids)
      ensures this.nsom == nsom && this.nmaxarc == nmaxarc && narc == 0
      ensures |Adjs| == nsom && forall i :: 0 <= i < nsom ==> Adjs[i] == [] && gamma[i] == NIL
      ensures libre == 0 && Free == seq(nmaxarc, c => c)
      ensures forall c :: 0 <= c < nmaxarc ==> I[c] == 0 && T[c] == 0 && poids[c] == 0
    {
      var res := new Cell[nmaxarc](_ => Cell(NIL, 0, 0));
      var i := 0;
      while i < nmaxarc - 1
        invariant 0 <= i <= nmaxarc - 1
        invariant forall c :: 0 <= c < i ==> res[c].next == c + 1
        invariant res[nmaxarc - 1].next == NIL
      {
        res[i] := res[i].(next := i + 1);
        i := i + 1;
      }
      res[i] := res[i].(next := NIL);
      this.nsom := nsom;
      this.nmaxarc := nmaxarc;
      reserve := res;
      gamma := new int[nsom](_ => NIL);
      I := new int[nmaxarc](_ => 0);
      T := new int[nmaxarc](_ => 0);
      poids := new int[nmaxarc](_ => 0);
      narc := 0;
      libre := 0;
      Free := seq(nmaxarc, c => c);
      Owner := seq(nmaxarc, _ => NIL);
      Lists := seq(nsom, _ => []);
      Adjs := seq(nsom, _ => []);
      new;
      StoreInit(reserve[..], nsom);
      assert gamma[..] == seq(nsom, _ => NIL);
    }

    /** AlloueCell: takes the first cell off the free list. On an empty free
        list the C code stops the process; here NIL is returned and nothing
        changes. The cell returned is on no list until the caller links it. */
    method AlloueCell() returns (c: int)
      requires Valid()
      modifies this`libre, this`Free
      ensures old(Free) == [] ==> c == NIL && libre == old(libre) && Free == old(Free)
      ensures old(Free) != [] ==> c == old(Free)[0] && Free == old(Free)[1..] && libre == reserve[c].next
    {
      if libre == NIL {
        c := NIL;
        return;
      }
      c := libre;
      libre := reserve[libre].next;
      Free := Free[1..];
    }

    /** LibereCell: pushes cell p onto the front of the free list. */
    method LibereCell(p: int)
      requires 0 <= p < reserve.Length && |Owner| == reserve.Length
      modifies this`libre, this`Free, this`Owner, reserve
      ensures reserve[..] == old(reserve[..])[p := old(reserve[p]).(next := old(libre))]
      ensures libre == p && Free == [p] + old(Free) && Owner == old(Owner)[p := NIL]
    {
      reserve[p] := reserve[p].(next := libre);
      libre := p;
      Free := [p] + Free;
      Owner := Owner[p := NIL];
    }

    /** AjouteTete: takes a cell from the free list and puts (a, v) at the
        head of list i. */
    method AjouteTete(i: int, a: int, v: int) returns (ok: bool)
      requires Valid() && 0 <= i < nsom
      modifies this, reserve, gamma
      ensures Valid()
      ensures narc == old(narc)
      ensures ok <==> old(Free) != []
      ensures ok ==> Adjs == old(Adjs)[i := [Arc(a, v)] + old(Adjs)[i]] && Free == old(Free)[1..]
      ensures !ok ==> Adjs == old(Adjs) && Free == old(Free)
    {
      ghost var res0, gam0, libre0 := reserve[..], gamma[..], libre;
      var p := AlloueCell();
      if p == NIL {
        ok := false;
        return;
      }
      reserve[p] := Cell(gamma[i], a, v);
      gamma[i] := p;
      Lists, Adjs, Owner := Lists[i := [p] + Lists[i]], Adjs[i := [Arc(a, v)] + Adjs[i]], Owner[p := i];
      assert reserve[..] == res0[p := Cell(gam0[i], a, v)];
      assert gamma[..] == gam0[i := p];
      StorePush(res0, gam0, libre0, old(Lists), old(Free), old(Owner), old(Adjs), i, a, v);
      ok := true;
    }

    /** RetireTete: unlinks the cell that slot points to (the k-th cell of
        list i) and pushes it onto the free list. */
    method RetireTete(i: int, slot: Slot, ghost k: int)
      requires Valid() && 0 <= i < nsom && 0 <= k < |Lists[i]|
      requires slot == if k == 0 then Gamma(i) else NextOf(Lists[i][k - 1])
      modifies this, reserve, gamma
      ensures Valid()
      ensures narc == old(narc)
      ensures Adjs == old(Adjs)[i := old(Adjs)[i][..k] + old(Adjs)[i][k + 1..]]
      ensures Free == [old(Lists)[i][k]] + old(Free)
    {
      ghost var res0, gam0, libre0 := reserve[..], gamma[..], libre;
      ghost var l := Lists[i];
      assert ChainIn(res0, gam0[i], l);
      var target := if slot.Gamma? then gamma[i] else reserve[slot.cell].next;
      assert target == l[k];
      var p := reserve[target].next;
      LibereCell(target);
      if slot.Gamma? {
        gamma[i] := p;
      } else {
        reserve[slot.cell] := reserve[slot.cell].(next := p);
      }
      Lists, Adjs := Lists[i := l[..k] + l[k + 1..]], Adjs[i := Adjs[i][..k] + Adjs[i][k + 1..]];
      assert reserve[..] == UnlinkRes(res0, libre0, l, k);
      assert gamma[..] == UnlinkGam(res0, gam0, i, l, k);
      StoreUnlink(res0, gam0, libre0, old(Lists), old(Free), old(Owner), old(Adjs), i, k);
    }

    /** EstDansListe: whether a cell of the list starting at p holds vertex a. */
    method EstDansListe(p: int, ghost cells: seq<int>, a: int) returns (r: bool)
      requires Chain(p, cells)
      ensures r <==> exists k :: 0 <= k < |cells| && reserve[cells[k]].som == a
    {
      var q := p;
      ghost var k := 0;
      while q != NIL
        invariant 0 <= k <= |cells|
        invariant q == if k < |cells| then cells[k] else NIL
        invariant forall m :: 0 <= m < k ==> reserve[cells[m]].som != a
        decreases |cells| - k
      {
        if reserve[q].som == a {
          return true;
        }
        q := reserve[q].next;
        k := k + 1;
      }
      return false;
    }

    /** EstSuccesseur: whether s is a successor of i. */
    method EstSuccesseur(i: int, s: int) returns (r: bool)
      requires Valid() && 0 <= i < nsom
      ensures r <==> Edge(Graph(), i, s)
    {
      assert ChainIn(reserve[..], gamma[..][i], Lists[i]);
      r := EstDansListe(gamma[i], Lists[i], s);
      assert Graph()[i] == Targets(Adjs[i]);
      if r {
        ghost var k :| 0 <= k < |Lists[i]| && reserve[Lists[i][k]].som == s;
        assert Graph()[i][k] == s;
      } else {
        forall k | 0 <= k < |Graph()[i]|
          ensures Graph()[i][k] != s
        {
          assert Adjs[i][k].som == reserve[Lists[i][k]].som;
        }
      }
    }

    /** AjouteArc: prepends s, with value 0, to the successors of i. */
    method AjouteArc(i: int, s: int) returns (ok: bool)
      requires Valid() && 0 <= i < nsom
      modifies this, reserve, gamma
      ensures Valid()
      ensures ok <==> old(Free) != []
      ensures ok ==> Adjs == old(Adjs)[i := [Arc(s, 0)] + old(Adjs)[i]] && narc == old(narc) + 1
      ensures ok ==> Free == old(Free)[1..]
      ensures !ok ==> Adjs == old(Adjs) && narc == old(narc) && Free == old(Free)
    {
      ok := AjouteTete(i, s, 0);
      if ok {
        narc := narc + 1;
      }
    }

    /** AjouteArcValue: prepends s, with value v, to the successors of i. */
    method AjouteArcValue(i: int, s: int, v: int) returns (ok: bool)
      requires Valid() && 0 <= i < nsom
      modifies this, reserve, gamma
      ensures Valid()
      ensures ok <==> old(Free) != []
      ensures ok ==> Adjs == old(Adjs)[i := [Arc(s, v)] + old(Adjs)[i]] && narc == old(narc) + 1
      ensures ok ==> Free == old(Free)[1..]
      ensures !ok ==> Adjs == old(Adjs) && narc == old(narc) && Free == old(Free)
    {
      ok := AjouteTete(i, s, v);
      if ok {
        narc := narc + 1;
      }
    }

    /** RetireArc: removes the first arc to s from the successors of i, if
        any; narc is decremented in every case. */
    method RetireArc(i: int, s: int)
      requires Valid() && 0 <= i < nsom
      modifies this, reserve, gamma
      ensures Valid()
      ensures narc == old(narc) - 1
      ensures var k := FirstIndex(old(Adjs)[i], s);
        Adjs == if k < |old(Adjs)[i]| then old(Adjs)[i := old(Adjs)[i][..k] + old(Adjs)[i][k + 1..]]
                else old(Adjs)
    {
      ghost var l := Lists[i];
      assert Owned(reserve[..], gamma[..][i], l, Owner, i) && Reads(reserve[..], l, Adjs[i]);
      assert ChainIn(reserve[..], gamma[i], l);
      var slot := Gamma(i);
      var cur := gamma[i];
      ghost var k := 0;
      while cur != NIL && reserve[cur].som != s
        invariant ChainIn(reserve[..], gamma[i], l) && Reads(reserve[..], l, Adjs[i])
        invariant 0 <= k <= |l|
        invariant slot == if k == 0 then Gamma(i) else NextOf(l[k - 1])
        invariant cur == if k < |l| then l[k] else NIL
        invariant forall m :: 0 <= m < k ==> Adjs[i][m].som != s
        decreases |l| - k
      {
        assert Adjs[i][k].som == reserve[l[k]].som;
        assert reserve[..][l[k]].next == (if k + 1 < |l| then l[k + 1] else NIL);
        slot := NextOf(cur);
        cur := reserve[cur].next;
        k := k + 1;
      }
      ghost var first := FirstIndex(Adjs[i], s);
      if cur != NIL {
        assert Adjs[i][k].som == reserve[l[k]].som;
        assert first == k;
        RetireTete(i, slot, k);
      } else {
        assert first == |Adjs[i]|;
      }
      narc := narc - 1;
    }

    /** PopSuccesseur: removes the first arc of a non-empty list i and
        returns its head. */
    method PopSuccesseur(i: int) returns (s: int)
      requires Valid() && 0 <= i < nsom && Adjs[i] != []
      modifies this, reserve, gamma
      ensures Valid()
      ensures narc == old(narc)
      ensures s == old(Adjs)[i][0].som && Adjs == old(Adjs)[i := old(Adjs)[i][1..]]
    {
      assert ChainIn(reserve[..], gamma[..][i], Lists[i]);
      assert Adjs[i][0].som == reserve[Lists[i][0]].som;
      s := reserve[gamma[i]].som;
      RetireTete(i, Gamma(i), 0);
      assert old(Adjs)[i][..0] + old(Adjs)[i][1..] == old(Adjs)[i][1..];
    }
  }
}
