# A* and Kruskal on successor-list graphs — a Dafny model

This project models the algorithmic core of the C repository
lebonq/A_Star_Algorithm. The repository solves a small travelling-salesman
problem with an A* search, and also builds a Kruskal minimum spanning tree
that the A* heuristic was meant to use. The core has five parts:

- **graph_basic.c**: the graph store. A `graphe` holds `nsom` vertices.
  Each vertex has a successor list `gamma[i]`, chained through an arena of
  `nmaxarc` cells (`reserve`). Unused cells form a free list `libre`.
  Three parallel arrays `I`, `T` and `poids` hold the arcs as triples.
  The module `GraphBasic` models this as the class `Graphe`:
  - `reserve` is an `array<Cell>`, and a `next` link of `NIL` (-1) stands
    for `NULL`;
  - `gamma` is an `array<int>` of list heads;
  - ghost fields give the abstract view: the cells of every list (`Lists`),
    the free list (`Free`), the owner of every cell (`Owner`) and the arcs
    of every list (`Adjs`);
  - `Valid()` ties that view to the arena through the value-level
    invariant `Store`.

  The lemmas `StoreInit`, `StorePush` and `StoreUnlink` prove that
  `InitGraphe`, `AjouteTete` and `RetireTete` keep this invariant.
- **kruskal.c**, module `Kruskal`, on `Graphe`:
  - the ring-buffer queue `ListeFIFO` (module `Fifo`, class `ListeFIFO`);
  - the level-by-level breadth-first exploration `explorationLargeur`,
    which uses two queues `E` and `D` swapped after each of `nsom - 1`
    rounds;
  - the symmetric closure `fermetureSymEfficace` and the connected
    component `CC`;
  - `isConnexe`;
  - the randomised quicksort of the arc indices by weight (module
    `QuickSort`);
  - Kruskal's `initGraphMin`.
- **arbrePoidsMin.c**, module `ArbrePoidsMin`: an earlier draft of the
  same algorithms. It adds `arborescence` (a breadth-first predecessor
  array) and `algoKruskal`. Its graph library (`initGraphe`,
  `ajouteSuccesseur`, `p->suivant`) is not part of this model. Its graph
  is modelled as a `seq<seq<int>>` of successor lists, and
  `ajouteSuccesseur` prepends.
- **explorationLargeur.c**, module `Exploration`: the first draft of the
  exploration. A single queue is drained until it is empty.
- **vdc.c**, module `Vdc`: the A* helpers on search nodes (class `Node`):
  - membership of a city in a node's route;
  - `get_distance` and `arcmin`;
  - the heuristic `ComputeH`;
  - `DevelopNode`, which appends one child per admissible next city;
  - the open-list scan `ExtractFirstOpen`;
  - the pruning test of the search loop.

  The graph of distances is given as its successor lists of `Arc(som,
  vArc)` values.

The module `Paths` holds the shared pure definitions:
- reachability and undirected connectivity;
- the invariant of a breadth-first exploration, `Frontier`;
- counting of marked vertices;
- the symmetric closure and the edge lists of a forest.

The module `Forests` counts the components of a forest, each by its least
vertex, and relates that count to spanning all vertices.

The main results proved:
- every exploration marks exactly the vertices reachable from its start;
- `CC` marks exactly the vertices connected to its start;
- the closure has exactly the arcs of its input in both directions;
- the quicksort leaves a permutation of the indices, sorted by weight;
- Kruskal's tree is a forest of edges taken in ascending order of weight;
  a forest on n vertices has n - k components for k edges, so the tree
  has `nsom - 1` edges exactly when it connects all `nsom` vertices, and
  it reaches that count whenever the arcs of the graph connect all
  vertices;
- the queue is first-in first-out and never overflows during an
  exploration;
- the graph store keeps every cell in exactly one list or in the free list.

Doubles (`poids`, `estim_f`) are modelled as `int`. `rand()` is a choice
the proofs quantify over. Fatal exits are modelled as error returns that
leave the state unchanged.

Two behaviours of the code are kept as written:
- `ExtractFirstOpen` (vdc.c:32-57) returns a copy of the best node but
  does not splice it out of the open list. `n_min = n_min->next` only
  changes a local variable.
- `fermetureSymEfficace` (kruskal.c:165-177) copies to the j-th pair of
  closure triples the weight `poids[j]` of the j-th triple of `g`. Here j
  counts arcs in list-traversal order, not the index of the arc met. The
  model states exactly that (`Paired`). Nothing downstream reads these
  weights.

## Model

| member | source | states |
|---|---|---|
| Fifo.ListeFIFO.constructor | kruskal.c:18-27 | a new queue is empty, has the requested capacity and its own fresh buffer |
| Fifo.ListeFIFO.EstNonVide | kruskal.c:85-88 | true exactly when the queue holds at least one element |
| Fifo.ListeFIFO.Insertion | kruskal.c:66-77 | fails with no change exactly when the queue is full; otherwise `x` is appended at the back, `der` advances modulo the capacity and `n` grows by one (as do the copies at arbrePoidsMin.c:53-64 and explorationLargeur.c:53-64) |
| Fifo.ListeFIFO.SelectionSuppression | kruskal.c:45-57 | on an empty queue returns -1 with no change; otherwise returns the oldest element and removes it (first in, first out), `prem` advancing modulo the capacity; the buffer is never rewritten (the copies at arbrePoidsMin.c:39-51 and explorationLargeur.c:39-51 are the same code) |
| GraphBasic.Graphe.constructor | graph_basic.c:116-183 | the new graph has `nsom` empty lists, `narc == 0`, all `I`/`T`/`poids` entries 0, and a free list holding every cell in index order |
| GraphBasic.StoreInit | graph_basic.c:172-178 | chaining cells 0, 1, …, nmaxarc - 1 with all lists empty satisfies the store invariant, the free list being every cell in order |
| GraphBasic.Graphe.AlloueCell | graph_basic.c:25-37 | on an empty free list returns `NIL` and changes nothing; otherwise returns the head of the free list, which then starts at that cell's successor |
| GraphBasic.Graphe.LibereCell | graph_basic.c:45-50 | cell p is linked in front of the free list and becomes its head; nothing else in the arena changes |
| GraphBasic.Graphe.AjouteTete | graph_basic.c:75-84 | with a free cell, arc (a, v) is prepended to list i and that cell leaves the free list; without one nothing changes; `narc` is untouched and the store stays valid |
| GraphBasic.StorePush | graph_basic.c:75-84 | taking the first free cell and making it the new head of list i keeps every cell in exactly one list or in the free list, and prepends exactly that arc |
| GraphBasic.Graphe.RetireTete | graph_basic.c:58-65 | the cell that the given link (a list head or a predecessor's `next`) points to is unlinked and pushed on the free list; list i loses exactly that arc; `narc` is untouched |
| GraphBasic.StoreUnlink | graph_basic.c:58-65 | unlinking the k-th cell of list i and freeing it keeps the store invariant and removes exactly the k-th arc |
| GraphBasic.Graphe.EstDansListe | graph_basic.c:93-99 | true exactly when some cell of the list carries vertex a |
| GraphBasic.Graphe.EstSuccesseur | graph_basic.c:384-388 | true exactly when s is a successor of i |
| GraphBasic.Graphe.AjouteArc | graph_basic.c:319-324 | with a free cell, arc i → s (value 0) is prepended to list i and `narc` grows by one; with none nothing changes |
| GraphBasic.Graphe.AjouteArcValue | graph_basic.c:334-339 | as AjouteArc, with value v on the arc |
| GraphBasic.FirstIndex | graph_basic.c:349-356 | the position of the first arc to s in a list: no earlier arc goes to s, and the position is the length when none does |
| GraphBasic.Graphe.RetireArc | graph_basic.c:349-358 | the first arc i → s, if there is one, is removed and its cell freed, otherwise the lists are unchanged; `narc` decreases by one in both cases |
| GraphBasic.Graphe.PopSuccesseur | graph_basic.c:368-374 | on a non-empty list i, returns its head vertex and removes that arc; `narc` is unchanged |
| GraphBasic.GraphOfPrepend | graph_basic.c:75-84 | prepending an arc to a list prepends its target to that vertex's successors |
| Paths.FrontierStart | kruskal.c:106-112 | marking only x with x queued satisfies the exploration invariant: marked vertices are reachable, and every unmarked successor hangs off a queued vertex |
| Paths.FrontierMark | kruskal.c:121-125 | marking and queueing an unmarked successor of a pending vertex keeps the invariant and increases the marked count by one, which stays within nsom |
| Paths.FrontierDone | kruskal.c:118-127 | once all successors of y are marked, y may leave the pending set |
| Paths.FrontierFinal | kruskal.c:116-133 | with nothing pending, the marked vertices are exactly those reachable from x |
| Paths.CountTrueFull | kruskal.c:116 | the marked count reaches nsom exactly when all vertices are marked, so nsom - 1 rounds suffice |
| Paths.SymAddIsClosure | arbrePoidsMin.c:135-139 | adding both directions of every arc, vertex by vertex and in list order, to an arc-free graph gives exactly the arcs of g and their reverses |
| Paths.SymAddEdges | kruskal.c:165-177 | the arcs added by the closure so far are the original ones plus both directions of each arc met |
| Paths.SymClosureReachable | kruskal.c:189-195 | reachability in the symmetric closure of g is connectivity in g ignoring directions |
| Paths.ConnectedSymmetric | kruskal.c:189-195 | undirected connectivity is symmetric |
| Paths.ForestSnoc | kruskal.c:311-316 | adding an edge between two vertices that the edges so far do not connect keeps the edge list a forest |
| Paths.ConnectedGrow | kruskal.c:311-316 | adding an edge keeps every connection that already existed |
| Paths.ConnectedByEdge | kruskal.c:311-316 | an added edge connects its two ends |
| Forests.ConnectedTrans | kruskal.c:311-312 | undirected connectivity is transitive |
| Forests.ConnectedSplit | kruskal.c:311-316 | a connection in the tree grown by an edge already existed or goes through that edge |
| Forests.RootsSnoc | kruskal.c:311-316 | adding an edge between two unconnected vertices leaves one component fewer |
| Forests.ForestRoots | kruskal.c:308-316 | a forest of k edges on n vertices has n - k components |
| Forests.ForestSpanning | kruskal.c:308 | a forest on n vertices has at most n - 1 edges, and connects all n vertices exactly when it has n - 1: the loop's stopping count means a spanning tree |
| Forests.CoverConnected | kruskal.c:308-319 | when the tree connects the ends of every arc, it connects every pair the arcs connect |
| Paths.ArcsBelowMembers | kruskal.c:165-166 | the arcs met before vertex x are exactly the pairs (u, w) with u < x and w a successor of u |
| Kruskal.Discover | kruskal.c:121-125 | an unmarked successor z is marked and queued in D; the invariant holds and the queue grows exactly as the marked count, and the body asserts that the insertion never fails, since every queued vertex is marked |
| Kruskal.VisitStep | kruskal.c:120-126 | one step along y's list handles the m-th successor and moves to the next cell |
| Kruskal.Visit | kruskal.c:120-126 | after walking y's list, all of y's successors are marked; y is no longer pending; D grew by exactly the vertices newly marked |
| Kruskal.Serve | kruskal.c:118-127 | one vertex leaves E and is visited; the invariant holds over E and D together |
| Kruskal.Round | kruskal.c:118-127 | a round empties E; D holds exactly the vertices it newly marked; an empty E yields an empty D |
| Kruskal.Explore | kruskal.c:97-138 | after the nsom - 1 rounds, `Z[y]` holds exactly when y is reachable from x |
| Kruskal.ExplorationLargeur | kruskal.c:97-138 | on a valid `Graphe`, `Z[y]` holds exactly when y is reachable from x |
| Kruskal.PairedSnoc | kruskal.c:167-173 | writing entries i and i + 1 of the triples records the j-th arc met, reversed and then forward, with weight `poids[j]` |
| Kruskal.SetArc | kruskal.c:167-170 | writes one triple and adds the arc; it fails exactly when no cell is free |
| Kruskal.SetPair | kruskal.c:167-174 | writes triples i and i + 1, adds s → x and then x → s, and uses two cells |
| Kruskal.SymStep | kruskal.c:167-175 | the closure under construction gains exactly the pair of arcs of the arc met |
| Kruskal.SymCell | kruskal.c:166-177 | one cell of x's list is handled, and the closure then covers the arcs up to it |
| Kruskal.SymList | kruskal.c:166-177 | after x's list, the closure covers every arc of the vertices up to x |
| Kruskal.SymVertex | kruskal.c:165-177 | one turn of the outer loop |
| Kruskal.SymClose | kruskal.c:165-177 | after every vertex, the closure covers every arc of g |
| Kruskal.NewClosure | kruskal.c:156-163 | the closure starts with no arcs and capacity 1 when g has no arc, 2·narc otherwise |
| Kruskal.FermetureSymEfficace | kruskal.c:147-179 | the result has exactly the arcs of g in both directions; its triples list each arc met, reversed then forward |
| Kruskal.CC | kruskal.c:189-195 | `Z[y]` holds exactly when y is connected to x, ignoring directions |
| Kruskal.IsConnexe | kruskal.c:324-335 | true exactly when every vertex is connected to x |
| QuickSort.ScanDown | kruskal.c:217 | stops at the last position below its start whose key is at most the pivot; every key passed over is greater |
| QuickSort.ScanUp | kruskal.c:218 | stops at the first position above its start whose key is at least the pivot; every key passed over is smaller |
| QuickSort.SwapPerm | kruskal.c:219 | exchanging two entries keeps the multiset of indices |
| QuickSort.PartitionExit | kruskal.c:215-221 | when the scans cross, the range is a rearrangement of the original, with keys at most the pivot in `[p, j]` and at least the pivot in `[j+1, r]` |
| QuickSort.Partitionner | kruskal.c:209-222 | returns j with p ≤ j ≤ r, and j < r when p < r; the range is a rearrangement with keys at most `T[A[p]]` up to j and at least it after |
| QuickSort.PartitionStochastique | kruskal.c:236-245 | for any pivot position q in [p, r], the range is rearranged and split at j, no key of the left part exceeding one of the right part |
| QuickSort.QuickSortStep | kruskal.c:263-265 | a split range whose two parts are sorted in place is a sorted rearrangement of the original range |
| QuickSort.TriRapideStochastique | kruskal.c:257-267 | `A[p..r]` becomes a rearrangement of itself in ascending key order; entries outside are unchanged (arbrePoidsMin.c:219-229 is the same code) |
| QuickSort.SortHalves | kruskal.c:264-265 | the two recursive calls on a split range leave it a sorted rearrangement |
| QuickSort.TriAretes | kruskal.c:276-288 | returns a new array that is a permutation of 0..narc-1, sorted by weight (arbrePoidsMin.c:232-244 is the same code) |
| Kruskal.OrderedFromSort | kruskal.c:285-286 | the sorted permutation lists every arc index once, in ascending weight, with ends among the vertices |
| Kruskal.SortArcs | kruskal.c:306 | the order O holds every arc index of G, in ascending weight |
| Kruskal.NewTree | kruskal.c:304 | the tree starts with n vertices, no edges and room for n - 1 |
| Kruskal.KeptStart | kruskal.c:302-306 | before any arc is examined, the loop invariant holds with no edge taken |
| Kruskal.KeptReject | kruskal.c:312-317 | an arc whose ends are already connected is passed over and the invariant holds |
| Kruskal.KeptAccept | kruskal.c:312-317 | an arc whose ends are not yet connected is taken: the edges stay a forest in ascending weight, and the weight grows by that arc's weight |
| Kruskal.PicksSnoc | kruskal.c:313-315 | appending an arc no lighter than those taken keeps the edges in ascending weight and adds its weight to the total |
| Kruskal.LighterSnoc | kruskal.c:308-317 | no arc taken is heavier than an arc still to be examined |
| Kruskal.ConnectedSnoc | kruskal.c:312-314 | after adding an edge, the ends of every arc examined remain connected |
| Kruskal.Linked | kruskal.c:311-312 | true exactly when x and y are already connected by the tree's edges |
| Kruskal.AddTreeEdge | kruskal.c:313 | `AjouteArcValue` on the tree adds exactly the edge (x, y) |
| Kruskal.Consider | kruskal.c:309-317 | one turn examines the next arc in order and keeps the invariant: when the tree does not yet connect its ends, the arc joins the tree, its index the picks and its weight the total; otherwise all three stay as they are |
| Kruskal.Grow | kruskal.c:308-319 | the loop builds a forest of arcs in ascending weight and totals their weights; stopping before n - 1 edges means every arc's ends are connected |
| Kruskal.ConnectedAll | kruskal.c:308-319 | the ends of every arc are connected once all arcs have been examined |
| Kruskal.TreeOutcome | kruskal.c:308-319 | at the end of the loop the forest has nsom - 1 edges exactly when it connects all nsom vertices, and it has them whenever the arcs connect all vertices |
| Kruskal.InitGraphMin | kruskal.c:297-322 | the tree is a forest of arcs of G in ascending weight, and `*poidsArbreMin` grows by their total weight; ok, nsom - 1 edges and a tree connecting all nsom vertices go together; when the arcs of G connect all vertices, ok holds; otherwise the tree connects the ends of every arc of G |
| ArbrePoidsMin.Visit | arbrePoidsMin.c:97-103 | after y's list, all its successors are marked; the newly marked ones are queued in D |
| ArbrePoidsMin.Serve | arbrePoidsMin.c:95-103 | one vertex leaves E and is visited |
| ArbrePoidsMin.Round | arbrePoidsMin.c:95-104 | a round empties E; D holds exactly the vertices it newly marked |
| ArbrePoidsMin.Start | arbrePoidsMin.c:84-91 | E is a new queue holding only x, and only x is marked |
| ArbrePoidsMin.ExplorationLargeur | arbrePoidsMin.c:75-115 | `Z[y]` holds exactly when y is reachable from x |
| ArbrePoidsMin.FermetureSymEfficace | arbrePoidsMin.c:124-141 | the result has exactly the arcs of g in both directions |
| ArbrePoidsMin.CC | arbrePoidsMin.c:147-153 | `Z[y]` holds exactly when y is connected to x, ignoring directions |
| ArbrePoidsMin.NewPred | arbrePoidsMin.c:254-263 | only x is marked, `Pred[x] == -1`, and every other predecessor is 0 |
| ArbrePoidsMin.PredMark | arbrePoidsMin.c:270-274 | recording y as the predecessor of a newly marked successor keeps the predecessor invariant |
| ArbrePoidsMin.DiscoverPred | arbrePoidsMin.c:269-274 | an unmarked successor is marked, queued and given y as predecessor; the predecessors of vertices marked before are unchanged |
| ArbrePoidsMin.VisitPred | arbrePoidsMin.c:268-275 | after y's list, all its successors are marked and the predecessor invariant holds |
| ArbrePoidsMin.ServePred | arbrePoidsMin.c:266-276 | one vertex of E is visited, keeping both invariants |
| ArbrePoidsMin.RoundPred | arbrePoidsMin.c:266-276 | a round keeps the predecessor invariant |
| ArbrePoidsMin.FollowRoot | arbrePoidsMin.c:273 | following `Pred` from a marked vertex as many times as its rank leads back to x |
| ArbrePoidsMin.PredTreeSpec | arbrePoidsMin.c:246-287 | a reachable v ≠ x has as predecessor a reachable vertex with an arc to v, and following predecessors from v reaches x; an unreachable vertex keeps 0 |
| ArbrePoidsMin.Arborescence | arbrePoidsMin.c:246-287 | `Pred[x] == -1`; every other reachable vertex has a reachable predecessor with an arc to it, and the chain leads to x; unreachable vertices have 0 |
| ArbrePoidsMin.Consider | arbrePoidsMin.c:303-310 | one turn examines the next arc in order and keeps the loop invariant: when the tree does not yet connect its ends, the arc joins the tree and its index the picks; otherwise both stay as they are |
| ArbrePoidsMin.AlgoKruskal | arbrePoidsMin.c:289-315 | the tree is a forest of arcs in ascending weight; ok, nsom - 1 edges and a tree connecting all nsom vertices go together; when the arcs connect all vertices, ok holds; otherwise the tree connects the ends of every arc |
| Exploration.Serve | explorationLargeur.c:95-103 | one vertex leaves E, and its unmarked successors are marked and queued in E itself |
| Exploration.Arborescence | explorationLargeur.c:76-109 | `Z[y]` holds exactly when y is reachable from x; every insertion into the single queue succeeds, as Kruskal.Discover asserts of each one |
| Vdc.Node.constructor | vdc.c:16-24 | a node for n cities: empty route, zero estimates, a fresh route table of n zeros |
| Vdc.Node.Copy | vdc.c:52-53 | a new node with the same fields as m, sharing its route table and successor |
| Vdc.NotInListSom | vdc.c:80-88 | true exactly when s is not among the `len` cities of the route |
| Vdc.FirstArcSpec | vdc.c:103-109 | the search of a list finds nothing exactly when no arc goes to b; otherwise it returns the value of the first such arc |
| Vdc.GetDistance | vdc.c:98-122 | the value of the first arc a → b, failing that of the first arc b → a, failing that -1 |
| Vdc.DistanceSymmetric | vdc.c:98-122 | when no arc has value -1, the answer is -1 exactly when neither list links a and b, whatever their order |
| Vdc.MinDistanceSpec | vdc.c:137-150 | the scanned minimum is at most `LONG_MAX`, at most every distance to a successor seen, and equal to one of them unless it is `LONG_MAX` |
| Vdc.ArcMin | vdc.c:137-150 | the minimum over all successors of s of `get_distance(s, t)`, or `LONG_MAX` when s has none |
| Vdc.CountMissingPresent | vdc.c:168-173 | the number of cities outside the route plus those inside it is nsom |
| Vdc.CountMissingDistinct | vdc.c:168-173 | for a route without repeats, nsom - len cities are missing |
| Vdc.AddMissingCount | vdc.c:168-173 | adding arcmin once per missing city adds (missing count) · arcmin |
| Vdc.HeuristicOneDistinct | vdc.c:163-191 | for a route without repeats, heuristic 1 is g + (nsom - len) · arcmin(last city) |
| Vdc.ComputeH | vdc.c:163-191 | sets and returns `estim_f`: heuristic 1 for code 1, and `estim_g` for any other code |
| Vdc.NewChild | vdc.c:210-220 | a fresh node whose route is the parent's plus city i; its `estim_g` is the distance from the last city to i (the new node starts from 0, not from the parent's `estim_g`) and its `estim_f` is heuristic 1 of the new route |
| Vdc.ChildDistinct | vdc.c:205-217 | a child extending a route without repeats by a new city has a route without repeats |
| Vdc.Qualifying | vdc.c:205 | true exactly when city i is not on the route and an arc links it to the last city |
| Vdc.ListedSkip | vdc.c:204-205 | a city that does not qualify adds no child |
| Vdc.ListedSnoc | vdc.c:204-228 | a qualifying city adds exactly one child, at the end |
| Vdc.Check | vdc.c:205 | the qualification test inside the loop, leaving the chain untouched |
| Vdc.Develop | vdc.c:204-229 | one turn of the loop: a qualifying city appends one fresh child to the chain, and the parent's `next` is set only once a child exists |
| Vdc.Append | vdc.c:210-226 | links a new child after the last node of the chain |
| Vdc.DevelopNode | vdc.c:201-232 | returns `p->next`: one fresh child per qualifying city, in ascending city order, each extending the route by that city; no child means `p->next` is unchanged |
| Vdc.FirstMinSpec | vdc.c:42-50 | the index chosen has a minimal key, and every earlier key is strictly larger (first wins ties) |
| Vdc.FirstMinSnoc | vdc.c:44-47 | extending the scan by one key moves the choice only to a strictly smaller key |
| Vdc.FirstOpen | vdc.c:37-50 | the node chosen is the first one in list order whose `estim_f` is minimal |
| Vdc.ExtractFirstOpen | vdc.c:32-57 | `NULL` for an empty list; otherwise a fresh copy of the first node of minimal `estim_f` |
| Vdc.ChildDiscarded | vdc.c:289-297 | for a route that starts at city 0, a child through a city not yet on it never ends at 0, so it is pruned exactly when its route then holds all n cities: no such child can close the circuit |

## Left out

- `ReadGraphe`, `GrapheAleatoire`, `TermineGraphe`, `termineListeFIFO` and the graph printers: file input, randomness and deallocation.
- Failures of `malloc`/`calloc`: allocation is modelled as always succeeding.
- `AlloueCell` on an empty free list ends the process; the model returns `NIL` and changes nothing.
- Every `main`, `PrintSolution`, `AfficherArcs`, and the `printf` in `DevelopNode`: output and command-line handling.
- `AStar` (vdc.c:265-313) with `appendTo` and `Catenate`: the loop does not keep a coherent open list. Only its pruning test is modelled (`ChildDiscarded`).
- `get_vol`: floating-point trigonometry, and not called by the code modelled.
- Heuristic code 2 of `ComputeH`: an empty case, modelled like the default.
- Aetoile.c: printing and an empty stub.
- `poidsArbre` in `algoKruskal` is never updated. The `main` of explorationLargeur.c calls a function that does not exist.
- Weights `poids` and estimates `estim_g`/`estim_f` are doubles in the source and integers here. The `long` conversions in `ExtractFirstOpen` are taken as exact, and overflow past `LONG_MAX` is not modelled.
- `rand()` in `PartitionStochastique` becomes an arbitrary pivot position in [p, r]. Its contracts hold for every choice.
- The graph library of arbrePoidsMin.c and explorationLargeur.c is not part of this model. Their graphs are sequences of successor lists, and `ajouteSuccesseur` prepends.
- The graph of vdc.c is given as the value of its successor lists. Arc values are integers.
- Vdc.DevelopNode: links each new node itself, instead of a `calloc` copy of a node whose table is shared. It does not state that the children's route tables are new arrays distinct from the parent's.
- Vdc.Node.Copy: does not model the route table that `AllocNode` allocates and the `memcpy` then overwrites and leaks.
- Kruskal.CC: requires `narc` to equal the number of arcs in the lists, because the closure sizes its arena from `narc`. The equality holds for graphs built only with AjouteArc/AjouteArcValue, as ReadGraphe and the tree of initGraphMin are; PopSuccesseur (graph_basic.c:368-374) removes a cell without decrementing `narc`, and RetireArc (graph_basic.c:356) decrements it even when no arc was removed, so a graph edited by either is outside this contract. The same holds for Kruskal.IsConnexe and Kruskal.FermetureSymEfficace.
- Kruskal.InitGraphMin: the source assumes a connected graph and reads past the end of `O` otherwise. The model stops when the arcs run out and reports `ok` false. It needs `nsom >= 2`, as `InitGraphe(nsom, nsom - 1)` must get a positive arena. It proves the forest, the order of the picks, the weight total and that a full tree spans the graph, not minimality over all spanning trees.
- ArbrePoidsMin.AlgoKruskal: the same treatment of running out of arcs, with `nsom >= 1`. It does not prove minimality either.
- GraphBasic.Graphe.RetireArc: decreases `narc` even when no arc i → s exists, as the code does.
