/** Randomized quicksort of an index array A by the keys T[A[k]], with
    Hoare's partition (Cormen, Leiserson and Rivest, "Introduction to
    Algorithms"). The weights are doubles in the sources but integral in
    use; here they are integers. The same three functions are declared in
    kruskal.c and in arbrePoidsMin.c, identically; this module models both. */
module QuickSort {

  /** Every entry of a in [p, r] is an index into the key table. */
  ghost predicate KeysRange(a: seq<int>, key: seq<int>, p: int, r: int) {
    forall k :: p <= k <= r && 0 <= k < |a| ==> 0 <= a[k] < |key|
  }

  /** The keys of a[p..i] are at most x. */
  ghost predicate AtMost(a: seq<int>, key: seq<int>, p: int, i: int, x: int) {
    forall k :: p <= k <= i && 0 <= k < |a| ==> 0 <= a[k] < |key| && key[a[k]] <= x
  }

  /** The keys of a[j..r] are at least x. */
  ghost predicate AtLeast(a: seq<int>, key: seq<int>, j: int, r: int, x: int) {
    forall k :: j <= k <= r && 0 <= k < |a| ==> 0 <= a[k] < |key| && key[a[k]] >= x
  }

  ghost predicate AllAtMost(s: seq<int>, key: seq<int>, x: int) {
    forall e :: e in s ==> 0 <= e < |key| && key[e] <= x
  }

  ghost predicate AllAtLeast(s: seq<int>, key: seq<int>, x: int) {
    forall e :: e in s ==> 0 <= e < |key| && key[e] >= x
  }

  /** No key on the left exceeds a key on the right. */
  ghost predicate Split(left: seq<int>, right: seq<int>, key: seq<int>) {
    forall a, b :: a in left && b in right ==> 0 <= a < |key| && 0 <= b < |key| && key[a] <= key[b]
  }

  /** a[p..r] is in ascending order of key. */
  ghost predicate SortedRange(a: seq<int>, key: seq<int>, p: int, r: int) {
    && KeysRange(a, key, p, r)
    && forall x, y :: p <= x < y <= r && 0 <= x && y < |a| ==> key[a[x]] <= key[a[y]]
  }

  /** after is before with only the entries of [p, r] rearranged among
      themselves. */
  ghost predicate Rearranged(before: seq<int>, after: seq<int>, p: int, r: int) {
    && |after| == |before| && 0 <= p <= r + 1 <= |before|
    && (forall k :: 0 <= k < |before| && !(p <= k <= r) ==> after[k] == before[k])
    && multiset(after[p..r + 1]) == multiset(before[p..r + 1])
  }

  /** The outcome of Partitionner: [p, r] rearranged so that the keys of
      after[p..j] are at most x and those of after[j+1..r] at least x. */
  ghost predicate PartitionedAt(before: seq<int>, after: seq<int>, key: seq<int>, p: int, j: int, r: int, x: int) {
    && Rearranged(before, after, p, r) && p <= j <= r
    && AllAtMost(after[p..j + 1], key, x) && AllAtLeast(after[j + 1..r + 1], key, x)
  }

  /** The outcome of PartitionStochastique: [p, r] rearranged into two
      sides, no key on the left above a key on the right. */
  ghost predicate SplitAt(before: seq<int>, after: seq<int>, key: seq<int>, p: int, j: int, r: int) {
    && Rearranged(before, after, p, r) && p <= j <= r
    && KeysRange(after, key, p, r)
    && Split(after[p..j + 1], after[j + 1..r + 1], key)
  }

  /** The outcome of TriRapideStochastique: [p, r] rearranged into
      ascending order of key. */
  ghost predicate SortedAt(before: seq<int>, after: seq<int>, key: seq<int>, p: int, r: int) {
    Rearranged(before, after, p, r) && SortedRange(after, key, p, r)
  }

  // ---------------------------------------------------------------------
  // Rearrangements

  /** Rearranging a sequence keeps its members. */
  lemma SamePieces(s: seq<int>, t: seq<int>)
    requires multiset(s) == multiset(t)
    ensures forall e :: e in s <==> e in t
  {
    forall e
      ensures e in s <==> e in t
    {
      assert e in s <==> e in multiset(s);
      assert e in t <==> e in multiset(t);
    }
  }

  /** Rearrangements compose. */
  lemma RearrangedTrans(a: seq<int>, b: seq<int>, c: seq<int>, p: int, r: int)
    requires Rearranged(a, b, p, r) && Rearranged(b, c, p, r)
    ensures Rearranged(a, c, p, r)
  {
  }

  /** A rearrangement of [p', r'] is one of any range around it. */
  lemma RearrangedWiden(a: seq<int>, b: seq<int>, p': int, r': int, p: int, r: int)
    requires Rearranged(a, b, p', r') && 0 <= p <= p' && r' <= r < |a|
    ensures Rearranged(a, b, p, r)
  {
    assert a[p..p'] == b[p..p'];
    assert a[r' + 1..r + 1] == b[r' + 1..r + 1];
    assert a[p..r + 1] == a[p..p'] + a[p'..r' + 1] + a[r' + 1..r + 1];
    assert b[p..r + 1] == b[p..p'] + b[p'..r' + 1] + b[r' + 1..r + 1];
  }

  /** Rearranging [p, r] keeps every key index of it in range. */
  lemma KeysRangeRearranged(a: seq<int>, b: seq<int>, key: seq<int>, p: int, r: int)
    requires Rearranged(a, b, p, r) && KeysRange(a, key, p, r)
    ensures KeysRange(b, key, p, r)
  {
    SamePieces(a[p..r + 1], b[p..r + 1]);
    forall k | p <= k <= r
      ensures 0 <= b[k] < |key|
    {
      assert b[k] == b[p..r + 1][k - p];
      assert b[k] in a[p..r + 1];
      var m :| 0 <= m < r + 1 - p && a[p..r + 1][m] == b[k];
      assert a[p + m] == b[k];
    }
  }

  /** Key indices outside a rearranged range stay as they were. */
  lemma KeysRangeFrame(a: seq<int>, b: seq<int>, key: seq<int>, p: int, r: int, p': int, r': int)
    requires Rearranged(a, b, p, r) && KeysRange(a, key, p', r') && r < p'
    ensures KeysRange(b, key, p', r')
  {
  }

  /** Two permutations of each other that agree outside [p, r] are
      permutations of each other on [p, r]. */
  lemma SliceMultiset(a: seq<int>, b: seq<int>, p: int, r: int)
    requires |a| == |b| && 0 <= p <= r + 1 <= |a| && multiset(a) == multiset(b)
    requires forall k :: 0 <= k < |a| && !(p <= k <= r) ==> a[k] == b[k]
    ensures multiset(a[p..r + 1]) == multiset(b[p..r + 1])
  {
    var x, y := a[..p], a[r + 1..];
    assert a[..p] == b[..p] == x && a[r + 1..] == b[r + 1..] == y;
    assert a == x + a[p..r + 1] + y && b == x + b[p..r + 1] + y;
    var m, n := multiset(a[p..r + 1]), multiset(b[p..r + 1]);
    assert multiset(x) + m + multiset(y) == multiset(x) + n + multiset(y);
    MultisetCancel(multiset(x), multiset(y), m, n);
  }

  /** Equal sums with the same outer parts have equal middle parts. */
  lemma MultisetCancel(x: multiset<int>, y: multiset<int>, m: multiset<int>, n: multiset<int>)
    requires x + m + y == x + n + y
    ensures m == n
  {
    forall e
      ensures m[e] == n[e]
    {
      assert (x + m + y)[e] == (x + n + y)[e];
    }
  }

  // ---------------------------------------------------------------------
  // The exchanges made by Partitionner, recorded as a list of index pairs

  ghost predicate SwapsIn(sw: seq<(int, int)>, p: int, r: int) {
    forall t :: 0 <= t < |sw| ==> p <= sw[t].0 <= r && p <= sw[t].1 <= r
  }

  /** s after exchanging, in turn, the entries at each pair of sw. */
  ghost function ApplySwaps(s: seq<int>, sw: seq<(int, int)>): (res: seq<int>)
    requires forall t :: 0 <= t < |sw| ==> 0 <= sw[t].0 < |s| && 0 <= sw[t].1 < |s|
    ensures |res| == |s|
  {
    if sw == [] then s
    else
      var a := ApplySwaps(s, sw[..|sw| - 1]);
      var (i, j) := sw[|sw| - 1];
      a[i := a[j]][j := a[i]]
  }

  lemma SwapPerm(s: seq<int>, i: int, j: int)
    requires 0 <= i < |s| && 0 <= j < |s|
    ensures multiset(s[i := s[j]][j := s[i]]) == multiset(s)
  {
  }

  /** Exchanges within [p, r] permute s and leave it unchanged outside. */
  lemma {:induction false} SwapsPerm(s: seq<int>, sw: seq<(int, int)>, p: int, r: int)
    requires 0 <= p && r < |s| && SwapsIn(sw, p, r)
    ensures multiset(ApplySwaps(s, sw)) == multiset(s)
    ensures forall k :: 0 <= k < |s| && !(p <= k <= r) ==> ApplySwaps(s, sw)[k] == s[k]
  {
    if sw != [] {
      SwapsPerm(s, sw[..|sw| - 1], p, r);
      var a := ApplySwaps(s, sw[..|sw| - 1]);
      SwapPerm(a, sw[|sw| - 1].0, sw[|sw| - 1].1);
    }
  }

  lemma ApplySwapsSnoc(s: seq<int>, sw: seq<(int, int)>, i: int, j: int, p: int, r: int)
    requires 0 <= p && r < |s| && SwapsIn(sw, p, r)
    requires p <= i <= r && p <= j <= r
    ensures SwapsIn(sw + [(i, j)], p, r)
    ensures ApplySwaps(s, sw + [(i, j)]) == ApplySwaps(s, sw)[i := ApplySwaps(s, sw)[j]][j := ApplySwaps(s, sw)[i]]
  {
    assert (sw + [(i, j)])[..|sw|] == sw;
  }

  // ---------------------------------------------------------------------
  // Partitionner

  /** What the two scans of one round establish. */
  lemma ScanResult(a: seq<int>, key: seq<int>, p: int, r: int, i0: int, i: int, j0: int, j: int, x: int)
    requires 0 <= p && p - 1 <= i0 < i <= r && p <= j < j0 <= r + 1 && r < |a|
    requires KeysRange(a, key, p, r) && AtMost(a, key, p, i0, x) && AtLeast(a, key, j0, r, x)
    requires forall k :: i0 < k < i ==> key[a[k]] < x
    requires forall k :: j < k < j0 ==> key[a[k]] > x
    requires key[a[j]] <= x
    ensures AtMost(a, key, p, i - 1, x) && AtLeast(a, key, j + 1, r, x)
    ensures j <= i ==> AtMost(a, key, p, j, x)
  {
  }

  /** Exchanging a[i] (key at least x) with a[j] (key at most x) extends
      both sides by one. */
  lemma SwapStep(s: seq<int>, key: seq<int>, p: int, r: int, i: int, j: int, x: int)
    requires 0 <= p <= i < j <= r < |s| && KeysRange(s, key, p, r)
    requires AtMost(s, key, p, i - 1, x) && key[s[j]] <= x
    requires AtLeast(s, key, j + 1, r, x) && key[s[i]] >= x
    ensures KeysRange(s[i := s[j]][j := s[i]], key, p, r)
    ensures AtMost(s[i := s[j]][j := s[i]], key, p, i, x)
    ensures AtLeast(s[i := s[j]][j := s[i]], key, j, r, x)
  {
  }

  /** The index-wise outcome of the partition loop, stated on the two pieces. */
  lemma PartitionDone(a: seq<int>, key: seq<int>, p: int, j: int, r: int, x: int)
    requires 0 <= p <= j <= r < |a|
    requires AtMost(a, key, p, j, x) && AtLeast(a, key, j + 1, r, x)
    ensures AllAtMost(a[p..j + 1], key, x) && AllAtLeast(a[j + 1..r + 1], key, x)
  {
    forall e | e in a[p..j + 1]
      ensures 0 <= e < |key| && key[e] <= x
    {
      var k :| 0 <= k < j + 1 - p && a[p..j + 1][k] == e;
      assert e == a[p + k];
    }
    forall e | e in a[j + 1..r + 1]
      ensures 0 <= e < |key| && key[e] >= x
    {
      var k :| 0 <= k < r - j && a[j + 1..r + 1][k] == e;
      assert e == a[j + 1 + k];
    }
  }

  lemma PartitionExit(orig: seq<int>, sw: seq<(int, int)>, key: seq<int>, p: int, j: int, r: int, x: int)
    requires 0 <= p <= j <= r < |orig| && SwapsIn(sw, p, r)
    requires AtMost(ApplySwaps(orig, sw), key, p, j, x) && AtLeast(ApplySwaps(orig, sw), key, j + 1, r, x)
    ensures PartitionedAt(orig, ApplySwaps(orig, sw), key, p, j, r, x)
  {
    var a := ApplySwaps(orig, sw);
    SwapsPerm(orig, sw, p, r);
    SliceMultiset(a, orig, p, r);
    PartitionDone(a, key, p, j, r, x);
  }

  /** The downward scan of Partitionner: steps down from just below j0 and
      stops at the first key at most the pivot x, which exists at lo or above. */
  method ScanDown(A: array<int>, T: array<int>, j0: int, ghost lo: int, x: int, ghost p: int, ghost r: int) returns (j: int)
    requires 0 <= p <= lo < j0 <= r + 1 <= A.Length && KeysRange(A[..], T[..], p, r)
    requires T[A[lo]] <= x
    ensures lo <= j < j0 && T[A[j]] <= x
    ensures forall k :: j < k < j0 ==> T[A[k]] > x
  {
    j := j0 - 1;
    while T[A[j]] > x
      invariant lo <= j < j0
      invariant forall k :: j < k < j0 ==> T[A[k]] > x
      decreases j
    {
      j := j - 1;
    }
  }

  /** The upward scan of Partitionner: steps up from just above i0 and
      stops at the first key at least the pivot x, which exists at hi or below. */
  method ScanUp(A: array<int>, T: array<int>, i0: int, ghost hi: int, x: int, ghost p: int, ghost r: int) returns (i: int)
    requires 0 <= p && p - 1 <= i0 < hi <= r < A.Length && KeysRange(A[..], T[..], p, r)
    requires T[A[hi]] >= x
    ensures i0 < i <= hi && T[A[i]] >= x
    ensures forall k :: i0 < k < i ==> T[A[k]] < x
  {
    i := i0 + 1;
    while T[A[i]] < x
      invariant i0 < i <= hi
      invariant forall k :: i0 < k < i ==> T[A[k]] < x
      decreases hi - i
    {
      i := i + 1;
    }
  }

  /** Partitionner: Hoare's partition of A[p..r] around x = T[A[p]]. It
      returns j in [p, r], below r when p < r, with the keys of A[p..j] at
      most x and those of A[j+1..r] at least x; A is only permuted within
      [p, r]. */
  method Partitionner(A: array<int>, T: array<int>, p: int, r: int) returns (j: int)
    requires A != T && 0 <= p <= r < A.Length && KeysRange(A[..], T[..], p, r)
    modifies A
    ensures p <= j <= r && (p < r ==> j < r)
    ensures 0 <= old(A[p]) < T.Length
    ensures PartitionedAt(old(A[..]), A[..], T[..], p, j, r, old(T[A[p]]))
  {
    var x := T[A[p]];
    ghost var orig := A[..];
    ghost var swaps: seq<(int, int)> := [];
    var i := p - 1;
    j := r + 1;
    while true
      invariant SwapsIn(swaps, p, r) && A[..] == ApplySwaps(orig, swaps)
      invariant KeysRange(A[..], T[..], p, r)
      invariant (i == p - 1 && j == r + 1 && T[A[p]] == x) || (p <= i < j <= r)
      invariant AtMost(A[..], T[..], p, i, x) && AtLeast(A[..], T[..], j, r, x)
      decreases j - i
    {
      // the scans stop at a key at most x at or after lo, and at a key at
      // least x at or before hi
      ghost var i0, j0 := i, j;
      j := ScanDown(A, T, j, if i < p then p else i, x, p, r);
      i := ScanUp(A, T, i, if i < p then p else j0, x, p, r);
      ScanResult(A[..], T[..], p, r, i0, i, j0, j, x);
      if i < j {
        ghost var s0 := A[..];
        ghost var sw0 := swaps;
        SwapStep(s0, T[..], p, r, i, j, x);
        A[i], A[j] := A[j], A[i];
        swaps := swaps + [(i, j)];
        ApplySwapsSnoc(orig, sw0, i, j, p, r);
        assert A[..] == s0[i := s0[j]][j := s0[i]];
      } else {
        PartitionExit(orig, swaps, T[..], p, j, r, x);
        return j;
      }
    }
  }

  /** A pivot value between the two sides gives a split. */
  lemma PivotSplit(left: seq<int>, right: seq<int>, key: seq<int>, x: int)
    requires AllAtMost(left, key, x) && AllAtLeast(right, key, x)
    ensures Split(left, right, key)
  {
  }

  /** PartitionStochastique: Partitionner after exchanging A[p] with A[q]
      for a pivot index q drawn in [p, r]; the draw is an arbitrary choice. */
  method PartitionStochastique(A: array<int>, T: array<int>, p: int, r: int) returns (j: int)
    requires A != T && 0 <= p <= r < A.Length && KeysRange(A[..], T[..], p, r)
    modifies A
    ensures p <= j <= r && (p < r ==> j < r)
    ensures SplitAt(old(A[..]), A[..], T[..], p, j, r)
  {
    var q :| p <= q <= r;
    ghost var s0 := A[..];
    A[p], A[q] := A[q], A[p];
    ghost var s1 := A[..];
    assert s1 == s0[p := s0[q]][q := s0[p]];
    SwapPerm(s0, p, q);
    SliceMultiset(s1, s0, p, r);
    KeysRangeRearranged(s0, s1, T[..], p, r);
    j := Partitionner(A, T, p, r);
    RearrangedTrans(s0, s1, A[..], p, r);
    KeysRangeRearranged(s1, A[..], T[..], p, r);
    PivotSplit(A[p..j + 1], A[j + 1..r + 1], T[..], T[s1[p]]);
  }

  // ---------------------------------------------------------------------
  // TriRapideStochastique

  /** Sorting both sides of a split sorts the whole range. */
  lemma QuickSortStep(m0: seq<int>, m1: seq<int>, m2: seq<int>, m3: seq<int>, key: seq<int>, p: int, j: int, r: int)
    requires SplitAt(m0, m1, key, p, j, r) && j < r
    requires SortedAt(m1, m2, key, p, j) && SortedAt(m2, m3, key, j + 1, r)
    ensures SortedAt(m0, m3, key, p, r)
  {
    RearrangedWiden(m1, m2, p, j, p, r);
    RearrangedWiden(m2, m3, j + 1, r, p, r);
    RearrangedTrans(m0, m1, m2, p, r);
    RearrangedTrans(m0, m2, m3, p, r);
    // the left side is settled in m2; the right side is where m1 put it
    assert m3[p..j + 1] == m2[p..j + 1];
    assert m2[j + 1..r + 1] == m1[j + 1..r + 1];
    SamePieces(m2[p..j + 1], m1[p..j + 1]);
    SamePieces(m3[j + 1..r + 1], m1[j + 1..r + 1]);
    forall x, y | p <= x < y <= r
      ensures key[m3[x]] <= key[m3[y]]
    {
      if y <= j {
        assert m3[x] == m2[x] && m3[y] == m2[y];
      } else if j < x {
      } else {
        assert m3[x] == m2[p..j + 1][x - p];
        assert m3[y] == m3[j + 1..r + 1][y - j - 1];
      }
    }
  }

  /** TriRapideStochastique: sorts A[p..r] by key, in place; A outside
      [p, r] is untouched. An empty or one-element range is left as is. */
  method TriRapideStochastique(A: array<int>, T: array<int>, p: int, r: int)
    requires A != T && 0 <= p <= r + 1 <= A.Length && KeysRange(A[..], T[..], p, r)
    modifies A
    ensures SortedAt(old(A[..]), A[..], T[..], p, r)
    decreases r - p, 1
  {
    if p < r {
      var q := PartitionStochastique(A, T, p, r);
      SortHalves(A, T, p, q, r, old(A[..]));
    }
  }

  /** The two recursive calls of TriRapideStochastique, once A[p..r] has
      been split at q: sorting both halves sorts the whole range. */
  method SortHalves(A: array<int>, T: array<int>, p: int, q: int, r: int, ghost m0: seq<int>)
    requires A != T && r < A.Length && q < r && SplitAt(m0, A[..], T[..], p, q, r)
    modifies A
    ensures SortedAt(m0, A[..], T[..], p, r)
    decreases r - p, 0
  {
    ghost var m1, key := A[..], T[..];
    TriRapideStochastique(A, T, p, q);
    ghost var m2 := A[..];
    KeysRangeFrame(m1, m2, key, p, q, q + 1, r);
    TriRapideStochastique(A, T, q + 1, r);
    QuickSortStep(m0, m1, m2, A[..], key, p, q, r);
  }

  /** triAretes: the indexes 0 .. narc - 1 of the arcs, in ascending order
      of their weights poids. */
  method TriAretes(poids: array<int>, narc: int) returns (O: array<int>)
    requires 0 <= narc <= poids.Length
    ensures fresh(O) && O.Length == narc
    ensures multiset(O[..]) == multiset(seq(narc, i => i))
    ensures SortedRange(O[..], poids[..], 0, narc - 1)
  {
    O := new int[narc];
    for i := 0 to narc
      invariant forall k :: 0 <= k < i ==> O[k] == k
    {
      O[i] := i;
    }
    ghost var o0 := O[..];
    assert o0 == seq(narc, i => i) && o0[0..narc - 1 + 1] == o0;
    TriRapideStochastique(O, poids, 0, narc - 1);
    assert O[..] == O[0..narc - 1 + 1];
  }
}
