/** The fixed-capacity FIFO of vertices (ListeFIFO): a ring buffer whose
    fields n, prem and der are updated in place. The same structure is
    declared three times in the sources, identically; this class models it. */
module Fifo {

  /** Advancing an index of the ring by one. */
  lemma RingNext(d: int, c: int)
    requires 0 <= d < c
    ensures (d + 1) % c == if d + 1 < c then d + 1 else 0
  {
  }

  class ListeFIFO {
    /** number of elements */
    var n: int
    /** index of the first element */
    var prem: int
    /** index where the next element goes */
    var der: int
    var capacite: int
    var elements: array<int>

    /** The queue's contents, oldest first. */
    ghost var Contents: seq<int>

    /** Position of the k-th element in the ring: (prem + k) mod capacite. */
    ghost function Slot(k: int): int
      reads this
    {
      if prem + k < capacite then prem + k else prem + k - capacite
    }

    ghost predicate Valid()
      reads this, elements
    {
      && capacite == elements.Length
      && 0 <= n <= capacite
      && (capacite == 0 ==> prem == 0 && der == 0)
      && (capacite > 0 ==> 0 <= prem < capacite && der == Slot(n))
      && |Contents| == n
      && forall k :: 0 <= k < n ==> Contents[k] == elements[Slot(k)]
    }

    /** initListeFIFO: an empty queue able to hold capacite elements. */
    constructor (capacite: int)
      requires capacite >= 0
      ensures Valid() && fresh(elements)
      ensures this.capacite == capacite && Contents == []
    {
      n := 0;
      this.capacite := capacite;
      prem := 0;
      der := 0;
      elements := new int[capacite];
      Contents := [];
    }

    /** estNonVideListeFIFO */
    predicate EstNonVide()
      reads this, elements
      requires Valid()
      ensures EstNonVide() <==> Contents != []
    {
      n != 0
    }

    /** insertionListeFIFO: on a full queue, reports failure and changes
        nothing; otherwise appends x. */
    method Insertion(x: int) returns (ok: bool)
      requires Valid()
      modifies this, elements
      ensures Valid() && elements == old(elements) && capacite == old(capacite)
      ensures ok <==> old(|Contents|) < capacite
      ensures Contents == if ok then old(Contents) + [x] else old(Contents)
      ensures !ok ==> unchanged(this) && unchanged(elements)
      ensures ok ==> (elements[old(der)] == x && der == (old(der) + 1) % capacite &&
                      n == old(n) + 1 && prem == old(prem))
    {
      if n < capacite {
        elements[der] := x;
        RingNext(der, capacite);
        der := (der + 1) % capacite;
        n := n + 1;
        Contents := Contents + [x];
        ok := true;
      } else {
        ok := false;
      }
    }

    /** selectionSuppressionListeFIFO: on an empty queue, returns -1 and
        changes nothing; otherwise removes and returns the oldest element. */
    method SelectionSuppression() returns (el: int)
      requires Valid()
      modifies this, elements
      ensures Valid() && elements == old(elements) && capacite == old(capacite)
      ensures old(Contents) == [] ==> el == -1 && unchanged(this) && unchanged(elements)
      ensures old(Contents) != [] ==> el == old(Contents)[0] && Contents == old(Contents)[1..]
      ensures elements[..] == old(elements[..])
      ensures old(Contents) != [] ==> (el == elements[old(prem)] &&
                                       prem == (old(prem) + 1) % capacite &&
                                       n == old(n) - 1 && der == old(der))
    {
      if n > 0 {
        el := elements[prem];
        n := n - 1;
        RingNext(prem, capacite);
        prem := (prem + 1) % capacite;
        Contents := Contents[1..];
      } else {
        el := -1;
      }
    }
  }
}
