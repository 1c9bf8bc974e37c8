/** What the min-max heap order gives a reader of the heap: the slot-by-slot
    order is the documented descendant order, the root holds a minimum and
    the root or one of its children holds a maximum. */
module HeapFacts {
  import opened HeapIndex
  import opened HeapOrder

  /** The slot-by-slot order implies that every ancestor dominates every
      descendant. */
  lemma {:induction false} LocalHeapDominates(k: seq<int>, n: nat, a: nat, d: nat)
    requires LocalHeap(k, n) && d < n && IsAncestor(a, d)
    ensures a < d && Dominates(k, a, d)
    decreases d
  {
    AncestorIsSmaller(a, d);
    var p := Parent(d);
    assert UpOk(k, d);
    LevelParity(d);
    if p != a {
      if IsMaxLevel(a) == IsMaxLevel(d) {
        // a is not the parent (the parent's level has the other kind), so it
        // is the grandparent or an ancestor of the grandparent
        LevelParity(p);
        var g := Parent(p);
        if g != a {
          LocalHeapDominates(k, n, a, g);
        }
      } else {
        LocalHeapDominates(k, n, a, p);
      }
    }
  }

  /** The two statements of the heap order are equivalent. */
  lemma LocalHeapIsHeapOrdered(k: seq<int>, n: nat)
    requires n <= |k|
    ensures LocalHeap(k, n) <==> HeapOrdered(k, n)
  {
    if LocalHeap(k, n) {
      forall a: nat, d: nat | a < d < n && IsAncestor(a, d) ensures Dominates(k, a, d) {
        LocalHeapDominates(k, n, a, d);
      }
    }
    if HeapOrdered(k, n) {
      forall d: nat | d < n ensures UpOk(k, d) {
        if d > 0 {
          assert IsAncestor(Parent(d), d);
        }
        if d >= 3 {
          assert IsAncestor(Grandparent(d), Parent(d));
          assert IsAncestor(Grandparent(d), d);
        }
      }
    }
  }

  /** The root of a non-empty heap holds a smallest key. */
  lemma RootIsMin(k: seq<int>, n: nat)
    requires LocalHeap(k, n) && n > 0
    ensures forall d: nat | d < n :: k[0] <= k[d]
  {
    forall d: nat | 0 < d < n ensures k[0] <= k[d] {
      RootIsAncestor(d);
      LocalHeapDominates(k, n, 0, d);
    }
  }

  /** The slot the maximum is taken from: the larger child of the root, the
      left one on a tie, or the root when it has no children. */
  function MaxIndex(k: seq<int>, n: nat): (m: nat)
    requires n <= |k|
  {
    if n >= 3 && k[2] > k[1] then 2 else if n >= 2 then 1 else 0
  }

  /** MaxIndex of a non-empty heap holds a largest key. */
  lemma MaxIndexIsMax(k: seq<int>, n: nat)
    requires LocalHeap(k, n) && n > 0
    ensures MaxIndex(k, n) < n
    ensures forall d: nat | d < n :: k[d] <= k[MaxIndex(k, n)]
  {
    var m := MaxIndex(k, n);
    assert IsMaxLevel(1) && IsMaxLevel(2);
    if n >= 2 {
      assert UpOk(k, 1);
      if n >= 3 {
        assert UpOk(k, 2);
      }
    }
    forall d: nat | 3 <= d < n ensures k[d] <= k[m] {
      UnderRootChild(d);
      if IsAncestor(1, d) {
        LocalHeapDominates(k, n, 1, d);
      } else {
        LocalHeapDominates(k, n, 2, d);
      }
    }
  }
}
