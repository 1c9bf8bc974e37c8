/** The steps of bubble-up and trickle-down, one lemma per step: each takes
    the keys before a step of the algorithm and states the order that holds
    after it. */
module HeapRepair {
  import opened HeapIndex
  import opened HeapOrder
  import opened HeapFacts

  /** Bubble-up stops when slot i has no grandparent or is in order with it;
      the whole prefix is then in order. */
  lemma BubbleUpDone(k: seq<int>, n: nat, i: nat)
    requires HeapExceptUp(k, n, i)
    requires i < 3 || Dominates(k, Grandparent(i), i)
    ensures LocalHeap(k, n)
  {
    assert UpOk(k, i);
  }

  /** One bubble-up step: slot i is out of order with its grandparent g, so
      the two are exchanged and the fault moves up to g. */
  lemma BubbleUpStep(k: seq<int>, n: nat, i: nat)
    requires HeapExceptUp(k, n, i) && i >= 3
    requires !Dominates(k, Grandparent(i), i)
    ensures Grandparent(i) < i
    ensures HeapExceptUp(Swapped(k, i, Grandparent(i)), n, Grandparent(i))
  {
    var g := Grandparent(i);
    var t := Swapped(k, i, g);
    BubbleUpStepBelow(k, n, i);
    if g > 0 {
      assert UpOk(k, g);
      LevelParity(g);
      LevelParity(i);
      LevelParity(Parent(i));
    }
    if g >= 3 {
      BubbleUpStepAbove(k, n, i);
    }
  }

  /** After a bubble-up exchange every slot other than the grandparent g is
      in order with its parent and grandparent. */
  lemma BubbleUpStepBelow(k: seq<int>, n: nat, i: nat)
    requires HeapExceptUp(k, n, i) && i >= 3
    requires !Dominates(k, Grandparent(i), i)
    ensures forall d: nat | d < n && d != Grandparent(i) :: UpOk(Swapped(k, i, Grandparent(i)), d)
  {
    var q := Parent(i);
    var g := Grandparent(i);
    var t := Swapped(k, i, g);
    LevelParity(i);
    LevelParity(q);
    assert UpOk(k, q);
    forall d: nat | d < n && d != g ensures UpOk(t, d) {
      if d > 0 {
        LevelParity(d);
        if Parent(d) > 0 {
          LevelParity(Parent(d));
        }
      }
      if d == i {
        assert Dominates(t, q, i);
        assert Dominates(t, g, i);
      } else {
        assert UpOk(k, d);
        if IsChildOrGrandchild(i, d) {
          assert Dominates(k, g, d);
        }
      }
    }
  }

  /** After a bubble-up exchange the grandparent of g is in order with the
      children and grandchildren of g. */
  lemma BubbleUpStepAbove(k: seq<int>, n: nat, i: nat)
    requires HeapExceptUp(k, n, i) && i >= 3 && Grandparent(i) >= 3
    requires !Dominates(k, Grandparent(i), i)
    ensures forall d: nat | d < n && IsChildOrGrandchild(Grandparent(i), d) ::
      Dominates(Swapped(k, i, Grandparent(i)), Grandparent(Grandparent(i)), d)
  {
    var g := Grandparent(i);
    var t := Swapped(k, i, g);
    LevelParity(i);
    LevelParity(Parent(i));
    LevelParity(g);
    LevelParity(Parent(g));
    assert UpOk(k, g);
    forall d: nat | d < n && IsChildOrGrandchild(g, d) ensures Dominates(t, Grandparent(g), d) {
      LevelParity(d);
      if d != i {
        assert UpOk(k, d);
      }
      if Parent(d) > 0 {
        LevelParity(Parent(d));
      }
    }
  }

  /** The order over a prefix depends on the keys in that prefix only. */
  lemma LocalHeapFrame(k: seq<int>, k': seq<int>, n: nat)
    requires LocalHeap(k, n) && n <= |k'| && k[..n] == k'[..n]
    ensures LocalHeap(k', n)
  {
    forall d: nat | d < n ensures UpOk(k', d) {
      assert UpOk(k, d);
      assert k[d] == k'[d];
      if d > 0 {
        assert k[Parent(d)] == k'[Parent(d)];
      }
      if d >= 3 {
        assert k[Grandparent(d)] == k'[Grandparent(d)];
      }
    }
  }

  /** Insertion writes the new key at slot n-1 of an ordered prefix [0, n-1)
      and compares it with its parent. If the parent is in order with it,
      bubble-up starts at n-1; otherwise the two are exchanged and bubble-up
      starts at the parent. */
  lemma InsertAtLeaf(k: seq<int>, n: nat)
    requires 0 < n <= |k| && LocalHeap(k, n - 1)
    ensures n - 1 == 0 || Dominates(k, Parent(n - 1), n - 1) ==> HeapExceptUp(k, n, n - 1)
    ensures n - 1 > 0 && !Dominates(k, Parent(n - 1), n - 1) ==>
      HeapExceptUp(Swapped(k, n - 1, Parent(n - 1)), n, Parent(n - 1))
  {
    var i := n - 1;
    if i > 0 && !Dominates(k, Parent(i), i) {
      var p := Parent(i);
      var t := Swapped(k, i, p);
      LevelParity(i);
      assert UpOk(k, p);
      if p > 0 {
        LevelParity(p);
      }
      forall d: nat | d < n && d != p ensures UpOk(t, d) {
        if d > 0 {
          LevelParity(d);
        }
        if d != i {
          assert UpOk(k, d);
        }
      }
      if p >= 3 {
        InsertAtLeafAbove(k, n, i, p);
      }
    }
  }

  /** After the exchange with the parent p, the grandparent of p is in order
      with the children and grandchildren of p. */
  lemma InsertAtLeafAbove(k: seq<int>, n: nat, i: nat, p: nat)
    requires 0 < n <= |k| && LocalHeap(k, n - 1) && i == n - 1
    requires i > 0 && p == Parent(i) && p >= 3 && !Dominates(k, p, i)
    ensures forall d: nat | d < n && IsChildOrGrandchild(p, d) :: Dominates(Swapped(k, i, p), Grandparent(p), d)
  {
    var t := Swapped(k, i, p);
    LevelParity(i);
    LevelParity(p);
    LevelParity(Parent(p));
    assert UpOk(k, p);
    forall d: nat | d < n && IsChildOrGrandchild(p, d) ensures Dominates(t, Grandparent(p), d) {
      LevelParity(d);
      if d != i {
        assert UpOk(k, d);
      }
    }
  }

  /** Trickle-down stops at a slot without children: the prefix is in order. */
  lemma TrickleDownLeaf(k: seq<int>, n: nat, i: nat)
    requires HeapExceptDown(k, n, i) && n <= 2 * i + 1
    ensures LocalHeap(k, n)
  {
  }

  /** Trickle-down stops when slot i is in order with the best of its
      children and grandchildren: the prefix is in order. */
  lemma TrickleDownStop(k: seq<int>, n: nat, i: nat, m: nat)
    requires HeapExceptDown(k, n, i) && BestBelow(k, n, i, m)
    requires Dominates(k, i, m)
    ensures LocalHeap(k, n)
  {
  }

  /** The best key below i sits in a child m and beats slot i: exchanging
      the two puts the prefix in order. */
  lemma TrickleDownChildSwap(k: seq<int>, n: nat, i: nat, m: nat)
    requires HeapExceptDown(k, n, i) && BestBelow(k, n, i, m)
    requires m > 0 && Parent(m) == i && !Dominates(k, i, m)
    ensures LocalHeap(Swapped(k, i, m), n)
  {
    var t := Swapped(k, i, m);
    LevelParity(m);
    forall d: nat | d < n ensures UpOk(t, d) {
      if d > 0 {
        LevelParity(d);
        if Parent(d) > 0 {
          LevelParity(Parent(d));
        }
      }
      if d > 0 && Parent(d) == m {
        assert Dominates(k, m, d);
      }
      if d >= 3 && Grandparent(d) == m {
        assert Dominates(k, m, d);
      }
    }
  }

  /** The keys after the exchanges of a grandchild step, described slot by
      slot: the best key below i moved up to i, the keys of i and of m's
      parent p fill p and m in order, and every other slot is unchanged. */
  predicate AfterGrandchildSwap(k: seq<int>, n: nat, i: nat, m: nat, u: seq<int>)
  {
    && HeapExceptDown(k, n, i) && BestBelow(k, n, i, m)
    && m >= 3 && Grandparent(m) == i && !Dominates(k, i, m)
    && |u| == |k| && u[i] == k[m]
    && ((u[Parent(m)] == k[Parent(m)] && u[m] == k[i]) || (u[Parent(m)] == k[i] && u[m] == k[Parent(m)]))
    && Dominates(u, Parent(m), m)
    && forall d: nat | d < |k| && d != i && d != Parent(m) && d != m :: u[d] == k[d]
  }

  lemma GrandchildSwapParents(k: seq<int>, n: nat, i: nat, m: nat, u: seq<int>)
    requires AfterGrandchildSwap(k, n, i, m, u)
    ensures forall d: nat | 0 < d < n && Parent(d) != m :: Dominates(u, Parent(d), d)
  {
    var p := Parent(m);
    LevelParity(m);
    LevelParity(p);
    if i > 0 {
      LevelParity(i);
    }
    forall d: nat | 0 < d < n && Parent(d) != m ensures Dominates(u, Parent(d), d) {
      LevelParity(d);
      if d == i {
        assert Dominates(k, Parent(i), m);
      } else if d == p {
        assert Prec(IsMaxLevel(i), k[m], k[p]);
      } else if d == m {
      } else if Parent(d) == i {
        assert Prec(IsMaxLevel(i), k[m], k[d]);
      } else if Parent(d) == p {
        assert Dominates(k, p, d);
      } else {
        assert Dominates(k, Parent(d), d);
      }
    }
  }

  lemma GrandchildSwapGrandparents(k: seq<int>, n: nat, i: nat, m: nat, u: seq<int>)
    requires AfterGrandchildSwap(k, n, i, m, u)
    ensures forall d: nat | 3 <= d < n && Grandparent(d) != m :: Dominates(u, Grandparent(d), d)
  {
    var p := Parent(m);
    LevelParity(m);
    LevelParity(p);
    if i > 0 {
      LevelParity(i);
    }
    forall d: nat | 3 <= d < n && Grandparent(d) != m ensures Dominates(u, Grandparent(d), d) {
      LevelParity(d);
      LevelParity(Parent(d));
      if d == i {
        assert Dominates(k, Grandparent(i), m);
      } else if d == p {
        assert Dominates(k, Parent(i), i);
        assert Dominates(k, Parent(i), p);
      } else if d == m {
        assert Prec(IsMaxLevel(i), k[m], k[p]);
      } else if Grandparent(d) == i {
        assert Prec(IsMaxLevel(i), k[m], k[d]);
      } else if Grandparent(d) == p {
        assert Dominates(k, p, d);
      } else {
        assert Dominates(k, Grandparent(d), d);
      }
    }
  }

  lemma GrandchildSwapBelow(k: seq<int>, n: nat, i: nat, m: nat, u: seq<int>)
    requires AfterGrandchildSwap(k, n, i, m, u)
    ensures forall d: nat | d < n && IsChildOrGrandchild(m, d) ::
      Dominates(u, Parent(m), d) && Dominates(u, i, d)
  {
    var p := Parent(m);
    LevelParity(m);
    LevelParity(p);
    forall d: nat | d < n && IsChildOrGrandchild(m, d)
      ensures Dominates(u, p, d) && Dominates(u, i, d)
    {
      LevelParity(d);
      if Parent(d) == m {
        assert Grandparent(d) == p;
        assert Dominates(k, p, d);
        assert Dominates(k, m, d);
      } else {
        var c := Parent(d);
        LevelParity(c);
        assert Parent(c) == m && Grandparent(c) == p;
        assert Dominates(k, p, c);
        assert Dominates(k, c, d);
        assert Dominates(k, m, d);
      }
    }
  }

  /** The best key below i sits in a grandchild m and beats slot i: the two
      are exchanged, then the key now at m is exchanged with m's parent when
      those two are out of order, and trickle-down goes on from m. */
  lemma TrickleDownGrandchildSwap(k: seq<int>, n: nat, i: nat, m: nat)
    requires HeapExceptDown(k, n, i) && BestBelow(k, n, i, m)
    requires m >= 3 && Grandparent(m) == i && !Dominates(k, i, m)
    ensures i < m
    ensures var t := Swapped(k, i, m);
      Dominates(t, Parent(m), m) ==> HeapExceptDown(t, n, m)
    ensures var t := Swapped(k, i, m);
      !Dominates(t, Parent(m), m) ==> HeapExceptDown(Swapped(t, m, Parent(m)), n, m)
  {
    var p := Parent(m);
    var t := Swapped(k, i, m);
    var u := if Dominates(t, p, m) then t else Swapped(t, m, p);
    if !Dominates(t, p, m) {
      LevelParity(m);
      assert Dominates(u, p, m);
    }
    assert AfterGrandchildSwap(k, n, i, m, u);
    GrandchildSwapParents(k, n, i, m, u);
    GrandchildSwapGrandparents(k, n, i, m, u);
    GrandchildSwapBelow(k, n, i, m, u);
  }

  /** Removal takes the key at slot j (the root, or a child of the root),
      moves the last key of [0, n) into j and shrinks the prefix by one:
      trickle-down then starts at j. */
  lemma MoveLastInto(k: seq<int>, n: nat, j: nat)
    requires LocalHeap(k, n) && j < n && j < 3
    ensures HeapExceptDown(Swapped(k, j, n - 1), n - 1, j)
  {
    var t := Swapped(k, j, n - 1);
    RootIsMin(k, n);
    forall d: nat | 0 < d < n - 1 && Parent(d) != j ensures Dominates(t, Parent(d), d) {
      assert UpOk(k, d);
    }
    forall d: nat | 3 <= d < n - 1 && Grandparent(d) != j ensures Dominates(t, Grandparent(d), d) {
      assert UpOk(k, d);
    }
    forall d: nat | d < n - 1 && IsChildOrGrandchild(j, d)
      ensures j > 0 ==> Dominates(t, Parent(j), d)
    {
      if j > 0 {
        assert Parent(j) == 0 && !IsMaxLevel(0);
      }
    }
  }
}
