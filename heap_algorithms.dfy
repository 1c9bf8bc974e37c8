/** Bubble-up and trickle-down as functions of the slot sequence: each one
    states what the queue's repair routine leaves in the array, and the
    lemmas here prove that the result is a min-max heap over the same
    elements. */
module HeapAlgorithms {
  import opened HeapIndex
  import opened HeapOrder
  import opened HeapFacts
  import opened HeapRepair

  /** Bubble-up from slot i: while slot i is out of order with its
      grandparent (smaller than it on a min level, larger on a max level),
      the two slots are exchanged and the walk goes on from the grandparent. */
  function BubbledUp<T>(s: seq<Node<T>>, i: nat, maxLevel: bool): (r: seq<Node<T>>)
    requires i < |s|
    ensures |r| == |s|
    decreases i
  {
    if i >= 3 && (if maxLevel then s[i].key > s[Grandparent(i)].key else s[i].key < s[Grandparent(i)].key)
    then BubbledUp(Swapped(s, i, Grandparent(i)), Grandparent(i), maxLevel)
    else s
  }

  /** Bubble-up's exchange on the slots themselves: it keeps the prefix
      occupied, only rearranges it, and moves the fault up to the
      grandparent. */
  lemma GrandparentSwapCase<T>(s: seq<Node<T>>, n: nat, i: nat)
    requires ActivePrefix(s, n) && HeapExceptUp(Keys(s), n, i)
    requires i >= 3 && !Dominates(Keys(s), Grandparent(i), i)
    ensures Grandparent(i) < i
    ensures ActivePrefix(Swapped(s, i, Grandparent(i)), n) && Permutes(s, Swapped(s, i, Grandparent(i)), n)
    ensures HeapExceptUp(Keys(Swapped(s, i, Grandparent(i))), n, Grandparent(i))
  {
    BubbleUpStep(Keys(s), n, i);
    SwapInPrefix(s, i, Grandparent(i), n);
  }

  /** Bubble-up started at the one faulty slot i, with the orientation of
      i's level, leaves the occupied prefix in min-max heap order and holding
      the same elements. */
  lemma {:induction false} BubbledUpRestores<T>(s: seq<Node<T>>, n: nat, i: nat)
    requires ActivePrefix(s, n) && HeapExceptUp(Keys(s), n, i)
    ensures ActivePrefix(BubbledUp(s, i, IsMaxLevel(i)), n)
    ensures LocalHeap(Keys(BubbledUp(s, i, IsMaxLevel(i))), n)
    ensures Permutes(s, BubbledUp(s, i, IsMaxLevel(i)), n)
    decreases i
  {
    if i >= 3 {
      var g := Grandparent(i);
      LevelParity(i);
      LevelParity(Parent(i));
      if !Dominates(Keys(s), g, i) {
        GrandparentSwapCase(s, n, i);
        var t := Swapped(s, i, g);
        BubbledUpRestores(t, n, g);
        PermutesTransitive(s, t, BubbledUp(t, g, IsMaxLevel(g)), n);
      } else {
        BubbleUpDone(Keys(s), n, i);
      }
    } else {
      BubbleUpDone(Keys(s), n, i);
    }
  }

  /** A slot emptied by a dequeue: the flag is cleared and the payload reset
      to the default; the key stays. */
  function Cleared<T>(x: Node<T>, default: T): (r: Node<T>)
    ensures !r.active && r.value == default && r.key == x.key
  {
    x.(active := false, value := default)
  }

  /** Insertion writes the new element into the first free slot n of an
      ordered prefix: the prefix [0, n + 1) is then occupied, holds one
      element more, and is in order everywhere except, possibly, between the
      new slot and its parent and grandparent. */
  lemma PlaceAtEnd<T>(s: seq<Node<T>>, n: nat, x: Node<T>)
    requires ActivePrefix(s, n) && LocalHeap(Keys(s), n) && n < |s| && x.active
    ensures ActivePrefix(s[n := x], n + 1)
    ensures LocalHeap(Keys(s[n := x]), n)
    ensures multiset(s[n := x][..n + 1]) == multiset(s[..n]) + multiset{x}
    ensures s[n := x][n + 1..] == s[n + 1..]
  {
    var t := s[n := x];
    assert Keys(s)[..n] == Keys(t)[..n];
    LocalHeapFrame(Keys(s), Keys(t), n);
    assert t[..n + 1] == s[..n] + [x];
  }

  /** Enqueue on the slots: x goes to the first free slot n, and unless it
      is the root the new slot is bubbled up, its level kind taken from
      floor(log2(n + 1)). */
  function Inserted<T>(s: seq<Node<T>>, n: nat, x: Node<T>): (r: seq<Node<T>>)
    requires n < |s|
    ensures |r| == |s|
  {
    if n == 0 then s[n := x] else BubbledUpFromLeaf(s[n := x], n, Log2(n + 1) % 2 != 0)
  }

  /** No slot of [0, i] holds a payload the source's null test rejects. */
  predicate NoNullPayloads<T>(s: seq<Node<T>>, i: nat, isNull: T -> bool)
  {
    forall j | 0 <= j <= i && j < |s| :: !isNull(s[j].value)
  }

  /** BubbleUpMin and BubbleUpMax as the source writes them: the grandparent
      is looked up with the payload null test of GetParent, on the slot and
      on its parent, so a null payload on either one ends the climb. With no
      null payload on the way it is the bubble-up above. */
  function BubbledUpAsWritten<T>(s: seq<Node<T>>, i: nat, maxLevel: bool, isNull: T -> bool): (r: seq<Node<T>>)
    requires i < |s|
    ensures |r| == |s|
    ensures NoNullPayloads(s, i, isNull) ==> r == BubbledUp(s, i, maxLevel)
    decreases i
  {
    match GetGrandparentAsWritten(i, isNull(s[i].value), i > 0 && isNull(s[Parent(i)].value))
    case None => s
    case Some(g) =>
      if (if maxLevel then s[i].key > s[g].key else s[i].key < s[g].key)
      then
        var t := Swapped(s, i, g);
        assert NoNullPayloads(s, i, isNull) ==> NoNullPayloads(t, g, isNull) by {
          assert forall j | 0 <= j <= g :: t[j] == (if j == g then s[i] else s[j]);
        }
        BubbledUpAsWritten(t, g, maxLevel, isNull)
      else s
  }

  /** The leaf step of Enqueue as the source writes it: the comparison with
      the parent, then the as-written bubble-up from the parent or the leaf. */
  function BubbledUpFromLeafAsWritten<T>(t: seq<Node<T>>, i: nat, maxLevel: bool, isNull: T -> bool): (r: seq<Node<T>>)
    requires 0 < i < |t|
    ensures |r| == |t|
    ensures NoNullPayloads(t, i, isNull) ==> r == BubbledUpFromLeaf(t, i, maxLevel)
  {
    var p := Parent(i);
    assert NoNullPayloads(t, i, isNull) ==> NoNullPayloads(Swapped(t, i, p), p, isNull) by {
      assert forall j | 0 <= j <= p :: Swapped(t, i, p)[j] == (if j == p then t[i] else t[j]);
    }
    if maxLevel then
      if t[i].key < t[p].key then BubbledUpAsWritten(Swapped(t, i, p), p, false, isNull)
      else BubbledUpAsWritten(t, i, true, isNull)
    else
      if t[i].key > t[p].key then BubbledUpAsWritten(Swapped(t, i, p), p, true, isNull)
      else BubbledUpAsWritten(t, i, false, isNull)
  }

  /** Enqueue on the slots as the source writes it, isNull being the null
      test of GetParent: a new leaf with a null payload gets no parent and
      stays where it is, and a null payload met on the way up stops the
      bubble-up. With no null payload at all it is the insertion above. */
  function InsertedAsWritten<T>(s: seq<Node<T>>, n: nat, x: Node<T>, isNull: T -> bool): (r: seq<Node<T>>)
    requires n < |s|
    ensures |r| == |s|
    ensures isNull(x.value) ==> r == s[n := x]
    ensures NoNullPayloads(s[n := x], n, isNull) ==> r == Inserted(s, n, x)
  {
    match GetParentAsWritten(n, isNull(x.value))
    case None => s[n := x]
    case Some(_) => BubbledUpFromLeafAsWritten(s[n := x], n, Log2(n + 1) % 2 != 0, isNull)
  }

  /** A null payload with key 1 enqueued under a root with key 5 stays a
      leaf as written, so the root no longer holds the smallest key; the
      corrected insertion exchanges the two and keeps the order. */
  lemma NullPayloadSkipsBubbleUp<T>(a: T, b: T, isNull: T -> bool)
    requires isNull(b)
    ensures var s, x := [Node(5, a, true), Node(0, a, false)], Node(1, b, true);
      && !LocalHeap(Keys(InsertedAsWritten(s, 1, x, isNull)), 2)
      && LocalHeap(Keys(Inserted(s, 1, x)), 2)
  {
    var s, x := [Node(5, a, true), Node(0, a, false)], Node(1, b, true);
    assert Keys(InsertedAsWritten(s, 1, x, isNull)) == [5, 1];
    assert !UpOk([5, 1], 1);
    InsertedRestores(s, 1, x);
  }

  /** Once a null payload is held, an ordinary enqueue can go wrong too:
      keys 5, 9 (null payload) and 7 are in order, and key 1 enqueued into
      slot 3 is compared with its parent 9 and then looks for its
      grandparent through that parent's null payload, finds none, and stays
      below the root 5. The corrected insertion moves it to the root. */
  lemma NullParentStopsBubbleUp<T>(a: T, b: T, c: T, nul: T, isNull: T -> bool)
    requires isNull(nul) && !isNull(c)
    ensures var s, x := [Node(5, a, true), Node(9, nul, true), Node(7, b, true), Node(0, a, false)], Node(1, c, true);
      && LocalHeap(Keys(s), 3)
      && !LocalHeap(Keys(InsertedAsWritten(s, 3, x, isNull)), 4)
      && LocalHeap(Keys(Inserted(s, 3, x)), 4)
  {
    var s, x := [Node(5, a, true), Node(9, nul, true), Node(7, b, true), Node(0, a, false)], Node(1, c, true);
    assert Log2(4) == 2;
    assert Keys(InsertedAsWritten(s, 3, x, isNull)) == [5, 9, 7, 1];
    assert !UpOk([5, 9, 7, 1], 3);
    assert UpOk(Keys(s), 1) && UpOk(Keys(s), 2);
    InsertedRestores(s, 3, x);
  }

  /** Bubble-up of a new leaf i on a level of the given kind: it is compared
      with its parent, and bubble-up runs from the parent (after an exchange,
      with the parent's orientation) or from i. */
  function BubbledUpFromLeaf<T>(t: seq<Node<T>>, i: nat, maxLevel: bool): (r: seq<Node<T>>)
    requires 0 < i < |t|
    ensures |r| == |t|
  {
    var p := Parent(i);
    if maxLevel then
      if t[i].key < t[p].key then BubbledUp(Swapped(t, i, p), p, false) else BubbledUp(t, i, true)
    else
      if t[i].key > t[p].key then BubbledUp(Swapped(t, i, p), p, true) else BubbledUp(t, i, false)
  }

  /** Bubbling up a new last slot n of an otherwise ordered prefix, with the
      kind of n's level, orders the prefix [0, n + 1) and only rearranges it. */
  lemma BubbledUpFromLeafRestores<T>(t: seq<Node<T>>, n: nat)
    requires ActivePrefix(t, n + 1) && LocalHeap(Keys(t), n) && 0 < n < |t|
    ensures ActivePrefix(BubbledUpFromLeaf(t, n, IsMaxLevel(n)), n + 1)
    ensures LocalHeap(Keys(BubbledUpFromLeaf(t, n, IsMaxLevel(n))), n + 1)
    ensures Permutes(t, BubbledUpFromLeaf(t, n, IsMaxLevel(n)), n + 1)
  {
    if Dominates(Keys(t), Parent(n), n) {
      LeafInOrderCase(t, n);
    } else {
      LeafOutOfOrderCase(t, n);
    }
  }

  /** The new leaf is in order with its parent: bubble-up runs from the leaf. */
  lemma LeafInOrderCase<T>(t: seq<Node<T>>, n: nat)
    requires ActivePrefix(t, n + 1) && LocalHeap(Keys(t), n) && 0 < n < |t|
    requires Dominates(Keys(t), Parent(n), n)
    ensures ActivePrefix(BubbledUpFromLeaf(t, n, IsMaxLevel(n)), n + 1)
    ensures LocalHeap(Keys(BubbledUpFromLeaf(t, n, IsMaxLevel(n))), n + 1)
    ensures Permutes(t, BubbledUpFromLeaf(t, n, IsMaxLevel(n)), n + 1)
  {
    assert BubbledUpFromLeaf(t, n, IsMaxLevel(n)) == BubbledUp(t, n, IsMaxLevel(n)) by {
      LevelParity(n);
      assert Keys(t)[Parent(n)] == t[Parent(n)].key && Keys(t)[n] == t[n].key;
    }
    assert HeapExceptUp(Keys(t), n + 1, n) by {
      InsertAtLeaf(Keys(t), n + 1);
    }
    BubbledUpRestores(t, n + 1, n);
  }

  /** The new leaf is out of order with its parent: the two are exchanged and
      bubble-up runs from the parent. */
  lemma LeafOutOfOrderCase<T>(t: seq<Node<T>>, n: nat)
    requires ActivePrefix(t, n + 1) && LocalHeap(Keys(t), n) && 0 < n < |t|
    requires !Dominates(Keys(t), Parent(n), n)
    ensures ActivePrefix(BubbledUpFromLeaf(t, n, IsMaxLevel(n)), n + 1)
    ensures LocalHeap(Keys(BubbledUpFromLeaf(t, n, IsMaxLevel(n))), n + 1)
    ensures Permutes(t, BubbledUpFromLeaf(t, n, IsMaxLevel(n)), n + 1)
  {
    var p := Parent(n);
    var u := Swapped(t, n, p);
    assert BubbledUpFromLeaf(t, n, IsMaxLevel(n)) == BubbledUp(u, p, IsMaxLevel(p)) by {
      LevelParity(n);
      assert Keys(t)[p] == t[p].key && Keys(t)[n] == t[n].key;
    }
    LeafSwapRestores(t, n, p, u);
  }

  /** The leaf-parent exchange leaves only the parent faulty, and bubble-up
      from there orders the prefix. */
  lemma LeafSwapRestores<T>(t: seq<Node<T>>, n: nat, p: nat, u: seq<Node<T>>)
    requires ActivePrefix(t, n + 1) && LocalHeap(Keys(t), n) && 0 < n < |t|
    requires p == Parent(n) && u == Swapped(t, n, p) && !Dominates(Keys(t), p, n)
    ensures ActivePrefix(BubbledUp(u, p, IsMaxLevel(p)), n + 1)
    ensures LocalHeap(Keys(BubbledUp(u, p, IsMaxLevel(p))), n + 1)
    ensures Permutes(t, BubbledUp(u, p, IsMaxLevel(p)), n + 1)
  {
    InsertAtLeaf(Keys(t), n + 1);
    KeysSwapped(t, n, p);
    SwapThenBubbledUp(t, n + 1, n, p, u);
  }

  /** Exchanging slot i with its faulty ancestor p and then bubbling up
      from p, with p's orientation, orders the prefix [0, n) and only
      rearranges it. */
  lemma SwapThenBubbledUp<T>(t: seq<Node<T>>, n: nat, i: nat, p: nat, u: seq<Node<T>>)
    requires ActivePrefix(t, n) && p < i < n
    requires u == Swapped(t, i, p) && HeapExceptUp(Keys(u), n, p)
    ensures ActivePrefix(BubbledUp(u, p, IsMaxLevel(p)), n)
    ensures LocalHeap(Keys(BubbledUp(u, p, IsMaxLevel(p))), n)
    ensures Permutes(t, BubbledUp(u, p, IsMaxLevel(p)), n)
  {
    SwapInPrefix(t, i, p, n);
    BubbledUpRestores(u, n, p);
    PermutesTransitive(t, u, BubbledUp(u, p, IsMaxLevel(p)), n);
  }

  /** Enqueue keeps the min-max heap: the prefix [0, n + 1) is occupied, in
      order, and holds the old elements plus x; the free slots are untouched. */
  lemma InsertedRestores<T>(s: seq<Node<T>>, n: nat, x: Node<T>)
    requires ActivePrefix(s, n) && LocalHeap(Keys(s), n) && n < |s| && x.active
    ensures ActivePrefix(Inserted(s, n, x), n + 1)
    ensures LocalHeap(Keys(Inserted(s, n, x)), n + 1)
    ensures multiset(Inserted(s, n, x)[..n + 1]) == multiset(s[..n]) + multiset{x}
    ensures Inserted(s, n, x)[n + 1..] == s[n + 1..]
  {
    var t := s[n := x];
    PlaceAtEnd(s, n, x);
    if n == 0 {
      assert UpOk(Keys(t), 0);
    } else {
      MaxLevelIsOddDepth(n);
      BubbledUpFromLeafRestores(t, n);
    }
  }

  /** Removal from slot j (the root, or a child of the root) of a non-empty
      heap: j is cleared and exchanged with the last occupied slot. The
      prefix [0, n - 1) is then occupied, holds the old elements less the
      one taken from j, and is in order except, possibly, below j. */
  lemma TakeAndMoveLast<T>(s: seq<Node<T>>, n: nat, j: nat, default: T)
    requires ActivePrefix(s, n) && LocalHeap(Keys(s), n) && j < n && j < 3
    ensures var t := Swapped(s[j := Cleared(s[j], default)], j, n - 1);
      && ActivePrefix(t, n - 1) && HeapExceptDown(Keys(t), n - 1, j)
      && multiset(t[..n - 1]) == multiset(s[..n]) - multiset{s[j]}
      && t[n..] == s[n..]
  {
    TakeAndMoveLastOrder(s, n, j, default);
    TakeAndMoveLastBag(s, n, j, default);
  }

  /** The order part of TakeAndMoveLast: the state trickle-down starts from. */
  lemma TakeAndMoveLastOrder<T>(s: seq<Node<T>>, n: nat, j: nat, default: T)
    requires ActivePrefix(s, n) && LocalHeap(Keys(s), n) && j < n && j < 3
    ensures var t := Swapped(s[j := Cleared(s[j], default)], j, n - 1);
      ActivePrefix(t, n - 1) && HeapExceptDown(Keys(t), n - 1, j)
  {
    var c := s[j := Cleared(s[j], default)];
    var t := Swapped(c, j, n - 1);
    assert Keys(t) == Swapped(Keys(s), j, n - 1) by {
      assert Keys(c) == Keys(s);
      KeysSwapped(c, j, n - 1);
    }
    MoveLastInto(Keys(s), n, j);
  }

  /** What a removal from slot j leaves once trickle-down has run on the
      rest (or, when j held the only element, at once): an occupied, ordered
      prefix one shorter, holding the old elements less the one taken. */
  lemma RemovalOutcome<T>(s: seq<Node<T>>, n: nat, j: nat, default: T, f: seq<Node<T>>)
    requires ActivePrefix(s, n) && LocalHeap(Keys(s), n) && j < n && j < 3
    requires n == 1 ==> f == s[j := Cleared(s[j], default)]
    requires n > 1 ==>
      && ActivePrefix(f, n - 1) && LocalHeap(Keys(f), n - 1)
      && Permutes(Swapped(s[j := Cleared(s[j], default)], j, n - 1), f, n - 1)
    ensures ActivePrefix(f, n - 1) && LocalHeap(Keys(f), n - 1)
    ensures multiset(f[..n - 1]) == multiset(s[..n]) - multiset{s[j]}
  {
    TakeAndMoveLast(s, n, j, default);
    if n == 1 {
      assert Swapped(f, j, 0) == f;
    }
  }

  /** The multiset part of TakeAndMoveLast. */
  lemma TakeAndMoveLastBag<T>(s: seq<Node<T>>, n: nat, j: nat, default: T)
    requires ActivePrefix(s, n) && j < n
    ensures var t := Swapped(s[j := Cleared(s[j], default)], j, n - 1);
      && ActivePrefix(t, n - 1)
      && multiset(t[..n - 1]) == multiset(s[..n]) - multiset{s[j]}
      && t[n..] == s[n..]
  {
    var c := s[j := Cleared(s[j], default)];
    ReplaceThenDropLast(s, n, j, c[j]);
  }

  /** Overwriting slot j of the prefix [0, n) and then exchanging it with
      the last slot of the prefix leaves the prefix [0, n - 1) holding the
      old prefix less the overwritten element. */
  lemma ReplaceThenDropLast<T>(s: seq<T>, n: nat, j: nat, v: T)
    requires j < n <= |s|
    ensures var t := Swapped(s[j := v], j, n - 1);
      && multiset(t[..n - 1]) == multiset(s[..n]) - multiset{s[j]}
      && t[n - 1] == v && t[n..] == s[n..]
  {
    var c := s[j := v];
    var t := Swapped(c, j, n - 1);
    SwapPermutes(c, j, n - 1, n);
    assert t[..n] == t[..n - 1] + [v];
    assert multiset(t[..n]) == multiset(t[..n - 1]) + multiset{v};
    assert c[..n] == s[..n][j := v];
    MultisetOfUpdate(s[..n], j, v);
    assert s[..n][j] == s[j];
    AddCancels(multiset(t[..n - 1]), multiset(s[..n]) - multiset{s[j]}, v);
  }

  /** Adding the same element to two multisets keeps them apart. */
  lemma AddCancels<T>(a: multiset<T>, b: multiset<T>, v: T)
    requires a + multiset{v} == b + multiset{v}
    ensures a == b
  {
    forall x ensures a[x] == b[x] {
      assert (a + multiset{v})[x] == (b + multiset{v})[x];
    }
  }

  /** Overwriting one element of a sequence trades it for the new one in the multiset. */
  lemma MultisetOfUpdate<T>(p: seq<T>, j: nat, v: T)
    requires j < |p|
    ensures multiset(p[j := v]) == multiset(p) - multiset{p[j]} + multiset{v}
  {
    assert p == p[..j] + [p[j]] + p[j + 1..];
    assert p[j := v] == p[..j] + [v] + p[j + 1..];
  }

  /** The root of a non-empty heap holds a smallest key among the elements
      held. */
  lemma RootHoldsMinimum<T>(s: seq<Node<T>>, n: nat)
    requires 0 < n <= |s| && LocalHeap(Keys(s), n)
    ensures s[0] in multiset(s[..n])
    ensures forall x | x in multiset(s[..n]) :: s[0].key <= x.key
  {
    RootIsMin(Keys(s), n);
    assert s[0] == s[..n][0];
    forall x | x in multiset(s[..n]) ensures s[0].key <= x.key {
      var i :| 0 <= i < n && s[..n][i] == x;
      assert Keys(s)[i] == x.key;
    }
  }

  /** The slot MaxIndex picks in a non-empty heap holds a largest key among
      the elements held. */
  lemma MaxSlotHoldsMaximum<T>(s: seq<Node<T>>, n: nat)
    requires 0 < n <= |s| && LocalHeap(Keys(s), n)
    ensures MaxIndex(Keys(s), n) < n
    ensures s[MaxIndex(Keys(s), n)] in multiset(s[..n])
    ensures forall x | x in multiset(s[..n]) :: x.key <= s[MaxIndex(Keys(s), n)].key
  {
    var m := MaxIndex(Keys(s), n);
    MaxIndexIsMax(Keys(s), n);
    assert s[m] == s[..n][m];
    forall x | x in multiset(s[..n]) ensures x.key <= s[m].key {
      var i :| 0 <= i < n && s[..n][i] == x;
      assert Keys(s)[i] == x.key;
    }
  }

  /** After the root is taken out and the rest is back in order, the new
      root's key is no smaller: successive minimum removals give keys in
      non-decreasing order. */
  lemma SuccessiveMinimaAscend<T>(s: seq<Node<T>>, n: nat, f: seq<Node<T>>)
    requires 1 < n <= |s| && LocalHeap(Keys(s), n)
    requires n - 1 <= |f| && LocalHeap(Keys(f), n - 1)
    requires multiset(f[..n - 1]) == multiset(s[..n]) - multiset{s[0]}
    ensures s[0].key <= f[0].key
  {
    RootHoldsMinimum(s, n);
    RootHoldsMinimum(f, n - 1);
  }

  /** After the element at MaxIndex is taken out and the rest is back in
      order, the element at the new MaxIndex has no larger key: successive
      maximum removals give keys in non-increasing order. */
  lemma SuccessiveMaximaDescend<T>(s: seq<Node<T>>, n: nat, f: seq<Node<T>>)
    requires 1 < n <= |s| && LocalHeap(Keys(s), n)
    requires n - 1 <= |f| && LocalHeap(Keys(f), n - 1)
    requires multiset(f[..n - 1]) == multiset(s[..n]) - multiset{s[MaxIndex(Keys(s), n)]}
    ensures f[MaxIndex(Keys(f), n - 1)].key <= s[MaxIndex(Keys(s), n)].key
  {
    MaxSlotHoldsMaximum(s, n);
    MaxSlotHoldsMaximum(f, n - 1);
  }
}
