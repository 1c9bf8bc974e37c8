/** The min-max heap order over the keys of the occupied prefix of the slot
    array, and the facts that let insertion and removal restore it. Every
    predicate here looks at keys only: a slot's payload and its occupied flag
    play no part in the order. */
module HeapOrder {
  import opened HeapIndex

  /** One slot of the heap array: priority key, payload and occupied flag. */
  datatype Node<T> = Node(key: int, value: T, active: bool)

  /** The keys of a run of slots. */
  function Keys<T>(s: seq<Node<T>>): (k: seq<int>)
    ensures |k| == |s| && forall i :: 0 <= i < |s| ==> k[i] == s[i].key
  {
    seq(|s|, i requires 0 <= i < |s| => s[i].key)
  }

  /** The sequence with positions i and j exchanged. */
  function Swapped<T>(s: seq<T>, i: nat, j: nat): (r: seq<T>)
    requires i < |s| && j < |s|
  {
    s[i := s[j]][j := s[i]]
  }

  /** Exchanging two slots of the prefix [0, n) permutes the prefix and
      leaves everything from n on as it was. */
  lemma SwapPermutes<T>(s: seq<T>, i: nat, j: nat, n: nat)
    requires i < n && j < n && n <= |s|
    ensures multiset(Swapped(s, i, j)[..n]) == multiset(s[..n])
    ensures Swapped(s, i, j)[n..] == s[n..]
  {
    assert Swapped(s, i, j)[..n] == Swapped(s[..n], i, j);
  }

  /** Exchanging two slots exchanges their keys. */
  lemma KeysSwapped<T>(s: seq<Node<T>>, i: nat, j: nat)
    requires i < |s| && j < |s|
    ensures Keys(Swapped(s, i, j)) == Swapped(Keys(s), i, j)
  {
  }

  /** The occupied slots are exactly the prefix [0, n). */
  predicate ActivePrefix<T>(s: seq<Node<T>>, n: nat)
  {
    n <= |s| && forall i :: 0 <= i < |s| ==> (s[i].active <==> i < n)
  }

  /** t is s with the prefix [0, n) rearranged and the rest untouched. */
  ghost predicate Permutes<T>(s: seq<T>, t: seq<T>, n: nat)
  {
    |s| == |t| && n <= |s| && multiset(s[..n]) == multiset(t[..n]) && s[n..] == t[n..]
  }

  /** Rearranging twice is rearranging. */
  lemma PermutesTransitive<T>(a: seq<T>, b: seq<T>, c: seq<T>, n: nat)
    requires Permutes(a, b, n) && Permutes(b, c, n)
    ensures Permutes(a, c, n)
  {
  }

  /** An exchange inside the occupied prefix keeps the prefix occupied,
      only rearranges it, and exchanges the two keys. */
  lemma SwapInPrefix<T>(s: seq<Node<T>>, i: nat, j: nat, n: nat)
    requires ActivePrefix(s, n) && i < n && j < n
    ensures ActivePrefix(Swapped(s, i, j), n)
    ensures Permutes(s, Swapped(s, i, j), n)
    ensures Keys(Swapped(s, i, j)) == Swapped(Keys(s), i, j)
  {
    SwapPermutes(s, i, j, n);
    KeysSwapped(s, i, j);
  }

  /** x may sit above y on a level of the given kind. */
  predicate Prec(maxLevel: bool, x: int, y: int)
  {
    if maxLevel then y <= x else x <= y
  }

  /** The key of a is in order above the key of d: <= on a min level, >= on a max level. */
  predicate Dominates(k: seq<int>, a: nat, d: nat)
    requires a < |k| && d < |k|
  {
    Prec(IsMaxLevel(a), k[a], k[d])
  }

  /** Slot d is in order with its parent and with its grandparent. */
  predicate UpOk(k: seq<int>, d: nat)
    requires d < |k|
  {
    (d > 0 ==> Dominates(k, Parent(d), d)) && (d >= 3 ==> Dominates(k, Grandparent(d), d))
  }

  /** The min-max heap order over [0, n), stated slot by slot. */
  predicate LocalHeap(k: seq<int>, n: nat)
  {
    n <= |k| && forall d: nat | d < n :: UpOk(k, d)
  }

  /** The min-max heap order over [0, n) as documented: every slot on a min
      level is <= all its descendants, every slot on a max level is >= all
      its descendants. */
  predicate HeapOrdered(k: seq<int>, n: nat)
  {
    n <= |k| && forall a: nat, d: nat | a < d < n && IsAncestor(a, d) :: Dominates(k, a, d)
  }

  /** The order holds except, possibly, between slot i and its grandparent;
      the grandparent of i is in order with i's children and grandchildren.
      This is the state bubble-up works on. */
  predicate HeapExceptUp(k: seq<int>, n: nat, i: nat)
  {
    && n <= |k| && i < n
    && (forall d: nat | d < n && d != i :: UpOk(k, d))
    && (i > 0 ==> Dominates(k, Parent(i), i))
    && (i >= 3 ==> forall d: nat | d < n && IsChildOrGrandchild(i, d) :: Dominates(k, Grandparent(i), d))
  }

  /** The order holds except, possibly, between slot i and its children and
      grandchildren; the parent and the grandparent of i are in order with
      those. This is the state trickle-down works on. */
  predicate HeapExceptDown(k: seq<int>, n: nat, i: nat)
  {
    && n <= |k| && i < |k|
    && (forall d: nat | 0 < d < n && Parent(d) != i :: Dominates(k, Parent(d), d))
    && (forall d: nat | 3 <= d < n && Grandparent(d) != i :: Dominates(k, Grandparent(d), d))
    && (forall d: nat | d < n && IsChildOrGrandchild(i, d) ::
          && (i > 0 ==> Dominates(k, Parent(i), d))
          && (i >= 3 ==> Dominates(k, Grandparent(i), d)))
  }

  /** m holds the smallest (maxLevel false) or the largest (maxLevel true)
      key among the children and grandchildren of i in [0, n). */
  predicate ExtremeBelow(k: seq<int>, n: nat, i: nat, m: nat, maxLevel: bool)
  {
    && n <= |k| && m < n && IsChildOrGrandchild(i, m)
    && forall d: nat | d < n && IsChildOrGrandchild(i, d) :: Prec(maxLevel, k[m], k[d])
  }

  /** m holds the best key below i in i's own orientation: the smallest
      under a min level, the largest under a max level. */
  predicate BestBelow(k: seq<int>, n: nat, i: nat, m: nat)
  {
    i < |k| && ExtremeBelow(k, n, i, m, IsMaxLevel(i))
  }
}
