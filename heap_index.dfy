/** Index arithmetic of a binary tree stored in an array: the root is slot 0
    and the children of slot i are slots 2i+1 and 2i+2. Levels are counted
    from the root (level 0); even levels are min levels, odd levels are max
    levels. */
module HeapIndex {

  datatype Option<T> = None | Some(value: T)

  /** The parent slot of a non-root slot. */
  function Parent(i: nat): (p: nat)
    requires i > 0
  {
    (i - 1) / 2
  }

  /** The parent of the parent; slots 0, 1 and 2 have none. */
  function Grandparent(i: nat): (g: nat)
    requires i >= 3
  {
    Parent(Parent(i))
  }

  /** d is a child or a grandchild of a. */
  predicate IsChildOrGrandchild(a: nat, d: nat)
  {
    (d > 0 && Parent(d) == a) || (d >= 3 && Grandparent(d) == a)
  }

  /** GetParent: a parent exists exactly for the non-root slots, and it is
      the slot whose left or right child the given slot is. */
  function GetParent(index: nat): (r: Option<nat>)
    ensures r.Some? <==> index != 0
    ensures r.Some? ==> r.value < index && (index == 2 * r.value + 1 || index == 2 * r.value + 2)
  {
    if index != 0 then Some(Parent(index)) else None
  }

  /** GetParent as the source writes it: besides the root test it also asks
      for the slot's payload to be non-null, so a slot holding a null
      payload reports no parent. */
  function GetParentAsWritten(index: nat, payloadIsNull: bool): (r: Option<nat>)
    ensures r.Some? <==> index != 0 && !payloadIsNull
    ensures r.Some? ==> r == GetParent(index)
  {
    if index != 0 && !payloadIsNull then Some(Parent(index)) else None
  }

  /** GetGrandparent: the parent of the parent, when both exist; that is
      exactly from slot 3 on, and the slot found has the given slot among
      its four grandchildren 4g+3 .. 4g+6. */
  function GetGrandparent(index: nat): (r: Option<nat>)
    ensures r.Some? <==> index >= 3
    ensures r.Some? ==> 4 * r.value + 3 <= index <= 4 * r.value + 6
  {
    match GetParent(index)
    case None => None
    case Some(p) => GetParent(p)
  }

  /** GetGrandparent as the source writes it: both GetParent calls carry the
      null test, the first on the slot's own payload and the second on its
      parent's, so either null payload reports no grandparent. */
  function GetGrandparentAsWritten(index: nat, payloadIsNull: bool, parentPayloadIsNull: bool): (r: Option<nat>)
    ensures r.Some? <==> index >= 3 && !payloadIsNull && !parentPayloadIsNull
    ensures r.Some? ==> r == GetGrandparent(index)
  {
    match GetParentAsWritten(index, payloadIsNull)
    case None => None
    case Some(p) => GetParentAsWritten(p, parentPayloadIsNull)
  }

  /** 2 to the power k. */
  function Pow2(k: nat): (p: nat)
  {
    if k == 0 then 1 else 2 * Pow2(k - 1)
  }

  /** floor(log2(n)), by repeated halving. */
  function Log2(n: nat): (k: nat)
    requires n >= 1
  {
    if n < 2 then 0 else 1 + Log2(n / 2)
  }

  /** Log2 is the floor of the base-2 logarithm: 2^Log2(n) <= n < 2^(Log2(n)+1). */
  lemma {:induction false} Log2Bounds(n: nat)
    requires n >= 1
    ensures Pow2(Log2(n)) <= n < Pow2(Log2(n) + 1)
  {
    if n >= 2 {
      Log2Bounds(n / 2);
    }
  }

  /** The depth of slot i: floor(log2(i + 1)). */
  function Level(i: nat): (d: nat)
  {
    Log2(i + 1)
  }

  /** Slot i lies on a max level: the root's level is a min level and the
      kinds alternate from parent to child. */
  predicate IsMaxLevel(i: nat)
    decreases i
  {
    i > 0 && !IsMaxLevel(Parent(i))
  }

  /** A child lies one level below its parent. */
  lemma LevelOfParent(i: nat)
    requires i > 0
    ensures Level(Parent(i)) + 1 == Level(i)
  {
    assert (i + 1) / 2 == Parent(i) + 1;
  }

  /** The max levels are the odd depths: IsMaxLevel is the parity test
      floor(log2(i + 1)) % 2 != 0. */
  lemma {:induction false} MaxLevelIsOddDepth(i: nat)
    ensures IsMaxLevel(i) <==> Level(i) % 2 == 1
    decreases i
  {
    if i > 0 {
      LevelOfParent(i);
      MaxLevelIsOddDepth(Parent(i));
    }
  }

  /** Parent and child lie on levels of opposite kind. */
  lemma LevelParity(i: nat)
    requires i > 0
    ensures IsMaxLevel(Parent(i)) <==> !IsMaxLevel(i)
  {
  }

  /** a is a proper ancestor of d. */
  predicate IsAncestor(a: nat, d: nat)
    decreases d
  {
    d > 0 && (Parent(d) == a || IsAncestor(a, Parent(d)))
  }

  /** The root is an ancestor of every other slot. */
  lemma {:induction false} RootIsAncestor(d: nat)
    requires d > 0
    ensures IsAncestor(0, d)
  {
    if Parent(d) != 0 {
      RootIsAncestor(Parent(d));
    }
  }

  /** Every slot below level 1 descends from slot 1 or slot 2. */
  lemma {:induction false} UnderRootChild(d: nat)
    requires d >= 3
    ensures IsAncestor(1, d) || IsAncestor(2, d)
  {
    if Parent(d) >= 3 {
      UnderRootChild(Parent(d));
    }
  }

  /** Ancestors sit at smaller indices. */
  lemma {:induction false} AncestorIsSmaller(a: nat, d: nat)
    requires IsAncestor(a, d)
    ensures a < d
    decreases d
  {
    if Parent(d) != a {
      AncestorIsSmaller(a, Parent(d));
    }
  }
}
