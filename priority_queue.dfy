/** The double-ended priority queue: a fixed-capacity min-max heap stored in
    an array of slots. The smallest key is always at the root; the largest is
    at the root or at one of its two children. */
module PriorityQueues {
  import opened HeapIndex
  import opened HeapOrder
  import opened HeapFacts
  import opened HeapRepair
  import opened HeapChildren
  import opened HeapAlgorithms

  class PriorityQueue<T> {
    /** The slots; [0, Length) are occupied. */
    var minMaxHeap: array<Node<T>>
    /** The number of elements held. */
    var Length: nat
    /** The capacity, fixed at construction. */
    const MaxSize: nat
    /** The payload of an empty slot and of a failed dequeue (C#'s default(T)). */
    const Default: T

    /** The object invariant: the array has the capacity, the occupied slots
        are the prefix [0, Length), and the keys there are in min-max heap order. */
    ghost predicate Valid()
      reads this, minMaxHeap
    {
      && minMaxHeap.Length == MaxSize
      && Length <= MaxSize
      && ActivePrefix(minMaxHeap[..], Length)
      && LocalHeap(Keys(minMaxHeap[..]), Length)
    }

    /** The elements held, as (key, payload, occupied) slots. */
    ghost function Contents(): multiset<Node<T>>
      reads this, minMaxHeap
      requires Length <= minMaxHeap.Length
    {
      multiset(minMaxHeap[..Length])
    }

    /** The element DequeueMin takes: the root. */
    ghost function MinNode(): Node<T>
      reads this, minMaxHeap
      requires Valid() && Length > 0
    {
      minMaxHeap[0]
    }

    /** The element DequeueMax takes: the larger child of the root (the left
        one on a tie), or the root when it has no children. */
    ghost function MaxNode(): Node<T>
      reads this, minMaxHeap
      requires Valid() && Length > 0
    {
      minMaxHeap[MaxIndex(Keys(minMaxHeap[..]), Length)]
    }

    /** MinNode is held and no element has a smaller key. */
    lemma MinNodeIsSmallest()
      requires Valid() && Length > 0
      ensures MinNode() in Contents() && forall x | x in Contents() :: MinNode().key <= x.key
    {
      assert minMaxHeap[..Length] == minMaxHeap[..][..Length];
      RootHoldsMinimum(minMaxHeap[..], Length);
    }

    /** MaxNode is held and no element has a larger key. */
    lemma MaxNodeIsLargest()
      requires Valid() && Length > 0
      ensures MaxNode() in Contents() && forall x | x in Contents() :: x.key <= MaxNode().key
    {
      assert minMaxHeap[..Length] == minMaxHeap[..][..Length];
      MaxSlotHoldsMaximum(minMaxHeap[..], Length);
    }

    /** An empty queue of the given capacity; every slot is unoccupied. */
    constructor (size: nat, default: T)
      ensures Valid() && fresh(minMaxHeap)
      ensures MaxSize == size && Length == 0 && Default == default
      ensures Contents() == multiset{}
    {
      MaxSize := size;
      Length := 0;
      Default := default;
      var slots := new Node<T>[size](_ => Node(0, default, false));
      for i := 0 to slots.Length
        invariant forall j :: 0 <= j < slots.Length ==> !slots[j].active
      {
        slots[i] := slots[i].(active := false);
      }
      minMaxHeap := slots;
    }

    /** Adds a payload with the given priority. A full queue refuses it
        (ok is false) and is left as it was; otherwise the new element joins
        the contents and the min-max heap order is kept. */
    method Enqueue(value: T, priority: int) returns (ok: bool)
      requires Valid()
      modifies this, minMaxHeap
      ensures Valid() && minMaxHeap == old(minMaxHeap)
      ensures ok <==> old(Length) < MaxSize
      ensures ok ==> Length == old(Length) + 1
      ensures ok ==> Contents() == old(Contents()) + multiset{Node(priority, value, true)}
      ensures ok ==> minMaxHeap[..] == Inserted(old(minMaxHeap[..]), old(Length), Node(priority, value, true))
      ensures !ok ==> Length == old(Length) && minMaxHeap[..] == old(minMaxHeap[..])
    {
      var freeIndex := Length;
      if freeIndex >= minMaxHeap.Length {
        return false;
      }
      ghost var s := minMaxHeap[..];
      ghost var x := Node(priority, value, true);
      assert Contents() == multiset(s[..freeIndex]);
      minMaxHeap[freeIndex] := minMaxHeap[freeIndex].(key := priority, value := value, active := true);
      ghost var u := s[freeIndex := x];
      assert minMaxHeap[..] == u;
      var parent := GetParent(freeIndex);
      if parent.Some? {
        BubbleUpLeaf(freeIndex, parent.value);
      }
      assert minMaxHeap[..] == Inserted(s, freeIndex, x);
      Length := Length + 1;
      ok := true;
      InsertedRestores(s, freeIndex, x);
      assert minMaxHeap[..][..Length] == minMaxHeap[..Length];
    }

    /** The bubble-up of a new leaf at index, whose parent is parentIndex:
        on a max level a key smaller than the parent's swaps with it and
        continues up the min levels, otherwise it continues up the max
        levels; on a min level the other way round. */
    method BubbleUpLeaf(index: nat, parentIndex: nat)
      requires 0 < index < minMaxHeap.Length && parentIndex == Parent(index)
      modifies minMaxHeap
      ensures minMaxHeap[..] == BubbledUpFromLeaf(old(minMaxHeap[..]), index, Log2(index + 1) % 2 != 0)
    {
      var isMaxLevel := Log2(index + 1) % 2 != 0;
      var newKey := minMaxHeap[index].key;
      var parentKey := minMaxHeap[parentIndex].key;
      if isMaxLevel {
        if newKey < parentKey {
          Swap(index, parentIndex);
          BubbleUpMin(parentIndex);
        } else {
          BubbleUpMax(index);
        }
      } else {
        if newKey > parentKey {
          Swap(index, parentIndex);
          BubbleUpMax(parentIndex);
        } else {
          BubbleUpMin(index);
        }
      }
    }

    /** Takes out an element with the smallest key. An empty queue reports
        false and the default payload and is left as it was; otherwise the
        root's payload is returned, the root's element leaves the contents
        and the min-max heap order is kept. */
    method DequeueMin() returns (found: bool, value: T)
      requires Valid() && MaxSize >= 1
      modifies this, minMaxHeap
      ensures Valid() && minMaxHeap == old(minMaxHeap)
      ensures found <==> old(Length) > 0
      ensures !found ==> value == Default && Length == old(Length) && minMaxHeap[..] == old(minMaxHeap[..])
      ensures found ==> value == old(MinNode()).value && Length == old(Length) - 1
      ensures found ==> Contents() == old(Contents()) - multiset{old(MinNode())}
    {
      found := false;
      value := Default;
      if minMaxHeap[0].active {
        ghost var s := minMaxHeap[..];
        ghost var n := Length;
        value := minMaxHeap[0].value;
        minMaxHeap[0] := minMaxHeap[0].(active := false, value := Default);
        if Length > 1 {
          Swap(0, Length - 1);
          Length := Length - 1;
          TakeAndMoveLastOrder(s, n, 0, Default);
          TrickleDownMin(0);
        } else {
          Length := 0;
        }
        RemovalOutcome(s, n, 0, Default, minMaxHeap[..]);
        found := true;
      }
    }

    /** Takes out an element with the largest key, looked for among the
        children of the root and, when there are none, at the root. An empty
        queue reports false and the default payload and is left as it was;
        otherwise that element's payload is returned, the element leaves the
        contents and the min-max heap order is kept. */
    method DequeueMax() returns (found: bool, value: T)
      requires Valid() && MaxSize >= 1
      modifies this, minMaxHeap
      ensures Valid() && minMaxHeap == old(minMaxHeap)
      ensures found <==> old(Length) > 0
      ensures !found ==> value == Default && Length == old(Length) && minMaxHeap[..] == old(minMaxHeap[..])
      ensures found ==> value == old(MaxNode()).value && Length == old(Length) - 1
      ensures found ==> Contents() == old(Contents()) - multiset{old(MaxNode())}
    {
      found := false;
      value := Default;
      ghost var s := minMaxHeap[..];
      ghost var n := Length;
      assert Contents() == multiset(s[..n]);
      assert n > 0 ==> MaxNode() == s[MaxIndex(Keys(s), n)];
      var childIndices := GetChildren(0);
      assert minMaxHeap[..] == s && Length == n;
      RootChildren(s, n);
      var indexOfLargest := -1;
      var largestKey := 0;
      for i := 0 to |childIndices|
        invariant i == 0 <==> indexOfLargest == -1
        invariant i > 0 ==> indexOfLargest == MaxIndex(Keys(s), i + 1) && largestKey == s[indexOfLargest].key
      {
        var childKey := minMaxHeap[childIndices[i]].key;
        if indexOfLargest == -1 || childKey > largestKey {
          indexOfLargest := childIndices[i];
          largestKey := childKey;
        }
      }
      if indexOfLargest != -1 {
        assert indexOfLargest == MaxIndex(Keys(s), n) && 0 < indexOfLargest < n;
        value := TakeFromRootChild(indexOfLargest);
        found := true;
      } else if minMaxHeap[0].active {
        assert n == 1;
        value := minMaxHeap[0].value;
        minMaxHeap[0] := minMaxHeap[0].(active := false, value := Default);
        Length := 0;
        assert minMaxHeap[..] == s[0 := Cleared(s[0], Default)];
        RemovalOutcome(s, n, 0, Default, minMaxHeap[..]);
        found := true;
      }
    }

    /** The removal step of DequeueMax once a child of the root has been
        chosen: the child's payload is returned, the last element of the
        prefix is moved into its slot and trickled down a max level. Any
        occupied child of the root can be taken this way; the element taken
        leaves the contents and the min-max heap order is kept. */
    method TakeFromRootChild(index: nat) returns (value: T)
      requires Valid() && 0 < index < 3 && index < Length
      modifies this, minMaxHeap
      ensures Valid() && minMaxHeap == old(minMaxHeap) && Length == old(Length) - 1
      ensures value == old(minMaxHeap[index]).value
      ensures Contents() == old(Contents()) - multiset{old(minMaxHeap[index])}
    {
      ghost var s := minMaxHeap[..];
      ghost var n := Length;
      assert index == 1 || index == 2;
      value := minMaxHeap[index].value;
      minMaxHeap[index] := minMaxHeap[index].(active := false, value := Default);
      ghost var c := s[index := Cleared(s[index], Default)];
      assert minMaxHeap[..] == c;
      if Length > 1 {
        Swap(index, Length - 1);
        Length := Length - 1;
        assert minMaxHeap[..] == Swapped(c, index, n - 1);
        TakeAndMoveLastOrder(s, n, index, Default);
        TrickleDownMax(index);
      } else {
        // a child of the root is occupied only when Length >= 2
        assert false;
      }
      RemovalOutcome(s, n, index, Default, minMaxHeap[..]);
      assert minMaxHeap[..Length] == minMaxHeap[..][..n - 1];
    }

    /** Exchanges all three fields of two slots and touches nothing else. */
    method Swap(i1: nat, i2: nat)
      requires i1 < minMaxHeap.Length && i2 < minMaxHeap.Length
      modifies minMaxHeap
      ensures minMaxHeap[..] == Swapped(old(minMaxHeap[..]), i1, i2)
    {
      var node1 := minMaxHeap[i1];
      minMaxHeap[i1] := minMaxHeap[i2];
      minMaxHeap[i2] := node1;
    }

    /** The occupied children of a slot, left before right. */
    method GetChildren(index: nat) returns (r: seq<nat>)
      ensures r == OccupiedChildren(minMaxHeap[..], index)
    {
      var leftChildIndex := 2 * index + 1;
      var rightChildIndex := leftChildIndex + 1;
      r := [];
      if leftChildIndex < minMaxHeap.Length && minMaxHeap[leftChildIndex].active {
        r := r + [leftChildIndex];
      }
      if rightChildIndex < minMaxHeap.Length && minMaxHeap[rightChildIndex].active {
        r := r + [rightChildIndex];
      }
    }

    /** The occupied children of the occupied children of a slot, the left
        child's children first. */
    method GetGrandchildren(index: nat) returns (r: seq<nat>)
      ensures r == OccupiedGrandchildren(minMaxHeap[..], index)
    {
      var childIndices := GetChildren(index);
      r := [];
      for i := 0 to |childIndices|
        invariant r == ChildrenOfAll(minMaxHeap[..], childIndices[..i])
      {
        var grandchildIndices := GetChildren(childIndices[i]);
        ghost var before := r;
        for j := 0 to |grandchildIndices|
          invariant r == before + grandchildIndices[..j]
        {
          r := r + [grandchildIndices[j]];
          assert grandchildIndices[..j + 1] == grandchildIndices[..j] + [grandchildIndices[j]];
        }
        assert childIndices[..i + 1][..i] == childIndices[..i];
        assert grandchildIndices[..|grandchildIndices|] == grandchildIndices;
      }
      assert childIndices[..|childIndices|] == childIndices;
    }

    /** The first slot with the smallest key among the given children and
        then the given grandchildren (-1 when both are empty), and whether
        it is one of the grandchildren. */
    method FindSmallest(childIndices: seq<nat>, grandChildrenIndices: seq<nat>)
      returns (indexOfSmallest: int, smallestIsGrandchild: bool, ghost pos: nat)
      requires forall t :: 0 <= t < |childIndices + grandChildrenIndices| ==>
        (childIndices + grandChildrenIndices)[t] < minMaxHeap.Length
      ensures indexOfSmallest == -1 <==> childIndices + grandChildrenIndices == []
      ensures indexOfSmallest != -1 ==>
        var all, h := childIndices + grandChildrenIndices, minMaxHeap[..];
        && pos < |all| && all[pos] == indexOfSmallest
        && (forall t :: 0 <= t < |all| ==> h[all[pos]].key <= h[all[t]].key)
        && (forall t :: 0 <= t < pos ==> h[all[pos]].key < h[all[t]].key)
      ensures smallestIsGrandchild <==> indexOfSmallest != -1 && pos >= |childIndices|
    {
      ghost var all := childIndices + grandChildrenIndices;
      indexOfSmallest := -1;
      var smallestKey := 0;
      smallestIsGrandchild := false;
      pos := 0;
      for i := 0 to |childIndices|
        invariant indexOfSmallest == -1 <==> i == 0
        invariant indexOfSmallest != -1 ==>
          && pos < i && all[pos] == indexOfSmallest && smallestKey == minMaxHeap[all[pos]].key
          && (forall t :: 0 <= t < i ==> smallestKey <= minMaxHeap[all[t]].key)
          && (forall t :: 0 <= t < pos ==> smallestKey < minMaxHeap[all[t]].key)
        invariant !smallestIsGrandchild
      {
        assert childIndices[i] == all[i];
        var childKey := minMaxHeap[childIndices[i]].key;
        if indexOfSmallest == -1 || childKey < smallestKey {
          indexOfSmallest := childIndices[i];
          smallestKey := childKey;
          pos := i;
        }
      }
      for i := 0 to |grandChildrenIndices|
        invariant indexOfSmallest == -1 <==> |childIndices| + i == 0
        invariant indexOfSmallest != -1 ==>
          && pos < |childIndices| + i && all[pos] == indexOfSmallest && smallestKey == minMaxHeap[all[pos]].key
          && (forall t :: 0 <= t < |childIndices| + i ==> smallestKey <= minMaxHeap[all[t]].key)
          && (forall t :: 0 <= t < pos ==> smallestKey < minMaxHeap[all[t]].key)
        invariant smallestIsGrandchild <==> indexOfSmallest != -1 && pos >= |childIndices|
      {
        assert grandChildrenIndices[i] == all[|childIndices| + i];
        var grandChildKey := minMaxHeap[grandChildrenIndices[i]].key;
        if indexOfSmallest == -1 || grandChildKey < smallestKey {
          indexOfSmallest := grandChildrenIndices[i];
          smallestKey := grandChildKey;
          smallestIsGrandchild := true;
          pos := |childIndices| + i;
        }
      }
    }

    /** The first slot with the largest key among the given children and
        then the given grandchildren (-1 when both are empty), and whether
        it is one of the grandchildren. */
    method FindLargest(childIndices: seq<nat>, grandChildrenIndices: seq<nat>)
      returns (indexOfLargest: int, largestIsGrandchild: bool, ghost pos: nat)
      requires forall t :: 0 <= t < |childIndices + grandChildrenIndices| ==>
        (childIndices + grandChildrenIndices)[t] < minMaxHeap.Length
      ensures indexOfLargest == -1 <==> childIndices + grandChildrenIndices == []
      ensures indexOfLargest != -1 ==>
        var all, h := childIndices + grandChildrenIndices, minMaxHeap[..];
        && pos < |all| && all[pos] == indexOfLargest
        && (forall t :: 0 <= t < |all| ==> h[all[t]].key <= h[all[pos]].key)
        && (forall t :: 0 <= t < pos ==> h[all[t]].key < h[all[pos]].key)
      ensures largestIsGrandchild <==> indexOfLargest != -1 && pos >= |childIndices|
    {
      ghost var all := childIndices + grandChildrenIndices;
      indexOfLargest := -1;
      var largestKey := 0;
      largestIsGrandchild := false;
      pos := 0;
      for i := 0 to |childIndices|
        invariant indexOfLargest == -1 <==> i == 0
        invariant indexOfLargest != -1 ==>
          && pos < i && all[pos] == indexOfLargest && largestKey == minMaxHeap[all[pos]].key
          && (forall t :: 0 <= t < i ==> minMaxHeap[all[t]].key <= largestKey)
          && (forall t :: 0 <= t < pos ==> minMaxHeap[all[t]].key < largestKey)
        invariant !largestIsGrandchild
      {
        assert childIndices[i] == all[i];
        var childKey := minMaxHeap[childIndices[i]].key;
        if indexOfLargest == -1 || childKey > largestKey {
          indexOfLargest := childIndices[i];
          largestKey := childKey;
          pos := i;
        }
      }
      for i := 0 to |grandChildrenIndices|
        invariant indexOfLargest == -1 <==> |childIndices| + i == 0
        invariant indexOfLargest != -1 ==>
          && pos < |childIndices| + i && all[pos] == indexOfLargest && largestKey == minMaxHeap[all[pos]].key
          && (forall t :: 0 <= t < |childIndices| + i ==> minMaxHeap[all[t]].key <= largestKey)
          && (forall t :: 0 <= t < pos ==> minMaxHeap[all[t]].key < largestKey)
        invariant largestIsGrandchild <==> indexOfLargest != -1 && pos >= |childIndices|
      {
        assert grandChildrenIndices[i] == all[|childIndices| + i];
        var grandChildKey := minMaxHeap[grandChildrenIndices[i]].key;
        if indexOfLargest == -1 || grandChildKey > largestKey {
          indexOfLargest := grandChildrenIndices[i];
          largestKey := grandChildKey;
          largestIsGrandchild := true;
          pos := |childIndices| + i;
        }
      }
    }
  
    /** The selection trickle-down starts with: the first slot holding the
        smallest key among the occupied children and then the occupied
        grandchildren of index (-1 when there are none, which is exactly when
        index has no children in the prefix), and whether it is a grandchild. */
    method SelectSmallest(index: nat) returns (indexOfSmallest: int, smallestIsGrandchild: bool)
      requires index < minMaxHeap.Length && ActivePrefix(minMaxHeap[..], Length)
      ensures -1 <= indexOfSmallest && (indexOfSmallest == -1 <==> Length <= 2 * index + 1)
      ensures indexOfSmallest != -1 ==>
        ExtremeBelow(Keys(minMaxHeap[..]), Length, index, indexOfSmallest, false)
      ensures indexOfSmallest != -1 ==>
        forall d: nat | d < Length && IsChildOrGrandchild(index, d) && d < indexOfSmallest ::
          Keys(minMaxHeap[..])[indexOfSmallest] < Keys(minMaxHeap[..])[d]
      ensures indexOfSmallest != -1 && smallestIsGrandchild ==>
        indexOfSmallest >= 3 && Grandparent(indexOfSmallest) == index
      ensures indexOfSmallest != -1 && !smallestIsGrandchild ==>
        indexOfSmallest > 0 && Parent(indexOfSmallest) == index
    {
      ghost var s := minMaxHeap[..];
      var childIndices := GetChildren(index);
      var grandChildrenIndices := GetGrandchildren(index);
      assert minMaxHeap[..] == s;
      OccupiedChildrenSpec(s, index);
      OccupiedGrandchildrenSpec(s, index);
      assert forall t :: 0 <= t < |childIndices + grandChildrenIndices| ==>
        (childIndices + grandChildrenIndices)[t] in childIndices + grandChildrenIndices;
      ghost var pos;
      indexOfSmallest, smallestIsGrandchild, pos := FindSmallest(childIndices, grandChildrenIndices);
      assert minMaxHeap[..] == s;
      SelectionOutcome(s, Length, index, childIndices, grandChildrenIndices, indexOfSmallest, smallestIsGrandchild, pos, false);
    }

    /** The selection trickle-down starts with: the first slot holding the
        largest key among the occupied children and then the occupied
        grandchildren of index (-1 when there are none, which is exactly when
        index has no children in the prefix), and whether it is a grandchild. */
    method SelectLargest(index: nat) returns (indexOfLargest: int, largestIsGrandchild: bool)
      requires index < minMaxHeap.Length && ActivePrefix(minMaxHeap[..], Length)
      ensures -1 <= indexOfLargest && (indexOfLargest == -1 <==> Length <= 2 * index + 1)
      ensures indexOfLargest != -1 ==>
        ExtremeBelow(Keys(minMaxHeap[..]), Length, index, indexOfLargest, true)
      ensures indexOfLargest != -1 ==>
        forall d: nat | d < Length && IsChildOrGrandchild(index, d) && d < indexOfLargest ::
          Keys(minMaxHeap[..])[d] < Keys(minMaxHeap[..])[indexOfLargest]
      ensures indexOfLargest != -1 && largestIsGrandchild ==>
        indexOfLargest >= 3 && Grandparent(indexOfLargest) == index
      ensures indexOfLargest != -1 && !largestIsGrandchild ==>
        indexOfLargest > 0 && Parent(indexOfLargest) == index
    {
      ghost var s := minMaxHeap[..];
      var childIndices := GetChildren(index);
      var grandChildrenIndices := GetGrandchildren(index);
      assert minMaxHeap[..] == s;
      OccupiedChildrenSpec(s, index);
      OccupiedGrandchildrenSpec(s, index);
      assert forall t :: 0 <= t < |childIndices + grandChildrenIndices| ==>
        (childIndices + grandChildrenIndices)[t] in childIndices + grandChildrenIndices;
      ghost var pos;
      indexOfLargest, largestIsGrandchild, pos := FindLargest(childIndices, grandChildrenIndices);
      assert minMaxHeap[..] == s;
      SelectionOutcome(s, Length, index, childIndices, grandChildrenIndices, indexOfLargest, largestIsGrandchild, pos, true);
    }

    /** Bubble-up from a min-level slot during insertion, while the slot's
        key is smaller than its grandparent's. */
    method BubbleUpMin(index: nat)
      requires index < minMaxHeap.Length
      modifies minMaxHeap
      ensures minMaxHeap[..] == BubbledUp(old(minMaxHeap[..]), index, false)
      decreases index
    {
      var grandparent := GetGrandparent(index);
      if grandparent.Some? {
        var grandparentIndex := grandparent.value;
        assert grandparentIndex == Grandparent(index);
        if minMaxHeap[index].key < minMaxHeap[grandparentIndex].key {
          Swap(index, grandparentIndex);
          BubbleUpMin(grandparentIndex);
        }
      }
    }

    /** Bubble-up from a max-level slot during insertion, while the slot's
        key is larger than its grandparent's. */
    method BubbleUpMax(index: nat)
      requires index < minMaxHeap.Length
      modifies minMaxHeap
      ensures minMaxHeap[..] == BubbledUp(old(minMaxHeap[..]), index, true)
      decreases index
    {
      var grandparent := GetGrandparent(index);
      if grandparent.Some? {
        var grandparentIndex := grandparent.value;
        assert grandparentIndex == Grandparent(index);
        if minMaxHeap[index].key > minMaxHeap[grandparentIndex].key {
          Swap(index, grandparentIndex);
          BubbleUpMax(grandparentIndex);
        }
      }
    }

    /** Trickle-down from a min-level slot after a removal: the slot's key
        is compared with the smallest of its children and grandchildren and
        sinks until the prefix [0, Length) is back in order. */
    method TrickleDownMin(index: nat)
      requires index < minMaxHeap.Length && ActivePrefix(minMaxHeap[..], Length)
      requires HeapExceptDown(Keys(minMaxHeap[..]), Length, index) && !IsMaxLevel(index)
      modifies minMaxHeap
      ensures ActivePrefix(minMaxHeap[..], Length) && LocalHeap(Keys(minMaxHeap[..]), Length)
      ensures Permutes(old(minMaxHeap[..]), minMaxHeap[..], Length)
      decreases minMaxHeap.Length - index
    {
      ghost var s := minMaxHeap[..];
      var indexOfSmallest, smallestIsGrandchild := SelectSmallest(index);
      if indexOfSmallest != -1 {
        var m: nat := indexOfSmallest;
        assert BestBelow(Keys(s), Length, index, m);
        if smallestIsGrandchild {
          if minMaxHeap[m].key < minMaxHeap[index].key {
            Swap(index, m);
            var parent := GetParent(m);
            if parent.Some? {
              var parentIndex := parent.value;
              if minMaxHeap[m].key > minMaxHeap[parentIndex].key {
                Swap(m, parentIndex);
              }
            }
            assert && ActivePrefix(minMaxHeap[..], Length) && HeapExceptDown(Keys(minMaxHeap[..]), Length, m)
                   && Permutes(s, minMaxHeap[..], Length) && index < m && !IsMaxLevel(m) by {
              GrandchildCase(s, Length, index, m);
            }
            ghost var s1 := minMaxHeap[..];
            TrickleDownMin(m);
            PermutesTransitive(s, s1, minMaxHeap[..], Length);
          } else {
            TrickleDownStop(Keys(s), Length, index, m);
          }
        } else {
          if minMaxHeap[m].key < minMaxHeap[index].key {
            Swap(index, m);
            ChildCase(s, Length, index, m);
          } else {
            TrickleDownStop(Keys(s), Length, index, m);
          }
        }
      } else {
        TrickleDownLeaf(Keys(s), Length, index);
      }
    }

    /** Trickle-down from a max-level slot after a removal: the slot's key
        is compared with the largest of its children and grandchildren and
        sinks until the prefix [0, Length) is back in order. */
    method TrickleDownMax(index: nat)
      requires index < minMaxHeap.Length && ActivePrefix(minMaxHeap[..], Length)
      requires HeapExceptDown(Keys(minMaxHeap[..]), Length, index) && IsMaxLevel(index)
      modifies minMaxHeap
      ensures ActivePrefix(minMaxHeap[..], Length) && LocalHeap(Keys(minMaxHeap[..]), Length)
      ensures Permutes(old(minMaxHeap[..]), minMaxHeap[..], Length)
      decreases minMaxHeap.Length - index
    {
      ghost var s := minMaxHeap[..];
      var indexOfLargest, largestIsGrandchild := SelectLargest(index);
      if indexOfLargest != -1 {
        var m: nat := indexOfLargest;
        assert BestBelow(Keys(s), Length, index, m);
        if largestIsGrandchild {
          if minMaxHeap[m].key > minMaxHeap[index].key {
            Swap(index, m);
            var parent := GetParent(m);
            if parent.Some? {
              var parentIndex := parent.value;
              if minMaxHeap[m].key < minMaxHeap[parentIndex].key {
                Swap(m, parentIndex);
              }
            }
            assert && ActivePrefix(minMaxHeap[..], Length) && HeapExceptDown(Keys(minMaxHeap[..]), Length, m)
                   && Permutes(s, minMaxHeap[..], Length) && index < m && IsMaxLevel(m) by {
              GrandchildCase(s, Length, index, m);
            }
            ghost var s1 := minMaxHeap[..];
            TrickleDownMax(m);
            PermutesTransitive(s, s1, minMaxHeap[..], Length);
          } else {
            TrickleDownStop(Keys(s), Length, index, m);
          }
        } else {
          if minMaxHeap[m].key > minMaxHeap[index].key {
            Swap(index, m);
            ChildCase(s, Length, index, m);
          } else {
            TrickleDownStop(Keys(s), Length, index, m);
          }
        }
      } else {
        TrickleDownLeaf(Keys(s), Length, index);
      }
    }
  }

  /** The slot a selection loop picks over the occupied children and
      grandchildren of index (the smallest key when maxLevel is false, the
      largest when it is true) is extreme among all children and
      grandchildren in the prefix, and it is a child exactly when it was
      picked from the children. */
  lemma SelectionIsExtreme<T>(s: seq<Node<T>>, n: nat, index: nat, kids: seq<nat>, grandkids: seq<nat>,
                              pos: nat, maxLevel: bool)
    requires ActivePrefix(s, n)
    requires forall c: nat :: c in kids <==> 0 < c < |s| && Parent(c) == index && s[c].active
    requires forall g: nat :: g in grandkids <==>
      && 3 <= g < |s| && Grandparent(g) == index && s[g].active && s[Parent(g)].active
    requires pos < |kids + grandkids|
    requires forall t :: 0 <= t < |kids + grandkids| ==> (kids + grandkids)[t] < |s|
    requires forall t :: 0 <= t < |kids + grandkids| ==>
      Prec(maxLevel, s[(kids + grandkids)[pos]].key, s[(kids + grandkids)[t]].key)
    ensures ExtremeBelow(Keys(s), n, index, (kids + grandkids)[pos], maxLevel)
    ensures pos < |kids| ==> (kids + grandkids)[pos] > 0 && Parent((kids + grandkids)[pos]) == index
    ensures pos >= |kids| ==> (kids + grandkids)[pos] >= 3 && Grandparent((kids + grandkids)[pos]) == index
  {
    var all := kids + grandkids;
    var m := all[pos];
    if pos < |kids| {
      assert m == kids[pos];
      assert m in kids;
    } else {
      assert m == grandkids[pos - |kids|];
      assert m in grandkids;
    }
    var k := Keys(s);
    forall d: nat | d < n && IsChildOrGrandchild(index, d) ensures Prec(maxLevel, k[m], k[d]) {
      if d > 0 && Parent(d) == index {
        assert d in kids;
      } else {
        assert d in grandkids;
      }
      assert d in all;
    }
  }

  /** What a selection loop's result means for the slots: from the first
      best position in the children list followed by the grandchildren list
      (or -1 when both are empty) follow the postconditions of
      SelectSmallest (maxLevel false) and SelectLargest (maxLevel true). */
  lemma SelectionOutcome<T>(s: seq<Node<T>>, n: nat, index: nat, kids: seq<nat>, grandkids: seq<nat>,
                            m: int, isGrandchild: bool, pos: nat, maxLevel: bool)
    requires ActivePrefix(s, n)
    requires kids == OccupiedChildren(s, index) && grandkids == OccupiedGrandchildren(s, index)
    requires forall t :: 0 <= t < |kids + grandkids| ==> (kids + grandkids)[t] < |s|
    requires m == -1 <==> kids + grandkids == []
    requires m != -1 ==>
      var all := kids + grandkids;
      && pos < |all| && all[pos] == m
      && (forall t :: 0 <= t < |all| ==>
            if maxLevel then s[all[t]].key <= s[all[pos]].key else s[all[pos]].key <= s[all[t]].key)
      && (forall t :: 0 <= t < pos ==>
            if maxLevel then s[all[t]].key < s[all[pos]].key else s[all[pos]].key < s[all[t]].key)
    requires isGrandchild <==> m != -1 && pos >= |kids|
    ensures -1 <= m && (m == -1 <==> n <= 2 * index + 1)
    ensures m != -1 ==> ExtremeBelow(Keys(s), n, index, m, maxLevel)
    ensures m != -1 ==> forall d: nat | d < n && IsChildOrGrandchild(index, d) && d < m ::
      if maxLevel then Keys(s)[d] < Keys(s)[m] else Keys(s)[m] < Keys(s)[d]
    ensures m != -1 && isGrandchild ==> m >= 3 && Grandparent(m) == index
    ensures m != -1 && !isGrandchild ==> m > 0 && Parent(m) == index
  {
    OccupiedChildrenSpec(s, index);
    OccupiedGrandchildrenSpec(s, index);
    NoneBelowIsLeaf(s, n, index, kids, grandkids);
    if m != -1 {
      SelectionIsExtreme(s, n, index, kids, grandkids, pos, maxLevel);
      SelectionIsFirst(s, n, index, kids, grandkids, pos, maxLevel);
    }
  }

  /** The children list followed by the grandchildren list is increasing, so
      the first entry holding a strictly better key than every entry before
      it is the best slot of smallest index: every child or grandchild of
      index in the prefix that lies before it holds a strictly worse key.
      This is the tie-break of the strict comparisons in the selection loops. */
  lemma SelectionIsFirst<T>(s: seq<Node<T>>, n: nat, index: nat, kids: seq<nat>, grandkids: seq<nat>,
                            pos: nat, maxLevel: bool)
    requires ActivePrefix(s, n)
    requires kids == OccupiedChildren(s, index) && grandkids == OccupiedGrandchildren(s, index)
    requires pos < |kids + grandkids|
    requires forall t :: 0 <= t < |kids + grandkids| ==> (kids + grandkids)[t] < |s|
    requires forall t :: 0 <= t < pos ==>
      var x, y := s[(kids + grandkids)[t]].key, s[(kids + grandkids)[pos]].key;
      if maxLevel then x < y else y < x
    ensures forall d: nat | d < n && IsChildOrGrandchild(index, d) && d < (kids + grandkids)[pos] ::
      var x, y := Keys(s)[d], Keys(s)[(kids + grandkids)[pos]];
      if maxLevel then x < y else y < x
  {
    var all := kids + grandkids;
    var m := all[pos];
    OccupiedChildrenSpec(s, index);
    OccupiedGrandchildrenSpec(s, index);
    assert Increasing(all) by {
      forall a, b | 0 <= a < b < |all| ensures all[a] < all[b] {
        if a < |kids| <= b {
          assert kids[a] in kids && grandkids[b - |kids|] in grandkids;
        }
      }
    }
    forall d: nat | d < n && IsChildOrGrandchild(index, d) && d < m
      ensures if maxLevel then s[d].key < s[m].key else s[m].key < s[d].key
    {
      if d > 0 && Parent(d) == index {
        assert d in kids;
      } else {
        assert d in grandkids;
      }
      assert d in all;
      var t :| 0 <= t < |all| && all[t] == d;
      assert t < pos;
    }
  }

  /** A slot has no occupied children or grandchildren exactly when it has
      no children in the occupied prefix. */
  lemma NoneBelowIsLeaf<T>(s: seq<Node<T>>, n: nat, index: nat, kids: seq<nat>, grandkids: seq<nat>)
    requires ActivePrefix(s, n)
    requires forall c: nat :: c in kids <==> 0 < c < |s| && Parent(c) == index && s[c].active
    requires forall g: nat :: g in grandkids <==>
      && 3 <= g < |s| && Grandparent(g) == index && s[g].active && s[Parent(g)].active
    ensures kids + grandkids == [] <==> n <= 2 * index + 1
  {
    if 2 * index + 1 < n {
      assert 2 * index + 1 in kids;
      assert (kids + grandkids)[0] == kids[0];
    }
    // any occupied child or grandchild has an occupied slot from 2 * index + 1 on
    if |kids| > 0 {
      assert kids[0] in kids;
    }
    if |grandkids| > 0 {
      assert grandkids[0] in grandkids;
      assert Parent(grandkids[0]) >= 2 * index + 1;
    }
  }

  /** Trickle-down's grandchild case on the slots themselves: the two
      exchanges keep the prefix occupied, only rearrange it, and leave the
      order faulty at most below m. */
  lemma GrandchildCase<T>(s: seq<Node<T>>, n: nat, index: nat, m: nat)
    requires ActivePrefix(s, n) && HeapExceptDown(Keys(s), n, index) && BestBelow(Keys(s), n, index, m)
    requires m >= 3 && Grandparent(m) == index && !Dominates(Keys(s), index, m)
    ensures index < m && (IsMaxLevel(m) <==> IsMaxLevel(index))
    ensures IsMaxLevel(Parent(m)) <==> !IsMaxLevel(index)
    ensures var s1 := Swapped(s, index, m);
      var s2 := if Dominates(Keys(s1), Parent(m), m) then s1 else Swapped(s1, m, Parent(m));
      ActivePrefix(s2, n) && HeapExceptDown(Keys(s2), n, m) && Permutes(s, s2, n)
  {
    LevelParity(m);
    LevelParity(Parent(m));
    var s1 := Swapped(s, index, m);
    TrickleDownGrandchildSwap(Keys(s), n, index, m);
    SwapInPrefix(s, index, m, n);
    if !Dominates(Keys(s1), Parent(m), m) {
      SwapInPrefix(s1, m, Parent(m), n);
    }
  }

  /** Trickle-down's child case on the slots themselves: the exchange keeps
      the prefix occupied, only rearranges it, and puts it in order. */
  lemma ChildCase<T>(s: seq<Node<T>>, n: nat, index: nat, m: nat)
    requires ActivePrefix(s, n) && HeapExceptDown(Keys(s), n, index) && BestBelow(Keys(s), n, index, m)
    requires m > 0 && Parent(m) == index && !Dominates(Keys(s), index, m)
    ensures index < m
    ensures ActivePrefix(Swapped(s, index, m), n) && LocalHeap(Keys(Swapped(s, index, m)), n)
    ensures Permutes(s, Swapped(s, index, m), n)
  {
    TrickleDownChildSwap(Keys(s), n, index, m);
    SwapInPrefix(s, index, m, n);
  }
}
