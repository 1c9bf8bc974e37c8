# Min-max heap priority queue

This project models `PriorityQueue<T>` from the ArenaNet mobile software
engineer test, question 2, and proves properties about the model. It is a
double-ended priority queue of fixed capacity, held as a min-max heap in an
array of slots. Each slot (`Node`) carries an integer priority `key`, a
payload `value` and an `active` flag.

- Slot 0 is the root. The children of slot `i` are `2i+1` and `2i+2`.
- Levels alternate between min levels (0, 2, 4, …) and max levels. A slot
  on a min level holds a key no larger than any key below it; a slot on a
  max level holds a key no smaller than any key below it.
- `Enqueue` writes the new element into the first free slot and bubbles it
  up. It first compares the element with its parent, then moves it along
  its grandparents: along the min levels or along the max levels.
- `DequeueMin` takes the root. `DequeueMax` takes the larger child of the
  root, or the root when it has no children. Either one moves the last
  occupied slot into the hole and trickles it down. Trickle-down compares
  with the best key among the children and grandchildren, and fixes the
  parent after a grandchild swap.

The modules follow the structure of the class:

- `HeapIndex` (`heap_index.dfy`) has the index arithmetic, namely
  `GetParent` and `GetGrandparent`. It also has the level of a slot,
  computed by the integer `Log2` that stands for `Math.Floor(Math.Log(…, 2))`,
  and ancestry.
- `HeapOrder` (`heap_order.dfy`) has the slot datatype and the key view.
  It states the min-max order slot by slot (`LocalHeap`) and as the
  ancestor/descendant order (`HeapOrdered`). It also has the "order broken
  at one slot" states that bubble-up (`HeapExceptUp`) and trickle-down
  (`HeapExceptDown`) work on.
- `HeapFacts` (`heap_facts.dfy`) proves what the order gives a reader: the
  two forms of the order are equivalent, the root is a minimum, and
  `MaxIndex` is a maximum.
- `HeapRepair` (`heap_repair.dfy`) proves, on keys, that each single
  bubble-up or trickle-down step moves the heap towards the order.
- `HeapChildren` (`heap_children.dfy`) gives the value-level definitions
  of `GetChildren` and `GetGrandchildren`.
- `HeapAlgorithms` (`heap_algorithms.dfy`) defines insertion and removal
  as functions on the slot sequence. It proves that both keep the min-max
  order and change the contents by exactly one element.
- `PriorityQueues` (`priority_queue.dfy`) holds the class itself.
  - `minMaxHeap` is an `array<Node<T>>`, and `Length` and `MaxSize` are fields.
  - The methods update the array in place and mirror the C# method by
    method.
  - The object invariant `Valid()` says that exactly the prefix
    `[0, Length)` is occupied and that this prefix is in min-max heap order.
  - `Contents()` is the multiset of occupied slots.

## Model

| member | source | states |
|---|---|---|
| HeapIndex.GetParent | ArenaNet_MobileSoftwareEngineerTest_Q2/PriorityQueue.cs:325-337 | A parent exists exactly when the index is not the root. The parent is smaller than the index, and the index is its left or its right child. |
| HeapIndex.GetParentAsWritten | ArenaNet_MobileSoftwareEngineerTest_Q2/PriorityQueue.cs:330 | As written, the parent is reported exactly when the index is not the root and the slot's payload is not null. When it is reported, it is the true parent. |
| HeapIndex.GetGrandparentAsWritten | ArenaNet_MobileSoftwareEngineerTest_Q2/PriorityQueue.cs:339-351 | As written, a grandparent is reported exactly from slot 3 on when neither the slot's payload nor its parent's is null. When it is reported, it is the true grandparent. |
| HeapIndex.GetGrandparent | ArenaNet_MobileSoftwareEngineerTest_Q2/PriorityQueue.cs:339-351 | A grandparent exists exactly when the index is 3 or more. The index is then one of the grandparent's four grandchildren `4g+3 … 4g+6`. |
| HeapIndex.Log2Bounds | ArenaNet_MobileSoftwareEngineerTest_Q2/PriorityQueue.cs:44 | The integer `Log2(n)` is the floor of the base-2 logarithm: `2^Log2(n) <= n < 2^(Log2(n)+1)`. |
| HeapIndex.LevelOfParent | ArenaNet_MobileSoftwareEngineerTest_Q2/PriorityQueue.cs:44 | The depth `Log2(i+1)` of a slot is one more than its parent's. |
| HeapIndex.MaxLevelIsOddDepth | ArenaNet_MobileSoftwareEngineerTest_Q2/PriorityQueue.cs:44 | The source's level test `floor(log2(i+1)) % 2 != 0` holds exactly on the max levels, which alternate with the min levels starting from a min root. |
| HeapIndex.LevelParity | ArenaNet_MobileSoftwareEngineerTest_Q2/PriorityQueue.cs:47-70 | A slot and its parent are on levels of opposite kinds. This is the defining step of `IsMaxLevel`, stated for the callers; its link to the level test of line 44 is `MaxLevelIsOddDepth`. |
| HeapIndex.UnderRootChild | ArenaNet_MobileSoftwareEngineerTest_Q2/PriorityQueue.cs:108 | Every slot from 3 on lies below slot 1 or below slot 2, the two children of the root that DequeueMax inspects. |
| HeapFacts.LocalHeapIsHeapOrdered | ArenaNet_MobileSoftwareEngineerTest_Q2/PriorityQueue.cs:264-288 | The order that bubble-up and trickle-down maintain (each slot in order with its parent and its grandparent) is equivalent to "every min-level slot <= all its descendants, every max-level slot >= all its descendants". |
| HeapFacts.RootIsMin | ArenaNet_MobileSoftwareEngineerTest_Q2/PriorityQueue.cs:81 | In a non-empty heap the root's key is <= every key. |
| HeapFacts.MaxIndexIsMax | ArenaNet_MobileSoftwareEngineerTest_Q2/PriorityQueue.cs:108-119 | The larger child of the root (the left one on a tie), or the root when it has none, is occupied and holds a key >= every key. |
| HeapRepair.BubbleUpDone | ArenaNet_MobileSoftwareEngineerTest_Q2/PriorityQueue.cs:267-269 | When the order is broken only at a slot and its grandparent, and that slot has no grandparent or is in order with it, the whole heap is in order. |
| HeapRepair.BubbleUpStep | ArenaNet_MobileSoftwareEngineerTest_Q2/PriorityQueue.cs:269-272 | Swapping an out-of-order slot with its grandparent moves the single break up to the grandparent. |
| HeapRepair.InsertAtLeaf | ArenaNet_MobileSoftwareEngineerTest_Q2/PriorityQueue.cs:37-70 | A key written after an ordered prefix either starts bubble-up at the leaf (in order with its parent) or, after the swap with its parent, starts it at the parent. |
| HeapRepair.TrickleDownLeaf | ArenaNet_MobileSoftwareEngineerTest_Q2/PriorityQueue.cs:180 | A slot with no children in the prefix has nothing to repair below it, so the heap is in order. |
| HeapRepair.TrickleDownStop | ArenaNet_MobileSoftwareEngineerTest_Q2/PriorityQueue.cs:180-205 | When the slot is in order with the best key among its children and grandchildren, the heap is in order. |
| HeapRepair.TrickleDownChildSwap | ArenaNet_MobileSoftwareEngineerTest_Q2/PriorityQueue.cs:198-204 | When the best key below is a child and is out of order, one swap with it puts the heap in order. |
| HeapRepair.TrickleDownGrandchildSwap | ArenaNet_MobileSoftwareEngineerTest_Q2/PriorityQueue.cs:182-195 | When the best key below is a grandchild and is out of order, swapping with it and then, if needed, with the grandchild's parent leaves the break only at the grandchild, deeper down. |
| HeapRepair.MoveLastInto | ArenaNet_MobileSoftwareEngineerTest_Q2/PriorityQueue.cs:86-90 | Moving the last element of an ordered prefix into the root or into a child of the root leaves the break only below that slot. |
| HeapChildren.OccupiedChildrenSpec | ArenaNet_MobileSoftwareEngineerTest_Q2/PriorityQueue.cs:290-306 | The children list holds exactly the in-bounds, occupied children of the slot, at most two, increasing. |
| HeapChildren.ChildrenOfAllSpec | ArenaNet_MobileSoftwareEngineerTest_Q2/PriorityQueue.cs:313-320 | Concatenating the children lists of a list of slots gives exactly the occupied children of those slots. The result has at most twice as many entries and stays increasing. |
| HeapChildren.OccupiedGrandchildrenSpec | ArenaNet_MobileSoftwareEngineerTest_Q2/PriorityQueue.cs:308-323 | The grandchildren list holds exactly the occupied grandchildren whose parent is occupied, at most four, increasing. |
| HeapChildren.RootChildren | ArenaNet_MobileSoftwareEngineerTest_Q2/PriorityQueue.cs:108 | When exactly the prefix is occupied, the root's children list is `[1, 2]`, `[1]` or `[]` according to the length. |
| HeapAlgorithms.BubbledUpRestores | ArenaNet_MobileSoftwareEngineerTest_Q2/PriorityQueue.cs:264-288 | The grandparent-chain bubble-up, started at the one slot where the order is broken, returns an ordered heap over the same occupied prefix with the same elements. |
| HeapAlgorithms.BubbledUpFromLeafRestores | ArenaNet_MobileSoftwareEngineerTest_Q2/PriorityQueue.cs:42-71 | The insertion bubble-up (parent test, optional swap, then BubbleUpMin or BubbleUpMax) restores the order of a prefix that was ordered up to the new leaf, and only rearranges it. |
| HeapAlgorithms.PlaceAtEnd | ArenaNet_MobileSoftwareEngineerTest_Q2/PriorityQueue.cs:37-39 | Writing the new element to the first free slot grows the occupied prefix by one slot and adds exactly that element. The old prefix stays ordered. |
| HeapAlgorithms.InsertedRestores | ArenaNet_MobileSoftwareEngineerTest_Q2/PriorityQueue.cs:29-74 | Insertion into an ordered heap gives an ordered heap over a prefix one longer, whose contents are the old contents plus the new element. The slots past it are unchanged. |
| HeapAlgorithms.BubbledUpAsWritten | ArenaNet_MobileSoftwareEngineerTest_Q2/PriorityQueue.cs:264-288 | BubbleUpMin and BubbleUpMax as written: the grandparent is looked up through GetParent's null test on the slot and on its parent, so a null payload on either ends the climb. When no slot up to the start holds a null payload, the result is the corrected bubble-up. |
| HeapAlgorithms.BubbledUpFromLeafAsWritten | ArenaNet_MobileSoftwareEngineerTest_Q2/PriorityQueue.cs:44-70 | The leaf step of Enqueue as written, with the as-written bubble-up. When no slot up to the leaf holds a null payload, it equals the corrected leaf step. |
| HeapAlgorithms.InsertedAsWritten | ArenaNet_MobileSoftwareEngineerTest_Q2/PriorityQueue.cs:37-71 | Insertion as written, with GetParent's null test at line 42 and at both lookups inside GetGrandparent (lines 345-347). A new element with a null payload only lands in the free slot. When no payload in the prefix or in the new element is null, it is the corrected insertion. |
| HeapAlgorithms.NullPayloadSkipsBubbleUp | ArenaNet_MobileSoftwareEngineerTest_Q2/PriorityQueue.cs:325-337 | Take a root with key 5 and enqueue key 1 with a null payload. As written, this leaves the two-slot heap out of order, while the corrected insertion orders it. |
| HeapAlgorithms.NullParentStopsBubbleUp | ArenaNet_MobileSoftwareEngineerTest_Q2/PriorityQueue.cs:339-351 | Keys 5, 9 and 7 in order, with a null payload at key 9. Enqueuing key 1 with a non-null payload into slot 3 stops at GetGrandparent's null test on the parent. The heap is left out of order, while the corrected insertion orders it. |
| HeapAlgorithms.TakeAndMoveLast | ArenaNet_MobileSoftwareEngineerTest_Q2/PriorityQueue.cs:83-89 | Clearing the taken slot and swapping it with the last occupied slot leaves exactly the prefix one shorter occupied. That prefix holds the old contents minus the taken element. |
| HeapAlgorithms.TakeAndMoveLastOrder | ArenaNet_MobileSoftwareEngineerTest_Q2/PriorityQueue.cs:86-90 | After that move, the order is broken only below the refilled slot, which is the state trickle-down expects. |
| HeapAlgorithms.RemovalOutcome | ArenaNet_MobileSoftwareEngineerTest_Q2/PriorityQueue.cs:83-97 | Any result of a removal from the root or from a child of the root is ordered over the prefix one shorter. That prefix holds exactly the old contents minus the taken element. This covers the one-element branch too. |
| HeapAlgorithms.RootHoldsMinimum | ArenaNet_MobileSoftwareEngineerTest_Q2/PriorityQueue.cs:81-83 | The root's element is among the contents, and no element has a smaller key. |
| HeapAlgorithms.MaxSlotHoldsMaximum | ArenaNet_MobileSoftwareEngineerTest_Q2/PriorityQueue.cs:108-123 | The element at `MaxIndex` is among the contents, and no element has a larger key. |
| HeapAlgorithms.SuccessiveMinimaAscend | ArenaNet_MobileSoftwareEngineerTest_Q2/PriorityQueue.cs:76-101 | After the minimum is taken and the rest is back in order, the next root has a key no smaller. Repeated DequeueMin therefore yields keys in non-decreasing order. |
| HeapAlgorithms.SuccessiveMaximaDescend | ArenaNet_MobileSoftwareEngineerTest_Q2/PriorityQueue.cs:103-150 | After the maximum is taken and the rest is back in order, the next maximum has a key no larger. Repeated DequeueMax therefore yields keys in non-increasing order. |
| PriorityQueues.PriorityQueue.MinNodeIsSmallest | ArenaNet_MobileSoftwareEngineerTest_Q2/PriorityQueue.cs:81 | In a valid non-empty queue, the element DequeueMin takes is held, and no held element has a smaller key. |
| PriorityQueues.PriorityQueue.MaxNodeIsLargest | ArenaNet_MobileSoftwareEngineerTest_Q2/PriorityQueue.cs:108-119 | In a valid non-empty queue, the element DequeueMax takes is held, and no held element has a larger key. |
| PriorityQueues.PriorityQueue.constructor | ArenaNet_MobileSoftwareEngineerTest_Q2/PriorityQueue.cs:17-27 | A new queue has the given capacity, length 0, no occupied slot and empty contents, and is valid. |
| PriorityQueues.PriorityQueue.Enqueue | ArenaNet_MobileSoftwareEngineerTest_Q2/PriorityQueue.cs:29-74 | It fails exactly when the queue is full, and then nothing changes. Otherwise the length grows by one, the contents gain exactly the new element, and the queue stays valid (occupied prefix in min-max order). The array becomes the insertion function's result. |
| PriorityQueues.PriorityQueue.BubbleUpLeaf | ArenaNet_MobileSoftwareEngineerTest_Q2/PriorityQueue.cs:44-70 | The four-way branch on the level and the parent comparison leaves the array equal to the value-level leaf bubble-up. |
| PriorityQueues.PriorityQueue.DequeueMin | ArenaNet_MobileSoftwareEngineerTest_Q2/PriorityQueue.cs:76-101 | It succeeds exactly when the queue is non-empty. On failure it returns the default payload and changes nothing. On success it returns the payload of a smallest-key element, removes exactly that element, shortens the queue by one and keeps it valid. |
| PriorityQueues.PriorityQueue.DequeueMax | ArenaNet_MobileSoftwareEngineerTest_Q2/PriorityQueue.cs:103-150 | It succeeds exactly when the queue is non-empty. On failure it returns the default payload and changes nothing. On success it returns the payload of the element at the larger child of the root (or the root), which holds a largest key. It removes exactly that element, shortens the queue by one and keeps it valid. |
| PriorityQueues.PriorityQueue.TakeFromRootChild | ArenaNet_MobileSoftwareEngineerTest_Q2/PriorityQueue.cs:121-138 | Taking an occupied child of the root returns its payload, removes exactly that element, shortens the queue by one and keeps it valid. |
| PriorityQueues.PriorityQueue.Swap | ArenaNet_MobileSoftwareEngineerTest_Q2/PriorityQueue.cs:353-364 | The two slots exchange key, payload and flag, and nothing else in the array changes. |
| PriorityQueues.PriorityQueue.GetChildren | ArenaNet_MobileSoftwareEngineerTest_Q2/PriorityQueue.cs:290-306 | It returns the occupied in-bounds children, left before right. |
| PriorityQueues.PriorityQueue.GetGrandchildren | ArenaNet_MobileSoftwareEngineerTest_Q2/PriorityQueue.cs:308-323 | It returns the occupied children of the occupied children, the left child's first. |
| PriorityQueues.PriorityQueue.FindSmallest | ArenaNet_MobileSoftwareEngineerTest_Q2/PriorityQueue.cs:157-178 | The two scans return -1 exactly when both lists are empty. Otherwise they return the first listed slot with the smallest key, flagged as a grandchild exactly when it came from the second list. |
| PriorityQueues.PriorityQueue.FindLargest | ArenaNet_MobileSoftwareEngineerTest_Q2/PriorityQueue.cs:213-234 | The same with the largest key. |
| PriorityQueues.PriorityQueue.SelectSmallest | ArenaNet_MobileSoftwareEngineerTest_Q2/PriorityQueue.cs:154-178 | It returns -1 exactly when the slot has no child in the prefix. Otherwise it returns the child or grandchild holding the smallest key among all of them. On a tie it returns the one at the lowest index, which is a child before any grandchild, as the strict `<` of lines 163 and 172 keeps the first found. The flag tells whether it is a grandchild. |
| PriorityQueues.PriorityQueue.SelectLargest | ArenaNet_MobileSoftwareEngineerTest_Q2/PriorityQueue.cs:210-234 | The same with the largest key and the strict `>` of lines 219 and 228: every child or grandchild in the prefix at a lower index holds a strictly smaller key. |
| PriorityQueues.PriorityQueue.BubbleUpMin | ArenaNet_MobileSoftwareEngineerTest_Q2/PriorityQueue.cs:264-275 | The array becomes the value-level grandparent-chain bubble-up on min levels. By BubbledUpRestores, that restores the order from a single break. |
| PriorityQueues.PriorityQueue.BubbleUpMax | ArenaNet_MobileSoftwareEngineerTest_Q2/PriorityQueue.cs:277-288 | The same on max levels. |
| PriorityQueues.PriorityQueue.TrickleDownMin | ArenaNet_MobileSoftwareEngineerTest_Q2/PriorityQueue.cs:152-206 | Started on a min-level slot where the order is broken only below, it leaves the prefix fully ordered and only rearranged. The occupied slots stay the same. |
| PriorityQueues.PriorityQueue.TrickleDownMax | ArenaNet_MobileSoftwareEngineerTest_Q2/PriorityQueue.cs:208-262 | The same on a max-level slot. |
| PriorityQueues.SelectionIsExtreme | ArenaNet_MobileSoftwareEngineerTest_Q2/PriorityQueue.cs:160-178 | The first best key in the concatenated children and grandchildren lists is the best among all children and grandchildren in the prefix. Its position says whether it is a child or a grandchild. |
| PriorityQueues.SelectionIsFirst | ArenaNet_MobileSoftwareEngineerTest_Q2/PriorityQueue.cs:160-178 | The children list followed by the grandchildren list increases. So the first entry strictly better than all before it is the best slot of lowest index: every child or grandchild in the prefix before it holds a strictly worse key. |
| PriorityQueues.SelectionOutcome | ArenaNet_MobileSoftwareEngineerTest_Q2/PriorityQueue.cs:154-180 | From the result of the two scans over the occupied children and grandchildren, the selection is -1 exactly for a slot with no child in the prefix. Otherwise it is the best child or grandchild, the lowest-index one on a tie, and a grandchild exactly when it was found in the second list. |
| PriorityQueues.NoneBelowIsLeaf | ArenaNet_MobileSoftwareEngineerTest_Q2/PriorityQueue.cs:180 | Both lists are empty exactly when the slot has no child in the occupied prefix. |
| PriorityQueues.GrandchildCase | ArenaNet_MobileSoftwareEngineerTest_Q2/PriorityQueue.cs:184-195 | After the grandchild swap and the conditional parent swap, the prefix is only rearranged and is broken only below the grandchild, which is deeper and on the same kind of level. |
| PriorityQueues.ChildCase | ArenaNet_MobileSoftwareEngineerTest_Q2/PriorityQueue.cs:198-204 | After the child swap, the prefix is ordered and only rearranged. |

## Left out

- `Program.cs` (the console driver) and `ToString` (string formatting) are not modelled.
- The capacity check in `Enqueue` throws an exception. The model returns `ok == false` and leaves the queue unchanged instead.
- `default(T)` has no Dafny counterpart. It is a constructor argument, kept in the field `Default`.
- `Math.Floor(Math.Log(i + 1, 2))` is computed in floating point. The model uses the exact integer `Log2`, so rounding error in the logarithm is not modelled.
- Keys are C# 32-bit `int`. They are only ever compared, never computed, so they are modelled as unbounded `int`.
- PriorityQueues.PriorityQueue.constructor: the capacity is a `nat`. In the source it is an `int`, and a negative size throws `OverflowException` at line 22 (`new Node[size]`). The model rules that call out instead of modelling the exception.
- DequeueMin and DequeueMax require `MaxSize >= 1`. With capacity 0 the source reads slot 0 of an empty array and throws `IndexOutOfRangeException`, which the model does not capture.
- GetParent tests the payload for null at line 330. The corrected model, which the class uses, drops that test everywhere (see Findings). The as-written insertion is modelled by `HeapAlgorithms.InsertedAsWritten`.
- HeapAlgorithms.InsertedAsWritten: it covers the null test in Enqueue (line 42) and inside GetGrandparent (lines 345-347). It does not cover the trickle-down parent test (lines 188 and 244), where a null payload skips the parent fix-up after a grandchild swap. No dequeue is modelled as written.
- PriorityQueues.PriorityQueue.TrickleDownMin: the contract states that the result is an ordered rearrangement of the prefix, not which rearrangement the source produces.
- PriorityQueues.PriorityQueue.TrickleDownMax: the same.
- PriorityQueues.PriorityQueue.DequeueMax: the contract fixes the payload returned and the element removed, but, through trickle-down, not the exact final arrangement.
- PriorityQueues.PriorityQueue.DequeueMin: the same.
- The `Length = 0` branch of DequeueMax at lines 132-135 is unreachable: an occupied child of the root means `Length >= 2`. The model proves that branch dead instead of modelling it.
- The child-removal steps of DequeueMax (lines 123-135) are in the method `TakeFromRootChild`. Enqueue's bubble-up branch (lines 44-70) is in `BubbleUpLeaf`. Both are statement for statement the source's code.
- The two scans at the top of TrickleDownMin and TrickleDownMax are in `FindSmallest` and `FindLargest`, with the GetChildren and GetGrandchildren calls in `SelectSmallest` and `SelectLargest`. Both use the same statements as the source.
- `GetChildren` tests `leftChildIndex > 0` and `rightChildIndex > 0` to guard against `int` overflow. With unbounded naturals these tests are always true, so they are dropped.

## Findings

| source | as written | input that shows it | evidently intended | confidence | as-written member | corrected member |
|---|---|---|---|---|---|---|
| ArenaNet_MobileSoftwareEngineerTest_Q2/PriorityQueue.cs:330 (reached from Enqueue at line 42) | `GetParent` reports no parent when the slot's payload is `null`, so Enqueue of a `null` payload skips the bubble-up entirely | queue holding one element with key 5; `Enqueue(null, 1)` leaves keys `[5, 1]`, where the max-level child 1 is below the min-level root 5 and DequeueMin would return the 5 first | a parent exists exactly when the index is not the root, whatever the payload; every insertion bubbles up | not executed | HeapAlgorithms.NullPayloadSkipsBubbleUp | HeapAlgorithms.InsertedRestores |
| ArenaNet_MobileSoftwareEngineerTest_Q2/PriorityQueue.cs:345-347 (GetGrandparent reaching the test at line 330) | `GetGrandparent` calls `GetParent` on the parent too, so a `null` payload already held stops the bubble-up of later, non-null enqueues | `Enqueue("a", 5)`, `Enqueue(null, 9)`, `Enqueue("b", 7)`, `Enqueue("c", 1)` leaves keys `[5, 9, 7, 1]`: key 1 is not moved to the root and DequeueMin returns key 5 | a grandparent exists exactly from slot 3 on, whatever the payloads; the new key reaches the root | not executed | HeapAlgorithms.NullParentStopsBubbleUp | HeapAlgorithms.InsertedRestores |
