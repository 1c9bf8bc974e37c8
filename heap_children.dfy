/** The occupied children and grandchildren of a slot, as the lists the
    queue builds while trickling down: the left child before the right one,
    and the left child's children before the right child's. */
module HeapChildren {
  import opened HeapIndex
  import opened HeapOrder

  /** The occupied children of slot index, left before right. */
  function OccupiedChildren<T>(s: seq<Node<T>>, index: nat): (r: seq<nat>)
  {
    var left, right := 2 * index + 1, 2 * index + 2;
    (if left < |s| && s[left].active then [left] else [])
      + (if right < |s| && s[right].active then [right] else [])
  }

  /** The occupied children of the slots cs, in the order of cs. */
  function ChildrenOfAll<T>(s: seq<Node<T>>, cs: seq<nat>): (r: seq<nat>)
  {
    if cs == [] then [] else ChildrenOfAll(s, cs[..|cs| - 1]) + OccupiedChildren(s, cs[|cs| - 1])
  }

  /** The grandchildren reached through occupied children. */
  function OccupiedGrandchildren<T>(s: seq<Node<T>>, index: nat): (r: seq<nat>)
  {
    ChildrenOfAll(s, OccupiedChildren(s, index))
  }

  /** A strictly increasing list of slots. */
  predicate Increasing(r: seq<nat>)
  {
    forall a, b :: 0 <= a < b < |r| ==> r[a] < r[b]
  }

  /** The occupied children are exactly the occupied slots whose parent is
      index; there are at most two, in increasing order. */
  lemma OccupiedChildrenSpec<T>(s: seq<Node<T>>, index: nat)
    ensures forall c: nat :: c in OccupiedChildren(s, index) <==>
      0 < c < |s| && Parent(c) == index && s[c].active
    ensures |OccupiedChildren(s, index)| <= 2 && Increasing(OccupiedChildren(s, index))
  {
  }

  /** The children of all of cs are the occupied slots whose parent is in
      cs; when cs increases, so do they. */
  lemma {:induction false} ChildrenOfAllSpec<T>(s: seq<Node<T>>, cs: seq<nat>)
    ensures forall g: nat :: g in ChildrenOfAll(s, cs) <==>
      0 < g < |s| && Parent(g) in cs && s[g].active
    ensures |ChildrenOfAll(s, cs)| <= 2 * |cs|
    ensures Increasing(cs) ==> Increasing(ChildrenOfAll(s, cs))
  {
    if cs != [] {
      var init, c := cs[..|cs| - 1], cs[|cs| - 1];
      assert cs == init + [c];
      ChildrenOfAllSpec(s, init);
      OccupiedChildrenSpec(s, c);
      var r, k := ChildrenOfAll(s, init), OccupiedChildren(s, c);
      if Increasing(cs) {
        assert Increasing(init);
        forall a, b | 0 <= a < b < |r + k| ensures (r + k)[a] < (r + k)[b] {
          if a < |r| <= b {
            assert r[a] in r && k[b - |r|] in k;
            var j :| 0 <= j < |init| && init[j] == Parent(r[a]);
            assert init[j] == cs[j];
          }
        }
      }
    }
  }

  /** The grandchildren reached through occupied children are exactly the
      occupied slots whose parent is occupied and whose grandparent is
      index; there are at most four, in increasing order. */
  lemma OccupiedGrandchildrenSpec<T>(s: seq<Node<T>>, index: nat)
    ensures forall g: nat :: g in OccupiedGrandchildren(s, index) <==>
      3 <= g < |s| && Grandparent(g) == index && s[g].active && s[Parent(g)].active
    ensures |OccupiedGrandchildren(s, index)| <= 4 && Increasing(OccupiedGrandchildren(s, index))
  {
    OccupiedChildrenSpec(s, index);
    ChildrenOfAllSpec(s, OccupiedChildren(s, index));
  }

  /** The occupied children of the root are slot 1 from two elements on
      and slot 2 from three on. */
  lemma RootChildren<T>(s: seq<Node<T>>, n: nat)
    requires ActivePrefix(s, n)
    ensures OccupiedChildren(s, 0) == if n >= 3 then [1, 2] else if n == 2 then [1] else []
  {
  }
}
