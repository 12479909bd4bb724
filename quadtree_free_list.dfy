/**
 * The index-stable slot vector of the quadtree (src/quadtree/free_list.rs).
 * A slot holds either an element or the index of the next free slot; freed
 * slots form a chain that starts at `first_free` and ends at `SENTINEL`.
 */
module QuadFreeList {
  import opened Ints

  /** `IndexType::MAX`, the end-of-chain marker. */
  const SENTINEL: nat := U32_MAX

  /** The `FreeElement` union, tagged. */
  datatype Slot<T> = Occupied(element: T) | Free(next: nat)

  /** The link that follows position `k` of a free chain. */
  function NextIn(chain: seq<nat>, k: nat): nat
    requires k < |chain|
  {
    if k + 1 < |chain| then chain[k + 1] else SENTINEL
  }

  /** No index occurs twice in `s`. */
  predicate Distinct(s: seq<nat>)
  {
    s == [] || (s[0] !in s[1..] && Distinct(s[1..]))
  }

  /**
   * `chain` lists, head first, the slots reached from `head` along the
   * `next` links of `data`; it ends at `SENTINEL` and visits no slot twice.
   */
  ghost predicate ChainValid<T>(data: seq<Slot<T>>, head: nat, chain: seq<nat>)
  {
    && head == (if chain == [] then SENTINEL else chain[0])
    && (forall k :: 0 <= k < |chain| ==>
          chain[k] < |data| && chain[k] < SENTINEL && data[chain[k]] == Free(NextIn(chain, k)))
    && Distinct(chain)
  }

  /** Linking a slot that is not yet free in front of a valid chain gives a valid chain. */
  lemma PrependKeepsChain<T>(data: seq<Slot<T>>, head: nat, chain: seq<nat>, n: nat)
    requires ChainValid(data, head, chain)
    requires n < |data| && n < SENTINEL && n !in chain
    ensures ChainValid(data[n := Free(head)], n, [n] + chain)
  {
    var data', chain' := data[n := Free(head)], [n] + chain;
    assert chain'[1..] == chain;
    forall k | 0 <= k < |chain'|
      ensures chain'[k] < |data'| && chain'[k] < SENTINEL && data'[chain'[k]] == Free(NextIn(chain', k))
    {
      if k > 0 {
        assert chain'[k] == chain[k - 1] != n;
        assert NextIn(chain', k) == NextIn(chain, k - 1);
      }
    }
  }

  /** Following the link at position `k` of a valid chain leads to position `k + 1`, or to `SENTINEL` at the end. */
  lemma ChainStep<T>(data: seq<Slot<T>>, head: nat, chain: seq<nat>, k: nat)
    requires ChainValid(data, head, chain)
    requires k < |chain|
    ensures chain[k] < |data| && chain[k] != SENTINEL && data[chain[k]].Free?
    ensures data[chain[k]].next == if k + 1 < |chain| then chain[k + 1] else SENTINEL
  {
    assert data[chain[k]] == Free(NextIn(chain, k));
  }

  class FreeList<T> {
    var data: seq<Slot<T>>
    var firstFree: nat
    /** The free chain, head first: the indices reached from `firstFree` along `next` links. */
    ghost var chain: seq<nat>

    ghost predicate Valid()
      reads this
    {
      ChainValid(data, firstFree, chain)
    }

    /** Every free slot can be reached from `firstFree`, so `insert` can reuse it. */
    ghost predicate NoLeakedSlots()
      reads this
    {
      forall i :: 0 <= i < |data| && data[i].Free? ==> i in chain
    }

    /** `Default`: no slots and no free slot. */
    constructor ()
      ensures Valid() && NoLeakedSlots()
      ensures data == [] && firstFree == SENTINEL && chain == []
    {
      data := [];
      firstFree := SENTINEL;
      chain := [];
    }

    /**
     * Stores `element` in the most recently freed slot if there is one,
     * otherwise in a new slot at the end; returns the slot's index. The new
     * index is `len - 1` cast to `u32`.
     */
    method Insert(element: T) returns (index: nat)
      requires Valid()
      modifies this
      ensures Valid()
      ensures old(firstFree) != SENTINEL ==>
                && index == old(firstFree)
                && data == old(data)[index := Occupied(element)]
                && firstFree == old(data)[index].next
                && chain == old(chain)[1..]
      ensures old(firstFree) == SENTINEL ==>
                && index == |old(data)| % 0x1_0000_0000
                && data == old(data) + [Occupied(element)]
                && firstFree == SENTINEL && chain == []
      ensures old(NoLeakedSlots()) ==> NoLeakedSlots()
    {
      if firstFree != SENTINEL {
        index := firstFree;
        firstFree := data[firstFree].next;
        data := data[index := Occupied(element)];
        chain := chain[1..];
      } else {
        data := data + [Occupied(element)];
        index := (|data| - 1) % 0x1_0000_0000;
      }
    }

    /**
     * `erase(n)` as written: `first_free` is reset to `SENTINEL` before the
     * slot is linked, so the erased slot ends the chain and every earlier
     * freed slot drops out of it. The `debug_assert` therefore always passes.
     */
    method Erase(n: nat)
      requires Valid()
      requires |data| > 0 ==> n < |data| && n < SENTINEL
      modifies this
      ensures Valid()
      ensures |data| == |old(data)|
      ensures old(data) == [] ==> data == old(data) && firstFree == SENTINEL
      ensures old(data) != [] ==>
                && data == old(data)[n := Free(SENTINEL)]
                && firstFree == n && chain == [n]
    {
      firstFree := SENTINEL;
      chain := [];
      if |data| == 0 {
        return;
      }
      var inFreeList := IsInFreeList(n);
      assert !inFreeList;
      data := data[n := Free(firstFree)];
      firstFree := n;
      chain := [n];
      assert NextIn(chain, 0) == SENTINEL;
    }

    /**
     * The evidently intended `erase`: the slot is linked in front of the
     * existing chain, and the `debug_assert` rejects a slot already in it.
     */
    method EraseLinked(n: nat)
      requires Valid()
      requires |data| > 0 ==> n < |data| && n < SENTINEL && n !in chain
      modifies this
      ensures Valid()
      ensures |data| == |old(data)|
      ensures old(data) == [] ==> data == old(data) && firstFree == old(firstFree) && chain == old(chain)
      ensures old(data) != [] ==>
                && data == old(data)[n := Free(old(firstFree))]
                && firstFree == n && chain == [n] + old(chain)
      ensures old(NoLeakedSlots()) ==> NoLeakedSlots()
    {
      if |data| == 0 {
        return;
      }
      var inFreeList := IsInFreeList(n);
      assert !inFreeList;
      PrependKeepsChain(data, firstFree, chain, n);
      data := data[n := Free(firstFree)];
      firstFree := n;
      chain := [n] + chain;
    }

    /** Walks the free chain and collects its indices, as `clear` does before dropping. */
    method FreeIndexes() returns (indexes: seq<nat>)
      requires Valid()
      ensures indexes == chain
    {
      indexes := [];
      var token := firstFree;
      ghost var k := 0;
      while token != SENTINEL
        invariant k <= |chain| && indexes == chain[..k]
        invariant k < |chain| ==> token == chain[k]
        invariant k == |chain| ==> token == SENTINEL
        decreases |chain| - k
      {
        ChainStep(data, firstFree, chain, k);
        assert chain[..k + 1] == indexes + [token];
        indexes := indexes + [token];
        token := data[token].next;
        k := k + 1;
      }
      assert k == |chain|;
      assert chain[..k] == chain;
    }

    /**
     * Drops every slot: afterwards there are no slots and no free slot.
     * Which slots get their element dropped only matters for memory.
     */
    method Clear()
      requires Valid()
      modifies this
      ensures Valid()
      ensures data == [] && firstFree == SENTINEL && chain == []
      ensures NoLeakedSlots()
    {
      if |data| == 0 {
        assert firstFree == SENTINEL;
        return;
      }
      var freeIndexes := FreeIndexes();
      data := [];
      firstFree := SENTINEL;
      chain := [];
    }

    /** The element of an occupied slot; the index must not be `SENTINEL` (an `assert_ne!`). */
    function At(index: nat): (e: T)
      reads this
      requires Valid()
      requires index != SENTINEL && index < |data| && data[index].Occupied?
      ensures index !in chain
      ensures data[index] == Occupied(e)
    {
      data[index].element
    }

    /** Writing through `at_mut(index)`: slot `index` changes and nothing else. */
    method SetAt(index: nat, element: T)
      requires Valid()
      requires index != SENTINEL && index < |data| && data[index].Occupied?
      modifies this
      ensures Valid()
      ensures data == old(data)[index := Occupied(element)]
      ensures firstFree == old(firstFree) && chain == old(chain)
      ensures old(NoLeakedSlots()) ==> NoLeakedSlots()
    {
      assert index !in chain;
      data := data[index := Occupied(element)];
    }

    function Capacity(): (n: nat)
      reads this
      ensures n == |data|
    {
      |data|
    }

    /** Whether `n` is reachable from `first_free` along the `next` links. */
    method IsInFreeList(n: nat) returns (found: bool)
      requires Valid()
      requires n != SENTINEL
      ensures found <==> n in chain
    {
      var token := firstFree;
      ghost var k := 0;
      while token != SENTINEL
        invariant k <= |chain|
        invariant k < |chain| ==> token == chain[k]
        invariant k == |chain| ==> token == SENTINEL
        invariant n !in chain[..k]
        decreases |chain| - k
      {
        if n == token {
          return true;
        }
        ChainStep(data, firstFree, chain, k);
        assert chain[..k + 1] == chain[..k] + [token];
        token := data[token].next;
        k := k + 1;
      }
      assert k == |chain|;
      assert chain[..k] == chain;
      return false;
    }
  }

  /** `at_works` and `at_mut_works`: slot 0 holds the first element until it is overwritten. */
  method AtScenario() returns (before: int, after: int)
    ensures before == 1 && after == 0
  {
    var list := new FreeList<int>();
    var i0 := list.Insert(1);
    var i1 := list.Insert(0);
    before := list.At(0);
    list.SetAt(0, 0);
    after := list.At(0);
  }

  /** `first_free_points_to_last_freed_index` and `is_in_free_list_works`. */
  method EraseScenario() returns (inList0: bool, inList1: bool, firstFree: nat, capacity: nat)
    ensures inList0 && !inList1
    ensures firstFree == 1 && capacity == 2
  {
    var list := new FreeList<int>();
    var _ := list.Insert(0);
    var _ := list.Insert(0);
    list.Erase(0);
    inList0 := list.IsInFreeList(0);
    inList1 := list.IsInFreeList(1);
    list.Erase(1);
    firstFree := list.firstFree;
    capacity := list.Capacity();
  }

  /** `clear_works`: clearing twice leaves no slots and no free slot. */
  method ClearScenario() returns (firstFree: nat, capacity: nat)
    ensures firstFree == SENTINEL && capacity == 0
  {
    var list := new FreeList<int>();
    var _ := list.Insert(0);
    var _ := list.Insert(0);
    list.Erase(1);
    list.Clear();
    list.Clear();
    firstFree := list.firstFree;
    capacity := list.Capacity();
  }

  /**
   * With `erase` as written, freeing slots 0 and 1 of a two-slot list
   * leaves slot 0 unreachable: the next two inserts use slot 1 and then a
   * new slot 2.
   */
  method EraseLeaksFreedSlot() returns (first: nat, second: nat, capacity: nat, leaked: bool)
    ensures first == 1 && second == 2 && capacity == 3
    ensures leaked
  {
    var list := new FreeList<int>();
    var _ := list.Insert(10);
    var _ := list.Insert(11);
    list.Erase(0);
    list.Erase(1);
    var reachable := list.IsInFreeList(0);
    leaked := list.data[0].Free? && !reachable;
    first := list.Insert(12);
    second := list.Insert(13);
    capacity := list.Capacity();
  }

  /** With the linked erase the same sequence reuses both slots, most recently freed first. */
  method EraseLinkedReusesFreedSlots() returns (first: nat, second: nat, capacity: nat)
    ensures first == 1 && second == 0 && capacity == 2
  {
    var list := new FreeList<int>();
    var _ := list.Insert(10);
    var _ := list.Insert(11);
    list.EraseLinked(0);
    list.EraseLinked(1);
    first := list.Insert(12);
    second := list.Insert(13);
    capacity := list.Capacity();
  }
}
