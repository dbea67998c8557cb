/** A client of the heap: popping until nothing is left sorts its entries by expiry. */
module Drain {
  import opened Common
  import opened Ttl

  predicate Sorted(expiries: seq<int>) {
    forall i, j | 0 <= i < j < |expiries| :: expiries[i] <= expiries[j]
  }

  /** Pops every entry; `popped` lists them once each, earliest expiry first, all out of the heap. */
  method PopAll(h: TtlHeap) returns (popped: seq<Entry>, ghost expiries: seq<int>)
    requires h.Valid()
    modifies h, h.heap, h.elems`heapIndex
    ensures h.Valid() && h.elems == {}
    ensures |popped| == old(h.size) && (set e | e in popped) == old(h.elems)
    ensures |expiries| == |popped| && forall i | 0 <= i < |popped| :: popped[i].expiry == expiries[i]
    ensures Sorted(expiries)
    ensures forall e <- popped :: e.heapIndex == SIZE_MAX
  {
    popped, expiries := [], [];
    h.SizeIsCardinality();
    hide TtlHeap.Valid;
    var next: Entry?;
    ghost var sifts;
    while h.size > 0
      invariant h.Valid() && h.heap == old(h.heap) && h.elems <= old(h.elems)
      invariant |popped| + h.size == old(h.size)
      invariant (set e | e in popped) == old(h.elems) - h.elems
      invariant |expiries| == |popped| && forall i | 0 <= i < |popped| :: popped[i].expiry == expiries[i]
      invariant Sorted(expiries)
      invariant forall i | 0 <= i < |expiries| :: forall e <- h.elems :: expiries[i] <= e.expiry
      invariant forall e <- popped :: e.heapIndex == SIZE_MAX
      decreases h.size
    {
      ghost var before, left, times := popped, h.elems, expiries;
      next, sifts := h.HeapPop();
      popped, expiries := popped + [next], expiries + [next.expiry];
      assert (set e | e in popped) == (set e | e in before) + {next};
      assert old(h.elems) - (left - {next}) == (old(h.elems) - left) + {next};
      assert forall i | 0 <= i < |times| :: times[i] <= next.expiry;
    }
    h.SizeIsCardinality();
  }
}
