/** The entries of the store and the indexed min-heap that orders them by expiry time. */
module Ttl {
  import opened Common
  import opened HeapOrder

  class Entry {
    const key: string
    var value: string
    var next: Entry?
    var expiry: Long
    var heapIndex: nat

    /** A new entry never expires and is outside the heap. */
    constructor (key: string, value: string)
      ensures this.key == key && this.value == value
      ensures next == null && expiry == -1 && heapIndex == SIZE_MAX
    {
      this.key, this.value := key, value;
      next, expiry, heapIndex := null, -1, SIZE_MAX;
    }
  }

  class TtlHeap {
    var heap: array<Entry?>
    var size: nat
    var capacity: nat

    /** The entries in the used slots, and their expiry times; `elems` is the set of these entries. */
    ghost var slots: seq<Entry>
    ghost var keys: seq<Long>
    ghost var elems: set<Entry>

    /** Used slots and entries' positions are inverse to each other; the capacity is 16 times a power of two. */
    ghost predicate Indexed()
      reads this, heap, elems`heapIndex, elems`expiry
    {
      && size <= capacity == heap.Length && DoubledFrom16(capacity)
      && size == |slots| == |keys|
      && (forall i | 0 <= i < size :: heap[i] == slots[i])
      && (forall i | 0 <= i < size :: slots[i] in elems && slots[i].heapIndex == i && slots[i].expiry == keys[i])
      && (forall e <- elems :: e.heapIndex < size && slots[e.heapIndex] == e)
    }

    ghost predicate Valid()
      reads this, heap, elems`heapIndex, elems`expiry
    {
      Indexed() && HeapOrdered(keys)
    }

    constructor ()
      ensures Valid() && elems == {}
      ensures capacity == 16
      ensures fresh(heap)
    {
      size, capacity := 0, 16;
      heap := new Entry?[16];
      slots, keys, elems := [], [], {};
      SixteenIsDoubled();
    }

    /** No slot is used twice, so there are as many entries as used slots. */
    lemma SizeIsCardinality()
      requires Valid()
      ensures size == |elems|
    {
      assert elems == set e | e in slots;
      DistinctCardinality(slots, elems);
    }

    /** The root of a valid heap expires no later than any entry in it. */
    lemma RootIsEarliest()
      requires Valid() && size > 0
      ensures forall e <- elems :: slots[0].expiry <= e.expiry
    {
      forall e <- elems ensures slots[0].expiry <= e.expiry {
        RootIsMinimum(keys, e.heapIndex);
      }
    }

    method SwapNodes(a: nat, b: nat)
      requires Indexed() && a < size && b < size
      modifies heap, elems`heapIndex, this`slots, this`keys
      ensures Indexed()
      ensures keys == Swap(old(keys), a, b)
      ensures slots == Swap(old(slots), a, b)
    {
      heap[a], heap[b] := heap[b], heap[a];
      heap[a].heapIndex := a;
      heap[b].heapIndex := b;
      slots, keys := Swap(slots, a, b), Swap(keys, a, b);
    }

    method CompareTtl(a: nat, b: nat) returns (before: bool)
      requires Indexed() && a < size && b < size
      ensures before <==> keys[a] <= keys[b]
    {
      before := heap[a].expiry <= heap[b].expiry;
    }

    /** Moves the entry at `start` up to its place; every swap brings it one level closer to the root. */
    method ShiftUp(start: nat) returns (ghost sifts: nat)
      requires Indexed() && start < size && OrderedButAbove(keys, start)
      modifies heap, elems`heapIndex, this`slots, this`keys
      ensures Valid()
      ensures sifts <= Depth(start)
    {
      var i := start;
      sifts := 0;
      while i > 0
        invariant 0 <= i < size && Indexed() && OrderedButAbove(keys, i)
        invariant sifts + Depth(i) == Depth(start)
      {
        var before := CompareTtl(i, Parent(i));
        if !before {
          break;
        }
        UpStep(keys, i);
        SwapNodes(i, Parent(i));
        i := Parent(i);
        sifts := sifts + 1;
      }
      UpDone(keys, i);
    }

    /** The slot among `i` and its children that `heapify` picks. */
    method Smallest(i: nat) returns (smallest: nat)
      requires Indexed() && i < size
      ensures smallest < size && (smallest == i || smallest == Left(i) || smallest == Right(i))
      ensures keys[smallest] <= keys[i]
      ensures Left(i) < size ==> keys[smallest] <= keys[Left(i)]
      ensures Right(i) < size ==> keys[smallest] <= keys[Right(i)]
    {
      smallest := i;
      var l, r := Left(i), Right(i);
      if l < size {
        var before := CompareTtl(l, smallest);
        if before {
          smallest := l;
        }
      }
      if r < size {
        var before := CompareTtl(r, smallest);
        if before {
          smallest := r;
        }
      }
    }

    /** Moves the entry at `i` down to its place, slot `last`; every swap takes it one level further down. */
    method Heapify(i: nat) returns (ghost sifts: nat, ghost last: nat)
      requires Indexed() && i < size && OrderedButBelow(keys, i)
      modifies heap, elems`heapIndex, this`slots, this`keys
      ensures Valid()
      ensures last < size && (i + 1) * Pow2(sifts) <= last + 1
      decreases size - i
    {
      var smallest := Smallest(i);
      sifts, last := 0, i;
      if smallest != i {
        DownStep(keys, i, smallest);
        SwapNodes(i, smallest);
        sifts, last := Heapify(smallest);
        StepDownDoubles(i, smallest, sifts, last);
        sifts := sifts + 1;
      } else {
        DownDone(keys, i);
      }
    }

    /** `realloc`: the capacity doubles and every stored entry stays where it is. */
    method Grow()
      requires Valid() && size == capacity
      modifies this`heap, this`capacity
      ensures Valid() && fresh(heap) && size < capacity
      ensures capacity == 2 * old(capacity)
      ensures slots == old(slots)
    {
      hide DoubledFrom16;
      DoublingStaysDoubled(capacity);
      var newCap := if capacity != 0 then capacity * 2 else 16;
      var newHeap := new Entry?[newCap];
      forall i | 0 <= i < size {
        newHeap[i] := heap[i];
      }
      heap, capacity := newHeap, newCap;
    }

    method HeapInsert(e: Entry) returns (status: int, ghost sifts: nat)
      requires Valid() && e !in elems
      modifies this, heap, elems`heapIndex, e`heapIndex
      ensures Valid() && (heap == old(heap) || fresh(heap))
      ensures elems == old(elems) + {e}
      ensures status == DB_ERR_OK
      ensures capacity == if old(size) < old(capacity) then old(capacity) else 2 * old(capacity)
      ensures sifts <= Depth(old(size))
    {
      if size == capacity {
        Grow();
      }
      var i := Append(e);
      sifts := ShiftUp(i);
      status := DB_ERR_OK;
    }

    /** The first free slot takes `e`, not yet in its place. */
    method Append(e: Entry) returns (i: nat)
      requires Valid() && e !in elems && size < capacity
      modifies this`size, this`elems, this`slots, this`keys, heap, e`heapIndex
      ensures elems == old(elems) + {e} && i == old(size) && size == i + 1
      ensures Indexed() && OrderedButAbove(keys, i)
    {
      AppendedBelow(keys, e.expiry);
      i := size;
      size := size + 1;
      heap[i] := e;
      e.heapIndex := i;
      slots, keys, elems := slots + [e], keys + [e.expiry], elems + {e};
    }

    method HeapPop() returns (min: Entry?, ghost sifts: nat)
      requires Valid()
      modifies this`size, this`elems, this`slots, this`keys, heap, elems`heapIndex
      ensures Valid()
      ensures min == null <==> old(size) == 0
      ensures min == null ==> elems == old(elems) && size == 0
      ensures min != null ==> size == old(size) - 1
      ensures min != null ==> min in old(elems) && elems == old(elems) - {min} && min.heapIndex == SIZE_MAX
      ensures min != null ==> forall e <- old(elems) :: min.expiry <= e.expiry
      ensures sifts <= if old(size) == 0 then 0 else Depth(old(size) - 1)
    {
      hide HeapOrdered, OrderedApartFrom, OrderedButBelow, DoubledFrom16;
      sifts := 0;
      if size == 0 {
        return null, 0;
      }
      RootIsEarliest();
      min := heap[0];
      SwapOutLast(0);
      if size > 0 {
        ApartGoesDown(keys, 0);
        ghost var last;
        sifts, last := Heapify(0);
        StepsFit(last, sifts);
        DepthMonotone(last, old(size) - 1);
      } else {
        NothingIsOrdered(keys);
      }
      min.heapIndex := SIZE_MAX;
    }

    /** The entry at `i` trades places with the last one and leaves the heap. */
    method SwapOutLast(i: nat)
      requires Valid() && i < size
      modifies this`size, this`elems, this`slots, this`keys, heap, elems`heapIndex
      ensures size == old(size) - 1 && elems == old(elems) - {old(slots[i])} && old(slots[i]) in old(elems)
      ensures Indexed() && OrderedApartFrom(keys, i)
    {
      hide HeapOrdered, OrderedApartFrom;
      SwapLastApart(keys, i);
      SwapNodes(i, size - 1);
      DropLast();
    }

    /** The last used slot becomes free. */
    method DropLast()
      requires Indexed() && size > 0
      modifies this`size, this`elems, this`slots, this`keys
      ensures Indexed() && size == old(size) - 1 && keys == old(keys)[..size]
      ensures old(slots[size - 1]) in old(elems) && elems == old(elems) - {old(slots[size - 1])}
    {
      size := size - 1;
      slots, keys, elems := slots[..size], keys[..size], elems - {slots[size]};
    }

    method HeapRemove(e: Entry) returns (status: int, ghost sifts: nat)
      requires Valid()
      modifies this`size, this`elems, this`slots, this`keys, heap, elems`heapIndex
      ensures Valid()
      ensures status == if old(e in elems) then DB_ERR_OK else DB_ERR_KEY_NOTEXIST
      ensures elems == old(elems) - {e}
      ensures e.heapIndex == if old(e in elems) then SIZE_MAX else old(e.heapIndex)
      ensures e !in old(elems) ==> slots == old(slots) && forall x <- elems :: x.heapIndex == old(x.heapIndex)
      ensures sifts <= if old(size) == 0 then 0 else Depth(old(size) - 1)
    {
      sifts := 0;
      var i := e.heapIndex;
      if i >= size || heap[i] != e {
        return DB_ERR_KEY_NOTEXIST, 0;
      }
      status := DB_ERR_OK;
      if i == size - 1 {
        RemoveLast();
        return;
      }
      SwapOutLast(i);
      e.heapIndex := SIZE_MAX;
      ghost var last;
      sifts, last := Restore(i);
      DepthMonotone(last, old(size) - 1);
    }

    /** The entry in the last slot leaves the heap; nothing else moves. */
    method RemoveLast()
      requires Valid() && size > 0
      modifies this`size, this`elems, this`slots, this`keys, elems`heapIndex
      ensures Valid()
      ensures old(slots[size - 1]) in old(elems) && elems == old(elems) - {old(slots[size - 1])}
      ensures old(slots[size - 1]).heapIndex == SIZE_MAX
    {
      RemovedLast(keys);
      var e := heap[size - 1];
      DropLast();
      e.heapIndex := SIZE_MAX;
    }

    /** Sifts the entry at `i` whichever way it has to go. */
    method Restore(i: nat) returns (ghost sifts: nat, ghost last: nat)
      requires Indexed() && i < size && OrderedApartFrom(keys, i)
      modifies heap, elems`heapIndex, this`slots, this`keys
      ensures Valid()
      ensures last < size && sifts <= Depth(last)
    {
      hide HeapOrdered, OrderedApartFrom, OrderedButAbove, OrderedButBelow;
      var up := false;
      if i > 0 {
        up := CompareTtl(i, Parent(i));
      }
      if up {
        ApartGoesUp(keys, i);
        sifts := ShiftUp(i);
        last := i;
      } else {
        ApartGoesDown(keys, i);
        sifts, last := Heapify(i);
        AtLeastOnce(i, Pow2(sifts));
        StepsFit(last, sifts);
      }
    }
  }
}
