/** The chained hash table with lazy expiry, sharing its entries with the TTL heap. */
module Hash {
  import opened Common
  import opened Djb2
  import opened HeapOrder
  import opened Ttl
  import opened Table
  import opened Replies
  import Decimal

  /** The entry at position `j` of a chain, or null past its end. */
  function At(c: seq<Entry>, j: nat): Entry? {
    if j < |c| then c[j] else null
  }

  class Database {
    const buckets: array<Entry?>
    const ttl: TtlHeap
    var count: nat

    /** The entries of each chain in order, the entries that are not freed, and what the table holds. */
    ghost var chains: seq<seq<Entry>>
    ghost var live: set<Entry>
    ghost var table: Buckets

    ghost function Repr(): set<object>
      reads this, ttl
    {
      {this, buckets, ttl, ttl.heap} + live + ttl.elems
    }

    /** The node at position `j` of bucket `b` is live, holds the record there and links to the next node. */
    ghost predicate NodeOk(b: nat, j: nat)
      requires b < |chains| && b < |table| && j < |chains[b]| && j < |table[b]|
      reads this, live
    {
      var e := chains[b][j];
      && e in live
      && e.next == At(chains[b], j + 1)
      && table[b][j] == Rec(e.key, e.value, e.expiry, e.heapIndex != SIZE_MAX)
    }

    /** Bucket `b` heads a null-terminated list that holds exactly the records of chain `b`. */
    ghost predicate ChainOk(b: nat)
      requires b < |chains| && b < |table| && b < buckets.Length
      reads this, buckets, live
    {
      && |chains[b]| == |table[b]|
      && buckets[b] == At(chains[b], 0)
      && forall j | 0 <= j < |chains[b]| :: NodeOk(b, j)
    }

    /** Every live entry is reachable in the bucket its key hashes to. */
    ghost predicate Reachable(e: Entry)
      requires |chains| == MOD
      reads this
    {
      e in chains[Bucket(e.key)]
    }

    ghost predicate TableValid()
      reads this, buckets, live
      ensures TableValid() ==> Wf(table) && |table| == MOD && |live| < MAX_ALLOWED
    {
      && buckets.Length == |chains| == MOD
      && Wf(table)
      && (forall b | 0 <= b < MOD :: ChainOk(b))
      && (forall e <- live :: Reachable(e))
      && count == |live| == Total(table)
      && count < MAX_ALLOWED
    }

    /** The heap is in order, and a live entry is in it exactly when its `heapIndex` says so. */
    ghost predicate HeapValid()
      reads this, ttl, ttl.heap, ttl.elems`heapIndex, ttl.elems`expiry, live`heapIndex
    {
      && ttl.Valid() && ttl.heap != buckets
      && forall e <- live :: e.heapIndex != SIZE_MAX <==> e in ttl.elems
    }

    /** Nothing that was freed is left in the heap. */
    ghost predicate NoDangling()
      reads this, ttl
    {
      ttl.elems <= live
    }

    /** The joint invariant of table and heap. */
    ghost predicate Valid()
      reads this, buckets, live, ttl, ttl.heap, ttl.elems`heapIndex, ttl.elems`expiry
      ensures Valid() ==> Wf(table) && |table| == MOD
    {
      TableValid() && HeapValid() && NoDangling()
    }

    constructor ()
      ensures Valid() && fresh(Repr())
      ensures table == Empty() && ttl.elems == {}
    {
      hide TtlHeap.Valid, WfChain, Total;
      buckets := new Entry?[MOD](b => null);
      ttl := new TtlHeap();
      count := 0;
      chains := seq(MOD, _ => []);
      live, table := {}, Empty();
      new;
      EmptyHasNothing();
      assert forall b | 0 <= b < MOD :: chains[b] == [];
      assert TableValid();
    }

    /** The chain walk of every lookup: the entry for `k`, if any, and the node before it. */
    method FindEntry(k: string) returns (idx: nat, prev: Entry?, e: Entry?, ghost p: nat)
      requires TableValid()
      ensures idx == Bucket(k) && p == Position(table[idx], k) && e == At(chains[idx], p)
      ensures e == null <==> Find(table, k).None?
      ensures e != null ==> e in live && e.key == k && Find(table, k) == Some(RecOf(e))
      ensures p == 0 ==> prev == null
      ensures p > 0 ==> p <= |chains[idx]| && prev == chains[idx][p - 1] && prev in live
    {
      idx := StringFoldingHash(k);
      e, prev := buckets[idx], null;
      p := 0;
      assert ChainOk(idx);
      while e != null && e.key != k
        invariant 0 <= p <= |chains[idx]|
        invariant e == At(chains[idx], p)
        invariant p == 0 ==> prev == null
        invariant p > 0 ==> prev == chains[idx][p - 1] && prev in live
        invariant forall j | 0 <= j < p :: table[idx][j].key != k
        decreases |chains[idx]| - p
      {
        assert NodeOk(idx, p);
        prev := e;
        e := e.next;
        p := p + 1;
      }
      assert e != null ==> NodeOk(idx, p);
    }

    ghost function RecOf(e: Entry): Rec
      reads e
    {
      Rec(e.key, e.value, e.expiry, e.heapIndex != SIZE_MAX)
    }

    /** A live entry is the node at its key's position. */
    lemma Located(e: Entry)
      requires TableValid() && e in live
      ensures var b := Bucket(e.key); var p := Position(table[b], e.key);
              p < |chains[b]| && chains[b][p] == e && p < |table[b]| && table[b][p] == RecOf(e)
      ensures Find(table, e.key) == Some(RecOf(e))
    {
      var b := Bucket(e.key);
      assert Reachable(e) && ChainOk(b) && WfChain(table[b], b);
      var j :| 0 <= j < |chains[b]| && chains[b][j] == e;
      assert NodeOk(b, j);
    }

    /** A node's bucket and position are those of its key. */
    lemma NodeIsAtItsKey(b: nat, j: nat)
      requires TableValid() && b < MOD && j < |chains[b]|
      ensures |chains[b]| == |table[b]| && NodeOk(b, j)
      ensures b == Bucket(chains[b][j].key) && j == Position(table[b], chains[b][j].key)
    {
      assert ChainOk(b) && NodeOk(b, j) && WfChain(table[b], b);
    }

    /** Rewriting the fields of one live entry, other than its key and link, rewrites one record. */
    twostate lemma OneRecordChanged(e: Entry)
      requires old(TableValid()) && e in old(live)
      requires chains == old(chains) && live == old(live) && count == old(count)
      requires buckets[..] == old(buckets[..])
      requires forall x <- live :: x.next == old(x.next)
      requires forall x <- live :: x != e ==> RecOf(x) == old(RecOf(x))
      requires var b := Bucket(e.key); var p := old(Position(table[b], e.key));
               p < |chains[b]| && chains[b][p] == e && p < |old(table)[b]|
               && table == old(table)[b := old(table)[b][p := RecOf(e)]]
      requires Wf(table) && Total(table) == old(Total(table))
      ensures TableValid()
    {
      forall b | 0 <= b < MOD ensures ChainOk(b) {
        assert old(ChainOk(b));
        forall j | 0 <= j < |chains[b]| ensures NodeOk(b, j) {
          assert old(NodeOk(b, j)) && WfChain(old(table)[b], b);
        }
        assert buckets[..][b] == old(buckets[..])[b];
      }
    }

    /** Writing an answer does not touch the store. */
    method Answer(ctx: CmdCtx?, res: int, text: string)
      modifies ctx
      ensures ctx != null ==> ctx.State() == Fill(old(ctx.State()), Reply(res, text))
      ensures TableValid() == old(TableValid()) && HeapValid() == old(HeapValid())
      ensures Repr() == old(Repr())
    {
      FillCmdCtx(ctx, res, text);
    }

    // ---------- changing one entry ----------

    /** Replaces the value of a live entry. */
    method SetValue(e: Entry, v: string)
      requires Valid() && e in live
      modifies this`table, e`value
      ensures Valid()
      ensures table == Insert(old(table), e.key, v)
    {
      hide Database.TableValid;
      Located(e);
      FindInsert(table, e.key, v);
      e.value := v;
      table := Insert(table, e.key, v);
      OneRecordChanged(e);
    }

    /** Takes an entry out of the heap, if it is there. */
    method Unschedule(e: Entry)
      requires Valid() && e in live
      modifies this`table, ttl, ttl.heap, ttl.elems`heapIndex
      ensures Valid()
      ensures table == SetExpiry(old(table), e.key, e.expiry, false)
      ensures ttl.elems == old(ttl.elems) - {e} && ttl.heap == old(ttl.heap)
      ensures e.heapIndex == SIZE_MAX
    {
      hide Database.TableValid, TtlHeap.Valid, WfChain, Total;
      Located(e);
      FindSetExpiry(table, e.key, e.expiry, false);
      var _, _ := ttl.HeapRemove(e);
      table := SetExpiry(table, e.key, e.expiry, false);
      SizeKept();
      OneRecordChanged(e);
    }

    /** A heap no larger than the table has no slot numbered `SIZE_MAX`. */
    lemma SizeKept()
      requires ttl.Valid() && ttl.elems <= live && |live| < MAX_ALLOWED
      ensures ttl.size < SIZE_MAX
      ensures forall e <- ttl.elems :: e.heapIndex < SIZE_MAX
    {
      ttl.SizeIsCardinality();
      SubsetCardinality(ttl.elems, live);
    }

    /** Gives an entry outside the heap an expiry time and puts it in. */
    method Schedule(e: Entry, expiry: Long) returns (res: int)
      requires Valid() && e in live && e !in ttl.elems
      modifies this`table, ttl, ttl.heap, ttl.elems`heapIndex, e`heapIndex, e`expiry
      ensures Valid() && (ttl.heap == old(ttl.heap) || fresh(ttl.heap))
      ensures table == SetExpiry(old(table), e.key, expiry, true)
      ensures ttl.elems == old(ttl.elems) + {e}
      ensures res == DB_ERR_OK
    {
      hide Database.TableValid, TtlHeap.Valid, WfChain, Total;
      Located(e);
      FindSetExpiry(table, e.key, expiry, true);
      e.expiry := expiry;
      ghost var sifts;
      res, sifts := ttl.HeapInsert(e);
      SizeKept();
      table := SetExpiry(table, e.key, expiry, true);
      OneRecordChanged(e);
    }

    // ---------- linking and unlinking ----------

    /** Makes `next` follow `prev`, or head its bucket when there is no `prev`, and updates the count. */
    method Splice(idx: nat, prev: Entry?, next: Entry?, newCount: nat,
                  ghost newChain: seq<Entry>, ghost newLive: set<Entry>, ghost newTable: Buckets)
      requires idx < buckets.Length && idx < |chains|
      modifies this`count, this`chains, this`live, this`table, buckets, (if prev == null then {} else {prev})`next
      ensures prev == null ==> buckets[..] == old(buckets[..])[idx := next]
      ensures prev != null ==> buckets[..] == old(buckets[..]) && prev.next == next
      ensures count == newCount && chains == old(chains)[idx := newChain] && live == newLive && table == newTable
    {
      if prev == null {
        buckets[idx] := next;
      } else {
        prev.next := next;
      }
      count := newCount;
      chains, live, table := chains[idx := newChain], newLive, newTable;
    }

    /** Puts a new entry after `last`, the end of its chain (null for an empty chain). */
    method LinkAtEnd(idx: nat, last: Entry?, e: Entry)
      requires TableValid() && idx == Bucket(e.key) && Find(table, e.key).None? && !Full(table, e.key)
      requires e !in live
      requires e.next == null && e.expiry == -1 && e.heapIndex == SIZE_MAX
      requires |chains[idx]| == 0 ==> last == null
      requires |chains[idx]| > 0 ==> last == chains[idx][|chains[idx]| - 1] && last in live
      modifies this`count, this`chains, this`live, this`table, buckets, live`next
      ensures TableValid()
      ensures table == Insert(old(table), e.key, e.value) && live == old(live) + {e}
    {
      NewRecordGoesLast(table, e.key, e.value);
      Splice(idx, last, e, count + 1, chains[idx] + [e], live + {e}, Insert(table, e.key, e.value));
      Linked(idx, last, e);
    }

    /** Changes to the chains alone leave the heap valid. */
    twostate lemma HeapKept()
      requires old(HeapValid()) && unchanged(ttl) && unchanged(ttl.heap)
      requires forall x <- ttl.elems :: unchanged(x`heapIndex, x`expiry)
      requires forall x <- live :: x.heapIndex != SIZE_MAX <==> x in ttl.elems
      ensures HeapValid()
    {
      hide HeapOrdered, DoubledFrom16;
      assert ttl.Indexed() by {
        assert old(ttl.Indexed());
        assert ttl.heap[..] == old(ttl.heap[..]);
        assert forall i | 0 <= i < ttl.size :: ttl.slots[i] in ttl.elems;
        assert forall i | 0 <= i < ttl.size :: ttl.heap[..][i] == ttl.heap[i];
      }
    }

    twostate lemma Linked(idx: nat, new last: Entry?, new e: Entry)
      requires old(TableValid()) && idx == Bucket(e.key) && e !in old(live)
      requires |old(chains)[idx]| == 0 ==> last == null
      requires |old(chains)[idx]| > 0 ==> last == old(chains)[idx][|old(chains)[idx]| - 1]
      requires chains == old(chains)[idx := old(chains)[idx] + [e]] && live == old(live) + {e}
      requires table == old(table)[idx := old(table)[idx] + [RecOf(e)]] && Wf(table)
      requires count == old(count) + 1 == Total(table) && count < MAX_ALLOWED
      requires e.next == null
      requires last == null ==> buckets[..] == old(buckets[..])[idx := e]
      requires last != null ==> buckets[..] == old(buckets[..]) && last.next == e
      requires forall x <- old(live) :: x != last ==> x.next == old(x.next)
      requires forall x <- old(live) :: RecOf(x) == old(RecOf(x))
      ensures TableValid()
    {
      hide Bucket, Total;
      assert old(ChainOk(idx)) && |old(table)[idx]| == |old(chains)[idx]|;
      forall b | 0 <= b < MOD ensures ChainOk(b) {
        assert old(ChainOk(b));
        assert buckets[b] == buckets[..][b];
        forall j | 0 <= j < |chains[b]| ensures NodeOk(b, j) {
          if j < |old(chains)[b]| {
            assert old(NodeOk(b, j)) && WfChain(old(table)[b], b);
            assert WfChain(old(table)[idx], idx) && old(ChainOk(idx));
            assert last != null ==> old(NodeOk(idx, |chains[idx]| - 1));
          }
        }
      }
      StillReachable(idx, e);
    }

    twostate lemma StillReachable(idx: nat, new e: Entry)
      requires |old(chains)| == MOD && (forall x <- old(live) :: old(Reachable(x)))
      requires idx == Bucket(e.key) && chains == old(chains)[idx := old(chains)[idx] + [e]] && live == old(live) + {e}
      ensures forall x <- live :: Reachable(x)
    {
      forall x <- live ensures Reachable(x) {
        if x != e {
          assert old(Reachable(x));
        }
      }
    }

    /** Takes the node after `prev` (the head, if null) out of its chain. */
    method Unlink(idx: nat, prev: Entry?, cur: Entry, ghost p: nat)
      requires TableValid() && idx < MOD && p < |chains[idx]| && chains[idx][p] == cur
      requires p == 0 ==> prev == null
      requires p > 0 ==> prev == chains[idx][p - 1] && prev in live
      modifies this`count, this`chains, this`live, this`table, buckets, live`next
      ensures TableValid()
      ensures table == Delete(old(table), cur.key) && live == old(live) - {cur}
      ensures RecOf(cur) == old(RecOf(cur))
    {
      NodeIsAtItsKey(idx, p);
      FindDelete(table, cur.key);
      Located(cur);
      Splice(idx, prev, cur.next, count - 1,
             chains[idx][..p] + chains[idx][p + 1..], live - {cur}, Delete(table, cur.key));
      Unlinked(idx, prev, cur, p);
    }

    twostate lemma Unlinked(idx: nat, new prev: Entry?, new cur: Entry, new p: nat)
      requires old(TableValid()) && idx < MOD && p < |old(chains)[idx]| && old(chains)[idx][p] == cur
      requires p == 0 ==> prev == null
      requires p > 0 ==> prev == old(chains)[idx][p - 1]
      requires chains == old(chains)[idx := old(chains)[idx][..p] + old(chains)[idx][p + 1..]]
      requires live == old(live) - {cur} && Wf(table)
      requires p < |old(table)[idx]| && table == old(table)[idx := old(table)[idx][..p] + old(table)[idx][p + 1..]]
      requires prev == null ==> buckets[..] == old(buckets[..])[idx := At(old(chains)[idx], p + 1)]
      requires prev != null ==> buckets[..] == old(buckets[..]) && prev.next == At(old(chains)[idx], p + 1)
      requires forall x <- old(live) :: x != prev ==> x.next == old(x.next)
      requires forall x <- old(live) :: RecOf(x) == old(RecOf(x))
      ensures forall b | 0 <= b < MOD :: ChainOk(b)
      ensures forall x <- live :: Reachable(x)
    {
      assert old(ChainOk(idx)) && WfChain(old(table)[idx], idx) && old(NodeOk(idx, p));
      forall b | 0 <= b < MOD ensures ChainOk(b) {
        assert old(ChainOk(b));
        assert buckets[b] == buckets[..][b];
        forall j | 0 <= j < |chains[b]| ensures NodeOk(b, j) {
          var i := if b == idx && j >= p then j + 1 else j;
          assert chains[b][j] == old(chains)[b][i] && table[b][j] == old(table)[b][i];
          assert old(NodeOk(b, i)) && WfChain(old(table)[b], b);
          assert prev != null ==> old(NodeOk(idx, p - 1));
        }
      }
      forall x <- live ensures Reachable(x) {
        assert old(Reachable(x));
        var b := Bucket(x.key);
        var i :| 0 <= i < |old(chains)[b]| && old(chains)[b][i] == x;
        assert b == idx ==> i != p && chains[b][if i < p then i else i - 1] == x;
      }
    }

    /** Heap operations that keep each live entry's membership leave the table valid. */
    twostate lemma TableKept()
      requires old(TableValid())
      requires chains == old(chains) && live == old(live) && count == old(count) && table == old(table)
      requires buckets[..] == old(buckets[..])
      requires forall x <- live :: x.next == old(x.next) && RecOf(x) == old(RecOf(x))
      ensures TableValid()
    {
      forall b | 0 <= b < MOD ensures ChainOk(b) {
        assert old(ChainOk(b)) && buckets[..][b] == old(buckets[..])[b];
        forall j | 0 <= j < |chains[b]| ensures NodeOk(b, j) {
          assert old(NodeOk(b, j));
        }
      }
    }

    /** The end of a delete: an unlinked entry leaves the heap before it is freed, unless its expiry is LONG_MAX. */
    method Discard(cur: Entry)
      requires TableValid() && HeapValid() && cur !in live && ttl.elems <= live + {cur}
      requires cur.heapIndex != SIZE_MAX <==> cur in ttl.elems
      modifies ttl, ttl.heap, ttl.elems`heapIndex
      ensures TableValid() && HeapValid()
      ensures NoDangling() <==> !(old(cur.heapIndex) != SIZE_MAX && cur.expiry == LONG_MAX)
      ensures ttl.elems <= old(ttl.elems) && ttl.heap == old(ttl.heap)
    {
      if cur.heapIndex != SIZE_MAX && cur.expiry != LONG_MAX {
        ghost var _, _ := ttl.HeapRemove(cur);
        SizeKept();
        TableKept();
      }
    }

    method HashDelete(k: string, ctx: CmdCtx?) returns (res: int)
      requires Valid()
      modifies Repr(), ctx
      ensures TableValid() && HeapValid()
      ensures NoDangling() <==> !StrandsEntry(old(table), k)
      ensures table == Delete(old(table), k)
      ensures res == DeleteReply(old(table), k).status
      ensures ctx != null ==> ctx.State() == Fill(old(ctx.State()), DeleteReply(old(table), k))
      ensures Repr() <= old(Repr()) && ttl.elems <= old(ttl.elems)
    {
      hide Database.TableValid, Database.HeapValid;
      var idx, prev, cur, p := FindEntry(k);
      if cur == null {
        DeleteMissing(table, k);
        res := DB_ERR_KEY_NOTEXIST;
        Answer(ctx, res, "ERR");
        return;
      }
      UnlinkAndDiscard(idx, prev, cur, p);
      res := DB_ERR_OK;
      Answer(ctx, res, "OK");
    }

    method UnlinkAndDiscard(idx: nat, prev: Entry?, cur: Entry, ghost p: nat)
      requires Valid() && idx < MOD && p < |chains[idx]| && chains[idx][p] == cur && cur in live
      requires p == 0 ==> prev == null
      requires p > 0 ==> prev == chains[idx][p - 1] && prev in live
      modifies Repr()
      ensures TableValid() && HeapValid()
      ensures NoDangling() <==> !StrandsEntry(old(table), cur.key)
      ensures table == Delete(old(table), cur.key) && old(Find(table, cur.key)).Some?
      ensures Repr() <= old(Repr()) && ttl.elems <= old(ttl.elems)
    {
      hide Database.TableValid;
      Located(cur);
      Unlink(idx, prev, cur, p);
      HeapKept();
      Discard(cur);
    }

    // ---------- insert ----------

    /** The insert's chain walk: stops at the entry for `k`, or else at the last entry. */
    method FindEntryOrLast(idx: nat, k: string) returns (temp: Entry, ghost p: nat)
      requires TableValid() && idx == Bucket(k) && chains[idx] != []
      ensures p < |chains[idx]| && temp == chains[idx][p] && temp in live
      ensures temp.key == k <==> Find(table, k).Some?
      ensures temp.key != k ==> p == |chains[idx]| - 1
    {
      assert ChainOk(idx);
      temp := buckets[idx];
      p := 0;
      while temp.next != null && temp.key != k
        invariant 0 <= p < |chains[idx]| && temp == chains[idx][p]
        invariant forall j | 0 <= j < p :: table[idx][j].key != k
        decreases |chains[idx]| - p
      {
        assert NodeOk(idx, p);
        temp := temp.next;
        p := p + 1;
      }
      assert NodeOk(idx, p);
    }

    method AddKvInArr(idx: nat, e: Entry) returns (res: int)
      requires Valid() && idx == Bucket(e.key) && e !in live
      requires e.next == null && e.expiry == -1 && e.heapIndex == SIZE_MAX
      modifies this`count, this`chains, this`live, this`table, buckets, live`next, live`value
      ensures Valid()
      ensures table == Insert(old(table), e.key, e.value)
      ensures live == old(live) || live == old(live) + {e}
      ensures res == if Full(old(table), e.key) then ERR_FULL
                     else if Find(old(table), e.key).Some? then DB_ERR_KEY_EXISTS else 0
    {
      if count + 1 >= MAX_ALLOWED {
        var _, _, temp, _ := FindEntry(e.key);
        if temp != null {
          SetValue(temp, e.value);
          return DB_ERR_KEY_EXISTS;
        }
        return ERR_FULL;
      }
      assert ChainOk(idx);
      if buckets[idx] == null {
        AddNew(idx, null, e);
        return 0;
      }
      var temp, _ := FindEntryOrLast(idx, e.key);
      if temp.key == e.key {
        SetValue(temp, e.value);
        return DB_ERR_KEY_EXISTS;
      }
      AddNew(idx, temp, e);
      return 0;
    }

    method AddNew(idx: nat, last: Entry?, e: Entry)
      requires Valid() && idx == Bucket(e.key) && Find(table, e.key).None? && !Full(table, e.key)
      requires e !in live
      requires e.next == null && e.expiry == -1 && e.heapIndex == SIZE_MAX
      requires |chains[idx]| == 0 ==> last == null
      requires |chains[idx]| > 0 ==> last == chains[idx][|chains[idx]| - 1] && last in live
      modifies this`count, this`chains, this`live, this`table, buckets, live`next
      ensures Valid()
      ensures table == Insert(old(table), e.key, e.value) && live == old(live) + {e}
    {
      hide Database.TableValid;
      LinkAtEnd(idx, last, e);
      HeapKept();
    }

    /** Touches neither the heap nor any expiry time. */
    method HashInsert(k: string, v: string, ctx: CmdCtx?) returns (res: int)
      requires Valid()
      modifies this`count, this`chains, this`live, this`table, buckets, live`next, live`value, ctx
      ensures Valid() && fresh(live - old(live))
      ensures table == Insert(old(table), k, v)
      ensures res == InsertReply(old(table), k).status
      ensures ctx != null ==> ctx.State() == Fill(old(ctx.State()), InsertReply(old(table), k))
    {
      hide Database.TableValid, Database.HeapValid;
      var idx := StringFoldingHash(k);
      var kv := new Entry(k, v);
      res := AddKvInArr(idx, kv);
      if res == 0 {
        Answer(ctx, res, "OK");
      } else if res == DB_ERR_KEY_EXISTS {
        res := 0;
        Answer(ctx, res, "OK");
      } else {
        Answer(ctx, res, "ERR");
      }
    }

    // ---------- lazy expiry ----------

    /** Deletes `e` if its time has come; `now` is the clock. */
    method LazyExpireAndDelete(e: Entry, now: Long) returns (res: int)
      requires Valid() && e in live
      modifies Repr()
      ensures Valid() && Repr() <= old(Repr())
      ensures table == Collect(old(table), e.key, now)
      ensures res == if Expired(old(e.expiry), now) then DB_ERR_KEY_EXPIRED else DB_ERR_KEY_NOT_EXPIRED
      ensures res == DB_ERR_KEY_NOT_EXPIRED ==> e in live && RecOf(e) == old(RecOf(e)) && ttl.elems == old(ttl.elems)
      ensures ttl.elems <= old(ttl.elems)
    {
      hide Database.TableValid, Database.HeapValid;
      Located(e);
      if e.expiry > now || e.expiry == -1 {
        return DB_ERR_KEY_NOT_EXPIRED;
      }
      RemoveAndDelete(e);
      return DB_ERR_KEY_EXPIRED;
    }

    /** Out of the heap first, then out of the table. */
    method RemoveAndDelete(e: Entry)
      requires Valid() && e in live
      modifies Repr()
      ensures Valid() && Repr() <= old(Repr())
      ensures table == Delete(old(table), e.key)
      ensures ttl.elems <= old(ttl.elems)
    {
      hide Database.TableValid;
      ghost var t := table;
      Unschedule(e);
      DeleteAfterSetExpiry(t, e.key, e.expiry, false);
      FindSetExpiry(t, e.key, e.expiry, false);
      var _ := HashDelete(e.key, null);
    }

    // ---------- reads ----------

    /** The entry for `k` unless it is missing or has just been collected. */
    method HashGetKv(k: string, now: Long) returns (e: Entry?)
      requires Valid()
      modifies Repr()
      ensures Valid() && Repr() <= old(Repr())
      ensures table == Collect(old(table), k, now)
      ensures e == null <==> Lookup(old(table), k, now).None?
      ensures e == null ==> Find(table, k).None?
      ensures e != null ==> e in live && e.key == k && Find(table, k) == Some(RecOf(e))
      ensures e != null ==> Lookup(old(table), k, now) == Some(RecOf(e))
      ensures ttl.elems <= old(ttl.elems)
    {
      hide Database.TableValid, Database.HeapValid;
      FindCollect(table, k, now);
      var _, _, kv, _ := FindEntry(k);
      if kv == null {
        return null;
      }
      var expired := LazyExpireAndDelete(kv, now);
      if expired == DB_ERR_KEY_EXPIRED {
        return null;
      }
      return kv;
    }

    method HashGet(k: string, now: Long, ctx: CmdCtx?) returns (res: int)
      requires Valid()
      modifies Repr(), ctx
      ensures Valid() && Repr() <= old(Repr())
      ensures table == Collect(old(table), k, now)
      ensures res == GetReply(old(table), k, now).status
      ensures ctx != null ==> ctx.State() == Fill(old(ctx.State()), GetReply(old(table), k, now))
    {
      hide Database.Valid, Wf;
      var temp := HashGetKv(k, now);
      var text := "ERR";
      res := DB_ERR_KEY_NOTEXIST;
      if temp != null {
        res, text := DB_ERR_OK, temp.value;
      }
      assert GetReply(old(table), k, now) == Reply(res, text);
      Answer(ctx, res, text);
    }

    method HashGetExpiry(k: string, now: Long, ctx: CmdCtx?) returns (res: int)
      requires Valid()
      modifies Repr(), ctx
      ensures Valid() && Repr() <= old(Repr())
      ensures table == Collect(old(table), k, now)
      ensures res == GetExpiryReply(old(table), k, now).status
      ensures ctx != null ==> ctx.State() == Fill(old(ctx.State()), GetExpiryReply(old(table), k, now))
    {
      hide Database.Valid, Wf;
      var temp := HashGetKv(k, now);
      var text := "ERR";
      res := DB_ERR_KEY_NOTEXIST;
      if temp != null {
        res, text := DB_ERR_OK, if temp.expiry != -1 then Decimal.PrintZu(temp.expiry) else "NULL";
      }
      assert GetExpiryReply(old(table), k, now) == Reply(res, text);
      Answer(ctx, res, text);
    }

    method HashExists(k: string, now: Long, ctx: CmdCtx?) returns (res: int)
      requires Valid()
      modifies Repr(), ctx
      ensures Valid() && Repr() <= old(Repr())
      ensures table == Collect(old(table), k, now)
      ensures res == ExistsReply(old(table), k, now).status
      ensures ctx != null ==> ctx.State() == Fill(old(ctx.State()), ExistsReply(old(table), k, now))
    {
      hide Database.Valid, Wf;
      var temp := HashGetKv(k, now);
      if temp == null {
        res := DB_ERR_KEY_NOTEXIST;
        Answer(ctx, res, "FALSE");
      } else {
        res := DB_ERR_OK;
        Answer(ctx, res, "TRUE");
      }
    }

    // ---------- expiry updates ----------

    /** The clock is read twice: for the entry's own expiry, and for the new one. */
    method HashUpdateExpiry(k: string, seconds: Long, now: Long, stamp: Long, ctx: CmdCtx?) returns (res: int)
      requires Valid()
      modifies Repr(), ctx
      ensures Valid() && fresh(Repr() - old(Repr()))
      ensures table == UpdateExpiryAt(old(table), k, seconds, now, stamp)
      ensures res == UpdateExpiryReply(old(table), k, now).status
      ensures ctx != null ==> ctx.State() == Fill(old(ctx.State()), UpdateExpiryReply(old(table), k, now))
    {
      hide Database.Valid, Wf;
      var kv := HashGetKv(k, now);
      if kv == null {
        res := DB_ERR_KEY_NOTEXIST;
        Answer(ctx, res, "NULL");
      } else {
        res := Reschedule(kv, Wrap(stamp + seconds));
        Answer(ctx, res, "OK");
      }
    }

    /** Takes the entry out of the heap if it is there, and puts it back under its new expiry time. */
    method Reschedule(e: Entry, expiry: Long) returns (res: int)
      requires Valid() && e in live
      modifies this`table, ttl, ttl.heap, ttl.elems`heapIndex, e`heapIndex, e`expiry
      ensures Valid() && (ttl.heap == old(ttl.heap) || fresh(ttl.heap))
      ensures table == SetExpiry(old(table), e.key, expiry, true)
      ensures ttl.elems == old(ttl.elems) + {e}
      ensures res == DB_ERR_OK
    {
      hide Database.TableValid;
      if e.heapIndex != SIZE_MAX {
        SetExpiryTwice(table, e.key, e.expiry, false, expiry, true);
        Unschedule(e);
      }
      res := Schedule(e, expiry);
    }

    /** Changes an expiry time and nothing else: the heap does not hear of it. */
    method SetExpiryOutsideHeap(e: Entry, expiry: Long)
      requires Valid() && e in live && e !in ttl.elems
      modifies this`table, e`expiry
      ensures Valid()
      ensures table == SetExpiry(old(table), e.key, expiry, false)
    {
      hide Database.TableValid;
      Located(e);
      FindSetExpiry(table, e.key, expiry, false);
      e.expiry := expiry;
      table := SetExpiry(table, e.key, expiry, false);
      OneRecordChanged(e);
      HeapKept();
    }

    /** With an empty heap no record claims to be in it. */
    lemma NothingInHeap(k: string)
      requires Valid() && ttl.elems == {}
      ensures Find(table, k).Some? ==> !Find(table, k).value.inHeap
    {
      var b, p := Bucket(k), Position(table[Bucket(k)], k);
      assert ChainOk(b);
      if p < |table[b]| {
        assert NodeOk(b, p);
      }
    }
  }
}
