/** What every command keeps about the stored records: heap membership, expiry times and fields. */
module Invariants {
  import opened Common
  import opened Djb2
  import opened Table
  import opened Replies
  import opened Tokens
  import opened Commands
  import opened Reference

  /** The command gives a stored, unexpired key the expiry time `x`. */
  predicate LandsOn(t: Buckets, c: Command, now: Long, x: Long)
    requires |t| == MOD
  {
    c.Expire? && Lookup(t, c.key, now).Some? && Wrap(now + c.seconds) == x
  }

  /** A lookup of `k` finds after a command what it found before, or nothing, or what a SET or EXPIRE of `k` left. */
  ghost predicate Explained(t: Buckets, c: Command, now: Long, k: string, after: Option<Rec>)
    requires |t| == MOD
  {
    var before := Find(t, k);
    || after == before
    || after.None?
    || (c == Set(k, after.value.value) && after == Some(Written(before, k, after.value.value)))
    || (c.Expire? && c.key == k && LandsOn(t, c, now, after.value.expiry)
        && before.Some? && after == Some(before.value.(expiry := after.value.expiry, inHeap := true)))
  }

  lemma FindAfterExpire(t: Buckets, c: Command, now: Long, k: string)
    requires Wf(t) && c.Expire?
    ensures Explained(t, c, now, k, Find(Apply(t, c, now), k))
  {
    if Lookup(t, c.key, now).Some? {
      var x := Wrap(now + c.seconds);
      FindSetExpiry(t, c.key, x, true);
      assert Apply(t, c, now) == SetExpiry(t, c.key, x, true);
    } else {
      FindCollect(t, c.key, now);
    }
  }

  lemma FindAfterSet(t: Buckets, c: Command, now: Long, k: string)
    requires Wf(t) && c.Set?
    ensures Explained(t, c, now, k, Find(Apply(t, c, now), k))
  {
    FindInsert(t, c.key, c.value);
  }

  lemma FindAfter(t: Buckets, c: Command, now: Long, k: string)
    requires Wf(t)
    ensures Explained(t, c, now, k, Find(Apply(t, c, now), k))
  {
    if c.Expire? {
      FindAfterExpire(t, c, now, k);
    } else if c.Set? {
      FindAfterSet(t, c, now, k);
    } else if c.Delete? {
      FindDelete(t, c.key);
    } else if IsRead(c) {
      FindCollect(t, c.key, now);
    }
  }

  lemma LandsThere(t: Buckets, c: Command, now: Long, x: Long)
    requires Wf(t) && LandsOn(t, c, now, x)
    ensures Find(Apply(t, c, now), c.key).Some?
    ensures Find(Apply(t, c, now), c.key).value.expiry == x && Find(Apply(t, c, now), c.key).value.inHeap
  {
    FindSetExpiry(t, c.key, x, true);
  }

  /** One record, alone in the table. */
  predicate IsAlone(t: Buckets, r: Rec) {
    |t| == MOD && t[Bucket(r.key)] == [r] && forall i | 0 <= i < MOD && i != Bucket(r.key) :: t[i] == []
  }

  lemma AloneIsFound(t: Buckets, r: Rec)
    requires IsAlone(t, r)
    ensures Wf(t) && Find(t, r.key) == Some(r)
  {
    hide Fold;
    var b := Bucket(r.key);
    assert WfChain([r], b);
  }

  lemma TotalOfAlone(t: Buckets, r: Rec)
    requires IsAlone(t, r)
    ensures Total(t) == 1
  {
    hide Bucket;
    EmptyHasNothing();
    TotalUpdate(Empty(), Bucket(r.key), [r]);
    assert t == Empty()[Bucket(r.key) := [r]];
  }

  lemma SetIsAlone(k: string, v: string, now: Long)
    ensures IsAlone(Apply(Empty(), Set(k, v), now), Rec(k, v, -1, false))
  {
    hide Bucket;
    EmptyHasNothing();
    NewRecordGoesLast(Empty(), k, v);
    assert [] + [Rec(k, v, -1, false)] == [Rec(k, v, -1, false)];
  }

  /** A SET and an EXPIRE on an empty store leave one record with the computed time, in the heap. */
  lemma ExpireIsAlone(k: string, v: string, seconds: Long, now: Long)
    ensures var t := Apply(Apply(Empty(), Set(k, v), now), Expire(k, seconds), now);
            IsAlone(t, Rec(k, v, Wrap(now + seconds), true))
  {
    hide Bucket, Wrap, Wf, Insert;
    var t, r := Apply(Empty(), Set(k, v), now), Rec(k, v, -1, false);
    SetIsAlone(k, v, now);
    AloneIsFound(t, r);
    assert Stamp([r], k, Wrap(now + seconds), true) == [Rec(k, v, Wrap(now + seconds), true)];
  }

  // ---------- who is in the heap ----------

  predicate ExactAt(t: Buckets, k: string)
    requires |t| == MOD
  {
    Find(t, k).Some? ==> (Find(t, k).value.inHeap <==> Find(t, k).value.expiry != -1)
  }

  /** The heap holds exactly the entries that have an expiry time. */
  ghost predicate HeapExact(t: Buckets)
    requires |t| == MOD
  {
    forall k :: ExactAt(t, k)
  }

  /** A command keeps the heap exact unless it is an EXPIRE that computes -1, the mark for "never". */
  lemma StepKeepsHeapExact(t: Buckets, c: Command, now: Long)
    requires Wf(t) && HeapExact(t)
    ensures HeapExact(Apply(t, c, now)) <==> !LandsOn(t, c, now, -1)
  {
    var t' := Apply(t, c, now);
    if LandsOn(t, c, now, -1) {
      LandsThere(t, c, now, -1);
      assert !ExactAt(t', c.key);
    } else {
      forall k ensures ExactAt(t', k) {
        assert ExactAt(t, k);
        FindAfter(t, c, now, k);
      }
    }
  }

  /** A SET and an EXPIRE that computes -1: an entry in the heap that never expires. */
  lemma SomeHeapIsInexact()
    ensures var t := Apply(Apply(Empty(), Set("k", "v"), 100), Expire("k", -101), 100);
            Find(t, "k") == Some(Rec("k", "v", -1, true)) && !HeapExact(t)
  {
    hide Apply, Find, IsAlone;
    var t := Apply(Apply(Empty(), Set("k", "v"), 100), Expire("k", -101), 100);
    ExpireIsAlone("k", "v", -101, 100);
    AloneIsFound(t, Rec("k", "v", -1, true));
    assert !ExactAt(t, "k");
  }

  // ---------- deletes that leave a freed entry in the heap ----------

  ghost predicate NothingStrandable(t: Buckets)
    requires |t| == MOD
  {
    forall k :: !StrandsEntry(t, k)
  }

  predicate Strands(t: Buckets, c: Command)
    requires |t| == MOD
  {
    c.Delete? && StrandsEntry(t, c.key)
  }

  /** A command keeps every delete safe unless it is an EXPIRE that computes LONG_MAX. */
  lemma StepKeepsDeletesSafe(t: Buckets, c: Command, now: Long)
    requires Wf(t) && NothingStrandable(t)
    ensures NothingStrandable(Apply(t, c, now)) <==> !LandsOn(t, c, now, LONG_MAX)
  {
    var t' := Apply(t, c, now);
    if LandsOn(t, c, now, LONG_MAX) {
      LandsThere(t, c, now, LONG_MAX);
      assert StrandsEntry(t', c.key);
    } else {
      forall k ensures !StrandsEntry(t', k) {
        assert !StrandsEntry(t, k);
        FindAfter(t, c, now, k);
      }
    }
  }

  /** No EXPIRE among the events computes `x`, which the requests and the clock alone decide. */
  predicate NeverComputes(events: seq<Event>, x: Long) {
    forall e <- events :: e.command.Expire? ==> Wrap(e.now + e.command.seconds) != x
  }

  /** No command of the run deletes an entry that the heap would keep. */
  predicate NeverStrands(t: Buckets, events: seq<Event>)
    requires |t| == MOD
    decreases |events|
  {
    events == [] ||
    (!Strands(t, events[0].command) && NeverStrands(Apply(t, events[0].command, events[0].now), events[1..]))
  }

  lemma {:induction false} RunStaysSafe(t: Buckets, events: seq<Event>)
    requires Wf(t) && NothingStrandable(t) && NeverComputes(events, LONG_MAX)
    ensures NeverStrands(t, events) && NothingStrandable(Run(t, events))
    decreases |events|
  {
    if events != [] {
      var e := events[0];
      assert e in events;
      StepKeepsDeletesSafe(t, e.command, e.now);
      ApplyKeepsWf(t, e.command, e.now);
      RunStaysSafe(Apply(t, e.command, e.now), events[1..]);
    }
  }

  /** In a run from an empty store, the heap holds exactly the entries with an expiry time. */
  lemma {:induction false} RunKeepsHeapExact(t: Buckets, events: seq<Event>)
    requires Wf(t) && HeapExact(t) && NeverComputes(events, -1)
    ensures HeapExact(Run(t, events))
    decreases |events|
  {
    hide Apply, HeapExact, Lookup, Wrap, WfChain;
    if events != [] {
      var e := events[0];
      assert e in events;
      StepKeepsHeapExact(t, e.command, e.now);
      ApplyKeepsWf(t, e.command, e.now);
      RunKeepsHeapExact(Apply(t, e.command, e.now), events[1..]);
    }
  }

  lemma EmptyIsSafe()
    ensures Wf(Empty()) && HeapExact(Empty()) && NothingStrandable(Empty())
  {
    EmptyIsWf();
  }

  lemma ForeverInHeap(t: Buckets, k: string, v: string, now: Long)
    requires Wf(t) && !Full(t, k) && Find(t, k).None? && 0 <= now
    ensures var t1 := Apply(t, Set(k, v), now); var t2 := Apply(t1, Expire(k, LONG_MAX - now), now);
            Strands(t2, Delete(k))
  {
    FindInsert(t, k, v);
    var t1 := Apply(t, Set(k, v), now);
    FindSetExpiry(t1, k, LONG_MAX, true);
  }

  /** Setting a key, expiring it at LONG_MAX and deleting it is a run that leaves a freed entry in the heap. */
  lemma SomeRunStrands(k: string, v: string, now: Long)
    requires 0 <= now
    ensures !NeverStrands(Empty(), [Event(Set(k, v), now),
                                    Event(Expire(k, LONG_MAX - now), now),
                                    Event(Delete(k), now)])
  {
    EmptyHasNothing();
    ForeverInHeap(Empty(), k, v, now);
    var first, second, third := Event(Set(k, v), now), Event(Expire(k, LONG_MAX - now), now), Event(Delete(k), now);
    var t1 := Apply(Empty(), first.command, now);
    var t2 := Apply(t1, second.command, now);
    assert !NeverStrands(t2, [third]);
    assert [second, third][1..] == [third];
    assert !NeverStrands(t1, [second, third]);
    assert [first, second, third][1..] == [second, third];
  }

  // ---------- fields ----------

  ghost predicate FieldsAt(t: Buckets, k: string, good: (string, string) -> bool)
    requires |t| == MOD
  {
    Find(t, k).Some? ==> good(k, Find(t, k).value.value)
  }

  /** Every stored key and value satisfy `good`. */
  ghost predicate AllFields(t: Buckets, good: (string, string) -> bool)
    requires |t| == MOD
  {
    forall k :: FieldsAt(t, k, good)
  }

  lemma StepKeepsFields(t: Buckets, c: Command, now: Long, good: (string, string) -> bool)
    requires Wf(t) && AllFields(t, good) && (c.Set? ==> good(c.key, c.value))
    ensures AllFields(Apply(t, c, now), good)
  {
    forall k ensures FieldsAt(Apply(t, c, now), k, good) {
      assert FieldsAt(t, k, good);
      FindAfter(t, c, now, k);
    }
  }

  lemma {:induction false} RunKeepsFields(t: Buckets, events: seq<Event>, good: (string, string) -> bool)
    requires Wf(t) && AllFields(t, good)
    requires forall e <- events :: e.command.Set? ==> good(e.command.key, e.command.value)
    ensures AllFields(Run(t, events), good)
    decreases |events|
  {
    if events != [] {
      var e := events[0];
      assert e in events;
      StepKeepsFields(t, e.command, e.now, good);
      ApplyKeepsWf(t, e.command, e.now);
      RunKeepsFields(Apply(t, e.command, e.now), events[1..], good);
    }
  }

  /** Requests are shorter than this. */
  const MAX_CMD_LEN: nat := 512

  /** Two arguments of a request: nonempty, free of blanks, and short together. */
  predicate FromRequest(k: string, v: string) {
    IsToken(k, BLANKS) && IsToken(v, BLANKS) && |k| + |v| < MAX_CMD_LEN
  }

  lemma SetHasThreeArguments(args: seq<string>)
    requires args != []
    ensures var c := Parse(args); c.Set? ==> |args| == 3 && c == Set(args[1], args[2])
  {
  }

  /** Whatever SET stores comes from two tokens of one request. */
  lemma SetStoresTokens(req: string)
    requires |req| < MAX_CMD_LEN && Arguments(req) != []
    ensures var c := Parse(Arguments(req)); c.Set? ==> FromRequest(c.key, c.value)
  {
    hide Parse, Split, TextLength;
    var args := Arguments(req);
    SetHasThreeArguments(args);
    if Parse(args).Set? {
      SplitGivesTokens(req, BLANKS);
      SplitLength(req, BLANKS);
      assert args == Split(req, BLANKS);
      TwoTokensFit(args);
    }
  }

  /** A stored record is found under its own key. */
  lemma StoredIsFound(t: Buckets, b: nat, j: nat)
    requires Wf(t) && b < MOD && j < |t[b]|
    ensures Find(t, t[b][j].key) == Some(t[b][j])
  {
    assert WfChain(t[b], b);
  }

  // ---------- chain order ----------

  /** `k` comes before `k'` in the bucket they share. */
  predicate Before(t: Buckets, k: string, k': string)
    requires |t| == MOD
  {
    Bucket(k) == Bucket(k') && Position(t[Bucket(k)], k) < Position(t[Bucket(k)], k')
  }

  /** Two stored keys that a command does not name stay in the order they are in. */
  lemma OrderOfOthersKept(t: Buckets, c: Command, now: Long, k: string, k': string)
    requires Wf(t) && Find(t, k).Some? && Find(t, k').Some?
    requires c.Save? || c.Say? || (c.key != k && c.key != k')
    ensures Before(Apply(t, c, now), k, k') <==> Before(t, k, k')
  {
    hide Position, Put, Cut, Stamp, Wrap, WfChain, Full;
    if !c.Save? && !c.Say? && Bucket(c.key) == Bucket(k) == Bucket(k') {
      var b, x := Bucket(k), Wrap(now + if c.Expire? then c.seconds else 0);
      CutKeepsOrder(t[b], b, c.key, k, k');
      StampKeepsOrder(t[b], c.key, x, true, k, k');
      if c.Set? {
        PutKeepsOrder(t[b], c.key, c.value, k, k');
      }
    }
  }

  predicate SameOrder(c: Chain, c': Chain, k: string, k': string) {
    Position(c, k) < Position(c, k') <==> Position(c', k) < Position(c', k')
  }

  lemma PutKeepsOrder(c: Chain, named: string, v: string, k: string, k': string)
    requires FindIn(c, k).Some? && FindIn(c, k').Some? && named != k && named != k'
    ensures SameOrder(c, Put(c, named, v), k, k')
  {
    PlaceAfterPut(c, named, v, k);
    PlaceAfterPut(c, named, v, k');
  }

  lemma StampKeepsOrder(c: Chain, named: string, x: Long, h: bool, k: string, k': string)
    requires FindIn(c, k).Some? && FindIn(c, k').Some? && named != k && named != k'
    ensures SameOrder(c, Stamp(c, named, x, h), k, k')
  {
    PlaceAfterStamp(c, named, x, h, k);
    PlaceAfterStamp(c, named, x, h, k');
  }

  lemma CutKeepsOrder(c: Chain, b: nat, named: string, k: string, k': string)
    requires WfChain(c, b) && FindIn(c, k).Some? && FindIn(c, k').Some? && named != k && named != k'
    ensures SameOrder(c, Cut(c, named), k, k')
  {
    PlaceAfterCut(c, b, named, k);
    PlaceAfterCut(c, b, named, k');
    assert Position(c, named) != Position(c, k) && Position(c, named) != Position(c, k');
  }

  lemma PlaceAfterPut(c: Chain, named: string, v: string, k: string)
    requires FindIn(c, k).Some? && named != k
    ensures Position(Put(c, named, v), k) == Position(c, k)
  {
    SamePlace(c, Put(c, named, v), k);
  }

  lemma PlaceAfterStamp(c: Chain, named: string, x: Long, h: bool, k: string)
    requires FindIn(c, k).Some? && named != k
    ensures Position(Stamp(c, named, x, h), k) == Position(c, k)
  {
    SamePlace(c, Stamp(c, named, x, h), k);
  }

  lemma SamePlace(c: Chain, c': Chain, k: string)
    requires FindIn(c, k).Some? && |c| <= |c'| && forall j | 0 <= j < |c| :: c'[j].key == c[j].key
    ensures Position(c', k) == Position(c, k)
  {
    assert c'[Position(c, k)].key == k;
  }

  lemma PlaceAfterCut(c: Chain, b: nat, named: string, k: string)
    requires WfChain(c, b) && FindIn(c, k).Some? && named != k
    ensures var p := Position(c, k);
            Position(Cut(c, named), k) == if Position(c, named) < p then p - 1 else p
  {
    hide Bucket;
    var i, p, c' := Position(c, named), Position(c, k), Cut(c, named);
    if i < |c| {
      var q := if i < p then p - 1 else p;
      ShiftedBy(c, i);
      assert c'[q] == c[p];
      assert forall j | 0 <= j < q :: c'[j].key != k;
    }
  }

  lemma ShiftedBy(c: Chain, i: nat)
    requires i < |c|
    ensures var c' := c[..i] + c[i + 1..];
            |c'| == |c| - 1 && forall j | 0 <= j < |c'| :: c'[j] == if j < i then c[j] else c[j + 1]
  {
  }
}
