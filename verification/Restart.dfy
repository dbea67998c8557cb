/** What a save and rebuild means for readers, and for whole runs. */
module Restart {
  import opened Common
  import opened Djb2
  import opened Table
  import opened Replies
  import opened Commands
  import opened Reference
  import opened Invariants
  import opened SaveFormat
  import opened Pieces
  import opened RoundTrip
  import opened Survival
  import Decimal

  /** Expiries the file format can carry: a time that is not negative, or -1 for "never". */
  ghost predicate Storable(t: Buckets)
    requires |t| == MOD
  {
    forall k :: Find(t, k).Some? ==> Find(t, k).value.expiry >= -1
  }

  /** Every record has a real expiry time, not one of the two marks for "never". */
  ghost predicate Timed(t: Buckets)
    requires |t| == MOD
  {
    forall k :: Find(t, k).Some? ==> 0 <= Find(t, k).value.expiry < LONG_MAX
  }

  // ---------- single keys ----------

  /** `k` is in the rebuilt table exactly if it was unexpired. */
  predicate DroppedInTime(t: Buckets, k: string, now: Long)
    requires |t| == MOD
  {
    Find(Reload(t, now), k).Some? <==> Lookup(t, k, now).Some?
  }

  /** A rebuild drops exactly what has expired, unless an expiry lies below -1. */
  lemma DropsExactlyExpired(t: Buckets, now: Long)
    requires Wf(t) && 0 <= now < LONG_MAX
    ensures (forall k :: DroppedInTime(t, k, now)) <==> Storable(t)
  {
    hide Find, Reload;
    forall k ensures DroppedInTime(t, k, now) <==> (Find(t, k).Some? ==> Find(t, k).value.expiry >= -1) {
      FindInReload(t, k, now);
    }
  }

  /** What is kept keeps value and any real expiry; the two marks for "never" trade places; the heap is empty. */
  lemma ReloadKeepsFields(t: Buckets, k: string, now: Long)
    requires Wf(t) && Find(Reload(t, now), k).Some?
    ensures Find(t, k).Some?
    ensures var r, r' := Find(t, k).value, Find(Reload(t, now), k).value;
      && r'.key == r.key && r'.value == r.value && !r'.inHeap
      && (0 <= r.expiry < LONG_MAX ==> r'.expiry == r.expiry && r.expiry > now)
      && (r.expiry == -1 ==> r'.expiry == LONG_MAX)
      && (r.expiry == LONG_MAX ==> r'.expiry == -1)
  {
    hide Find, Reload;
    FindInReload(t, k, now);
  }

  /** Two restarts give back every record still alive, with its expiry as it first was. */
  lemma TwoRestarts(t: Buckets, k: string, now: Long, later: Long)
    requires Wf(t) && Storable(t) && 0 <= now <= later < LONG_MAX
    ensures Find(Reload(Reload(t, now), later), k) ==
            match Find(t, k)
            case Some(r) => if Expired(r.expiry, later) then None else Some(r.(inHeap := false))
            case None => None
  {
    FindInReload(t, k, now);
    ReloadIsWf(t, now);
    FindInReload(Reload(t, now), k, later);
  }

  // ---------- reads ----------

  /** The record, if any, has an expiry that the answer to `c` does not change with over a restart. */
  predicate Unmoved(found: Option<Rec>, c: Command) {
    found.Some? ==> if c.GetExpiry? then 0 <= found.value.expiry < LONG_MAX else found.value.expiry >= -1
  }

  lemma SpelledOut(x: Long)
    ensures Decimal.PrintZu(x) != "NULL"
  {
    Decimal.DecShape(Decimal.Unsigned(x));
    assert !Decimal.IsDigit("NULL"[0]);
  }

  /** A read answers the same with a restart at `now` as without exactly when its key's expiry is unmoved. */
  lemma ReadAfterRestart(t: Buckets, c: Command, now: Long, later: Long)
    requires Wf(t) && IsRead(c) && 0 <= now <= later < LONG_MAX
    ensures Respond(Reload(t, now), c, later) == Respond(t, c, later) <==> Unmoved(Find(t, c.key), c)
  {
    hide Find, Reload, Decimal.PrintZu;
    FindInReload(t, c.key, now);
    SpelledOut(LONG_MAX);
  }

  /** After a second restart only an expiry below -1 shows. */
  lemma ReadAfterTwoRestarts(t: Buckets, c: Command, now: Long, again: Long, later: Long)
    requires Wf(t) && IsRead(c) && 0 <= now <= again <= later < LONG_MAX
    ensures Respond(Reload(Reload(t, now), again), c, later) == Respond(t, c, later)
       <==> (Find(t, c.key).Some? ==> Find(t, c.key).value.expiry >= -1)
  {
    hide Find, Reload, Decimal.PrintZu;
    FindInReload(t, c.key, now);
    ReloadIsWf(t, now);
    FindInReload(Reload(t, now), c.key, again);
  }

  predicate SameAnswer(t: Buckets, t': Buckets, c: Command, time: Long)
    requires |t| == MOD && |t'| == MOD
  {
    Respond(t', c, time) == Respond(t, c, time)
  }

  /**
   * GET and EXISTS cannot tell a restart from none exactly when no expiry is below -1;
   * GET ex cannot exactly when every record has a real one.
   */
  lemma RestartIsInvisible(t: Buckets, now: Long)
    requires Wf(t) && 0 <= now < LONG_MAX
    ensures (forall c: Command, later: Long | (c.Get? || c.Exists?) && now <= later < LONG_MAX ::
               SameAnswer(t, Reload(t, now), c, later)) <==> Storable(t)
    ensures (forall c: Command, later: Long | c.GetExpiry? && now <= later < LONG_MAX ::
               SameAnswer(t, Reload(t, now), c, later)) <==> Timed(t)
  {
    hide Find, Reload, Respond;
    forall c: Command, later: Long | IsRead(c) && now <= later < LONG_MAX
      ensures SameAnswer(t, Reload(t, now), c, later) <==> Unmoved(Find(t, c.key), c)
    {
      ReadAfterRestart(t, c, now, later);
    }
    forall k ensures SameAnswer(t, Reload(t, now), Get(k), now) <==> Unmoved(Find(t, k), Get(k)) {
      ReadAfterRestart(t, Get(k), now, now);
    }
    forall k ensures SameAnswer(t, Reload(t, now), GetExpiry(k), now) <==> Unmoved(Find(t, k), GetExpiry(k)) {
      ReadAfterRestart(t, GetExpiry(k), now, now);
    }
  }

  /** The same through the text of the file. */
  lemma SaveRestartRead(t: Buckets, c: Command, now: Long, later: Long)
    requires Wf(t) && Savable(t) && Total(t) < MAX_ALLOWED && IsRead(c) && 0 <= now <= later < LONG_MAX
    ensures TextOk(SaveText(t), false)
    ensures Respond(LoadText(Loader(Empty(), false), SaveText(t), now).table, c, later) == Respond(t, c, later)
       <==> Unmoved(Find(t, c.key), c)
  {
    hide Find, Reload, Respond, Savable, Total, LoadText, TextOk, SaveText;
    SaveThenRebuild(t, now);
    ReadAfterRestart(t, c, now, later);
  }

  // ---------- runs that show a restart ----------

  lemma AloneIsSavable(t: Buckets, r: Rec)
    requires IsAlone(t, r) && Clean(r.key, r.value) && |r.key| + |r.value| < MAX_CMD_LEN
    ensures Wf(t) && Savable(t) && Total(t) < MAX_ALLOWED
  {
    hide PrintRecord, Bucket, RoomAfter, Total;
    AloneIsFound(t, r);
    TotalOfAlone(t, r);
    ShortText(r);
    assert HarmlessChain([r]);
    assert SavableChain([]) && SavableChain([r]);
  }

  lemma ShortText(r: Rec)
    requires |r.key| + |r.value| < MAX_CMD_LEN
    ensures |PrintRecord(r)| <= LINE_MAX
  {
    Decimal.PrintZuLength(r.expiry);
  }

  /** A key never given an expiry: GET ex answers NULL, but after a save and a restart it answers LONG_MAX in digits. */
  lemma SomeRestartShows(now: Long, later: Long)
    requires 0 <= now <= later < LONG_MAX
    ensures var t := Apply(Empty(), Set("k", "v"), now);
      && TextOk(SaveText(t), false)
      && var t' := LoadText(Loader(Empty(), false), SaveText(t), now).table;
         Respond(t, GetExpiry("k"), later) == Plain(Reply(DB_ERR_OK, "NULL"))
         && Respond(t', GetExpiry("k"), later) == Plain(Reply(DB_ERR_OK, Decimal.PrintZu(LONG_MAX)))
  {
    hide LoadText, TextOk, SaveText, Savable, Find, Apply, IsAlone, Total, Reload, Decimal.PrintZu;
    var t, r := Apply(Empty(), Set("k", "v"), now), Rec("k", "v", -1, false);
    SetIsAlone("k", "v", now);
    AloneIsSavable(t, r);
    AloneIsFound(t, r);
    SaveThenRebuild(t, now);
    FindInReload(t, "k", now);
  }

  /** EXPIRE to -2 makes GET miss; a save and a restart bring the value back for good. */
  lemma SomeRecordReturns(later: Long)
    requires 100 <= later < LONG_MAX
    ensures var t := Apply(Apply(Empty(), Set("k", "v"), 100), Expire("k", -102), 100);
      && TextOk(SaveText(t), false)
      && var t' := LoadText(Loader(Empty(), false), SaveText(t), 100).table;
         Respond(t, Get("k"), later) == Plain(Reply(DB_ERR_KEY_NOTEXIST, "ERR"))
         && Respond(t', Get("k"), later) == Plain(Reply(DB_ERR_OK, "v"))
  {
    hide LoadText, TextOk, SaveText, Savable, Find, Apply, IsAlone, Total, Reload;
    var t, r := Apply(Apply(Empty(), Set("k", "v"), 100), Expire("k", -102), 100), Rec("k", "v", -2, true);
    ExpireIsAlone("k", "v", -102, 100);
    AloneIsSavable(t, r);
    AloneIsFound(t, r);
    SaveThenRebuild(t, 100);
    FindInReload(t, "k", 100);
  }

  // ---------- whole runs ----------

  predicate Never(x: Long) {
    x == -1 || x == LONG_MAX
  }

  /** The same entry, but for how "never" is spelled and for the heap. */
  predicate AlikeCell(x: Cell, y: Cell) {
    x.value == y.value && (x.expiry == y.expiry || (Never(x.expiry) && Never(y.expiry)))
  }

  predicate Alike(m: Store, m': Store) {
    m.Keys == m'.Keys && forall k <- m :: AlikeCell(m[k], m'[k])
  }

  lemma AlikeFetch(m: Store, m': Store, k: string, now: Long)
    requires Alike(m, m') && now < LONG_MAX
    ensures match (Fetch(m, k, now), Fetch(m', k, now))
            case (Some(x), Some(y)) => AlikeCell(x, y)
            case (None, None) => true
            case _ => false
    ensures FullFor(m, k) == FullFor(m', k)
  {
    assert |m.Keys| == |m'.Keys|;
  }

  lemma AlikeResult(m: Store, m': Store, c: Command, now: Long)
    requires Alike(m, m') && now < LONG_MAX && !c.GetExpiry?
    ensures Result(m, c, now) == Result(m', c, now)
  {
    hide Fetch, FullFor, Decimal.PrintZu;
    if !c.Save? && !c.Say? {
      AlikeFetch(m, m', c.key, now);
    }
  }

  lemma AlikeChange(m: Store, m': Store, c: Command, now: Long)
    requires Alike(m, m') && now < LONG_MAX
    ensures Alike(Change(m, c, now), Change(m', c, now))
  {
    hide FullFor, Wrap, Never;
    if !c.Save? && !c.Say? {
      AlikeFetch(m, m', c.key, now);
    }
  }

  predicate SameButExpiries(events: seq<Event>, a: seq<Ctx>, b: seq<Ctx>)
    requires |a| == |b| == |events|
  {
    forall i | 0 <= i < |events| :: !events[i].command.GetExpiry? ==> a[i] == b[i]
  }

  lemma {:induction false} AlikeRun(t: Buckets, t': Buckets, events: seq<Event>)
    requires Wf(t) && Wf(t') && Alike(ToMap(t), ToMap(t')) && forall e <- events :: e.now < LONG_MAX
    ensures SameButExpiries(events, Answers(t, events), Answers(t', events))
    decreases |events|
  {
    hide Alike, ToMap, Apply, Respond, Result, Change, Write;
    if events != [] {
      var e := events[0];
      assert e in events;
      StepOnMap(t, e.command, e.now);
      StepOnMap(t', e.command, e.now);
      AlikeChange(ToMap(t), ToMap(t'), e.command, e.now);
      if !e.command.GetExpiry? {
        AlikeResult(ToMap(t), ToMap(t'), e.command, e.now);
      }
      ApplyKeepsWf(t, e.command, e.now);
      ApplyKeepsWf(t', e.command, e.now);
      AlikeRun(Apply(t, e.command, e.now), Apply(t', e.command, e.now), events[1..]);
    }
  }

  predicate Alive(t: Buckets, k: string, now: Long)
    requires |t| == MOD
  {
    Find(t, k).Some? ==> !Expired(Find(t, k).value.expiry, now)
  }

  lemma ReloadIsAlike(t: Buckets, now: Long)
    requires Wf(t) && 0 <= now < LONG_MAX && forall k :: Alive(t, k, now)
    ensures Alike(ToMap(t), ToMap(Reload(t, now)))
  {
    hide Find, Reload, ToMap;
    forall k ensures k in ToMap(t) <==> k in ToMap(Reload(t, now)) {
      KeyIsAlike(t, k, now);
    }
    forall k <- ToMap(t) ensures AlikeCell(ToMap(t)[k], ToMap(Reload(t, now))[k]) {
      KeyIsAlike(t, k, now);
    }
  }

  lemma KeyIsAlike(t: Buckets, k: string, now: Long)
    requires Wf(t) && 0 <= now < LONG_MAX && forall k :: Alive(t, k, now)
    ensures k in ToMap(t) <==> k in ToMap(Reload(t, now))
    ensures k in ToMap(t) ==> AlikeCell(ToMap(t)[k], ToMap(Reload(t, now))[k])
  {
    hide Find, Reload, ToMap;
    assert Alive(t, k, now);
    ToMapFinds(t, k);
    ToMapFinds(Reload(t, now), k);
    FindInReload(t, k, now);
  }

  /** Requests served from `now` on, by a clock short of LONG_MAX. */
  predicate From(events: seq<Event>, now: Long) {
    forall e <- events :: now <= e.now < LONG_MAX
  }

  predicate RunsAlike(t: Buckets, now: Long, events: seq<Event>)
    requires |t| == MOD
  {
    SameButExpiries(events, Answers(t, events), Answers(Reload(t, now), events))
  }

  /**
   * No run of requests can tell a restart at `now` from none, unless by GET ex,
   * exactly when nothing stored has expired by then.
   */
  lemma RunAfterRestart(t: Buckets, now: Long)
    requires Wf(t) && 0 <= now < LONG_MAX
    ensures (forall events: seq<Event> | From(events, now) :: RunsAlike(t, now, events))
       <==> forall k :: Alive(t, k, now)
  {
    hide Answers, Reload, Find, Expired;
    if forall k :: Alive(t, k, now) {
      ReloadIsAlike(t, now);
      ReloadIsWf(t, now);
      forall events: seq<Event> | From(events, now) ensures RunsAlike(t, now, events) {
        AlikeRun(t, Reload(t, now), events);
      }
    } else {
      var k :| !Alive(t, k, now);
      var events := TellsApart(t, k, now);
      assert From(events, now) && !RunsAlike(t, now, events);
    }
  }

  /** DELETE succeeds on an expired record that a rebuild drops; GET finds one that a rebuild revives. */
  lemma TellsApart(t: Buckets, k: string, now: Long) returns (events: seq<Event>)
    requires Wf(t) && 0 <= now < LONG_MAX && !Alive(t, k, now)
    ensures From(events, now) && !RunsAlike(t, now, events)
  {
    hide Find, Reload;
    var c := if Find(t, k).value.expiry >= 0 then Delete(k) else Get(k);
    events := [Event(c, now)];
    FindInReload(t, k, now);
    OneAnswer(t, c, now);
    OneAnswer(Reload(t, now), c, now);
  }

  lemma OneAnswer(t: Buckets, c: Command, now: Long)
    requires |t| == MOD
    ensures Answers(t, [Event(c, now)]) == [Write(Ctx("", DB_ERR_OK), Respond(t, c, now))]
  {
    assert Answers(Apply(t, c, now), []) == [];
    assert [Event(c, now)][1..] == [];
  }

  // ---------- what runs keep ----------

  /** A command keeps every expiry storable unless it is an EXPIRE that computes a time below -1. */
  lemma StepKeepsStorable(t: Buckets, c: Command, now: Long)
    requires Wf(t) && Storable(t)
    ensures Storable(Apply(t, c, now)) <==> !(c.Expire? && Lookup(t, c.key, now).Some? && Wrap(now + c.seconds) < -1)
  {
    if c.Expire? && Lookup(t, c.key, now).Some? && Wrap(now + c.seconds) < -1 {
      LandsThere(t, c, now, Wrap(now + c.seconds));
    } else {
      forall k | Find(Apply(t, c, now), k).Some? ensures Find(Apply(t, c, now), k).value.expiry >= -1 {
        FindAfter(t, c, now, k);
      }
    }
  }

  lemma {:induction false} RunKeepsStorable(t: Buckets, events: seq<Event>)
    requires Wf(t) && Storable(t)
    requires forall e <- events :: e.command.Expire? ==> Wrap(e.now + e.command.seconds) >= -1
    ensures Storable(Run(t, events))
    decreases |events|
  {
    hide Storable, Apply;
    if events != [] {
      var e := events[0];
      assert e in events;
      StepKeepsStorable(t, e.command, e.now);
      ApplyKeepsWf(t, e.command, e.now);
      RunKeepsStorable(Apply(t, e.command, e.now), events[1..]);
    }
  }

  predicate NoSeparators(k: string, v: string) {
    Separable(k) && Separable(v)
  }

  /** Request-filled, with nothing to drop, a table comes back exactly if no field has a separator and no cut harms. */
  lemma RequestTablesComeBack(t: Buckets, now: Long)
    requires Wf(t) && Total(t) < MAX_ALLOWED && AllFields(t, FromRequest) && NothingDropped(t, now)
    ensures ComesBack(t, now) <==> AllFields(t, NoSeparators) && forall b | 0 <= b < MOD :: HarmlessChain(t[b])
  {
    hide ComesBack, NothingDropped, Find, FromRequest, HarmlessChain, Total, Separable, PrintRecord;
    forall b | 0 <= b < MOD ensures OnOneLine(t[b]) {
      RequestChain(t, b);
    }
    ComesBackExactly(t, now);
    if AllFields(t, NoSeparators) {
      forall b | 0 <= b < MOD ensures SeparableChain(t[b]) {
        SeparableBucket(t, b);
      }
    }
    if Savable(t) {
      forall k ensures FieldsAt(t, k, NoSeparators) {
        SeparableKey(t, k);
      }
    }
  }

  lemma RequestChain(t: Buckets, b: nat)
    requires Wf(t) && AllFields(t, FromRequest) && b < MOD
    ensures OnOneLine(t[b])
  {
    hide Find;
    forall r <- t[b] ensures '\n' !in r.key && '\n' !in r.value {
      var j :| 0 <= j < |t[b]| && t[b][j] == r;
      StoredIsFound(t, b, j);
      assert FieldsAt(t, r.key, FromRequest);
    }
  }

  lemma SeparableBucket(t: Buckets, b: nat)
    requires Wf(t) && AllFields(t, NoSeparators) && b < MOD
    ensures SeparableChain(t[b])
  {
    hide Find, Separable;
    forall r <- t[b] ensures Separable(r.key) && Separable(r.value) {
      var j :| 0 <= j < |t[b]| && t[b][j] == r;
      StoredIsFound(t, b, j);
      assert FieldsAt(t, r.key, NoSeparators);
    }
  }

  lemma SeparableKey(t: Buckets, k: string)
    requires |t| == MOD && Savable(t)
    ensures FieldsAt(t, k, NoSeparators)
  {
    var b := Bucket(k);
    assert SavableChain(t[b]);
    assert Find(t, k).Some? ==> t[b][Position(t[b], k)] in t[b];
  }

  /** A rebuild puts nothing into the heap, so the heap is exact after it only if all that is kept never expires. */
  lemma ReloadKeepsHeapExact(t: Buckets, now: Long)
    requires Wf(t)
    ensures HeapExact(Reload(t, now)) <==>
      forall k :: Find(t, k).Some? && Reloaded(Find(t, k).value, now).Some? ==> Find(t, k).value.expiry == LONG_MAX
  {
    hide Find, Reload;
    forall k ensures ExactAt(Reload(t, now), k) <==>
      (Find(t, k).Some? && Reloaded(Find(t, k).value, now).Some? ==> Find(t, k).value.expiry == LONG_MAX)
    {
      FindInReload(t, k, now);
    }
  }

  /** A table rebuilt from a save of request-filled records can be served again, and saved again. */
  lemma ReloadIsServable(t: Buckets, now: Long)
    requires Wf(t) && AllFields(t, FromRequest)
    ensures AllFields(Reload(t, now), FromRequest) && NothingStrandable(Reload(t, now))
  {
    hide FromRequest, Find;
    forall k ensures FieldsAt(Reload(t, now), k, FromRequest) && !StrandsEntry(Reload(t, now), k) {
      FindInReload(t, k, now);
      assert FieldsAt(t, k, FromRequest);
    }
  }
}
