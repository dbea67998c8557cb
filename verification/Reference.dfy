/** The store as a finite map, and the proof that the chained table behaves as that map over whole runs. */
module Reference {
  import opened Common
  import opened Table
  import opened Replies
  import opened Commands
  import Decimal

  type Store = map<string, Cell>

  function Fetch(m: Store, k: string, now: Long): Option<Cell> {
    if k in m && !Expired(m[k].expiry, now) then Some(m[k]) else None
  }

  predicate FullFor(m: Store, k: string) {
    k !in m && |m| + 1 >= MAX_ALLOWED
  }

  /** What a command does to the map: it changes the entry of its own key and no other. */
  function Change(m: Store, c: Command, now: Long): Store {
    match c
    case Set(k, v) =>
      if FullFor(m, k) then m
      else m[k := if k in m then m[k].(value := v) else Cell(v, -1, false)]
    case Get(k) => Purge(m, k, now)
    case GetExpiry(k) => Purge(m, k, now)
    case Exists(k) => Purge(m, k, now)
    case Delete(k) => m - {k}
    case Expire(k, seconds) =>
      if Fetch(m, k, now).Some? then m[k := m[k].(expiry := Wrap(now + seconds), inHeap := true)] else Purge(m, k, now)
    case Save => m
    case Say(_, _) => m
  }

  function Purge(m: Store, k: string, now: Long): Store {
    if Fetch(m, k, now).None? then m - {k} else m
  }

  function Result(m: Store, c: Command, now: Long): Outcome {
    match c
    case Set(k, _) => Plain(if FullFor(m, k) then Reply(ERR_FULL, "ERR") else Reply(DB_ERR_OK, "OK"))
    case Delete(k) => Plain(if k in m then Reply(DB_ERR_OK, "OK") else Reply(DB_ERR_KEY_NOTEXIST, "ERR"))
    case Get(k) => Query(Fetch(m, k, now), c)
    case GetExpiry(k) => Query(Fetch(m, k, now), c)
    case Exists(k) => Query(Fetch(m, k, now), c)
    case Expire(k, _) => Query(Fetch(m, k, now), c)
    case Save => Plain(Reply(DB_ERR_OK, "OK"))
    case Say(ret, answer) => Outcome(ret, answer)
  }

  /** The answer to a lookup, given what it finds; it does not depend on the clock again. */
  function Query(cell: Option<Cell>, c: Command): Outcome {
    match (c, cell)
    case (Get(_), Some(x)) => Plain(Reply(DB_ERR_OK, x.value))
    case (GetExpiry(_), Some(x)) =>
      Plain(Reply(DB_ERR_OK, if x.expiry == -1 then "NULL" else Decimal.PrintZu(x.expiry)))
    case (Exists(_), Some(x)) => Plain(Reply(DB_ERR_OK, "TRUE"))
    case (Expire(_, _), Some(x)) => Plain(Reply(DB_ERR_OK, "OK"))
    case (Exists(_), None) => Plain(Reply(DB_ERR_KEY_NOTEXIST, "FALSE"))
    case (Expire(_, _), None) => Outcome(DB_ERR_OK, Some(Reply(DB_ERR_KEY_NOTEXIST, "FALSE")))
    case _ => Plain(Reply(DB_ERR_KEY_NOTEXIST, "ERR"))
  }

  // ---------- one step ----------

  /** Table and map agree on `k`. */
  ghost predicate Agree(t: Buckets, m: Store, k: string)
    requires |t| == MOD
  {
    match Find(t, k)
    case Some(r) => k in m && m[k] == CellOf(r)
    case None => k !in m
  }

  ghost predicate Represents(t: Buckets, m: Store)
    requires |t| == MOD
  {
    forall k :: Agree(t, m, k)
  }

  /** A table stands for one map. */
  lemma RepresentsOnlyItsMap(t: Buckets, m: Store)
    requires |t| == MOD
    ensures Represents(t, m) <==> m == ToMap(t)
  {
    forall k ensures Agree(t, ToMap(t), k) {
      ToMapFinds(t, k);
    }
    if Represents(t, m) {
      forall k ensures k in m <==> k in ToMap(t) {
        assert Agree(t, m, k) && Agree(t, ToMap(t), k);
      }
      forall k <- m ensures m[k] == ToMap(t)[k] {
        assert Agree(t, m, k) && Agree(t, ToMap(t), k);
      }
    }
  }

  lemma RepresentedSize(t: Buckets, m: Store)
    requires Wf(t) && Represents(t, m)
    ensures |m| == Total(t)
  {
    RepresentsOnlyItsMap(t, m);
    TotalIsMapSize(t);
  }

  lemma InsertRefines(t: Buckets, m: Store, k: string, v: string, now: Long)
    requires Wf(t) && Represents(t, m)
    ensures Represents(Insert(t, k, v), Change(m, Set(k, v), now))
    ensures Full(t, k) == FullFor(m, k)
  {
    RepresentedSize(t, m);
    assert Agree(t, m, k);
    var t', m' := Insert(t, k, v), Change(m, Set(k, v), now);
    FindInsert(t, k, v);
    forall k' ensures Agree(t', m', k') {
      assert Agree(t, m, k');
    }
  }

  lemma DeleteRefines(t: Buckets, m: Store, k: string)
    requires Wf(t) && Represents(t, m)
    ensures Represents(Table.Delete(t, k), m - {k})
  {
    FindDelete(t, k);
    var t', m' := Table.Delete(t, k), m - {k};
    forall k' ensures Agree(t', m', k') {
      assert Agree(t, m, k');
    }
  }

  lemma CollectRefines(t: Buckets, m: Store, k: string, now: Long)
    requires Wf(t) && Represents(t, m)
    ensures Represents(Collect(t, k, now), Purge(m, k, now))
  {
    DeleteRefines(t, m, k);
    assert Agree(t, m, k);
    if Find(t, k).None? {
      assert m - {k} == m;
    }
  }

  lemma SetExpiryRefines(t: Buckets, m: Store, k: string, x: Long)
    requires Wf(t) && Represents(t, m) && k in m
    ensures Represents(SetExpiry(t, k, x, true), m[k := m[k].(expiry := x, inHeap := true)])
  {
    FindSetExpiry(t, k, x, true);
    var t', m' := SetExpiry(t, k, x, true), m[k := m[k].(expiry := x, inHeap := true)];
    forall k' ensures Agree(t', m', k') {
      assert Agree(t, m, k') && Agree(t, m, k);
    }
  }

  lemma ExpireRefines(t: Buckets, m: Store, k: string, seconds: Long, now: Long)
    requires Wf(t) && Represents(t, m)
    ensures Represents(UpdateExpiry(t, k, seconds, now), Change(m, Expire(k, seconds), now))
  {
    assert Agree(t, m, k);
    if Lookup(t, k, now).Some? {
      SetExpiryRefines(t, m, k, Wrap(now + seconds));
    } else {
      CollectRefines(t, m, k, now);
    }
  }

  lemma UpdateExpiryKeepsWf(t: Buckets, k: string, seconds: Long, now: Long)
    requires Wf(t)
    ensures Wf(UpdateExpiry(t, k, seconds, now))
  {
    if Lookup(t, k, now).Some? {
      FindSetExpiry(t, k, Wrap(now + seconds), true);
    } else {
      FindCollect(t, k, now);
    }
  }

  lemma ApplyKeepsWf(t: Buckets, c: Command, now: Long)
    requires Wf(t)
    ensures Wf(Apply(t, c, now))
  {
    match c
    case Set(k, v) => FindInsert(t, k, v);
    case Get(k) => FindCollect(t, k, now);
    case GetExpiry(k) => FindCollect(t, k, now);
    case Exists(k) => FindCollect(t, k, now);
    case Delete(k) => FindDelete(t, k);
    case Expire(k, seconds) => UpdateExpiryKeepsWf(t, k, seconds, now);
    case Save =>
    case Say(_, _) =>
  }

  lemma StepAddsOne(t: Buckets, c: Command, now: Long)
    requires Wf(t)
    ensures Total(Apply(t, c, now)) <= Total(t) + 1
  {
    hide Find, Insert, SetExpiry, WfChain, Total;
    match c
    case Set(k, v) => FindInsert(t, k, v);
    case Get(k) => FindDelete(t, k);
    case GetExpiry(k) => FindDelete(t, k);
    case Exists(k) => FindDelete(t, k);
    case Delete(k) => FindDelete(t, k);
    case Expire(k, seconds) => FindDelete(t, k); FindSetExpiry(t, k, Wrap(now + seconds), true);
    case Save =>
    case Say(_, _) =>
  }

  /** One command on the chained table is the same command on the map, with the same answer. */
  lemma StepRefines(t: Buckets, m: Store, c: Command, now: Long)
    requires Wf(t) && Represents(t, m)
    ensures Represents(Apply(t, c, now), Change(m, c, now))
    ensures Respond(t, c, now) == Result(m, c, now)
  {
    match c
    case Set(k, v) => InsertRefines(t, m, k, v, now);
    case Get(k) => CollectRefines(t, m, k, now); assert Agree(t, m, k);
    case GetExpiry(k) => CollectRefines(t, m, k, now); assert Agree(t, m, k);
    case Exists(k) => CollectRefines(t, m, k, now); assert Agree(t, m, k);
    case Delete(k) => DeleteRefines(t, m, k); assert Agree(t, m, k);
    case Expire(k, seconds) => ExpireRefines(t, m, k, seconds, now); assert Agree(t, m, k);
    case Save =>
    case Say(_, _) =>
  }

  // ---------- runs ----------

  /** A command and the clock reading it runs at. */
  datatype Event = Event(command: Command, now: Long)

  function Run(t: Buckets, events: seq<Event>): (t': Buckets)
    requires |t| == MOD
    ensures |t'| == MOD
    decreases |events|
  {
    if events == [] then t else Run(Apply(t, events[0].command, events[0].now), events[1..])
  }

  /** The answer to each event of a run, in turn. */
  function Answers(t: Buckets, events: seq<Event>): (answers: seq<Ctx>)
    requires |t| == MOD
    ensures |answers| == |events|
    decreases |events|
  {
    if events == [] then []
    else
      var e := events[0];
      [Write(Ctx("", DB_ERR_OK), Respond(t, e.command, e.now))] + Answers(Apply(t, e.command, e.now), events[1..])
  }

  function RunMap(m: Store, events: seq<Event>): Store
    decreases |events|
  {
    if events == [] then m else RunMap(Change(m, events[0].command, events[0].now), events[1..])
  }

  lemma {:induction false} RunKeepsWf(t: Buckets, events: seq<Event>)
    requires Wf(t)
    ensures Wf(Run(t, events))
    decreases |events|
  {
    if events != [] {
      ApplyKeepsWf(t, events[0].command, events[0].now);
      RunKeepsWf(Apply(t, events[0].command, events[0].now), events[1..]);
    }
  }

  lemma {:induction false} RunRepresents(t: Buckets, m: Store, events: seq<Event>)
    requires Wf(t) && Represents(t, m)
    ensures Represents(Run(t, events), RunMap(m, events))
    decreases |events|
  {
    if events != [] {
      var e := events[0];
      StepRefines(t, m, e.command, e.now);
      ApplyKeepsWf(t, e.command, e.now);
      RunRepresents(Apply(t, e.command, e.now), Change(m, e.command, e.now), events[1..]);
    }
  }

  /** After any run the table stands for the map the same run gives, answers as it does, and counts its entries. */
  lemma RunRefines(t: Buckets, events: seq<Event>, c: Command, now: Long)
    requires Wf(t)
    ensures ToMap(Run(t, events)) == RunMap(ToMap(t), events)
    ensures Respond(Run(t, events), c, now) == Result(RunMap(ToMap(t), events), c, now)
    ensures Total(Run(t, events)) == |RunMap(ToMap(t), events)|
  {
    var m := ToMap(t);
    RepresentsOnlyItsMap(t, m);
    RunRepresents(t, m, events);
    RunKeepsWf(t, events);
    RepresentsOnlyItsMap(Run(t, events), RunMap(m, events));
    StepRefines(Run(t, events), RunMap(m, events), c, now);
    RepresentedSize(Run(t, events), RunMap(m, events));
  }

  // ---------- lazy deletion ----------

  /** The entries a reader can see at time `now`. */
  function View(m: Store, now: Long): Store {
    map k | k in m && !Expired(m[k].expiry, now) :: m[k]
  }

  predicate IsRead(c: Command) {
    c.Get? || c.GetExpiry? || c.Exists?
  }

  /** The map a table stands for after one command, and the answer. */
  lemma StepOnMap(t: Buckets, c: Command, now: Long)
    requires Wf(t)
    ensures ToMap(Apply(t, c, now)) == Change(ToMap(t), c, now)
    ensures Respond(t, c, now) == Result(ToMap(t), c, now)
  {
    RepresentsOnlyItsMap(t, ToMap(t));
    StepRefines(t, ToMap(t), c, now);
    RepresentsOnlyItsMap(Apply(t, c, now), Change(ToMap(t), c, now));
  }

  lemma ReadsOnMap(m: Store, c: Command, now: Long, later: Long)
    requires IsRead(c) && now <= later
    ensures Result(m, c, now) == Query(if c.key in View(m, now) then Some(View(m, now)[c.key]) else None, c)
    ensures View(Change(m, c, now), later) == View(m, later)
  {
    hide Query;
  }

  /** A read answers from what is visible, and its deletions change nothing visible now or later. */
  lemma ReadsAreInvisible(t: Buckets, c: Command, now: Long, later: Long)
    requires Wf(t) && IsRead(c) && now <= later
    ensures var seen := View(ToMap(t), now);
            Respond(t, c, now) == Query(if c.key in seen then Some(seen[c.key]) else None, c)
    ensures View(ToMap(Apply(t, c, now)), later) == View(ToMap(t), later)
  {
    hide ToMap, Apply, Respond, Change, Result, Query, View;
    StepOnMap(t, c, now);
    ReadsOnMap(ToMap(t), c, now, later);
  }

  lemma ExpireOnMap(m: Store, k: string, seconds: Long, now: Long, later: Long)
    requires now <= later
    ensures var seen, m' := View(m, now), Change(m, Expire(k, seconds), now);
      && (Result(m, Expire(k, seconds), now).answer == Some(Reply(DB_ERR_OK, "OK")) <==> k in seen)
      && (k !in seen ==> View(m', later) == View(m, later))
      && (k in seen ==> m' == m[k := seen[k].(expiry := Wrap(now + seconds), inHeap := true)])
  {
  }

  /** EXPIRE succeeds exactly on visible keys; it changes that key's expiry, and no other entry now or later. */
  lemma ExpireActsOnVisible(t: Buckets, k: string, seconds: Long, now: Long, later: Long)
    requires Wf(t) && now <= later
    ensures var seen := View(ToMap(t), now); var t' := Apply(t, Expire(k, seconds), now);
      && (Respond(t, Expire(k, seconds), now).answer == Some(Reply(DB_ERR_OK, "OK")) <==> k in seen)
      && (k !in seen ==> View(ToMap(t'), later) == View(ToMap(t), later))
      && (k in seen ==> ToMap(t') == ToMap(t)[k := seen[k].(expiry := Wrap(now + seconds), inHeap := true)])
  {
    hide ToMap, Apply, Respond, Change, Result, View;
    StepOnMap(t, Expire(k, seconds), now);
    ExpireOnMap(ToMap(t), k, seconds, now, later);
  }

  /** SET keeps the expiry an existing entry has, so the new value is visible exactly until that expiry passes. */
  lemma SetVisibleUnlessExpired(t: Buckets, k: string, v: string, now: Long, later: Long)
    requires Wf(t) && !Full(t, k)
    ensures var seen := View(ToMap(Apply(t, Set(k, v), now)), later);
      (k in seen && seen[k].value == v) <==> (Find(t, k).Some? ==> !Expired(Find(t, k).value.expiry, later))
  {
    StepOnMap(t, Set(k, v), now);
    ToMapFinds(t, k);
    RepresentsOnlyItsMap(t, ToMap(t));
    InsertRefines(t, ToMap(t), k, v, now);
  }

  // ---------- reads over runs ----------

  /** The clock never goes back between `start` and `stop`. */
  predicate Clocked(events: seq<Event>, start: Long, stop: Long) {
    if events == [] then start <= stop
    else start <= events[0].now && Clocked(events[1..], events[0].now, stop)
  }

  lemma {:induction false} ClockedSpan(events: seq<Event>, start: Long, stop: Long)
    requires Clocked(events, start, stop)
    ensures start <= stop
  {
    if events != [] {
      ClockedSpan(events[1..], events[0].now, stop);
    }
  }

  predicate Writes(c: Command, k: string) {
    (c.Set? || c.Delete? || c.Expire?) && c.key == k
  }

  /** `k` still has this value and expiry, or has been collected because that expiry has passed. */
  predicate Holds(m: Store, k: string, v: string, x: Long, now: Long) {
    if k in m then m[k].value == v && m[k].expiry == x else Expired(x, now)
  }

  lemma {:induction false} HoldsOverRun(m: Store, k: string, v: string, x: Long,
                                        events: seq<Event>, now: Long, later: Long)
    requires Holds(m, k, v, x, now) && Clocked(events, now, later)
    requires forall e <- events :: !Writes(e.command, k)
    ensures Holds(RunMap(m, events), k, v, x, later)
    decreases |events|
  {
    ClockedSpan(events, now, later);
    if events != [] {
      var e := events[0];
      var m' := Change(m, e.command, e.now);
      assert !Writes(e.command, k);
      assert Holds(m', k, v, x, e.now);
      HoldsOverRun(m', k, v, x, events[1..], e.now, later);
    }
  }

  /** The expiry that a SET of `k` leaves on it. */
  function ExpiryAfterSet(t: Buckets, k: string): Long
    requires |t| == MOD
  {
    match Find(t, k)
    case Some(r) => r.expiry
    case None => -1
  }

  /** After SET k v, and before the next write to k, GET k returns v exactly until the expiry k had. */
  lemma SetThenGet(t: Buckets, k: string, v: string, now: Long, events: seq<Event>, later: Long)
    requires Wf(t) && !Full(t, k) && Clocked(events, now, later)
    requires forall e <- events :: !Writes(e.command, k)
    ensures var x := ExpiryAfterSet(t, k);
            Respond(Run(Apply(t, Set(k, v), now), events), Get(k), later)
            == Plain(if Expired(x, later) then Reply(DB_ERR_KEY_NOTEXIST, "ERR") else Reply(DB_ERR_OK, v))
  {
    var x := ExpiryAfterSet(t, k);
    var e := Event(Set(k, v), now);
    var m := ToMap(t);
    ToMapFinds(t, k);
    RepresentsOnlyItsMap(t, m);
    InsertRefines(t, m, k, v, now);
    HoldsOverRun(Change(m, Set(k, v), now), k, v, x, events, now, later);
    assert ([e] + events)[1..] == events;
    RunRefines(t, [e] + events, Get(k), later);
  }

  /** SET on a key whose entry has expired but not been collected stores a value that no read will see. */
  lemma SetCanBeLost(t: Buckets, k: string, v: string, now: Long, events: seq<Event>, later: Long)
    requires Wf(t) && Find(t, k).Some? && Expired(Find(t, k).value.expiry, now) && Clocked(events, now, later)
    requires forall e <- events :: !Writes(e.command, k)
    ensures Respond(t, Set(k, v), now) == Plain(Reply(DB_ERR_OK, "OK"))
    ensures Respond(Run(Apply(t, Set(k, v), now), events), Get(k), later) == Plain(Reply(DB_ERR_KEY_NOTEXIST, "ERR"))
  {
    hide Find, Apply, Run;
    SetThenGet(t, k, v, now, events, later);
    ClockedSpan(events, now, later);
  }

  /** Two commands leave such an entry, and a third loses its value. */
  lemma SomeSetIsLost()
    ensures var t := Apply(Apply(Empty(), Set("k", "old"), 100), Expire("k", 5), 100);
            Respond(Apply(t, Set("k", "new"), 105), Get("k"), 105) == Plain(Reply(DB_ERR_KEY_NOTEXIST, "ERR"))
  {
  }

  lemma {:induction false} MissingOverRun(m: Store, k: string, events: seq<Event>, now: Long, later: Long)
    requires Fetch(m, k, now).None? && Clocked(events, now, later)
    requires forall e <- events :: !(e.command.Set? && e.command.key == k)
    ensures Fetch(RunMap(m, events), k, later).None?
    decreases |events|
  {
    ClockedSpan(events, now, later);
    if events != [] {
      var e := events[0];
      var m' := Change(m, e.command, e.now);
      assert !(e.command.Set? && e.command.key == k);
      assert Fetch(m', k, e.now).None?;
      MissingOverRun(m', k, events[1..], e.now, later);
    }
  }

  /** Once a read reports `k` missing, every later read does, until the next SET of `k`. */
  lemma MissingStaysMissing(t: Buckets, first: Command, now: Long, events: seq<Event>, second: Command, later: Long)
    requires Wf(t) && IsRead(first) && IsRead(second) && first.key == second.key
    requires Respond(t, first, now).ret == DB_ERR_KEY_NOTEXIST
    requires Clocked(events, now, later)
    requires forall e <- events :: !(e.command.Set? && e.command.key == first.key)
    ensures Respond(Run(Apply(t, first, now), events), second, later).ret == DB_ERR_KEY_NOTEXIST
  {
    var m := ToMap(t);
    RepresentsOnlyItsMap(t, m);
    StepRefines(t, m, first, now);
    MissingOverRun(Change(m, first, now), first.key, events, now, later);
    assert ([Event(first, now)] + events)[1..] == events;
    RunRefines(t, [Event(first, now)] + events, second, later);
  }
}
