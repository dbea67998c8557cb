/** Whole conversations, as the texts that are sent and the texts that come back. */
module Conversation {
  import opened Common
  import opened Table
  import opened Replies
  import opened Tokens
  import opened Commands
  import opened Protocol
  import opened Reference
  import opened Invariants
  import opened Hash
  import opened Dbsave
  import opened Db
  import Decimal

  // ---------- texts as words ----------

  lemma OneWordText(a: string)
    requires IsWord(a)
    ensures Arguments(a) == [a]
  {
    OneWord("", a, "");
    assert "" + (a + "") == a;
  }

  lemma TwoWordText(a: string, b: string)
    requires IsWord(a) && IsWord(b)
    ensures Arguments(a + " " + b) == [a, b]
  {
    TwoWords("", a, " ", b, "");
    assert "" + (a + (" " + (b + ""))) == a + " " + b;
  }

  lemma ThreeWordText(a: string, b: string, c: string)
    requires IsWord(a) && IsWord(b) && IsWord(c)
    ensures Arguments(a + " " + b + " " + c) == [a, b, c]
  {
    ThreeWords("", a, " ", b, " ", c, "");
    assert "" + (a + (" " + (b + (" " + (c + ""))))) == a + " " + b + " " + c;
  }

  lemma SpellsItself(w: string)
    ensures Spells(w, w)
  {
  }

  lemma NumberIsWord(n: nat)
    ensures IsWord(Decimal.Dec(n))
  {
    Decimal.DecShape(n);
  }

  // ---------- one text, its effect and its answer ----------

  /** Tables of two moments, and what is sent in between and comes back. */
  predicate Says(before: Buckets, text: string, now: Long, after: Buckets, resp: string, status: int)
    requires |before| == MOD
  {
    && Arguments(text) != []
    && after == Apply(before, Parse(Arguments(text)), now)
    && AnswerTo(before, Arguments(text), now) == Ctx(resp, status)
  }

  lemma SaySet(t: Buckets, k: string, v: string, now: Long) returns (t': Buckets)
    requires Wf(t) && IsWord(k) && IsWord(v) && Total(t) < 9_223_372_036_854_775_806
    ensures Says(t, "SET " + k + " " + v, now, t', "OK", 0)
    ensures Wf(t')
    ensures Find(t', k) == Some(if Find(t, k).Some? then Find(t, k).value.(value := v) else Rec(k, v, -1, false))
  {
    hide Parse, Find, Insert, WfChain, Total, AnswerTo, Spells;
    var args := ["SET", k, v];
    ThreeWordText("SET", k, v);
    assert "SET" + " " == "SET ";
    SpellsItself("SET");
    SetIs(args, k, v);
    SetAnswers(t, args, now);
    FindInsert(t, k, v);
    t' := Apply(t, Set(k, v), now);
  }

  // Live keys.

  lemma SayGet(t: Buckets, k: string, now: Long)
    requires Wf(t) && IsWord(k) && Live(t, k, now)
    ensures Says(t, "GET " + k, now, t, Find(t, k).value.value, 0)
  {
    hide Parse, Find, WfChain, AnswerTo, Spells;
    TwoWordText("GET", k);
    assert "GET" + " " == "GET ";
    SpellsItself("GET");
    GetIs(["GET", k], k);
    GetAnswers(t, ["GET", k], now);
  }

  lemma SayExists(t: Buckets, k: string, now: Long)
    requires Wf(t) && IsWord(k) && Live(t, k, now)
    ensures Says(t, "EXISTS " + k, now, t, "TRUE", 0)
  {
    hide Parse, Find, WfChain, AnswerTo, Spells;
    TwoWordText("EXISTS", k);
    assert "EXISTS" + " " == "EXISTS ";
    SpellsItself("EXISTS");
    ExistsIs(["EXISTS", k], k);
    ExistsAnswers(t, ["EXISTS", k], now);
  }

  lemma SayGetExpiry(t: Buckets, k: string, now: Long)
    requires Wf(t) && IsWord(k) && Live(t, k, now) && Find(t, k).value.expiry >= -1
    ensures var x := Find(t, k).value.expiry;
            Says(t, "GET " + k + " ex", now, t, if x == -1 then "NULL" else Decimal.Dec(x), 0)
  {
    hide Parse, Find, WfChain, AnswerTo, Spells, Decimal.Dec;
    var args := ["GET", k, "ex"];
    ThreeWordText("GET", k, "ex");
    assert "GET" + " " == "GET " && " " + "ex" == " ex";
    assert "GET " + k + " " + "ex" == "GET " + k + " ex";
    SpellsItself("GET");
    SpellsItself("ex");
    GetExpiryIs(args, k);
    GetExpiryAnswers(t, args, now);
  }

  lemma SayExpire(t: Buckets, k: string, n: nat, now: Long) returns (t': Buckets)
    requires Wf(t) && IsWord(k) && Live(t, k, now) && 0 <= now && now + n <= 9_223_372_036_854_775_807
    ensures Says(t, "EXPIRE " + k + " " + Decimal.Dec(n), now, t', "OK", 0)
    ensures Wf(t') && Find(t', k) == Some(Find(t, k).value.(expiry := now + n, inHeap := true))
  {
    hide Parse, Find, WfChain, AnswerTo, Spells, Apply, Decimal.Dec;
    var args := ["EXPIRE", k, Decimal.Dec(n)];
    NumberIsWord(n);
    ThreeWordText("EXPIRE", k, Decimal.Dec(n));
    assert "EXPIRE" + " " == "EXPIRE ";
    SpellsItself("EXPIRE");
    ExpireAnswers(t, args, now);
    ExpireStamps(t, args, n, now);
    t' := Apply(t, Parse(args), now);
    ApplyKeepsWf(t, Parse(args), now);
  }

  lemma SaySave(t: Buckets, now: Long)
    requires Wf(t)
    ensures Says(t, "SAVE", now, t, "OK", 0)
  {
    hide Parse, AnswerTo, Spells;
    OneWordText("SAVE");
    SpellsItself("SAVE");
    SaveIs(["SAVE"]);
    SaveAnswers(t, ["SAVE"], now);
  }

  /** DELETE of a stored key. */
  lemma SayDelete(t: Buckets, k: string, now: Long) returns (t': Buckets)
    requires Wf(t) && IsWord(k) && Find(t, k).Some?
    ensures Says(t, "DELETE " + k, now, t', "OK", 0)
    ensures Wf(t') && Find(t', k).None?
  {
    hide Parse, Find, WfChain, AnswerTo, Spells;
    TwoWordText("DELETE", k);
    assert "DELETE" + " " == "DELETE ";
    SpellsItself("DELETE");
    DeleteIs(["DELETE", k], k);
    DeleteAnswers(t, ["DELETE", k], now);
    FindDelete(t, k);
    t' := Apply(t, Command.Delete(k), now);
  }

  // Keys that are not stored.

  lemma SayGetMissing(t: Buckets, k: string, now: Long)
    requires Wf(t) && IsWord(k) && Find(t, k).None?
    ensures Says(t, "GET " + k, now, t, "ERR", 4)
  {
    hide Parse, Find, WfChain, AnswerTo, Spells;
    TwoWordText("GET", k);
    assert "GET" + " " == "GET ";
    SpellsItself("GET");
    GetIs(["GET", k], k);
    GetAnswers(t, ["GET", k], now);
  }

  lemma SayExistsMissing(t: Buckets, k: string, now: Long)
    requires Wf(t) && IsWord(k) && Find(t, k).None?
    ensures Says(t, "EXISTS " + k, now, t, "FALSE", 4)
  {
    hide Parse, Find, WfChain, AnswerTo, Spells;
    TwoWordText("EXISTS", k);
    assert "EXISTS" + " " == "EXISTS ";
    SpellsItself("EXISTS");
    ExistsIs(["EXISTS", k], k);
    ExistsAnswers(t, ["EXISTS", k], now);
  }

  lemma SayDeleteMissing(t: Buckets, k: string, now: Long)
    requires Wf(t) && IsWord(k) && Find(t, k).None?
    ensures Says(t, "DELETE " + k, now, t, "ERR", 4)
  {
    hide Parse, Find, WfChain, AnswerTo, Spells;
    TwoWordText("DELETE", k);
    assert "DELETE" + " " == "DELETE ";
    SpellsItself("DELETE");
    DeleteIs(["DELETE", k], k);
    DeleteAnswers(t, ["DELETE", k], now);
    DeleteMissing(t, k);
  }

  // ---------- conversations ----------

  /** The first request of a run is answered from the table, the others from what it leaves. */
  lemma AnswersCons(t: Buckets, r: Request, rest: seq<Request>, after: Buckets, resp: string, status: int)
    requires |t| == MOD && |after| == MOD && AllServable([r] + rest) && r.text != ""
    requires Says(t, r.text, r.now, after, resp, status)
    ensures AllServable(rest)
    ensures Answers(t, EventsOf([r] + rest)) == [Ctx(resp, status)] + Answers(after, EventsOf(rest))
  {
    hide Parse, Arguments, Apply, Respond, Write, Servable;
    var all := [r] + rest;
    assert all[0] == r && Servable(all[0]);
    assert forall i | 0 <= i < |rest| :: rest[i] == all[i + 1];
    assert EventsOf(all)[1..] == EventsOf(rest);
    assert EventsOf(all)[0] == Event(Parse(Arguments(r.text)), r.now);
  }

  lemma NoAnswers(t: Buckets)
    requires |t| == MOD
    ensures AllServable([]) && Answers(t, EventsOf([])) == []
  {
  }

  /** A request short enough for the server's buffer. */
  predicate FitsBuffer(text: string) {
    |text| < MAX_CMD_LEN
  }

  lemma SaidIsServable(t: Buckets, r: Request, after: Buckets, resp: string, status: int)
    requires |t| == MOD && Says(t, r.text, r.now, after, resp, status) && FitsBuffer(r.text)
    ensures Servable(r) && r.text != ""
  {
  }

  /** One request more in front of a conversation. */
  lemma SayFirst(t: Buckets, r: Request, rest: seq<Request>, after: Buckets, resp: string, status: int)
    requires |t| == MOD && |after| == MOD && AllServable(rest) && FitsBuffer(r.text)
    requires Says(t, r.text, r.now, after, resp, status)
    ensures AllServable([r] + rest)
    ensures Answers(t, EventsOf([r] + rest)) == [Ctx(resp, status)] + Answers(after, EventsOf(rest))
  {
    hide Says, Servable, EventsOf, Answers, FitsBuffer;
    SaidIsServable(t, r, after, resp, status);
    assert forall i | 0 <= i < |rest| :: ([r] + rest)[i + 1] == rest[i];
    AnswersCons(t, r, rest, after, resp, status);
  }

  /** SET k v and later GET k: OK and v, for a key that is new or does not expire before. */
  lemma SetThenGetTexts(t: Buckets, k: string, v: string, now: Long, later: Long)
    requires Wf(t) && IsWord(k) && IsWord(v) && |k| + |v| < 500 && Total(t) < 9_223_372_036_854_775_806
    requires Find(t, k).Some? ==> Find(t, k).value.expiry == -1 || Find(t, k).value.expiry > later
    ensures var requests := [Request("SET " + k + " " + v, now), Request("GET " + k, later)];
            AllServable(requests) && Answers(t, EventsOf(requests)) == [Ctx("OK", 0), Ctx(v, 0)]
  {
    hide Find, WfChain, Total, Says, EventsOf, Answers, Servable;
    var first, second := Request("SET " + k + " " + v, now), Request("GET " + k, later);
    var t' := SaySet(t, k, v, now);
    SayGet(t', k, later);
    NoAnswers(t');
    SayFirst(t', second, [], t', v, 0);
    assert [second] + [] == [second];
    SayFirst(t, first, [second], t', "OK", 0);
    assert [first] + [second] == [first, second];
  }

  /** Everything one can do with a new key, at one reading of the clock. */
  lemma LifeOfAKey(t: Buckets, k: string, v: string, n: nat, now: Long)
    requires Wf(t) && IsWord(k) && IsWord(v) && |k| + |v| < 480 && Total(t) < 9_223_372_036_854_775_806
    requires Find(t, k).None? && 0 <= now && 0 < n && now + n <= 9_223_372_036_854_775_807
    ensures var requests :=
        [Request("SET " + k + " " + v, now), Request("EXISTS " + k, now), Request("GET " + k + " ex", now)]
      + ([Request("EXPIRE " + k + " " + Decimal.Dec(n), now), Request("GET " + k + " ex", now), Request("SAVE", now)]
      + [Request("DELETE " + k, now), Request("GET " + k, now),
         Request("EXISTS " + k, now), Request("DELETE " + k, now)]);
      AllServable(requests) && Answers(t, EventsOf(requests))
      == [Ctx("OK", 0), Ctx("TRUE", 0), Ctx("NULL", 0)]
       + ([Ctx("OK", 0), Ctx(Decimal.Dec(now + n), 0), Ctx("OK", 0)]
       + [Ctx("OK", 0), Ctx("ERR", 4), Ctx("FALSE", 4), Ctx("ERR", 4)])
  {
    hide Find, WfChain, Total, Says, EventsOf, Answers, Servable, Decimal.Dec, AllServable;
    var t1 := SaySet(t, k, v, now);
    var t2 := SayExpire(t1, k, n, now);
    var last := [Request("DELETE " + k, now), Request("GET " + k, now),
                 Request("EXISTS " + k, now), Request("DELETE " + k, now)];
    var middle := [Request("EXPIRE " + k + " " + Decimal.Dec(n), now),
                   Request("GET " + k + " ex", now), Request("SAVE", now)];
    Departure(t2, k, now);
    Appointment(t1, k, n, now, t2, last);
    Arrival(t, k, v, now, t1, middle + last);
  }

  lemma Departure(t: Buckets, k: string, now: Long)
    requires Wf(t) && IsWord(k) && Find(t, k).Some? && |k| < 480
    ensures var requests :=
      [Request("DELETE " + k, now), Request("GET " + k, now), Request("EXISTS " + k, now), Request("DELETE " + k, now)];
      AllServable(requests) && Answers(t, EventsOf(requests))
      == [Ctx("OK", 0), Ctx("ERR", 4), Ctx("FALSE", 4), Ctx("ERR", 4)]
  {
    hide Find, WfChain, Says, EventsOf, Answers, Servable, AllServable;
    var a, b, c := Request("DELETE " + k, now), Request("GET " + k, now), Request("EXISTS " + k, now);
    var t' := SayDelete(t, k, now);
    SayGetMissing(t', k, now);
    SayExistsMissing(t', k, now);
    SayDeleteMissing(t', k, now);
    NoAnswers(t');
    SayFirst(t', a, [], t', "ERR", 4);
    assert [a] + [] == [a];
    SayFirst(t', c, [a], t', "FALSE", 4);
    SayFirst(t', b, [c] + [a], t', "ERR", 4);
    SayFirst(t, a, [b] + ([c] + [a]), t', "OK", 0);
    assert [a] + ([b] + ([c] + [a])) == [a, b, c, a];
  }

  /** EXPIRE, GET ex and SAVE before whatever follows. */
  lemma Appointment(t: Buckets, k: string, n: nat, now: Long, t': Buckets, rest: seq<Request>)
    requires Wf(t) && Wf(t') && IsWord(k) && |k| < 480 && Live(t', k, now) && Find(t', k).value.expiry == now + n >= 0
    requires Says(t, "EXPIRE " + k + " " + Decimal.Dec(n), now, t', "OK", 0) && AllServable(rest)
    requires n <= 9_223_372_036_854_775_807
    ensures var requests := [Request("EXPIRE " + k + " " + Decimal.Dec(n), now),
                             Request("GET " + k + " ex", now), Request("SAVE", now)] + rest;
      AllServable(requests) && Answers(t, EventsOf(requests))
      == [Ctx("OK", 0), Ctx(Decimal.Dec(now + n), 0), Ctx("OK", 0)] + Answers(t', EventsOf(rest))
  {
    hide Find, WfChain, Says, EventsOf, Answers, Servable, AllServable, Decimal.Dec;
    var a := Request("EXPIRE " + k + " " + Decimal.Dec(n), now);
    var b, c := Request("GET " + k + " ex", now), Request("SAVE", now);
    NumberIsShort(n);
    SayGetExpiry(t', k, now);
    SaySave(t', now);
    SayFirst(t', c, rest, t', "OK", 0);
    SayFirst(t', b, [c] + rest, t', Decimal.Dec(now + n), 0);
    SayFirst(t, a, [b] + ([c] + rest), t', "OK", 0);
    assert [a] + ([b] + ([c] + rest)) == [a, b, c] + rest;
  }

  lemma NumberIsShort(n: nat)
    requires n <= 9_223_372_036_854_775_807
    ensures |Decimal.Dec(n)| <= 19
  {
    Decimal.SomePowers();
    Decimal.DecLength(n, 19);
  }

  /** SET, EXISTS and GET ex before whatever follows. */
  lemma Arrival(t: Buckets, k: string, v: string, now: Long, t': Buckets, rest: seq<Request>)
    requires Wf(t) && Wf(t') && IsWord(k) && |k| + |v| < 480 && Find(t', k) == Some(Rec(k, v, -1, false))
    requires Says(t, "SET " + k + " " + v, now, t', "OK", 0) && AllServable(rest)
    ensures var requests := [Request("SET " + k + " " + v, now),
                             Request("EXISTS " + k, now), Request("GET " + k + " ex", now)] + rest;
      AllServable(requests) && Answers(t, EventsOf(requests))
      == [Ctx("OK", 0), Ctx("TRUE", 0), Ctx("NULL", 0)] + Answers(t', EventsOf(rest))
  {
    hide Find, WfChain, Says, EventsOf, Answers, Servable, AllServable;
    var a, b, c := Request("SET " + k + " " + v, now), Request("EXISTS " + k, now), Request("GET " + k + " ex", now);
    SayExists(t', k, now);
    SayGetExpiry(t', k, now);
    SayFirst(t', c, rest, t', "NULL", 0);
    SayFirst(t', b, [c] + rest, t', "TRUE", 0);
    SayFirst(t, a, [b] + ([c] + rest), t', "OK", 0);
    assert [a] + ([b] + ([c] + rest)) == [a, b, c] + rest;
  }

  /** The same two texts through the server's own handling of a request. */
  method SetThenGet(db: Database, file: Savefile, k: string, v: string, now: Long, later: Long)
    returns (first: Ctx, second: Ctx)
    requires db.Valid() && file !in db.Repr() && IsWord(k) && IsWord(v)
    requires Total(db.table) < 9_223_372_036_854_775_806
    requires var r := Find(db.table, k); r.Some? ==> r.value.expiry == -1 || r.value.expiry > later
    modifies db.Repr(), file`text
    ensures first.resp == "OK" && first.status == 0
    ensures second.resp == v && second.status == 0
    ensures file.text == old(file.text)
  {
    hide Database.TableValid, Database.HeapValid, Wf, Apply, Parse, AnswerTo, Arguments, Strands, Find, Total, Bare;
    TextsOf(db.table, k, v, now, later);
    first := HandleRequest(db, file, "SET " + k + " " + v, now);
    second := HandleRequest(db, file, "GET " + k, later);
  }

  /** What the two texts come to. */
  lemma TextsOf(t: Buckets, k: string, v: string, now: Long, later: Long)
    requires Wf(t) && IsWord(k) && IsWord(v) && Total(t) < 9_223_372_036_854_775_806
    requires Find(t, k).Some? ==> Find(t, k).value.expiry == -1 || Find(t, k).value.expiry > later
    ensures var put, ask := Arguments("SET " + k + " " + v), Arguments("GET " + k);
      && put != [] && ask != [] && !Bare(put, "SAVE") && !Bare(ask, "SAVE")
      && !Strands(t, Parse(put)) && AnswerTo(t, put, now) == Ctx("OK", 0)
      && var t' := Apply(t, Parse(put), now); !Strands(t', Parse(ask)) && AnswerTo(t', ask, later) == Ctx(v, 0)
  {
    hide WfChain, Total, Find, AnswerTo, Spells, Parse, Arguments;
    var t' := SaySet(t, k, v, now);
    SayGet(t', k, later);
    ThreeWordText("SET", k, v);
    TwoWordText("GET", k);
    assert "SET" + " " == "SET " && "GET" + " " == "GET ";
    SpellsItself("SET");
    SpellsItself("GET");
    SetIs(["SET", k, v], k, v);
    GetIs(["GET", k], k);
  }
}
