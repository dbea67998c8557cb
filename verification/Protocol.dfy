/** What requests ask for and what they are answered, word by word. */
module Protocol {
  import opened Common
  import opened Table
  import opened Replies
  import opened Tokens
  import opened Commands
  import Decimal

  // ---------- from words to commands ----------

  lemma SetIs(args: seq<string>, k: string, v: string)
    requires args != []
    ensures Parse(args) == Set(k, v) <==> |args| == 3 && Spells(args[0], "SET") && args[1] == k && args[2] == v
  {
    hide HandlerFrom, Spells;
    HandlerOfName(args[0]);
  }

  /** GET with a key. */
  lemma GetIs(args: seq<string>, k: string)
    requires args != []
    ensures Parse(args) == Get(k) <==> |args| == 2 && Spells(args[0], "GET") && args[1] == k
  {
    hide HandlerFrom, Spells;
    HandlerOfName(args[0]);
  }

  /** GET with a key and `ex`, in any case. */
  lemma GetExpiryIs(args: seq<string>, k: string)
    requires args != []
    ensures Parse(args) == GetExpiry(k) <==>
            |args| == 3 && Spells(args[0], "GET") && args[1] == k && Spells(args[2], "ex")
  {
    hide HandlerFrom, Spells, EqualIgnoringCase;
    HandlerOfName(args[0]);
    if |args| == 3 {
      EqualButForCase(args[2], "ex");
      SpellsBothWays(args[2], "ex");
    }
  }

  lemma SpellsBothWays(a: string, b: string)
    ensures Spells(a, b) <==> Spells(b, a)
  {
  }

  lemma ExistsIs(args: seq<string>, k: string)
    requires args != []
    ensures Parse(args) == Exists(k) <==> |args| == 2 && Spells(args[0], "EXISTS") && args[1] == k
  {
    hide HandlerFrom, Spells;
    HandlerOfName(args[0]);
  }

  lemma DeleteIs(args: seq<string>, k: string)
    requires args != []
    ensures Parse(args) == Command.Delete(k) <==> |args| == 2 && Spells(args[0], "DELETE") && args[1] == k
  {
    hide HandlerFrom, Spells;
    HandlerOfName(args[0]);
  }

  lemma ExpireIs(args: seq<string>, k: string, seconds: Long)
    requires args != []
    ensures Parse(args) == Expire(k, seconds) <==>
            |args| == 3 && Spells(args[0], "EXPIRE") && args[1] == k && Decimal.Atol(args[2]) == seconds
  {
    hide HandlerFrom, Spells, Decimal.Atol;
    HandlerOfName(args[0]);
  }

  lemma SaveIs(args: seq<string>)
    requires args != []
    ensures Parse(args) == Save <==> |args| == 1 && Spells(args[0], "SAVE")
  {
    hide HandlerFrom, Spells;
    HandlerOfName(args[0]);
  }

  /** Nothing else touches the store. */
  lemma SaysIs(args: seq<string>)
    requires args != []
    ensures Parse(args).Say? <==>
      !(|args| == 3 && Spells(args[0], "SET")) &&
      !(|args| == 2 && Spells(args[0], "GET")) &&
      !(|args| == 3 && Spells(args[0], "GET") && Spells(args[2], "ex")) &&
      !(|args| == 2 && Spells(args[0], "EXISTS")) &&
      !(|args| == 2 && Spells(args[0], "DELETE")) &&
      !(|args| == 3 && Spells(args[0], "EXPIRE")) &&
      !(|args| == 1 && Spells(args[0], "SAVE"))
  {
    hide HandlerFrom, Spells, EqualIgnoringCase, Decimal.Atol;
    HandlerOfName(args[0]);
    if |args| == 3 {
      EqualButForCase(args[2], "ex");
      SpellsBothWays(args[2], "ex");
    }
  }

  // ---------- from words to answers ----------

  /** What a request's context holds when its handler is done; it starts empty, with status 0. */
  function AnswerTo(t: Buckets, args: seq<string>, now: Long): Ctx
    requires |t| == MOD && args != []
  {
    Write(Ctx("", DB_ERR_OK), Respond(t, Parse(args), now))
  }

  /** The key is stored and its time has not come. */
  predicate Live(t: Buckets, k: string, now: Long)
    requires |t| == MOD
  {
    Find(t, k).Some? && (Find(t, k).value.expiry == -1 || Find(t, k).value.expiry > now)
  }

  lemma SetAnswers(t: Buckets, args: seq<string>, now: Long)
    requires Wf(t) && |args| == 3 && Spells(args[0], "SET")
    ensures var a := AnswerTo(t, args, now);
      && (Find(t, args[1]).Some? || Total(t) < 9_223_372_036_854_775_806 ==> a.resp == "OK" && a.status == 0)
      && (Find(t, args[1]).None? && Total(t) >= 9_223_372_036_854_775_806 ==> a.resp == "ERR" && a.status == 100)
  {
    hide Parse, Spells, Find, Total;
    SetIs(args, args[1], args[2]);
  }

  /** GET answers the value exactly of a live key. */
  lemma GetAnswers(t: Buckets, args: seq<string>, now: Long)
    requires |t| == MOD && |args| == 2 && Spells(args[0], "GET")
    ensures var a := AnswerTo(t, args, now);
      && (Live(t, args[1], now) ==> a.resp == Find(t, args[1]).value.value && a.status == 0)
      && (!Live(t, args[1], now) ==> a.resp == "ERR" && a.status == 4)
  {
    hide Parse, Spells, Find;
    GetIs(args, args[1]);
  }

  /** GET ex answers a live key's expiry in digits, or NULL if it has none. */
  lemma GetExpiryAnswers(t: Buckets, args: seq<string>, now: Long)
    requires |t| == MOD && |args| == 3 && Spells(args[0], "GET") && Spells(args[2], "ex")
    ensures var a := AnswerTo(t, args, now);
      && (Live(t, args[1], now) ==> a.status == 0)
      && (Live(t, args[1], now) && Find(t, args[1]).value.expiry == -1 ==> a.resp == "NULL")
      && (Live(t, args[1], now) && Find(t, args[1]).value.expiry >= 0 ==>
          a.resp == Decimal.Dec(Find(t, args[1]).value.expiry))
      && (!Live(t, args[1], now) ==> a.resp == "ERR" && a.status == 4)
  {
    hide Parse, Spells, Find, Decimal.Dec;
    GetExpiryIs(args, args[1]);
    if Find(t, args[1]).Some? {
      PrintsSomething(Find(t, args[1]).value.expiry);
    }
  }

  lemma PrintsSomething(x: Long)
    ensures Decimal.PrintZu(x) != ""
  {
    Decimal.DecShape(Decimal.Unsigned(x));
  }

  lemma ExistsAnswers(t: Buckets, args: seq<string>, now: Long)
    requires |t| == MOD && |args| == 2 && Spells(args[0], "EXISTS")
    ensures var a := AnswerTo(t, args, now);
      && (Live(t, args[1], now) ==> a.resp == "TRUE" && a.status == 0)
      && (!Live(t, args[1], now) ==> a.resp == "FALSE" && a.status == 4)
  {
    hide Parse, Spells, Find;
    ExistsIs(args, args[1]);
  }

  /** DELETE asks only whether the key is stored, expired or not. */
  lemma DeleteAnswers(t: Buckets, args: seq<string>, now: Long)
    requires |t| == MOD && |args| == 2 && Spells(args[0], "DELETE")
    ensures var a := AnswerTo(t, args, now);
      && (Find(t, args[1]).Some? ==> a.resp == "OK" && a.status == 0)
      && (Find(t, args[1]).None? ==> a.resp == "ERR" && a.status == 4)
  {
    hide Parse, Spells, Find;
    DeleteIs(args, args[1]);
  }

  lemma ExpireAnswers(t: Buckets, args: seq<string>, now: Long)
    requires |t| == MOD && |args| == 3 && Spells(args[0], "EXPIRE")
    ensures var a := AnswerTo(t, args, now);
      && (Live(t, args[1], now) ==> a.resp == "OK" && a.status == 0)
      && (!Live(t, args[1], now) ==> a.resp == "FALSE" && a.status == 4)
  {
    hide Parse, Spells, Find, Decimal.Atol;
    ExpireIs(args, args[1], Decimal.Atol(args[2]));
  }

  lemma SaveAnswers(t: Buckets, args: seq<string>, now: Long)
    requires |t| == MOD && |args| == 1 && Spells(args[0], "SAVE")
    ensures AnswerTo(t, args, now).resp == "OK" && AnswerTo(t, args, now).status == 0
  {
    hide Parse, Spells;
    SaveIs(args);
  }

  /** HELP, EXIT and SHUTDOWN with nothing behind them. */
  lemma TalkAnswers(t: Buckets, args: seq<string>, now: Long)
    requires |t| == MOD && |args| == 1
    ensures var a := AnswerTo(t, args, now);
      && (Spells(args[0], "HELP") ==> a.resp == HELP_PAGE && a.status == 40)
      && (Spells(args[0], "EXIT") ==> a.resp == "Bye..." && a.status == 41)
      && (Spells(args[0], "SHUTDOWN") ==> a.resp == "Goodbye..." && a.status == 42)
  {
    hide HandlerFrom, Spells;
    HandlerOfName(args[0]);
  }

  /** Wrong numbers of words. */
  lemma RefusedAnswers(t: Buckets, args: seq<string>, now: Long)
    requires |t| == MOD && args != []
    ensures var a, n := AnswerTo(t, args, now), |args|;
      && (Spells(args[0], "SET") && n != 3 ==> a.resp == "ERR" && a.status == 2)
      && (Spells(args[0], "DELETE") && n != 2 ==> a.resp == "ERR" && a.status == 2)
      && (Spells(args[0], "EXPIRE") && n != 3 ==> a.resp == "ERR" && a.status == 2)
      && (Spells(args[0], "EXIT") && n != 1 ==> a.resp == "ERR" && a.status == 2)
      && (Spells(args[0], "SHUTDOWN") && n != 1 ==> a.resp == "ERR" && a.status == 2)
      && (Spells(args[0], "SAVE") && n != 1 ==> a.resp == "OK" && a.status == 2)
      && (Spells(args[0], "EXISTS") && n != 2 ==>
          a.resp == "Incorrect number of args passed, run HELP EXISTS" && a.status == 2)
      && (Spells(args[0], "GET") && n == 1 ==>
          a.resp == "Incorrect number of args passed, run HELP GET" && a.status == 2)
  {
    hide HandlerFrom, Spells, Decimal.Atol;
    HandlerOfName(args[0]);
  }

  /** Requests that are answered with nothing at all, and those that name no command. */
  lemma OtherAnswers(t: Buckets, args: seq<string>, now: Long)
    requires |t| == MOD && args != []
    ensures var a, n := AnswerTo(t, args, now), |args|;
      && (Spells(args[0], "GET") && (n > 3 || (n == 3 && !Spells(args[2], "ex"))) ==> a.resp == "" && a.status == 0)
      && (Spells(args[0], "HELP") && n > 1 ==> a.resp == "" && a.status == 0)
      && (!Spells(args[0], "HELP") && !Spells(args[0], "SET") && !Spells(args[0], "EXISTS")
          && !Spells(args[0], "GET") && !Spells(args[0], "DELETE") && !Spells(args[0], "EXPIRE")
          && !Spells(args[0], "SAVE") && !Spells(args[0], "EXIT") && !Spells(args[0], "SHUTDOWN")
          ==> a.resp == "ERR" && a.status == 6)
  {
    hide HandlerFrom, Spells, EqualIgnoringCase, Decimal.Atol;
    HandlerOfName(args[0]);
    if |args| == 3 {
      EqualButForCase(args[2], "ex");
      SpellsBothWays(args[2], "ex");
    }
  }

  /** What `processCommand` returns: the status of the answer, but for HELP and for EXPIRE of a key that is not live. */
  lemma ReturnCodes(t: Buckets, args: seq<string>, now: Long)
    requires |t| == MOD && args != [] && forall w <- args :: w != ""
    ensures var r, n := Respond(t, Parse(args), now).ret, |args|;
      if Spells(args[0], "HELP") then r == (if n == 2 then 2 else 0)
      else if Spells(args[0], "EXPIRE") && n == 3 && !Live(t, args[1], now) then r == 0
      else r == AnswerTo(t, args, now).status
  {
    hide HandlerFrom, Spells, EqualIgnoringCase, Find, Decimal.Atol, Decimal.PrintZu;
    HandlerOfName(args[0]);
    if |args| == 2 {
      assert args[1] in args;
    }
  }

  /** One word, which spells `word`. */
  predicate Bare(args: seq<string>, word: string) {
    |args| == 1 && Spells(args[0], word)
  }

  /** Only a bare SHUTDOWN is answered with the status that ends the server. */
  lemma OnlyShutdownStops(t: Buckets, args: seq<string>, now: Long)
    requires |t| == MOD && args != []
    ensures AnswerTo(t, args, now).status == 42 <==> Bare(args, "SHUTDOWN")
  {
    hide HandlerFrom, Spells, EqualIgnoringCase, Find, Decimal.Atol, Decimal.PrintZu;
    HandlerOfName(args[0]);
  }

  /** EXPIRE with a spelled number: the seconds are that number with its sign. */
  lemma ExpireSpelled(args: seq<string>, n: nat)
    requires |args| == 3 && Spells(args[0], "EXPIRE") && n <= 9_223_372_036_854_775_807
    ensures args[2] == Decimal.Dec(n) || args[2] == "+" + Decimal.Dec(n) ==> Parse(args) == Expire(args[1], n)
    ensures args[2] == "-" + Decimal.Dec(n) ==> Parse(args) == Expire(args[1], -(n as int))
  {
    hide Parse, Spells, Decimal.Atol, Decimal.Dec;
    var d := Decimal.Dec(n);
    Decimal.AtolOfSpelled("", 0, n, "");
    assert Decimal.Zeros(0) + (d + "") == d && "" + d == d && "" + ("-" + d) == "-" + d && "" + ("+" + d) == "+" + d;
    ExpireIs(args, args[1], Decimal.Atol(args[2]));
  }

  /** So the key's new expiry is the clock plus that many seconds, or minus. */
  lemma ExpireStamps(t: Buckets, args: seq<string>, n: nat, now: Long)
    requires Wf(t) && |args| == 3 && Spells(args[0], "EXPIRE") && Live(t, args[1], now)
    requires 0 <= now && now + n <= 9_223_372_036_854_775_807
    ensures args[2] == Decimal.Dec(n) || args[2] == "+" + Decimal.Dec(n) ==>
      Find(Apply(t, Parse(args), now), args[1]) == Some(Find(t, args[1]).value.(expiry := now + n, inHeap := true))
    ensures args[2] == "-" + Decimal.Dec(n) ==>
      Find(Apply(t, Parse(args), now), args[1]) == Some(Find(t, args[1]).value.(expiry := now - n, inHeap := true))
  {
    hide Parse, Spells, Find, SetExpiry, WfChain, Decimal.Dec;
    ExpireSpelled(args, n);
    FindSetExpiry(t, args[1], now + n, true);
    FindSetExpiry(t, args[1], now - n, true);
  }
}
