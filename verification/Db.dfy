/** The command handlers, the dispatcher, and whole runs of requests against the store. */
module Db {
  import opened Common
  import opened Table
  import opened Replies
  import opened Tokens
  import opened Hash
  import opened Commands
  import opened Protocol
  import opened Reference
  import opened Invariants
  import opened SaveFormat
  import opened RoundTrip
  import opened Restart
  import opened Dbsave
  import Decimal

  // ---------- handlers ----------

  method SetKeyValHelper(db: Database, args: seq<string>, now: Long, ctx: CmdCtx?) returns (res: int)
    requires db.Valid() && args != []
    modifies db.Repr(), ctx
    ensures db.Valid() && fresh(db.Repr() - old(db.Repr()))
    ensures db.table == Apply(old(db.table), Interpret(1, args), now)
    ensures res == Respond(old(db.table), Interpret(1, args), now).ret
    ensures ctx != null ==> ctx.State() == Write(old(ctx.State()), Respond(old(db.table), Interpret(1, args), now))
  {
    hide Database.Valid, Wf;
    if |args| != 3 {
      res := DB_ERR_INVALID_ARGS;
      db.Answer(ctx, res, "ERR");
    } else {
      res := db.HashInsert(args[1], args[2], ctx);
    }
  }

  method ExistsHelper(db: Database, args: seq<string>, now: Long, ctx: CmdCtx?) returns (res: int)
    requires db.Valid() && args != []
    modifies db.Repr(), ctx
    ensures db.Valid() && fresh(db.Repr() - old(db.Repr()))
    ensures db.table == Apply(old(db.table), Interpret(2, args), now)
    ensures res == Respond(old(db.table), Interpret(2, args), now).ret
    ensures ctx != null ==> ctx.State() == Write(old(ctx.State()), Respond(old(db.table), Interpret(2, args), now))
  {
    hide Database.Valid, Wf;
    if |args| != 2 {
      res := DB_ERR_INVALID_ARGS;
      db.Answer(ctx, res, BAD_EXISTS);
    } else {
      res := db.HashExists(args[1], now, ctx);
    }
  }

  method GetValFromKeyHelper(db: Database, args: seq<string>, now: Long, ctx: CmdCtx?) returns (res: int)
    requires db.Valid() && args != []
    modifies db.Repr(), ctx
    ensures db.Valid() && fresh(db.Repr() - old(db.Repr()))
    ensures db.table == Apply(old(db.table), Interpret(3, args), now)
    ensures res == Respond(old(db.table), Interpret(3, args), now).ret
    ensures ctx != null ==> ctx.State() == Write(old(ctx.State()), Respond(old(db.table), Interpret(3, args), now))
  {
    hide Database.Valid, Wf;
    res := DB_ERR_OK;
    if |args| < 2 {
      res := DB_ERR_INVALID_ARGS;
      db.Answer(ctx, res, BAD_GET);
    } else if |args| == 2 {
      res := db.HashGet(args[1], now, ctx);
    } else if |args| == 3 && EqualIgnoringCase(args[2], "ex") {
      res := db.HashGetExpiry(args[1], now, ctx);
    }
  }

  /** Deleting is the one command that can leave a freed entry in the heap. */
  method DeleteKeyValueHelper(db: Database, args: seq<string>, now: Long, ctx: CmdCtx?) returns (res: int)
    requires db.Valid() && args != []
    modifies db.Repr(), ctx
    ensures db.TableValid() && db.HeapValid() && fresh(db.Repr() - old(db.Repr()))
    ensures db.NoDangling() <==> !Strands(old(db.table), Interpret(4, args))
    ensures db.table == Apply(old(db.table), Interpret(4, args), now)
    ensures res == Respond(old(db.table), Interpret(4, args), now).ret
    ensures ctx != null ==> ctx.State() == Write(old(ctx.State()), Respond(old(db.table), Interpret(4, args), now))
  {
    hide Database.TableValid, Database.HeapValid;
    if |args| != 2 {
      res := DB_ERR_INVALID_ARGS;
      db.Answer(ctx, res, "ERR");
    } else {
      res := db.HashDelete(args[1], ctx);
    }
  }

  /** EXPIRE reads the clock up to three times: to check that the key exists, to check it again, and to stamp it. */
  function ExpireTicks(t: Buckets, k: string, seconds: Long, first: Long, now: Long, stamp: Long): (t': Buckets)
    requires |t| == MOD
    ensures |t'| == MOD
  {
    if Lookup(t, k, first).Some? then UpdateExpiryAt(t, k, seconds, now, stamp) else Collect(t, k, first)
  }

  function ExpireOutcome(t: Buckets, k: string, first: Long, now: Long): Outcome
    requires |t| == MOD
  {
    if Lookup(t, k, first).Some? then Plain(UpdateExpiryReply(t, k, now))
    else Outcome(DB_ERR_OK, Some(ExistsReply(t, k, first)))
  }

  /** At one reading of the clock the two checks and the stamp are the one command. */
  lemma TicksAgree(t: Buckets, k: string, seconds: Long, now: Long)
    requires |t| == MOD
    ensures ExpireTicks(t, k, seconds, now, now, now) == Apply(t, Expire(k, seconds), now)
    ensures ExpireOutcome(t, k, now, now) == Respond(t, Expire(k, seconds), now)
  {
  }

  /** A key alive at both checks gets the third reading's time, plus the seconds. */
  lemma TicksStamp(t: Buckets, k: string, seconds: Long, first: Long, now: Long, stamp: Long)
    requires Wf(t) && Live(t, k, first) && Live(t, k, now)
    ensures Find(ExpireTicks(t, k, seconds, first, now, stamp), k)
         == Some(Find(t, k).value.(expiry := Wrap(stamp + seconds), inHeap := true))
  {
    hide Find, SetExpiry, WfChain;
    FindSetExpiry(t, k, Wrap(stamp + seconds), true);
  }

  /** The answer is NULL exactly when the key expires between the two checks. */
  lemma ExpiresBetweenChecks(t: Buckets, k: string, first: Long, now: Long)
    requires |t| == MOD
    ensures ExpireOutcome(t, k, first, now) == Plain(Reply(DB_ERR_KEY_NOTEXIST, "NULL")) <==>
            Find(t, k).Some? && first < Find(t, k).value.expiry <= now && Find(t, k).value.expiry != -1
  {
  }

  method ExpireKeyVal(db: Database, args: seq<string>, first: Long, now: Long, stamp: Long, ctx: CmdCtx?)
    returns (res: int)
    requires db.Valid() && args != []
    modifies db.Repr(), ctx
    ensures db.Valid() && fresh(db.Repr() - old(db.Repr()))
    ensures |args| == 3 ==> db.table == ExpireTicks(old(db.table), args[1], Decimal.Atol(args[2]), first, now, stamp)
    ensures |args| == 3 ==> res == ExpireOutcome(old(db.table), args[1], first, now).ret
    ensures |args| == 3 && ctx != null ==>
      ctx.State() == Write(old(ctx.State()), ExpireOutcome(old(db.table), args[1], first, now))
    ensures |args| != 3 ==> db.table == old(db.table) && res == DB_ERR_INVALID_ARGS
    ensures |args| != 3 && ctx != null ==> ctx.State() == Fill(old(ctx.State()), Reply(res, "ERR"))
  {
    hide Database.Valid, Wf;
    res := DB_ERR_OK;
    if |args| != 3 {
      res := DB_ERR_INVALID_ARGS;
      db.Answer(ctx, res, "ERR");
    } else {
      var expiry := Decimal.Atol(args[2]);
      var found := db.HashExists(args[1], first, ctx);
      if found == DB_ERR_OK {
        res := db.HashUpdateExpiry(args[1], expiry, now, stamp, ctx);
      }
    }
  }

  /** EXPIRE within one second: every reading of the clock is the same. */
  method ExpireAt(db: Database, args: seq<string>, now: Long, ctx: CmdCtx?) returns (res: int)
    requires db.Valid() && args != []
    modifies db.Repr(), ctx
    ensures db.Valid() && fresh(db.Repr() - old(db.Repr()))
    ensures db.table == Apply(old(db.table), Interpret(5, args), now)
    ensures res == Respond(old(db.table), Interpret(5, args), now).ret
    ensures ctx != null ==> ctx.State() == Write(old(ctx.State()), Respond(old(db.table), Interpret(5, args), now))
  {
    hide Database.Valid, Wf, ExpireTicks, ExpireOutcome;
    if |args| == 3 {
      TicksAgree(db.table, args[1], Decimal.Atol(args[2]), now);
    }
    res := ExpireKeyVal(db, args, now, now, now, ctx);
  }

  method SaveHelper(db: Database, file: Savefile, args: seq<string>, ctx: CmdCtx?) returns (res: int)
    requires db.Valid() && args != [] && (|args| == 1 ==> BuffersHold(db.table))
    modifies file`text, ctx
    ensures res == Respond(db.table, Interpret(6, args), 0).ret
    ensures ctx != null ==> ctx.State() == Write(old(ctx.State()), Respond(db.table, Interpret(6, args), 0))
    ensures file.text == if Interpret(6, args).Save? then SaveText(db.table) else old(file.text)
  {
    if |args| != 1 {
      res := DB_ERR_INVALID_ARGS;
    } else {
      res := file.FetchDatasetFromMemory(db);
    }
    if ctx != null {
      FillCmdCtx(ctx, res, "OK");
    }
  }

  /** HELP, EXIT and SHUTDOWN. */
  method TalkHelper(h: nat, args: seq<string>, ctx: CmdCtx?) returns (res: int)
    requires args != [] && h in {0, 7, 8}
    modifies ctx
    ensures Interpret(h, args).Say? && res == Interpret(h, args).ret
    ensures ctx != null ==> ctx.State() == Write(old(ctx.State()), Outcome(res, Interpret(h, args).answer))
  {
    if h == 0 {
      res := DB_ERR_OK;
      if |args| == 1 {
        FillCmdCtx(ctx, DB_ERR_HELP, HELP_PAGE);
      } else if |args| == 2 && args[1] != "" {
        res := DB_ERR_INVALID_ARGS;
      }
    } else if |args| != 1 {
      res := DB_ERR_INVALID_ARGS;
      FillCmdCtx(ctx, res, "ERR");
    } else if h == 7 {
      res := DB_ERR_EXIT;
      FillCmdCtx(ctx, res, "Bye...");
    } else {
      res := DB_ERR_SHUTDOWN;
      FillCmdCtx(ctx, res, "Goodbye...");
    }
  }

  // ---------- dispatch ----------

  /** The scan of the command table for the name `name`. */
  method FindHandler(name: string) returns (h: nat)
    ensures h == HandlerFrom(name, 0)
  {
    h := 0;
    while h < N_COMMANDS && !EqualIgnoringCase(COMMAND_NAMES[h], name)
      invariant h <= N_COMMANDS && HandlerFrom(name, h) == HandlerFrom(name, 0)
    {
      h := h + 1;
    }
  }

  /** Runs the handler found for a request. */
  method RunHandler(db: Database, file: Savefile, h: nat, args: seq<string>, now: Long, ctx: CmdCtx?) returns (res: int)
    requires db.Valid() && args != [] && h <= N_COMMANDS
    requires file !in db.Repr() && ctx !in db.Repr()
    requires Interpret(h, args).Save? ==> BuffersHold(db.table)
    modifies db.Repr(), file`text, ctx
    ensures db.TableValid() && db.HeapValid() && fresh(db.Repr() - old(db.Repr()))
    ensures db.NoDangling() <==> !Strands(old(db.table), Interpret(h, args))
    ensures db.table == Apply(old(db.table), Interpret(h, args), now)
    ensures res == Respond(old(db.table), Interpret(h, args), now).ret
    ensures ctx != null ==> ctx.State() == Write(old(ctx.State()), Respond(old(db.table), Interpret(h, args), now))
    ensures file.text == if Interpret(h, args).Save? then SaveText(db.table) else old(file.text)
  {
    hide Database.TableValid, Database.HeapValid;
    if h == 1 {
      res := SetKeyValHelper(db, args, now, ctx);
    } else if h == 2 {
      res := ExistsHelper(db, args, now, ctx);
    } else if h == 3 {
      res := GetValFromKeyHelper(db, args, now, ctx);
    } else if h == 4 {
      res := DeleteKeyValueHelper(db, args, now, ctx);
    } else if h == 5 {
      res := ExpireAt(db, args, now, ctx);
    } else if h == 6 {
      res := SaveHelper(db, file, args, ctx);
    } else if h < N_COMMANDS {
      res := TalkHelper(h, args, ctx);
    } else {
      res := DB_ERR_CMD_NOTEXIST;
      db.Answer(ctx, res, "ERR");
    }
  }

  /** One request: tokenize, find the handler, run it. */
  method ProcessCommand(db: Database, file: Savefile, req: string, now: Long, ctx: CmdCtx?) returns (res: int)
    requires db.Valid() && Arguments(req) != []
    requires file !in db.Repr() && ctx !in db.Repr()
    requires Bare(Arguments(req), "SAVE") ==> BuffersHold(db.table)
    modifies db.Repr(), file`text, ctx
    ensures db.TableValid() && db.HeapValid() && fresh(db.Repr() - old(db.Repr()))
    ensures db.NoDangling() <==> !Strands(old(db.table), Parse(Arguments(req)))
    ensures db.table == Apply(old(db.table), Parse(Arguments(req)), now)
    ensures res == Respond(old(db.table), Parse(Arguments(req)), now).ret
    ensures ctx != null ==> ctx.State() == Write(old(ctx.State()), Respond(old(db.table), Parse(Arguments(req)), now))
    ensures file.text == if Bare(Arguments(req), "SAVE") then SaveText(db.table) else old(file.text)
  {
    hide Database.TableValid, Database.HeapValid, Apply, Respond, Write, Strands, BuffersHold, Interpret, Bare, Wf;
    SaveIs(Arguments(req));
    BareMeansOne(Arguments(req), "SAVE");
    var args := TokenizeRequest(req);
    var h := FindHandler(args[0]);
    res := RunHandler(db, file, h, args, now, ctx);
  }

  lemma BareMeansOne(args: seq<string>, word: string)
    requires args != []
    ensures Bare(args, word) <==> |args| == 1 && Spells(args[0], word)
  {
  }

  /** Fills a fresh array of `MAX_CMD_PARAMS` tokens. */
  method TokenizeRequest(req: string) returns (args: seq<string>)
    ensures args == Arguments(req)
  {
    var cmdArr := new string[MAX_CMD_PARAMS];
    var argc := Tokenize(req, cmdArr);
    args := cmdArr[..argc];
  }

  /** One request with a context of its own; the answer is what ends up in that context. */
  method HandleRequest(db: Database, file: Savefile, req: string, now: Long) returns (answer: Ctx)
    requires db.Valid() && Arguments(req) != [] && file !in db.Repr()
    requires Bare(Arguments(req), "SAVE") ==> BuffersHold(db.table)
    modifies db.Repr(), file`text
    ensures db.TableValid() && db.HeapValid() && fresh(db.Repr() - old(db.Repr()))
    ensures db.NoDangling() <==> !Strands(old(db.table), Parse(Arguments(req)))
    ensures db.table == Apply(old(db.table), Parse(Arguments(req)), now)
    ensures answer == AnswerTo(old(db.table), Arguments(req), now)
    ensures file.text == if Bare(Arguments(req), "SAVE") then SaveText(db.table) else old(file.text)
  {
    hide Database.TableValid, Database.HeapValid, Apply, Respond, Write, Strands, BuffersHold, Parse, Bare, Wf;
    var ctx := new CmdCtx();
    var _ := ProcessCommand(db, file, req, now, ctx);
    answer := ctx.State();
  }

  // ---------- whole runs ----------

  /** A request and the clock reading it is served at. */
  datatype Request = Request(text: string, now: Long)

  /** Requests fit the input buffer, and hold at least one token unless they are empty. */
  predicate Servable(r: Request) {
    |r.text| < MAX_CMD_LEN && (r.text == "" || Arguments(r.text) != [])
  }

  /** The server skips an empty request: it says nothing and its status is OK. */
  function Asked(r: Request): (c: Command)
    requires Servable(r)
    ensures r.text == "" ==> c == Say(0, None)
    ensures r.text != "" ==> c == Parse(Arguments(r.text))
  {
    if r.text == "" then Say(DB_ERR_OK, None) else Parse(Arguments(r.text))
  }

  /** The request is a bare SAVE, or a bare SHUTDOWN. */
  predicate IsSave(r: Request) {
    Bare(Arguments(r.text), "SAVE")
  }

  predicate IsShutdown(r: Request) {
    Bare(Arguments(r.text), "SHUTDOWN")
  }

  predicate AllServable(requests: seq<Request>) {
    forall i | 0 <= i < |requests| :: Servable(requests[i])
  }

  function EventsOf(requests: seq<Request>): (events: seq<Event>)
    requires AllServable(requests)
    ensures |events| == |requests|
    ensures forall i | 0 <= i < |requests| :: events[i] == Event(Asked(requests[i]), requests[i].now)
  {
    seq(|requests|, i requires 0 <= i < |requests| => Event(Asked(requests[i]), requests[i].now))
  }

  /** Fields short enough for the room kept for a record. */
  predicate FitsRoom(k: string, v: string) {
    |k| + |v| + 23 <= KV_LEN
  }

  /** Short fields print into the buffers that SAVE allocates, as long as an `int` can count their bytes. */
  lemma ShortFieldsFit(t: Buckets)
    requires Wf(t) && AllFields(t, FitsRoom)
    ensures BuffersHold(t) <==> forall b | 0 <= b < MOD :: IndexHolds(t[b])
    ensures KV_LEN * Total(t) <= INT_MAX ==> BuffersHold(t)
  {
    hide BuffersHold, IndexHolds, Find;
    forall b | 0 <= b < MOD ensures forall r <- t[b] :: Fits(r) {
      forall r <- t[b] ensures Fits(r) {
        var j :| 0 <= j < |t[b]| && t[b][j] == r;
        StoredIsFound(t, b, j);
        assert FieldsAt(t, r.key, FitsRoom);
        RecordLength(r);
        if r.expiry != LONG_MAX {
          Decimal.PrintZuLength(r.expiry);
        }
      }
    }
    FittingRecordsAreHeld(t);
  }

  lemma RequestFieldsFit(t: Buckets)
    requires Wf(t) && AllFields(t, FromRequest)
    ensures AllFields(t, FitsRoom)
    ensures BuffersHold(t) <==> forall b | 0 <= b < MOD :: IndexHolds(t[b])
  {
    hide BuffersHold, IndexHolds, Find;
    forall k ensures FieldsAt(t, k, FitsRoom) {
      assert FieldsAt(t, k, FromRequest);
    }
    ShortFieldsFit(t);
  }

  // ---------- which runs are safe ----------

  /** The command frees nothing that the heap keeps, and writes past no buffer. */
  predicate Safe(t: Buckets, c: Command)
    requires |t| == MOD
  {
    !Strands(t, c) && (c.Save? ==> BuffersHold(t))
  }

  /** The answer ends the server's loop. */
  predicate Stops(t: Buckets, e: Event)
    requires |t| == MOD
  {
    Write(Ctx("", DB_ERR_OK), Respond(t, e.command, e.now)).status == DB_ERR_SHUTDOWN
  }

  /** Every command that the server gets to is safe. */
  predicate SafeRun(t: Buckets, events: seq<Event>)
    requires |t| == MOD
    decreases |events|
  {
    events == [] ||
    (Safe(t, events[0].command) &&
     (Stops(t, events[0]) || SafeRun(Apply(t, events[0].command, events[0].now), events[1..])))
  }

  /** A run that strands nothing, of short fields and few enough to count, is safe. */
  lemma {:induction false} ShortRunIsSafe(t: Buckets, events: seq<Event>)
    requires Wf(t) && AllFields(t, FitsRoom) && NeverStrands(t, events)
    requires forall e <- events :: e.command.Set? ==> FitsRoom(e.command.key, e.command.value)
    requires KV_LEN * (Total(t) + |events|) <= INT_MAX
    ensures SafeRun(t, events)
    decreases |events|
  {
    hide Apply, BuffersHold, Strands, Stops, AllFields, FitsRoom, Total;
    if events != [] {
      var e := events[0];
      assert e in events;
      ShortFieldsFit(t);
      StepKeepsFields(t, e.command, e.now, FitsRoom);
      StepAddsOne(t, e.command, e.now);
      ApplyKeepsWf(t, e.command, e.now);
      ShortRunIsSafe(Apply(t, e.command, e.now), events[1..]);
    }
  }

  /** What a SET among the requests stores comes from one of them. */
  lemma RequestsSetTokens(requests: seq<Request>)
    requires AllServable(requests)
    ensures forall e <- EventsOf(requests) :: e.command.Set? ==> FromRequest(e.command.key, e.command.value)
  {
    hide Parse, Arguments, FromRequest;
    forall e <- EventsOf(requests) | e.command.Set? ensures FromRequest(e.command.key, e.command.value) {
      var i :| 0 <= i < |requests| && EventsOf(requests)[i] == e;
      assert Servable(requests[i]);
      SetStoresTokens(requests[i].text);
    }
  }

  /** So requests are safe while no EXPIRE computes LONG_MAX and the entries stay below two million. */
  lemma RequestsAreSafe(t: Buckets, requests: seq<Request>)
    requires Wf(t) && AllServable(requests)
    requires AllFields(t, FitsRoom) && NothingStrandable(t) && NeverComputes(EventsOf(requests), LONG_MAX)
    requires KV_LEN * (Total(t) + |requests|) <= INT_MAX
    ensures SafeRun(t, EventsOf(requests))
  {
    hide Apply, AllFields, NothingStrandable, NeverComputes, NeverStrands, SafeRun, EventsOf, AllServable, Total;
    RequestsSetTokens(requests);
    RunStaysSafe(t, EventsOf(requests));
    ShortRunIsSafe(t, EventsOf(requests));
  }

  /** Over any number of requests the fields stay short, and deletes stay safe unless an EXPIRE computes LONG_MAX. */
  lemma KeptByRequests(t: Buckets, requests: seq<Request>, n: nat)
    requires Wf(t) && AllServable(requests) && n <= |requests|
    ensures AllFields(t, FromRequest) ==> AllFields(Run(t, EventsOf(requests)[..n]), FromRequest)
    ensures NothingStrandable(t) && NeverComputes(EventsOf(requests), LONG_MAX)
        ==> NothingStrandable(Run(t, EventsOf(requests)[..n]))
  {
    hide AllFields, NothingStrandable, NeverStrands, Run, EventsOf, AllServable, FromRequest;
    var events := EventsOf(requests);
    assert forall e <- events[..n] :: e in events;
    RequestsSetTokens(requests);
    if AllFields(t, FromRequest) {
      RunKeepsFields(t, events[..n], FromRequest);
    }
    if NothingStrandable(t) && NeverComputes(events, LONG_MAX) {
      RunStaysSafe(t, events[..n]);
    }
  }

  // ---------- the server's loop ----------

  /** Serves one request, or skips it if it is empty. */
  method ServeOne(db: Database, file: Savefile, r: Request) returns (answer: Ctx)
    requires db.Valid() && file !in db.Repr()
    requires Servable(r) && Safe(db.table, Asked(r))
    modifies db.Repr(), file`text
    ensures db.Valid() && fresh(db.Repr() - old(db.Repr()))
    ensures r.text == "" ==> db.table == old(db.table) && answer == Ctx("", 0)
    ensures r.text != "" ==> db.table == Apply(old(db.table), Parse(Arguments(r.text)), r.now)
    ensures r.text != "" ==> answer == AnswerTo(old(db.table), Arguments(r.text), r.now)
    ensures file.text == if IsSave(r) then SaveText(db.table) else old(file.text)
  {
    hide Database.TableValid, Database.HeapValid, Apply, AnswerTo, BuffersHold, Strands, Parse, Bare, Arguments, Wf;
    if r.text == "" {
      NothingIsNoSave();
      answer := Ctx("", DB_ERR_OK);
    } else {
      SaveIs(Arguments(r.text));
      BareMeansOne(Arguments(r.text), "SAVE");
      answer := HandleRequest(db, file, r.text, r.now);
    }
  }

  lemma NothingIsNoSave()
    ensures Arguments("") == [] && !Bare(Arguments(""), "SAVE") && !Bare(Arguments(""), "SHUTDOWN")
  {
  }

  /** One served request: the table before and after it, and the answer. */
  predicate Served(r: Request, before: Buckets, after: Buckets, answer: Ctx)
    requires Servable(r) && |before| == MOD
  {
    if r.text == "" then after == before && answer == Ctx("", 0)
    else after == Apply(before, Parse(Arguments(r.text)), r.now) && answer == AnswerTo(before, Arguments(r.text), r.now)
  }

  /** The file holds what the last served SAVE wrote, or what it held before if there was none. */
  predicate HoldsLastSave(requests: seq<Request>, served: nat, tables: seq<Buckets>, text: string, first: string)
    requires served <= |requests| && served < |tables|
  {
    && ((forall i | 0 <= i < served :: !IsSave(requests[i])) ==> text == first)
    && forall i | 0 <= i < served :: LastSave(requests, served, i) ==> text == SaveText(tables[i])
  }

  predicate LastSave(requests: seq<Request>, served: nat, i: nat)
    requires i < served <= |requests|
  {
    IsSave(requests[i]) && forall j | i < j < served :: !IsSave(requests[j])
  }

  lemma SaveKept(requests: seq<Request>, served: nat, tables: seq<Buckets>, text: string, first: string,
                 after: Buckets, text': string)
    requires served < |requests| && |tables| == served + 1 && HoldsLastSave(requests, served, tables, text, first)
    requires IsSave(requests[served]) ==> after == tables[served] && text' == SaveText(after)
    requires !IsSave(requests[served]) ==> text' == text
    ensures HoldsLastSave(requests, served + 1, tables + [after], text', first)
  {
    hide IsSave, SaveText;
    forall i | 0 <= i < served + 1 && LastSave(requests, served + 1, i)
      ensures text' == SaveText((tables + [after])[i])
    {
      if i < served {
        assert !IsSave(requests[served]);
        assert LastSave(requests, served, i);
      }
    }
  }

  /** The served request as an event of the run. */
  lemma ServedEvent(t: Buckets, r: Request, after: Buckets, answer: Ctx)
    requires |t| == MOD && Servable(r) && Served(r, t, after, answer)
    ensures after == Apply(t, Asked(r), r.now)
    ensures answer == Write(Ctx("", DB_ERR_OK), Respond(t, Asked(r), r.now))
    ensures answer.status == DB_ERR_SHUTDOWN <==> IsShutdown(r)
    ensures IsSave(r) ==> after == t
  {
    hide Parse, Bare, Arguments, Find;
    NothingIsNoSave();
    if r.text == "" {
      NothingAsked(t, r.now);
    } else {
      OnlyShutdownStops(t, Arguments(r.text), r.now);
      SaveIs(Arguments(r.text));
      BareMeansOne(Arguments(r.text), "SAVE");
    }
  }

  /**
   * The server's loop over requests, until a bare SHUTDOWN; every command it gets to must be safe.
   * `tables` lists the tables before each request served, and the last one.
   */
  method Serve(db: Database, file: Savefile, requests: seq<Request>)
    returns (served: nat, answers: seq<Ctx>, ghost tables: seq<Buckets>)
    requires db.Valid() && file !in db.Repr()
    requires AllServable(requests) && SafeRun(db.table, EventsOf(requests))
    modifies db.Repr(), file`text
    ensures db.Valid() && fresh(db.Repr() - old(db.Repr()))
    ensures served <= |requests| && |answers| == served
    ensures served < |requests| ==> served > 0 && IsShutdown(requests[served - 1])
    ensures forall i | 0 <= i < served :: IsShutdown(requests[i]) ==> i == served - 1
    ensures |tables| == served + 1 && tables[0] == old(db.table) && tables[served] == db.table
    ensures forall i | 0 <= i < served :: |tables[i]| == MOD && Servable(requests[i])
    ensures forall i | 0 <= i < served && requests[i].text == "" ::
      tables[i + 1] == tables[i] && answers[i] == Ctx("", 0)
    ensures forall i | 0 <= i < served && requests[i].text != "" ::
      && tables[i + 1] == Apply(tables[i], Parse(Arguments(requests[i].text)), requests[i].now)
      && answers[i] == AnswerTo(tables[i], Arguments(requests[i].text), requests[i].now)
    ensures (forall i | 0 <= i < served :: !IsSave(requests[i])) ==> file.text == old(file.text)
    ensures forall i | 0 <= i < served ::
      IsSave(requests[i]) && (forall j | i < j < served :: !IsSave(requests[j])) ==> file.text == SaveText(tables[i])
    ensures db.table == Run(old(db.table), EventsOf(requests)[..served])
    ensures answers == Answers(old(db.table), EventsOf(requests)[..served])
    ensures old(AllFields(db.table, FromRequest)) ==> AllFields(db.table, FromRequest)
    ensures old(NothingStrandable(db.table)) && NeverComputes(EventsOf(requests), LONG_MAX)
        ==> NothingStrandable(db.table)
  {
    hide Database.Valid, Run, Answers, Apply, AnswerTo, Respond, Write, BuffersHold, Strands, Parse, Arguments;
    hide NothingStrandable, AllFields, NeverComputes, Servable, EventsOf, Wf, SaveText, IsSave, IsShutdown;
    hide Progress;
    served, answers, tables := 0, [], [db.table];
    NoProgress(db.table, requests, file.text);
    while served < |requests|
      invariant db.Valid() && file !in db.Repr() && fresh(db.Repr() - old(db.Repr()))
      invariant served <= |requests| && |answers| == served
      invariant |tables| == served + 1 && tables[0] == old(db.table) && tables[served] == db.table
      invariant Progress(requests, served, tables, answers, file.text, old(file.text))
      invariant forall i | 0 <= i < served :: !IsShutdown(requests[i])
    {
      ghost var before, text := tables, file.text;
      NextIsSafe(requests, served, tables, answers, text, old(file.text));
      var answer := ServeOne(db, file, requests[served]);
      MoreProgress(requests, served, before, answers, text, old(file.text), db.table, answer, file.text);
      answers, tables := answers + [answer], tables + [db.table];
      served := served + 1;
      if answer.status == DB_ERR_SHUTDOWN {
        break;
      }
    }
    WhatServedMeans(requests, served, tables, answers, file.text, old(file.text));
  }

  /** What the loop knows after `served` requests: every step, the file, and the same run as events. */
  ghost predicate Progress(requests: seq<Request>, served: nat, tables: seq<Buckets>, answers: seq<Ctx>,
                           text: string, first: string)
    requires served <= |requests| && |tables| == served + 1 && |answers| == served && AllServable(requests)
  {
    var events := EventsOf(requests);
    && |tables[0]| == MOD && Wf(tables[0])
    && AllSteps(requests, served, tables, answers)
    && HoldsLastSave(requests, served, tables, text, first)
    && tables[served] == Run(tables[0], events[..served])
    && answers == Answers(tables[0], events[..served])
    && ((forall i | 0 <= i < served :: !IsShutdown(requests[i])) ==> SafeRun(tables[served], events[served..]))
  }

  lemma NoProgress(t: Buckets, requests: seq<Request>, text: string)
    requires Wf(t) && AllServable(requests) && SafeRun(t, EventsOf(requests))
    ensures Progress(requests, 0, [t], [], text, text)
  {
    var events := EventsOf(requests);
    assert events[..0] == [] && events[0..] == events;
  }

  /** The next request of a run that goes on is safe. */
  lemma NextIsSafe(requests: seq<Request>, served: nat, tables: seq<Buckets>, answers: seq<Ctx>,
                   text: string, first: string)
    requires served < |requests| && |tables| == served + 1 && |answers| == served && AllServable(requests)
    requires Progress(requests, served, tables, answers, text, first)
    requires forall i | 0 <= i < served :: !IsShutdown(requests[i])
    ensures |tables[served]| == MOD && Servable(requests[served]) && Safe(tables[served], Asked(requests[served]))
  {
    hide Safe, IsShutdown, Answers, AllSteps, HoldsLastSave, Servable;
    assert Servable(requests[served]);
    assert EventsOf(requests)[served..][0] == EventsOf(requests)[served];
  }

  lemma MoreProgress(requests: seq<Request>, served: nat, tables: seq<Buckets>, answers: seq<Ctx>,
                     text: string, first: string, after: Buckets, answer: Ctx, text': string)
    requires served < |requests| && |tables| == served + 1 && |answers| == served && AllServable(requests)
    requires Progress(requests, served, tables, answers, text, first)
    requires forall i | 0 <= i < served :: !IsShutdown(requests[i])
    requires |tables[served]| == MOD && Servable(requests[served])
    requires Served(requests[served], tables[served], after, answer)
    requires text' == if IsSave(requests[served]) then SaveText(after) else text
    ensures Progress(requests, served + 1, tables + [after], answers + [answer], text', first)
    ensures answer.status == DB_ERR_SHUTDOWN <==> IsShutdown(requests[served])
  {
    hide Safe, IsShutdown, IsSave, Answers, Run, AllSteps, HoldsLastSave, Servable, Served, SaveText;
    hide Apply, Respond, Write, Parse, Arguments, Wf;
    var events, r := EventsOf(requests), requests[served];
    ServeStep(tables[0], events, served);
    assert events[served..][0] == events[served] && events[served..][1..] == events[served + 1..];
    ServedEvent(tables[served], r, after, answer);
    SaveKept(requests, served, tables, text, first, after, text');
    OneStepMore(requests, served, tables, answers, after, answer);
    assert (tables + [after])[0] == tables[0] && (tables + [after])[served + 1] == after;
  }

  /** Every served request took its step. */
  ghost predicate AllSteps(requests: seq<Request>, served: nat, tables: seq<Buckets>, answers: seq<Ctx>)
    requires served <= |requests| && |tables| == served + 1 && |answers| == served && AllServable(requests)
  {
    forall i | 0 <= i < served :: StepAt(requests, tables, answers, i)
  }

  predicate StepAt(requests: seq<Request>, tables: seq<Buckets>, answers: seq<Ctx>, i: nat)
    requires i < |requests| && i + 1 < |tables| && i < |answers| && AllServable(requests)
  {
    |tables[i]| == MOD && Served(requests[i], tables[i], tables[i + 1], answers[i])
  }

  lemma OneStepMore(requests: seq<Request>, served: nat, tables: seq<Buckets>, answers: seq<Ctx>,
                    after: Buckets, answer: Ctx)
    requires served < |requests| && |tables| == served + 1 && |answers| == served && AllServable(requests)
    requires AllSteps(requests, served, tables, answers) && |tables[served]| == MOD
    requires Served(requests[served], tables[served], after, answer)
    ensures AllSteps(requests, served + 1, tables + [after], answers + [answer])
  {
    hide Served, Servable;
    var tables', answers' := tables + [after], answers + [answer];
    forall i | 0 <= i < served + 1 ensures StepAt(requests, tables', answers', i) {
      assert i < served ==> StepAt(requests, tables, answers, i);
    }
  }

  lemma WhatServedMeans(requests: seq<Request>, served: nat, tables: seq<Buckets>, answers: seq<Ctx>,
                        text: string, first: string)
    requires served <= |requests| && |tables| == served + 1 && |answers| == served && AllServable(requests)
    requires Progress(requests, served, tables, answers, text, first)
    ensures forall i | 0 <= i < served :: |tables[i]| == MOD && Servable(requests[i])
    ensures forall i | 0 <= i < served && requests[i].text == "" ::
      tables[i + 1] == tables[i] && answers[i] == Ctx("", 0)
    ensures forall i | 0 <= i < served && requests[i].text != "" ::
      && tables[i + 1] == Apply(tables[i], Parse(Arguments(requests[i].text)), requests[i].now)
      && answers[i] == AnswerTo(tables[i], Arguments(requests[i].text), requests[i].now)
    ensures (forall i | 0 <= i < served :: !IsSave(requests[i])) ==> text == first
    ensures forall i | 0 <= i < served ::
      IsSave(requests[i]) && (forall j | i < j < served :: !IsSave(requests[j])) ==> text == SaveText(tables[i])
    ensures |tables[0]| == MOD && tables[served] == Run(tables[0], EventsOf(requests)[..served])
    ensures answers == Answers(tables[0], EventsOf(requests)[..served])
    ensures AllFields(tables[0], FromRequest) ==> AllFields(tables[served], FromRequest)
    ensures NothingStrandable(tables[0]) && NeverComputes(EventsOf(requests), LONG_MAX)
        ==> NothingStrandable(tables[served])
  {
    hide AllFields, NothingStrandable, NeverComputes, EventsOf, Run, Answers, Servable, SafeRun, Wf;
    KeptByRequests(tables[0], requests, served);
    hide Apply, Parse, AnswerTo, Arguments, SaveText, IsSave;
    forall i | 0 <= i < served ensures Servable(requests[i]) && StepAt(requests, tables, answers, i) {
      assert StepAt(requests, tables, answers, i);
    }
    forall i | 0 <= i < served
      ensures IsSave(requests[i]) && (forall j | i < j < served :: !IsSave(requests[j])) ==> text == SaveText(tables[i])
    {
      assert LastSave(requests, served, i) ==> text == SaveText(tables[i]);
    }
  }

  lemma NothingAsked(t: Buckets, now: Long)
    requires |t| == MOD
    ensures Apply(t, Say(DB_ERR_OK, None), now) == t
    ensures Write(Ctx("", DB_ERR_OK), Respond(t, Say(DB_ERR_OK, None), now)) == Ctx("", DB_ERR_OK)
  {
  }

  /** One more event at the end of a run. */
  lemma {:induction false} RunSnoc(t: Buckets, events: seq<Event>, e: Event)
    requires |t| == MOD
    ensures Run(t, events + [e]) == Apply(Run(t, events), e.command, e.now)
    ensures Answers(t, events + [e]) ==
            Answers(t, events) + [Write(Ctx("", DB_ERR_OK), Respond(Run(t, events), e.command, e.now))]
    decreases |events|
  {
    if events == [] {
      assert [] + [e] == [e] && [e][1..] == [];
    } else {
      assert (events + [e])[1..] == events[1..] + [e];
      RunSnoc(Apply(t, events[0].command, events[0].now), events[1..], e);
    }
  }

  lemma ServeStep(t: Buckets, events: seq<Event>, i: nat)
    requires |t| == MOD && i < |events|
    ensures var e := events[i];
      && Run(t, events[..i + 1]) == Apply(Run(t, events[..i]), e.command, e.now)
      && Answers(t, events[..i + 1]) ==
         Answers(t, events[..i]) + [Write(Ctx("", DB_ERR_OK), Respond(Run(t, events[..i]), e.command, e.now))]
  {
    hide Run, Answers, Apply, Respond, Write;
    assert events[..i + 1] == events[..i] + [events[i]];
    RunSnoc(t, events[..i], events[i]);
  }

  // ---------- what the heap's root says about the table ----------

  /** An exact heap's root has the earliest expiry in the whole table; if that lies ahead, nothing has expired. */
  lemma RootIsEarliestInTable(db: Database, now: Long)
    requires db.Valid() && HeapExact(db.table)
    ensures db.ttl.size == 0 ==> forall e <- db.live :: e.expiry == -1
    ensures db.ttl.size > 0 ==> forall e <- db.live :: e.expiry == -1 || db.ttl.slots[0].expiry <= e.expiry
    ensures db.ttl.size > 0 && db.ttl.slots[0].expiry > now ==> forall e <- db.live :: !Expired(e.expiry, now)
  {
    db.ttl.SizeIsCardinality();
    if db.ttl.size > 0 {
      db.ttl.RootIsEarliest();
    }
    forall e <- db.live ensures e in db.ttl.elems <==> e.expiry != -1 {
      db.Located(e);
      assert ExactAt(db.table, e.key);
    }
  }

  /** In a run from an empty store that never computes -1, the root of the heap has the earliest expiry of all. */
  lemma RootIsEarliestAfterRun(db: Database, events: seq<Event>, now: Long)
    requires db.Valid() && db.table == Run(Empty(), events) && NeverComputes(events, -1)
    ensures db.ttl.size == 0 ==> forall e <- db.live :: e.expiry == -1
    ensures db.ttl.size > 0 ==> forall e <- db.live :: e.expiry == -1 || db.ttl.slots[0].expiry <= e.expiry
    ensures db.ttl.size > 0 && db.ttl.slots[0].expiry > now ==> forall e <- db.live :: !Expired(e.expiry, now)
  {
    hide Database.Valid, HeapExact, Run, NeverComputes, Empty;
    EmptyIsSafe();
    RunKeepsHeapExact(Empty(), events);
    RootIsEarliestInTable(db, now);
  }

  // ---------- starting up ----------

  /** Creates the store and, when asked to, rebuilds it from the savefile. */
  method Start(file: Savefile, rebuild: bool, now: Long) returns (db: Database)
    requires !file.processSave && (rebuild ==> TextOk(file.text, false))
    modifies file`processSave
    ensures db.Valid() && fresh(db.Repr()) && db.ttl.elems == {}
    ensures Loader(db.table, file.processSave) ==
            if rebuild then LoadText(Loader(Empty(), false), file.text, now) else Loader(Empty(), false)
    ensures NothingStrandable(db.table)
  {
    hide Database.TableValid, Database.HeapValid;
    db := new Database();
    if rebuild {
      var _ := file.RebuildFromSavefile(db, now);
    }
    NothingToStrand(db);
  }

  lemma NothingToStrand(db: Database)
    requires db.Valid() && db.ttl.elems == {}
    ensures NothingStrandable(db.table)
  {
    hide Database.Valid, Wf, Find;
    forall k ensures !StrandsEntry(db.table, k) {
      db.NothingInHeap(k);
    }
  }

  /** A SAVE and a restart from the file: the new process serves the reloaded table. */
  method SaveAndRestart(db: Database, file: Savefile, now: Long) returns (next: Database)
    requires db.Valid() && BuffersHold(db.table) && Savable(db.table) && !file.processSave
    modifies file
    ensures next.Valid() && fresh(next.Repr())
    ensures next.table == Reload(db.table, now) && !file.processSave
    ensures NothingStrandable(next.table)
    ensures AllFields(db.table, FromRequest) ==> AllFields(next.table, FromRequest)
  {
    hide FromRequest, AllFields, BuffersHold, Savable, Reload, LoadText, TextOk, SaveText, NothingStrandable;
    hide Database.HeapValid;
    var _ := file.FetchDatasetFromMemory(db);
    SaveThenRebuild(db.table, now);
    if AllFields(db.table, FromRequest) {
      ReloadIsServable(db.table, now);
    }
    next := Start(file, true, now);
  }
}
