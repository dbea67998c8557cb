/** Requests as commands, and what each command does to the table and answers. */
module Commands {
  import opened Common
  import opened Table
  import opened Replies
  import Decimal

  datatype Command =
    | Set(key: string, value: string)
    | Get(key: string)
    | GetExpiry(key: string)
    | Exists(key: string)
    | Delete(key: string)
    | Expire(key: string, seconds: Long)
    | Save
    | Say(ret: int, answer: Option<Reply>)   // touches neither the table nor the savefile

  const COMMAND_NAMES: seq<string> :=
    ["HELP", "SET", "EXISTS", "GET", "DELETE", "EXPIRE", "SAVE", "EXIT", "SHUTDOWN"]

  const N_COMMANDS: nat := 9

  /** Stands for the help page, whose layout is not modelled. */
  const HELP_PAGE := "HELP"
  const BAD_GET := "Incorrect number of args passed, run HELP GET"
  const BAD_EXISTS := "Incorrect number of args passed, run HELP EXISTS"

  function ToLower(c: char): char {
    if 'A' <= c <= 'Z' then c - 'A' + 'a' else c
  }

  predicate EqualIgnoringCase(a: string, b: string) {
    |a| == |b| && forall i | 0 <= i < |a| :: ToLower(a[i]) == ToLower(b[i])
  }

  /** Where the scan of `commands` stops: at the first name that matches, or past the end. */
  function HandlerFrom(name: string, i: nat): (h: nat)
    requires i <= N_COMMANDS
    ensures i <= h <= N_COMMANDS
    ensures forall j | i <= j < h :: !EqualIgnoringCase(COMMAND_NAMES[j], name)
    ensures h < N_COMMANDS ==> EqualIgnoringCase(COMMAND_NAMES[h], name)
    decreases N_COMMANDS - i
  {
    if i == N_COMMANDS || EqualIgnoringCase(COMMAND_NAMES[i], name) then i else HandlerFrom(name, i + 1)
  }

  /** What handler `h` does with its arguments. */
  function Interpret(h: nat, args: seq<string>): Command
    requires args != []
  {
    var argc := |args|;
    match h
    case 0 =>
      if argc == 1 then Say(DB_ERR_OK, Some(Reply(DB_ERR_HELP, HELP_PAGE)))
      else if argc == 2 && args[1] != "" then Say(DB_ERR_INVALID_ARGS, None)
      else Say(DB_ERR_OK, None)
    case 1 => if argc != 3 then Invalid("ERR") else Set(args[1], args[2])
    case 2 => if argc != 2 then Invalid(BAD_EXISTS) else Exists(args[1])
    case 3 =>
      if argc < 2 then Invalid(BAD_GET)
      else if argc == 2 then Get(args[1])
      else if argc == 3 && EqualIgnoringCase(args[2], "ex") then GetExpiry(args[1])
      else Say(DB_ERR_OK, None)
    case 4 => if argc != 2 then Invalid("ERR") else Delete(args[1])
    case 5 => if argc != 3 then Invalid("ERR") else Expire(args[1], Decimal.Atol(args[2]))
    case 6 => if argc != 1 then Invalid("OK") else Save
    case 7 => if argc != 1 then Invalid("ERR") else Say(DB_ERR_EXIT, Some(Reply(DB_ERR_EXIT, "Bye...")))
    case 8 => if argc != 1 then Invalid("ERR") else Say(DB_ERR_SHUTDOWN, Some(Reply(DB_ERR_SHUTDOWN, "Goodbye...")))
    case _ => Say(DB_ERR_CMD_NOTEXIST, Some(Reply(DB_ERR_CMD_NOTEXIST, "ERR")))
  }

  function Invalid(text: string): Command {
    Say(DB_ERR_INVALID_ARGS, Some(Reply(DB_ERR_INVALID_ARGS, text)))
  }

  function Parse(args: seq<string>): Command
    requires args != []
  {
    Interpret(HandlerFrom(args[0], 0), args)
  }

  /** The table after a command that runs when the clock shows `now`. */
  function Apply(t: Buckets, c: Command, now: Long): (t': Buckets)
    requires |t| == MOD
    ensures |t'| == MOD
  {
    match c
    case Set(k, v) => Insert(t, k, v)
    case Get(k) => Collect(t, k, now)
    case GetExpiry(k) => Collect(t, k, now)
    case Exists(k) => Collect(t, k, now)
    case Delete(k) => Table.Delete(t, k)
    case Expire(k, seconds) => UpdateExpiry(t, k, seconds, now)
    case Save => t
    case Say(_, _) => t
  }

  /** A handler's return code, and what it writes to the request context. */
  datatype Outcome = Outcome(ret: int, answer: Option<Reply>)

  function Plain(r: Reply): Outcome {
    Outcome(r.status, Some(r))
  }

  function Respond(t: Buckets, c: Command, now: Long): Outcome
    requires |t| == MOD
  {
    match c
    case Set(k, v) => Plain(InsertReply(t, k))
    case Get(k) => Plain(GetReply(t, k, now))
    case GetExpiry(k) => Plain(GetExpiryReply(t, k, now))
    case Exists(k) => Plain(ExistsReply(t, k, now))
    case Delete(k) => Plain(DeleteReply(t, k))
    case Expire(k, seconds) =>
      // A missing key leaves the answer of the existence check in the context, but the handler returns 0.
      if Lookup(t, k, now).Some? then Plain(Reply(DB_ERR_OK, "OK"))
      else Outcome(DB_ERR_OK, Some(ExistsReply(t, k, now)))
    case Save => Plain(Reply(DB_ERR_OK, "OK"))
    case Say(ret, answer) => Outcome(ret, answer)
  }

  function Write(c: Ctx, o: Outcome): Ctx {
    match o.answer
    case Some(r) => Fill(c, r)
    case None => c
  }

  /** The command names differ in more than case, so a request has one handler, whatever the case of its name. */
  lemma DispatchIgnoresCase(name: string, h: nat)
    requires h < N_COMMANDS
    ensures HandlerFrom(name, 0) == h <==> EqualIgnoringCase(COMMAND_NAMES[h], name)
  {
    var j := HandlerFrom(name, 0);
    if EqualIgnoringCase(COMMAND_NAMES[h], name) && j < h {
      NamesDiffer(j, h);
      assert EqualIgnoringCase(COMMAND_NAMES[j], COMMAND_NAMES[h]);
    }
  }

  lemma NamesDiffer(i: nat, j: nat)
    requires i < j < N_COMMANDS
    ensures !EqualIgnoringCase(COMMAND_NAMES[i], COMMAND_NAMES[j])
  {
    var a, b := COMMAND_NAMES[i], COMMAND_NAMES[j];
    if |a| == |b| {
      var p := if i == 2 && j == 5 then 2 else 0;  // EXISTS and EXPIRE first differ in their third letter
      assert ToLower(a[p]) != ToLower(b[p]);
    }
  }

  // ---------- names, whatever their case ----------

  /** Equal, or the two cases of one letter. */
  predicate SameLetter(a: char, b: char) {
    || a == b
    || ('A' <= a <= 'Z' && b as int == a as int + 32)
    || ('A' <= b <= 'Z' && a as int == b as int + 32)
  }

  /** `name` is `word`, but perhaps for the case of its letters. */
  predicate Spells(name: string, word: string) {
    |name| == |word| && forall i | 0 <= i < |name| :: SameLetter(name[i], word[i])
  }

  /** The comparison ignores the case of letters and nothing else. */
  lemma EqualButForCase(a: string, b: string)
    ensures EqualIgnoringCase(a, b) <==> Spells(b, a)
  {
    hide ToLower, SameLetter;
    if |a| == |b| {
      forall i | 0 <= i < |a| ensures ToLower(a[i]) == ToLower(b[i]) <==> SameLetter(b[i], a[i]) {
        SameLower(a[i], b[i]);
      }
    }
  }

  lemma SameLower(a: char, b: char)
    ensures ToLower(a) == ToLower(b) <==> SameLetter(b, a)
  {
  }

  /** Each command's name, in any case, finds that command's handler, and nothing else does. */
  lemma HandlerOfName(name: string)
    ensures HandlerFrom(name, 0) == 0 <==> Spells(name, "HELP")
    ensures HandlerFrom(name, 0) == 1 <==> Spells(name, "SET")
    ensures HandlerFrom(name, 0) == 2 <==> Spells(name, "EXISTS")
    ensures HandlerFrom(name, 0) == 3 <==> Spells(name, "GET")
    ensures HandlerFrom(name, 0) == 4 <==> Spells(name, "DELETE")
    ensures HandlerFrom(name, 0) == 5 <==> Spells(name, "EXPIRE")
    ensures HandlerFrom(name, 0) == 6 <==> Spells(name, "SAVE")
    ensures HandlerFrom(name, 0) == 7 <==> Spells(name, "EXIT")
    ensures HandlerFrom(name, 0) == 8 <==> Spells(name, "SHUTDOWN")
  {
    hide EqualIgnoringCase, HandlerFrom, Spells;
    forall h | 0 <= h < N_COMMANDS ensures HandlerFrom(name, 0) == h <==> Spells(name, COMMAND_NAMES[h]) {
      DispatchIgnoresCase(name, h);
      EqualButForCase(COMMAND_NAMES[h], name);
    }
    assert COMMAND_NAMES[0] == "HELP" && COMMAND_NAMES[1] == "SET" && COMMAND_NAMES[2] == "EXISTS";
    assert COMMAND_NAMES[3] == "GET" && COMMAND_NAMES[4] == "DELETE" && COMMAND_NAMES[5] == "EXPIRE";
    assert COMMAND_NAMES[6] == "SAVE" && COMMAND_NAMES[7] == "EXIT" && COMMAND_NAMES[8] == "SHUTDOWN";
  }
}
