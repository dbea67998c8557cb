/** What each table operation answers, and the request context the answers are written to. */
module Replies {
  import opened Common
  import opened Table
  import Decimal

  /** The status and text of the last answer written. */
  datatype Ctx = Ctx(resp: string, status: int)

  /** An operation's return code and the text it sends; colour codes are dropped. */
  datatype Reply = Reply(status: int, text: string)

  /** An empty text leaves the context as it was. */
  function Fill(c: Ctx, r: Reply): Ctx {
    if |r.text| == 0 then c else Ctx(r.text, r.status)
  }

  class CmdCtx {
    var resp: string
    var status: int

    constructor ()
      ensures State() == Ctx("", DB_ERR_OK)
    {
      resp, status := "", DB_ERR_OK;
    }

    function State(): Ctx
      reads this
    {
      Ctx(resp, status)
    }
  }

  method FillCmdCtx(ctx: CmdCtx?, res: int, text: string)
    modifies ctx
    ensures ctx != null && text != "" ==> ctx.resp == text && ctx.status == res
    ensures ctx != null && text == "" ==> ctx.resp == old(ctx.resp) && ctx.status == old(ctx.status)
    ensures ctx != null ==> ctx.State() == Fill(old(ctx.State()), Reply(res, text))
  {
    if |text| == 0 || ctx == null {
      return;
    }
    ctx.resp, ctx.status := text, res;
  }

  /** The record a lookup of `k` finds: one that is stored and has not expired. */
  function Lookup(t: Buckets, k: string, now: Long): Option<Rec>
    requires |t| == MOD
  {
    match Find(t, k)
    case Some(r) => if Expired(r.expiry, now) then None else Some(r)
    case None => None
  }

  function InsertReply(t: Buckets, k: string): Reply
    requires |t| == MOD
  {
    if Full(t, k) then Reply(ERR_FULL, "ERR") else Reply(DB_ERR_OK, "OK")
  }

  function GetReply(t: Buckets, k: string, now: Long): Reply
    requires |t| == MOD
  {
    match Lookup(t, k, now)
    case Some(r) => Reply(DB_ERR_OK, r.value)
    case None => Reply(DB_ERR_KEY_NOTEXIST, "ERR")
  }

  function GetExpiryReply(t: Buckets, k: string, now: Long): Reply
    requires |t| == MOD
  {
    match Lookup(t, k, now)
    case Some(r) => Reply(DB_ERR_OK, if r.expiry != -1 then Decimal.PrintZu(r.expiry) else "NULL")
    case None => Reply(DB_ERR_KEY_NOTEXIST, "ERR")
  }

  function ExistsReply(t: Buckets, k: string, now: Long): Reply
    requires |t| == MOD
  {
    match Lookup(t, k, now)
    case Some(r) => Reply(DB_ERR_OK, "TRUE")
    case None => Reply(DB_ERR_KEY_NOTEXIST, "FALSE")
  }

  /** Deleting does not look at the clock. */
  function DeleteReply(t: Buckets, k: string): Reply
    requires |t| == MOD
  {
    if Find(t, k).Some? then Reply(DB_ERR_OK, "OK") else Reply(DB_ERR_KEY_NOTEXIST, "ERR")
  }

  function UpdateExpiryReply(t: Buckets, k: string, now: Long): Reply
    requires |t| == MOD
  {
    if Lookup(t, k, now).Some? then Reply(DB_ERR_OK, "OK") else Reply(DB_ERR_KEY_NOTEXIST, "NULL")
  }

  /** The table after an expiry update of `k`; the clock shows `now` at the check and `stamp` at the update. */
  function UpdateExpiryAt(t: Buckets, k: string, seconds: Long, now: Long, stamp: Long): (t': Buckets)
    requires |t| == MOD
    ensures |t'| == MOD
  {
    if Lookup(t, k, now).Some? then SetExpiry(t, k, Wrap(stamp + seconds), true) else Collect(t, k, now)
  }

  /** The same at one reading of the clock. */
  function UpdateExpiry(t: Buckets, k: string, seconds: Long, now: Long): (t': Buckets)
    requires |t| == MOD
    ensures |t'| == MOD
  {
    UpdateExpiryAt(t, k, seconds, now, now)
  }
}
