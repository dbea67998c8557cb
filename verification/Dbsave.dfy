/** Writing the savefile from the chains and replaying it into the store. */
module Dbsave {
  import opened Common
  import opened Table
  import opened Ttl
  import opened Hash
  import opened Tokens
  import opened Decimal
  import opened SaveFormat

  const KV_LEN: nat := 1024

  /** A record's text and its bar fit in the room kept for one record. */
  predicate Fits(r: Rec) {
    |PrintRecord(r)| + 1 <= KV_LEN
  }

  /** The bytes the loop writes for a bucket, its records and their bars, can be counted by its index, an `int`. */
  predicate IndexHolds(c: Chain) {
    |PrintRecords(c)| <= INT_MAX
  }

  /** They also fit the buffer allocated for the bucket. */
  predicate BufferHolds(c: Chain, count: nat) {
    |PrintRecords(c)| <= KV_LEN * (count + 1) && IndexHolds(c)
  }

  predicate BuffersHold(t: Buckets) {
    forall b | 0 <= b < |t| :: BufferHolds(t[b], Total(t))
  }

  lemma {:induction false} FittingRecords(c: Chain)
    requires forall r <- c :: Fits(r)
    ensures |PrintRecords(c)| <= KV_LEN * |c|
  {
    if c != [] {
      var n := |c| - 1;
      assert c[n] in c && Fits(c[n]);
      FittingRecords(c[..n]);
    }
  }

  /** Records that fit their own room fit every bucket's buffer, since no chain is longer than the count. */
  lemma FittingRecordsAreHeld(t: Buckets)
    requires forall b | 0 <= b < |t| :: forall r <- t[b] :: Fits(r)
    ensures BuffersHold(t) <==> forall b | 0 <= b < |t| :: IndexHolds(t[b])
    ensures KV_LEN * Total(t) <= INT_MAX ==> BuffersHold(t)
  {
    hide Fits, PrintRecords;
    forall b | 0 <= b < |t| ensures |PrintRecords(t[b])| <= KV_LEN * Total(t) {
      FittingRecords(t[b]);
      ChainWithinTotal(t, b);
    }
    assert forall b | 0 <= b < |t| :: BufferHolds(t[b], Total(t)) <==> IndexHolds(t[b]);
  }

  lemma {:induction false} PrefixIsShorter(c: Chain, p: nat)
    requires p <= |c|
    ensures |PrintRecords(c[..p])| <= |PrintRecords(c)|
    decreases |c|
  {
    hide PrintRecord;
    if p < |c| {
      assert c[..|c| - 1][..p] == c[..p];
      PrefixIsShorter(c[..|c| - 1], p);
    } else {
      assert c[..p] == c;
    }
  }

  method AppendBytes(data: array<char>, idx: nat, s: string) returns (next: nat)
    requires idx + |s| <= data.Length
    modifies data
    ensures next == idx + |s|
    ensures data[..next] == old(data[..idx]) + s
  {
    next := idx;
    var i := 0;
    while i < |s|
      invariant i <= |s| && next == idx + i
      invariant forall j | 0 <= j < idx :: data[j] == old(data[j])
      invariant forall j | 0 <= j < i :: data[idx + j] == s[j]
    {
      data[next] := s[i];
      next, i := next + 1, i + 1;
    }
  }

  /** Prints one record's fields and its bar behind what is in the buffer. */
  method AppendRecord(data: array<char>, idx: nat, key: string, val: string, x: string) returns (next: nat)
    requires idx + |key| + |val| + |x| + 3 <= data.Length
    modifies data
    ensures next == idx + |key| + |val| + |x| + 3
    ensures data[..next] == old(data[..idx]) + (key + ("!" + (val + ("!" + x))) + "|")
  {
    ghost var before := data[..idx];
    next := AppendBytes(data, idx, key);
    next := AppendBytes(data, next, "!");
    next := AppendBytes(data, next, val);
    next := AppendBytes(data, next, "!");
    next := AppendBytes(data, next, x);
    next := AppendBytes(data, next, "|");
    AppendedInTurn(before, key, val, x);
  }

  lemma AppendedInTurn(before: string, key: string, val: string, x: string)
    ensures before + key + "!" + val + "!" + x + "|" == before + (key + ("!" + (val + ("!" + x))) + "|")
  {
  }

  /** The text of bucket `b`, whose first node is `node`; None for an empty bucket. */
  method GetKvFromBucket(db: Database, node: Entry?, ghost b: nat) returns (text: Option<string>)
    requires db.TableValid() && b < MOD && node == db.buckets[b]
    requires BufferHolds(db.table[b], db.count)
    ensures text == if db.table[b] == [] then None else Some(PrintChain(db.table[b]))
  {
    hide Database.TableValid, PrintRecords, PrintChain, IndexHolds;
    NullMeansEmpty(db, node, b);
    if node == null {
      return None;
    }
    var bucket := PrintBucketText(db, node, b);
    text := Some(bucket);
  }

  /** The text of a bucket that is not empty, in a buffer of its own. */
  method PrintBucketText(db: Database, node: Entry, ghost b: nat) returns (text: string)
    requires db.TableValid() && b < MOD && node == db.buckets[b] && db.table[b] != []
    requires BufferHolds(db.table[b], db.count)
    ensures text == PrintChain(db.table[b])
  {
    hide Database.TableValid, PrintRecords, IndexHolds;
    var data := new char[KV_LEN * (db.count + 1)](_ => '\0');
    var dataIdx := PrintNodes(db, node, b, data);
    text := CutLast(data, dataIdx);
  }

  /** Writes the NUL over the last bar: the string is what comes before it. */
  method CutLast(data: array<char>, dataIdx: nat) returns (text: string)
    requires 0 < dataIdx <= data.Length
    modifies data
    ensures text == old(data[..dataIdx])[..dataIdx - 1]
  {
    data[dataIdx - 1] := '\0';
    text := data[..dataIdx - 1];
  }

  /** Prints one entry and its bar behind what is in the buffer. */
  method AppendEntry(data: array<char>, idx: nat, e: Entry, ghost r: Rec) returns (next: nat)
    requires r.key == e.key && r.value == e.value && r.expiry == e.expiry
    requires idx + |PrintRecord(r)| + 1 <= data.Length
    modifies data
    ensures next == idx + |PrintRecord(r)| + 1
    ensures data[..next] == old(data[..idx]) + (PrintRecord(r) + "|")
  {
    hide PrintZu;
    var x := if e.expiry != LONG_MAX then PrintZu(e.expiry) else "-1";
    RecordLength(r);
    next := AppendRecord(data, idx, e.key, e.value, x);
  }

  lemma NullMeansEmpty(db: Database, node: Entry?, b: nat)
    requires db.TableValid() && b < MOD && node == db.buckets[b]
    ensures node == null <==> db.table[b] == []
    ensures db.count == Total(db.table)
  {
    assert db.ChainOk(b);
    if db.table[b] != [] {
      assert db.NodeOk(b, 0);
    }
  }

  /** Prints every node of bucket `b` into the buffer, which need only be as long as what is printed. */
  method PrintNodes(db: Database, node: Entry?, ghost b: nat, data: array<char>) returns (dataIdx: nat)
    requires db.TableValid() && b < MOD && node == db.buckets[b]
    requires |PrintRecords(db.table[b])| <= data.Length && IndexHolds(db.table[b])
    modifies data
    ensures dataIdx <= data.Length && dataIdx <= INT_MAX && (node != null ==> dataIdx > 0)
    ensures data[..dataIdx] == PrintRecords(db.table[b])
  {
    assert db.ChainOk(b);
    hide Database.TableValid, PrintRecord;
    var cur: Entry? := node;
    ghost var c, p := db.table[b], 0;
    dataIdx := 0;
    while cur != null
      invariant db.ChainOk(b)
      invariant p <= |c| && cur == At(db.chains[b], p)
      invariant dataIdx <= data.Length && dataIdx <= INT_MAX && (p > 0 ==> dataIdx > 0)
      invariant data[..dataIdx] == PrintRecords(c[..p])
      decreases |c| - p
    {
      assert db.NodeOk(b, p);
      var next := cur.next;
      PrintOneMore(c, p);
      PrefixIsShorter(c, p + 1);
      dataIdx := AppendEntry(data, dataIdx, cur, c[p]);
      cur := next;
      p := p + 1;
    }
    assert c[..p] == c;
  }

  lemma RecordLength(r: Rec)
    ensures |PrintRecord(r)| == |r.key| + |r.value| + |PrintExpiry(r.expiry)| + 2
  {
  }

  lemma PrintOneMore(c: Chain, p: nat)
    requires p < |c|
    ensures PrintRecords(c[..p + 1]) == PrintRecords(c[..p]) + (PrintRecord(c[p]) + "|")
    ensures c[p] in c
  {
    assert c[..p + 1][..p] == c[..p];
  }

  /** The file on disk and the reader's `process_save` toggle. */
  class Savefile {
    var text: string
    var processSave: bool

    constructor ()
      ensures text == "" && !processSave
    {
      text, processSave := "", false;
    }

    method FetchDatasetFromMemory(db: Database) returns (res: int)
      requires db.Valid() && BuffersHold(db.table)
      modifies this`text
      ensures res == DB_ERR_OK
      ensures text == SaveText(db.table)
    {
      hide Database.HeapValid, Database.ChainOk, Wf, BufferHolds, PrintRecords, PrintChain;
      var body := "";
      for i := 0 to MOD
        invariant body + PrintBuckets(db.table[i..]) == PrintBuckets(db.table)
      {
        var data := GetKvFromBucket(db, db.buckets[i], i);
        PrintedNext(db.table, i);
        var frame := "";
        if data.Some? && |data.value| > 0 {
          frame := "$\n" + (data.value + ("\n" + "$\n"));
        }
        assert frame == PrintBucket(db.table[i]);
        Reassociate(body, frame, PrintBuckets(db.table[i + 1..]));
        body := body + frame;
      }
      assert body + "" == body;
      text := FILE_HEADER + ("\n" + body);
      res := DB_ERR_OK;
    }

    /** Replays one record of the file. */
    method LoadOne(db: Database, key: string, val: string, exp: Option<string>, now: Long)
      requires db.Valid() && db.ttl.elems == {}
      modifies db.Repr()
      ensures db.Valid() && db.ttl.elems == {} && fresh(db.Repr() - old(db.Repr()))
      ensures db.table == LoadRecord(old(db.table), Fields(Some(key), Some(val), exp), now)
    {
      hide Database.Valid, Wf;
      var _ := db.HashInsert(key, val, null);
      if exp.Some? && exp.value != "-1" {
        LoadExpiry(db, key, Atol(exp.value), now);
      }
    }

    /** Drops a record that has expired; otherwise writes its expiry time, past the heap. */
    method LoadExpiry(db: Database, key: string, expiryTime: Long, now: Long)
      requires db.Valid() && db.ttl.elems == {}
      modifies db.Repr()
      ensures db.Valid() && db.ttl.elems == {} && fresh(db.Repr() - old(db.Repr()))
      ensures db.table == WithExpiry(old(db.table), key, expiryTime, now)
    {
      hide Database.TableValid, Database.HeapValid;
      if expiryTime <= now {
        db.NothingInHeap(key);
        var _ := db.HashDelete(key, null);
      } else {
        var e := db.HashGetKv(key, now);
        if e != null {
          db.NothingInHeap(key);
          db.SetExpiryOutsideHeap(e, expiryTime);
        }
      }
    }

    /** Replays every record of one bucket line. */
    method LoadBucket(db: Database, line: string, now: Long)
      requires db.Valid() && db.ttl.elems == {} && Complete(ParseLine(line))
      modifies db.Repr()
      ensures db.Valid() && db.ttl.elems == {} && fresh(db.Repr() - old(db.Repr()))
      ensures db.table == LoadRecords(old(db.table), ParseLine(line), now)
    {
      hide Database.Valid, Wf, LoadRecords, LoadRecord, ParseRecords, ParseLine, ParseRecord, Remaining, Complete;
      var kv := Strtok(line, BAR);
      PendingIsSplit(line);
      while kv.Some?
        invariant db.Valid() && db.ttl.elems == {} && fresh(db.Repr() - old(db.Repr()))
        invariant |db.table| == MOD && Complete(ParseRecords(Remaining(kv, BAR)))
        invariant LoadRecords(db.table, ParseRecords(Remaining(kv, BAR)), now)
               == LoadRecords(old(db.table), ParseLine(line), now)
        decreases if kv.Some? then |kv.value.1| + 1 else 0
      {
        var (record, rest) := kv.value;
        PendingStep(db.table, record, rest, now);
        var key, val, exp := ParseFields(record);
        LoadOne(db, key.value, val.value, exp, now);
        kv := Strtok(rest, BAR);
      }
      NothingPending(db.table, now);
    }

    method Toggle(db: Database)
      requires db.Valid()
      modifies this`processSave
      ensures processSave == !old(processSave)
      ensures db.Valid() && db.Repr() == old(db.Repr())
    {
      processSave := !processSave;
    }

    method ProcessSaveData(db: Database, line: string, now: Long)
      requires db.Valid() && db.ttl.elems == {} && LineOk(line, processSave) && this !in db.Repr()
      modifies this`processSave, db.Repr()
      ensures db.Valid() && db.ttl.elems == {} && fresh(db.Repr() - old(db.Repr()))
      ensures Loader(db.table, processSave) == LoadLine(old(Loader(db.table, processSave)), line, now)
    {
      hide Database.Valid, Wf;
      if line == "$" {
        Toggle(db);
      } else if processSave {
        LoadBucket(db, line, now);
      }
    }

    /** Rebuilds the store from the file; the heap is still empty when this runs. */
    method RebuildFromSavefile(db: Database, now: Long) returns (res: int)
      requires db.Valid() && db.ttl.elems == {} && TextOk(text, processSave)
      requires this !in db.Repr()
      modifies this`processSave, db.Repr()
      ensures db.Valid() && db.ttl.elems == {} && fresh(db.Repr() - old(db.Repr()))
      ensures Loader(db.table, processSave) == LoadText(old(Loader(db.table, processSave)), text, now)
      ensures res == DB_ERR_OK
    {
      hide Database.Valid, Wf;
      var rest := text;
      while rest != ""
        invariant db.Valid() && db.ttl.elems == {} && fresh(db.Repr() - old(db.Repr()))
        invariant this !in db.Repr() && TextOk(rest, processSave)
        invariant LoadText(Loader(db.table, processSave), rest, now)
               == LoadText(old(Loader(db.table, processSave)), text, now)
        decreases |rest|
      {
        var n := LineBytes(rest, LINE_MAX);
        ProcessSaveData(db, StripNewline(rest[..n]), now);
        rest := rest[n..];
      }
      res := DB_ERR_OK;
    }
  }

  lemma PendingIsSplit(line: string)
    ensures ParseLine(line) == ParseRecords(Remaining(Strtok(line, BAR), BAR))
  {
  }

  lemma NothingPending(t: Buckets, now: Long)
    requires |t| == MOD
    ensures Complete(ParseRecords(Remaining(None, BAR))) && LoadRecords(t, ParseRecords(Remaining(None, BAR)), now) == t
  {
  }

  lemma PendingStep(t: Buckets, record: string, rest: string, now: Long)
    requires |t| == MOD && Complete(ParseRecords(Remaining(Some((record, rest)), BAR)))
    ensures var f := ParseRecord(record); var fs := ParseRecords(Remaining(Strtok(rest, BAR), BAR));
      && f.key.Some? && f.value.Some? && Complete(fs)
      && LoadRecords(t, ParseRecords(Remaining(Some((record, rest)), BAR)), now)
         == LoadRecords(LoadRecord(t, f, now), fs, now)
  {
    ParseRecordsCons(record, Split(rest, BAR));
    PendingIsSplit(rest);
  }

  /** The first three tokens of a record; a missing one is None. */
  method ParseFields(record: string) returns (key: Option<string>, val: Option<string>, exp: Option<string>)
    ensures Fields(key, val, exp) == ParseRecord(record)
  {
    key, val, exp := None, None, None;
    var first := Strtok(record, BANG);
    if first.None? {
      return;
    }
    key := Some(first.value.0);
    var second := Strtok(first.value.1, BANG);
    assert Split(record, BANG) == [key.value] + Split(first.value.1, BANG);
    if second.None? {
      return;
    }
    val := Some(second.value.0);
    var third := Strtok(second.value.1, BANG);
    assert Split(first.value.1, BANG) == [val.value] + Split(second.value.1, BANG);
    if third.Some? {
      exp := Some(third.value.0);
      assert Split(second.value.1, BANG) == [exp.value] + Split(third.value.1, BANG);
    }
  }

  lemma ParseRecordsCons(record: string, rest: seq<string>)
    ensures ParseRecords([record] + rest) == [ParseRecord(record)] + ParseRecords(rest)
    ensures Complete(ParseRecords([record] + rest)) ==>
      ParseRecord(record).key.Some? && ParseRecord(record).value.Some? && Complete(ParseRecords(rest))
  {
    assert ([record] + rest)[1..] == rest;
    var fs := ParseRecords([record] + rest);
    assert ParseRecord(record) in fs;
    assert forall f <- ParseRecords(rest) :: f in fs;
  }

  /** What the text still lacks after bucket `i` has been added. */
  lemma PrintedNext(t: seq<Chain>, i: nat)
    requires i < |t|
    ensures PrintBuckets(t[i..]) == PrintBucket(t[i]) + PrintBuckets(t[i + 1..])
    ensures t[i] != [] ==> |PrintChain(t[i])| > 0
  {
    assert t[i..][1..] == t[i + 1..];
    if t[i] != [] {
      PrintRecordsCons(t[i]);
    }
  }
}
