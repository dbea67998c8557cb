/** Saving a table and rebuilding from the file, for every bucket of the table at once. */
module RoundTrip {
  import opened Common
  import opened Djb2
  import opened Table
  import opened Decimal
  import opened SaveFormat
  import opened Pieces

  /** A chain whose line comes back with all its records. */
  ghost predicate SavableChain(c: Chain) {
    SeparableChain(c) && OnOneLine(c) && HarmlessChain(c)
  }

  /** No field holds a newline. */
  predicate OnOneLine(c: Chain) {
    forall r <- c :: '\n' !in r.key && '\n' !in r.value
  }

  ghost predicate Savable(t: Buckets) {
    forall b | 0 <= b < |t| :: SavableChain(t[b])
  }

  /** The table after save and rebuild: each chain in its order, each record reloaded or dropped. */
  function Reload(t: Buckets, now: Long): (t': Buckets)
    ensures |t'| == |t|
  {
    seq(|t|, b requires 0 <= b < |t| => ReloadedChain(t[b], now))
  }

  // ---------- one line ----------

  lemma {:induction false} LineBytesOf(line: string, rest: string, max: nat)
    requires '\n' !in line
    ensures LineBytes(line + ("\n" + rest), max) == if |line| < max then |line| + 1 else max
  {
    var text := line + ("\n" + rest);
    if line == "" {
      assert text == "\n" + rest;
    } else if max > 0 {
      assert text[0] == line[0] && text[1..] == line[1..] + ("\n" + rest);
      LineBytesOf(line[1..], rest, max - 1);
    }
  }

  predicate After(on: bool, line: string) {
    if line == "$" then !on else on
  }

  /** A line that fits the buffer is processed once; exactly at the limit, an empty line follows and changes nothing. */
  lemma ReadLine(l: Loader, line: string, rest: string, now: Long)
    requires |l.table| == MOD && '\n' !in line && |line| <= LINE_MAX
    ensures TextOk(line + ("\n" + rest), l.on) <==> LineOk(line, l.on) && TextOk(rest, After(l.on, line))
    ensures TextOk(line + ("\n" + rest), l.on) ==>
      LoadText(l, line + ("\n" + rest), now) == LoadText(LoadLine(l, line, now), rest, now)
  {
    hide LineOk, LineBytes;
    var text := line + ("\n" + rest);
    LineBytesOf(line, rest, LINE_MAX);
    var n := LineBytes(text, LINE_MAX);
    if |line| < LINE_MAX {
      assert text[..n] == line + "\n" && text[n..] == rest;
      assert StripNewline(text[..n]) == line;
    } else {
      assert text[..n] == line && text[n..] == "\n" + rest;
      assert StripNewline(line) == line;
      EmptyLine(l.(on := After(l.on, line)), rest, now);
      if LineOk(line, l.on) {
        EmptyLine(LoadLine(l, line, now), rest, now);
      }
    }
  }

  lemma EmptyLine(l: Loader, rest: string, now: Long)
    requires |l.table| == MOD
    ensures TextOk("\n" + rest, l.on) <==> TextOk(rest, l.on)
    ensures TextOk(rest, l.on) ==> LoadText(l, "\n" + rest, now) == LoadText(l, rest, now)
  {
    var text := "\n" + rest;
    assert LineBytes(text, LINE_MAX) == 1 && text[1..] == rest;
    assert StripNewline(text[..1]) == "";
    ParseNothing();
    assert LoadLine(l, "", now) == l;
  }

  /** The last line of a file counts without a newline behind it. */
  lemma ReadLastLine(l: Loader, line: string, now: Long)
    requires |l.table| == MOD && '\n' !in line && line != "" && |line| <= LINE_MAX
    ensures TextOk(line, l.on) <==> LineOk(line, l.on)
    ensures LineOk(line, l.on) ==> LoadText(l, line, now) == LoadLine(l, line, now)
  {
    hide LineOk, LineBytes, LoadLine;
    WholeText(line, LINE_MAX);
    assert line[..|line|] == line && line[|line|..] == "";
    assert StripNewline(line) == line;
  }

  lemma {:induction false} WholeText(line: string, max: nat)
    requires '\n' !in line && |line| <= max
    ensures LineBytes(line, max) == |line|
  {
    if line != "" {
      WholeText(line[1..], max - 1);
    }
  }

  /** A full buffer is taken as a line of its own. */
  lemma ReadCut(l: Loader, line: string, rest: string, now: Long)
    requires |l.table| == MOD && '\n' !in line && |line| == LINE_MAX && line != "$"
    ensures TextOk(line + rest, l.on) <==> LineOk(line, l.on) && TextOk(rest, l.on)
    ensures TextOk(line + rest, l.on) ==> LoadText(l, line + rest, now) == LoadText(LoadLine(l, line, now), rest, now)
  {
    hide LineOk, LineBytes;
    FullBuffer(line, rest, LINE_MAX);
    assert (line + rest)[..LINE_MAX] == line && (line + rest)[LINE_MAX..] == rest;
    assert StripNewline(line) == line;
  }

  lemma {:induction false} FullBuffer(line: string, rest: string, max: nat)
    requires '\n' !in line && |line| == max
    ensures LineBytes(line + rest, max) == max
  {
    if max > 0 {
      assert (line + rest)[0] == line[0] && (line + rest)[1..] == line[1..] + rest;
      FullBuffer(line[1..], rest, max - 1);
    }
  }

  lemma {:induction false} LoadAppend(t: Buckets, a: seq<Fields>, b: seq<Fields>, now: Long)
    requires |t| == MOD
    ensures Complete(a + b) <==> Complete(a) && Complete(b)
    ensures Complete(a + b) ==> LoadRecords(t, a + b, now) == LoadRecords(LoadRecords(t, a, now), b, now)
    decreases |a|
  {
    hide LoadRecord;
    assert forall f <- b :: f in a + b;
    assert forall f <- a :: f in a + b;
    if a == [] {
      assert a + b == b;
    } else if Complete(a + b) {
      assert (a + b)[1..] == a[1..] + b;
      LoadAppend(LoadRecord(t, a[0], now), a[1..], b, now);
    }
  }

  /** Neither the line nor any piece of it looks like a frame line. */
  predicate Data(line: string)
    decreases |line|
  {
    line != "" && line != "$" && '\n' !in line && (|line| > LINE_MAX ==> Data(line[LINE_MAX..]))
  }

  /** While the reader is on, a line of any length is replayed piece by piece. */
  lemma {:induction false} ReadPieces(t: Buckets, line: string, rest: string, now: Long)
    requires |t| == MOD && Data(line)
    ensures TextOk(line + ("\n" + rest), true) <==> Complete(PieceFields(line, LINE_MAX)) && TextOk(rest, true)
    ensures TextOk(line + ("\n" + rest), true) ==>
      LoadText(Loader(t, true), line + ("\n" + rest), now)
      == LoadText(Loader(LoadRecords(t, PieceFields(line, LINE_MAX), now), true), rest, now)
    decreases |line|
  {
    hide TextOk, LoadText, Complete, LoadRecords, ParseLine;
    if |line| <= LINE_MAX {
      ReadLine(Loader(t, true), line, rest, now);
    } else {
      var head, tail := line[..LINE_MAX], line[LINE_MAX..];
      assert line + ("\n" + rest) == head + (tail + ("\n" + rest));
      ReadCut(Loader(t, true), head, tail + ("\n" + rest), now);
      LoadAppend(t, ParseLine(head), PieceFields(tail, LINE_MAX), now);
      if Complete(ParseLine(head)) {
        ReadPieces(LoadRecords(t, ParseLine(head), now), tail, rest, now);
      } else {
        assert !LineOk(head, true);
      }
    }
  }

  // ---------- one bucket ----------

  lemma {:induction false} NoNewlineInRecords(c: Chain)
    requires OnOneLine(c)
    ensures '\n' !in PrintRecords(c)
  {
    if c != [] {
      var n := |c| - 1;
      NoNewlineInRecords(c[..n]);
      ExpiryIsClean(c[n].expiry);
      assert '\n' !in PrintRecord(c[n]);
    }
  }

  lemma {:induction false} EndsElse(line: string)
    requires line != "" && line[|line| - 1] != '$' && '\n' !in line
    ensures Data(line)
    decreases |line|
  {
    if |line| > LINE_MAX {
      EndsElse(line[LINE_MAX..]);
    }
  }

  /** A bucket line ends in a digit, so neither it nor a piece of it is taken for a frame line. */
  lemma BucketLineIsData(c: Chain)
    requires c != [] && OnOneLine(c)
    ensures Data(PrintChain(c))
  {
    NoNewlineInRecords(c);
    PrintChainCons(c);
    var s, n := PrintRecords(c), |c| - 1;
    var r, x := PrintRecord(c[n]), PrintExpiry(c[n].expiry);
    ExpiryEndsInDigit(c[n].expiry);
    assert r[|r| - 1] == x[|x| - 1];
    assert s[|s| - 2] == r[|r| - 1];
    EndsElse(PrintChain(c));
  }

  lemma ExpiryEndsInDigit(x: Long)
    ensures PrintExpiry(x) != "" && IsDigit(PrintExpiry(x)[|PrintExpiry(x)| - 1])
  {
    DecShape(Unsigned(x));
  }

  /** A framed line turns the reader on, is replayed, and turns it off again. */
  lemma ReadFramed(t: Buckets, line: string, rest: string, now: Long)
    requires |t| == MOD && Data(line)
    ensures var text := "$" + ("\n" + (line + ("\n" + ("$" + ("\n" + rest))))); var fs := PieceFields(line, LINE_MAX);
      && (TextOk(text, false) <==> Complete(fs) && TextOk(rest, false))
      && (TextOk(text, false) ==>
          LoadText(Loader(t, false), text, now) == LoadText(Loader(LoadRecords(t, fs, now), false), rest, now))
  {
    hide TextOk, LoadText, PieceFields, LoadRecords, Complete;
    var fs := PieceFields(line, LINE_MAX);
    var text1 := "$" + ("\n" + rest);
    var text2 := line + ("\n" + text1);
    ReadLine(Loader(t, false), "$", text2, now);
    ReadPieces(t, line, text1, now);
    ReadLine(Loader(t, true), "$", rest, now);
    if Complete(fs) {
      ReadLine(Loader(LoadRecords(t, fs, now), true), "$", rest, now);
    }
  }

  lemma Regroup(line: string, rest: string)
    ensures "$\n" + (line + ("\n" + "$\n")) + rest == "$" + ("\n" + (line + ("\n" + ("$" + ("\n" + rest)))))
  {
  }

  // ---------- the whole file ----------

  function BucketFields(c: Chain): seq<Fields> {
    if c == [] then [] else PieceFields(PrintChain(c), LINE_MAX)
  }

  /** Every record the reader makes of the saved buckets, in order. */
  function FileFields(t: seq<Chain>): seq<Fields> {
    if t == [] then [] else BucketFields(t[0]) + FileFields(t[1..])
  }

  lemma {:induction false} ReadBuckets(t: Buckets, saved: seq<Chain>, now: Long)
    requires |t| == MOD && forall c <- saved :: OnOneLine(c)
    ensures TextOk(PrintBuckets(saved), false) <==> Complete(FileFields(saved))
    ensures Complete(FileFields(saved)) ==>
      LoadText(Loader(t, false), PrintBuckets(saved), now) == Loader(LoadRecords(t, FileFields(saved), now), false)
    decreases |saved|
  {
    hide LoadText, TextOk, PieceFields, PrintChain, LoadRecords, Complete, OnOneLine;
    if saved == [] {
      NothingToRead(t, now);
    } else {
      var c, rest := saved[0], saved[1..];
      var text := PrintBuckets(rest);
      LoadAppend(t, BucketFields(c), FileFields(rest), now);
      if c == [] {
        assert PrintBucket(c) + text == text && [] + FileFields(rest) == FileFields(rest);
        ReadBuckets(t, rest, now);
      } else {
        BucketLineIsData(c);
        Regroup(PrintChain(c), text);
        ReadFramed(t, PrintChain(c), text, now);
        ReadBuckets(if Complete(BucketFields(c)) then LoadRecords(t, BucketFields(c), now) else t, rest, now);
      }
    }
  }

  lemma NothingToRead(t: Buckets, now: Long)
    requires |t| == MOD
    ensures TextOk("", false) && LoadText(Loader(t, false), "", now) == Loader(t, false) && PrintBuckets([]) == ""
    ensures Complete([]) && LoadRecords(t, [], now) == t
  {
  }

  /**
   * A saved file is read as the records of its lines, cut or not;
   * if one of them lacks a key or a value, the rebuild is undefined.
   */
  lemma ReadFile(t: Buckets, now: Long)
    requires |t| == MOD && forall c <- t :: OnOneLine(c)
    ensures TextOk(SaveText(t), false) <==> Complete(FileFields(t))
    ensures Complete(FileFields(t)) ==>
      LoadText(Loader(Empty(), false), SaveText(t), now) == Loader(LoadRecords(Empty(), FileFields(t), now), false)
  {
    hide LoadText, TextOk, FileFields, PrintBuckets, LoadRecords, Complete, OnOneLine;
    ReadBuckets(Empty(), t, now);
    HeaderShape();
    ReadLine(Loader(Empty(), false), FILE_HEADER, PrintBuckets(t), now);
  }

  lemma HeaderShape()
    ensures '\n' !in FILE_HEADER && FILE_HEADER != "$" && |FILE_HEADER| <= LINE_MAX
  {
    assert FILE_HEADER[0] == 'S';
  }

  // ---------- replaying the buckets ----------

  lemma LoadOneRecord(t: Buckets, f: Fields, now: Long)
    requires |t| == MOD && f.key.Some? && f.value.Some?
    ensures Complete([f]) && LoadRecords(t, [f], now) == LoadRecord(t, f, now)
  {
    assert [f][1..] == [];
    assert LoadRecords(LoadRecord(t, f, now), [], now) == LoadRecord(t, f, now);
  }

  /** A record that is not cut, or does not mind, leaves in its chain what is left of it. */
  lemma LoadHarmless(t: Buckets, c: Chain, j: nat, now: Long)
    requires j < |c| && Wf(t) && Find(t, c[j].key).None? && Total(t) + 1 < MAX_ALLOWED
    requires SeparableChain(c) && Harmless(c, j)
    ensures var fs := RecordPieces(PrintRecord(c[j]), RoomAt(c, j));
            Complete(fs) && LoadRecords(t, fs, now) == AppendTo(t, Bucket(c[j].key), Kept(c[j], now))
  {
    hide PrintRecord, LoadRecord, Kept, RoomAt, LoadRecords, ParseRecord, Find, Bucket;
    var r := c[j];
    if Whole(c, j) {
      ParseOfPrintRecord(r);
      LoadPrinted(t, r, now);
      LoadOneRecord(t, FieldsOf(r), now);
    } else {
      LoadFluke(t, r, now);
    }
  }

  lemma LoadFluke(t: Buckets, r: Rec, now: Long)
    requires Wf(t) && Find(t, r.key).None? && Total(t) + 1 < MAX_ALLOWED && Fluke(r, 3)
    ensures var fs := RecordPieces(PrintRecord(r), 3);
            Complete(fs) && LoadRecords(t, fs, now) == AppendTo(t, Bucket(r.key), Kept(r, now))
  {
    hide ParseRecord, Find, Bucket;
    assert PrintExpiry(LONG_MAX) == "-1" && |PrintRecord(r)| == 7;
    var f, f' := Fields(Some("1"), Some("-"), None), Fields(Some("1"), Some("-1"), None);
    assert RecordPieces(PrintRecord(r), 3) == [f, f'] by {
      CutRecord(r, 3);
      assert "-1"[..1] == "-" && "-1"[1..] == "1";
    }
    LoadTwice(t, f, f', now);
    NewRecordGoesLast(t, "1", "-");
    InsertLast(t, Rec("1", "-", -1, false), "-1");
  }

  lemma LoadTwice(t: Buckets, f: Fields, f': Fields, now: Long)
    requires |t| == MOD && f.key.Some? && f.value.Some? && f'.key.Some? && f'.value.Some?
    ensures Complete([f, f']) && LoadRecords(t, [f, f'], now) == LoadRecord(LoadRecord(t, f, now), f', now)
  {
    hide LoadRecord;
    LoadOneRecord(t, f, now);
    LoadOneRecord(LoadRecord(t, f, now), f', now);
    LoadAppend(t, [f], [f'], now);
    assert [f] + [f'] == [f, f'];
  }

  lemma InsertLast(t: Buckets, r: Rec, v: string)
    requires Wf(t) && Find(t, r.key).None?
    ensures Insert(AppendTo(t, Bucket(r.key), [r]), r.key, v) == AppendTo(t, Bucket(r.key), [r.(value := v)])
  {
    var b := Bucket(r.key);
    var t1 := AppendTo(t, b, [r]);
    AppendedIsFound(t, r);
    assert Put(t1[b], r.key, v) == t[b] + [r.(value := v)];
  }

  /** Replaying a bucket line without harmful cuts appends what is left of each record, in order. */
  lemma {:induction false} LoadChain(t: Buckets, b: nat, c: Chain, j: nat, now: Long)
    requires Wf(t) && WfChain(c, b) && b < MOD && j <= |c| && Total(t) + |c| - j < MAX_ALLOWED
    requires SeparableChain(c) && HarmlessChain(c)
    requires forall r <- c[j..] :: Find(t, r.key).None?
    ensures Complete(ChainPieces(c, j))
    ensures LoadRecords(t, ChainPieces(c, j), now) == AppendTo(t, b, ReloadedChain(c[j..], now))
    decreases |c| - j
  {
    hide RecordPieces, PrintRecord, RoomAt, LoadRecords, Complete, Kept, Find;
    if j == |c| {
      NothingToRead(t, now);
      AppendNothing(t, b);
    } else {
      var r := c[j];
      var t' := AppendTo(t, b, Kept(r, now));
      assert c[j..][0] == r && c[j..][1..] == c[j + 1..];
      LoadHarmless(t, c, j, now);
      AppendKept(t, r, now);
      assert forall q <- c[j + 1..] :: q in c[j..] && q.key != r.key by {
        LaterKeys(c, b, j);
      }
      LoadChain(t', b, c, j + 1, now);
      LoadAppend(t, RecordPieces(PrintRecord(r), RoomAt(c, j)), ChainPieces(c, j + 1), now);
      AppendTwice(t, b, Kept(r, now), ReloadedChain(c[j + 1..], now));
    }
  }

  lemma LaterKeys(c: Chain, b: nat, j: nat)
    requires WfChain(c, b) && j < |c|
    ensures forall q <- c[j + 1..] :: q in c[j..] && q.key != c[j].key
  {
    forall q <- c[j + 1..] ensures q in c[j..] && q.key != c[j].key {
      var i :| 0 <= i < |c| - j - 1 && c[j + 1..][i] == q;
      assert c[j..][i + 1] == q && c[j + 1 + i] == q;
    }
  }

  lemma ChainTailKeys(c: Chain, b: nat)
    requires WfChain(c, b) && c != []
    ensures c[0].key in ChainKeys(c) && ChainKeys(c[1..]) <= ChainKeys(c) - {c[0].key}
  {
    forall k | k in ChainKeys(c[1..]) ensures k in ChainKeys(c) && k != c[0].key {
      var j :| 0 <= j < |c| - 1 && c[1..][j].key == k;
      assert c[j + 1].key == k;
    }
  }

  lemma {:induction false} ReloadedChainShape(c: Chain, b: nat, now: Long)
    requires WfChain(c, b)
    ensures WfChain(ReloadedChain(c, now), b) && |ReloadedChain(c, now)| <= |c|
    ensures forall r <- ReloadedChain(c, now) :: r.key in ChainKeys(c)
  {
    if c != [] {
      var first, rest := Kept(c[0], now), ReloadedChain(c[1..], now);
      ChainTail(c, b);
      ChainTailKeys(c, b);
      ReloadedChainShape(c[1..], b, now);
      forall r: Rec | r in first + rest ensures r.key in ChainKeys(c) {
        assert r in rest ==> r.key in ChainKeys(c[1..]);
      }
      ConsKeepsWf(first, rest, b);
    }
  }

  lemma ConsKeepsWf(first: Chain, rest: Chain, b: nat)
    requires WfChain(first, b) && WfChain(rest, b) && |first| <= 1
    requires forall r <- rest :: forall f <- first :: r.key != f.key
    ensures WfChain(first + rest, b)
  {
  }

  /** The first `b` buckets reloaded, the others still empty. */
  function Partial(t: Buckets, b: nat, now: Long): (s: Buckets)
    requires |t| == MOD
    ensures |s| == MOD
  {
    seq(MOD, i requires 0 <= i < MOD => if i < b then ReloadedChain(t[i], now) else [])
  }

  lemma PartialIsWf(t: Buckets, b: nat, now: Long)
    requires Wf(t)
    ensures Wf(Partial(t, b, now))
  {
    forall i | 0 <= i < MOD ensures WfChain(Partial(t, b, now)[i], i) {
      assert WfChain(t[i], i);
      ReloadedChainShape(t[i], i, now);
    }
  }

  lemma PartialNext(t: Buckets, b: nat, now: Long)
    requires Wf(t) && b < MOD
    ensures AppendTo(Partial(t, b, now), b, ReloadedChain(t[b], now)) == Partial(t, b + 1, now)
    ensures Total(Partial(t, b + 1, now)) <= Total(Partial(t, b, now)) + |t[b]|
    ensures Total(t[b..]) == |t[b]| + Total(t[b + 1..])
    ensures forall r <- t[b] :: Find(Partial(t, b, now), r.key).None?
  {
    var s := Partial(t, b, now);
    assert WfChain(t[b], b);
    assert forall r <- t[b] :: Bucket(r.key) == b;
    assert s[b] == [] && [] + ReloadedChain(t[b], now) == ReloadedChain(t[b], now);
    ReloadedChainShape(t[b], b, now);
    TotalUpdate(s, b, ReloadedChain(t[b], now));
    assert t[b..][1..] == t[b + 1..];
  }

  lemma LoadBucketFields(t: Buckets, b: nat, c: Chain, now: Long)
    requires Wf(t) && b < MOD && WfChain(c, b) && SavableChain(c) && Total(t) + |c| < MAX_ALLOWED
    requires forall r <- c :: Find(t, r.key).None?
    ensures Complete(BucketFields(c))
    ensures LoadRecords(t, BucketFields(c), now) == AppendTo(t, b, ReloadedChain(c, now))
  {
    hide PieceFields, PrintChain, ChainPieces, LoadRecords, Complete, Find, WfChain;
    assert c[0..] == c;
    if c == [] {
      NothingToRead(t, now);
      AppendNothing(t, b);
    } else {
      PiecesOfChain(c, 0);
      LoadChain(t, b, c, 0, now);
    }
  }

  lemma {:induction false} LoadBuckets(t: Buckets, b: nat, now: Long)
    requires Wf(t) && Savable(t) && b <= MOD
    requires Total(Partial(t, b, now)) + Total(t[b..]) < MAX_ALLOWED
    ensures Complete(FileFields(t[b..]))
    ensures LoadRecords(Partial(t, b, now), FileFields(t[b..]), now) == Reload(t, now)
    decreases MOD - b
  {
    hide LoadRecords, Complete, BucketFields, ReloadedChain, Find, SavableChain, WfChain, Total;
    var s := Partial(t, b, now);
    if b == MOD {
      assert t[b..] == [] && s == Reload(t, now);
      NothingToRead(s, now);
    } else {
      PartialIsWf(t, b, now);
      PartialNext(t, b, now);
      LoadBuckets(t, b + 1, now);
      LoadBucketFields(s, b, t[b], now);
      LoadAppend(s, BucketFields(t[b]), FileFields(t[b + 1..]), now);
      assert t[b..][0] == t[b] && t[b..][1..] == t[b + 1..];
    }
  }

  // ---------- what is found after a restart ----------

  lemma {:induction false} FindInReloadedChain(c: Chain, b: nat, k: string, now: Long)
    requires WfChain(c, b)
    ensures FindIn(ReloadedChain(c, now), k) ==
            match FindIn(c, k) case Some(r) => Reloaded(r, now) case None => None
  {
    if c != [] {
      var rest := ReloadedChain(c[1..], now);
      ChainTail(c, b);
      FindInReloadedChain(c[1..], b, k, now);
      if c[0].key == k {
        assert FindIn(c[1..], k) == None;
        assert Reloaded(c[0], now).Some? ==> (Kept(c[0], now) + rest)[0].key == k;
      } else {
        FindAfterHead(c[0], c[1..], k);
        if Reloaded(c[0], now).Some? {
          FindAfterHead(Reloaded(c[0], now).value, rest, k);
        } else {
          assert [] + rest == rest;
        }
        assert [c[0]] + c[1..] == c;
      }
    }
  }

  lemma FindAfterHead(r: Rec, rest: Chain, k: string)
    requires r.key != k
    ensures FindIn([r] + rest, k) == FindIn(rest, k)
  {
    assert ([r] + rest)[1..] == rest;
  }

  /** Each key's record is reloaded or dropped on its own. */
  lemma FindInReload(t: Buckets, k: string, now: Long)
    requires Wf(t)
    ensures Find(Reload(t, now), k) == match Find(t, k) case Some(r) => Reloaded(r, now) case None => None
  {
    var b := Bucket(k);
    assert WfChain(t[b], b);
    FindInReloadedChain(t[b], b, k, now);
  }

  lemma ReloadIsWf(t: Buckets, now: Long)
    requires Wf(t)
    ensures Wf(Reload(t, now))
  {
    PartialIsWf(t, MOD, now);
    assert Partial(t, MOD, now) == Reload(t, now);
  }

  // ---------- save and rebuild ----------

  /** A rebuild from the file that a save of `t` has just written is defined, and gives the reloaded table. */
  ghost predicate ComesBack(t: Buckets, now: Long)
    requires |t| == MOD
  {
    TextOk(SaveText(t), false) &&
    LoadText(Loader(Empty(), false), SaveText(t), now) == Loader(Reload(t, now), false)
  }

  lemma SaveThenRebuild(t: Buckets, now: Long)
    requires Wf(t) && Savable(t) && Total(t) < MAX_ALLOWED
    ensures ComesBack(t, now)
  {
    hide LoadText, TextOk, FileFields, LoadRecords, Complete, Total;
    assert Partial(t, 0, now) == Empty() && t[0..] == t;
    EmptyHasNothing();
    assert forall c <- t :: OnOneLine(c) by {
      forall c <- t ensures OnOneLine(c) {
        assert SavableChain(c);
      }
    }
    ReadFile(t, now);
    LoadBuckets(t, 0, now);
  }
}
