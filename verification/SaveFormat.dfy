/** The savefile text, how it is read back, and the round trip between the two. */
module SaveFormat {
  import opened Common
  import opened Djb2
  import opened Table
  import opened Tokens
  import opened Decimal

  const FILE_HEADER := "SahDB001"

  /** `fgets` reads at most this many bytes of a line at a time. */
  const LINE_MAX: nat := 8191

  const BANG: set<char> := {'!'}
  const BAR: set<char> := {'|'}

  // ---------- printing ----------

  function PrintExpiry(x: Long): string {
    if x != LONG_MAX then PrintZu(x) else "-1"
  }

  function PrintRecord(r: Rec): string {
    r.key + ("!" + (r.value + ("!" + PrintExpiry(r.expiry))))
  }

  /** Every record followed by a bar. */
  function PrintRecords(c: Chain): string {
    if c == [] then "" else PrintRecords(c[..|c| - 1]) + (PrintRecord(c[|c| - 1]) + "|")
  }

  /** One bucket: the last bar is cut off. */
  function PrintChain(c: Chain): string
    requires c != []
  {
    var s := PrintRecords(c);
    s[..|s| - 1]
  }

  function PrintBucket(c: Chain): string {
    if c == [] then "" else "$\n" + (PrintChain(c) + ("\n" + "$\n"))
  }

  function PrintBuckets(t: seq<Chain>): string {
    if t == [] then "" else PrintBucket(t[0]) + PrintBuckets(t[1..])
  }

  function SaveText(t: Buckets): string {
    FILE_HEADER + ("\n" + PrintBuckets(t))
  }

  /** The header line, then the buckets in their order. */
  lemma SavedText(t: Buckets, a: seq<Chain>, b: seq<Chain>)
    ensures SaveText(t) == "SahDB001\n" + PrintBuckets(t)
    ensures PrintBuckets(a + b) == PrintBuckets(a) + PrintBuckets(b) && PrintBuckets([]) == ""
  {
    PrintBucketsAppend(a, b);
  }

  lemma {:induction false} PrintBucketsAppend(a: seq<Chain>, b: seq<Chain>)
    ensures PrintBuckets(a + b) == PrintBuckets(a) + PrintBuckets(b)
  {
    if a == [] {
      assert a + b == b;
    } else {
      assert (a + b)[0] == a[0] && (a + b)[1..] == a[1..] + b;
      PrintBucketsAppend(a[1..], b);
    }
  }

  /** One bucket: nothing, or a line between two frame lines; bars part the records, bangs their fields. */
  lemma SavedBucket(c: Chain, r: Rec)
    ensures PrintBuckets([[]]) == ""
    ensures c != [] ==> PrintBuckets([c]) == "$\n" + PrintChain(c) + "\n$\n"
    ensures PrintChain(c + [r]) == (if c == [] then "" else PrintChain(c) + "|") + PrintRecord(r)
    ensures PrintRecord(r) == r.key + "!" + r.value + "!" + (if r.expiry == LONG_MAX then "-1" else PrintZu(r.expiry))
  {
    hide PrintRecord, PrintChain, PrintBuckets, PrintZu;
    NothingSaved();
    if c != [] {
      SavedFrame(c);
    }
    SavedSnoc(c, r);
    RecordSpelled(r);
  }

  lemma NothingSaved()
    ensures PrintBuckets([[]]) == ""
  {
    assert PrintBuckets([[]]) == PrintBucket([]) + PrintBuckets([[]][1..]);
  }

  lemma SavedFrame(c: Chain)
    requires c != []
    ensures PrintBuckets([c]) == "$\n" + PrintChain(c) + "\n$\n"
  {
    hide PrintChain;
    assert PrintBuckets([c]) == PrintBucket(c) + PrintBuckets([c][1..]) && PrintBuckets([c][1..]) == "";
    assert "\n" + "$\n" == "\n$\n";
  }

  lemma SavedSnoc(c: Chain, r: Rec)
    ensures PrintChain(c + [r]) == (if c == [] then "" else PrintChain(c) + "|") + PrintRecord(r)
  {
    hide PrintRecord, PrintRecords;
    var p, s := PrintRecords(c), PrintRecord(r);
    PrintSnoc(c, r);
    DropBar(p, s);
    if c != [] {
      EndsInBar(c);
      assert p == p[..|p| - 1] + "|";
    } else {
      assert p == "";
    }
  }

  lemma DropBar(p: string, s: string)
    ensures (p + (s + "|"))[..|p + (s + "|")| - 1] == p + s
  {
  }

  lemma PrintSnoc(c: Chain, r: Rec)
    ensures PrintRecords(c + [r]) == PrintRecords(c) + (PrintRecord(r) + "|") && PrintRecords([]) == ""
  {
    hide PrintRecord;
    assert (c + [r])[..|c|] == c;
  }

  lemma EndsInBar(c: Chain)
    requires c != []
    ensures PrintRecords(c) != "" && PrintRecords(c)[|PrintRecords(c)| - 1] == '|'
  {
    hide PrintRecord;
  }

  lemma RecordSpelled(r: Rec)
    ensures PrintRecord(r) == r.key + "!" + r.value + "!" + (if r.expiry == LONG_MAX then "-1" else PrintZu(r.expiry))
  {
    hide PrintZu;
  }

  // ---------- reading ----------

  /** The fields of one record as text; the parser takes what `strtok` gives it. */
  datatype Fields = Fields(key: Option<string>, value: Option<string>, expiry: Option<string>)

  function Nth(s: seq<string>, i: nat): Option<string> {
    if i < |s| then Some(s[i]) else None
  }

  function ParseRecord(kv: string): Fields {
    var parts := Split(kv, BANG);
    Fields(Nth(parts, 0), Nth(parts, 1), Nth(parts, 2))
  }

  function ParseRecords(kvs: seq<string>): seq<Fields> {
    if kvs == [] then [] else [ParseRecord(kvs[0])] + ParseRecords(kvs[1..])
  }

  function ParseLine(line: string): seq<Fields> {
    ParseRecords(Split(line, BAR))
  }

  /** Inserting a key or value that is missing from the line is undefined. */
  predicate Complete(fs: seq<Fields>) {
    forall f <- fs :: f.key.Some? && f.value.Some?
  }

  /** The table after one record has been replayed. */
  function LoadRecord(t: Buckets, f: Fields, now: Long): (t': Buckets)
    requires |t| == MOD && f.key.Some? && f.value.Some?
    ensures |t'| == MOD
  {
    var k := f.key.value;
    var t1 := Insert(t, k, f.value.value);
    if f.expiry.None? || f.expiry.value == "-1" then t1 else WithExpiry(t1, k, Atol(f.expiry.value), now)
  }

  /** The table after a replayed record has been given the expiry time `x`. */
  function WithExpiry(t: Buckets, k: string, x: Long, now: Long): (t': Buckets)
    requires |t| == MOD
    ensures |t'| == MOD
  {
    if x <= now then Delete(t, k)
    else
      var t' := Collect(t, k, now);
      match Find(t', k)
      case Some(r) => SetExpiry(t', k, x, r.inHeap)
      case None => t'
  }

  function LoadRecords(t: Buckets, fs: seq<Fields>, now: Long): (t': Buckets)
    requires |t| == MOD && Complete(fs)
    ensures |t'| == MOD
    decreases |fs|
  {
    if fs == [] then t else LoadRecords(LoadRecord(t, fs[0], now), fs[1..], now)
  }

  /** The table being rebuilt, and whether the reader is between a pair of `$` lines. */
  datatype Loader = Loader(table: Buckets, on: bool)

  predicate LineOk(line: string, on: bool) {
    on && line != "$" ==> Complete(ParseLine(line))
  }

  function LoadLine(l: Loader, line: string, now: Long): (l': Loader)
    requires |l.table| == MOD && LineOk(line, l.on)
    ensures |l'.table| == MOD
  {
    if line == "$" then l.(on := !l.on)
    else if l.on then l.(table := LoadRecords(l.table, ParseLine(line), now))
    else l
  }

  /** How many bytes `fgets` takes: through the first newline, or `max`. */
  function LineBytes(text: string, max: nat): (n: nat)
    ensures n <= |text| && n <= max
    ensures text != "" && max > 0 ==> n > 0
  {
    if text == "" || max == 0 then 0
    else if text[0] == '\n' then 1
    else 1 + LineBytes(text[1..], max - 1)
  }

  function StripNewline(s: string): string {
    if s != "" && s[|s| - 1] == '\n' then s[..|s| - 1] else s
  }

  /** No line that is parsed lacks a key or a value. */
  predicate TextOk(text: string, on: bool)
    decreases |text|
  {
    text == "" ||
    var n := LineBytes(text, LINE_MAX);
    var line := StripNewline(text[..n]);
    LineOk(line, on) && TextOk(text[n..], if line == "$" then !on else on)
  }

  function LoadText(l: Loader, text: string, now: Long): (l': Loader)
    requires |l.table| == MOD && TextOk(text, l.on)
    ensures |l'.table| == MOD
    decreases |text|
  {
    if text == "" then l
    else
      var n := LineBytes(text, LINE_MAX);
      LoadText(LoadLine(l, StripNewline(text[..n]), now), text[n..], now)
  }

  // ---------- one record and one bucket line ----------

  /** A field that a bucket line gives back: not empty, and free of the two separators. */
  predicate Separable(s: string) {
    s != "" && '!' !in s && '|' !in s
  }

  predicate SeparableChain(c: Chain) {
    forall r <- c :: Separable(r.key) && Separable(r.value)
  }

  function FieldsOf(r: Rec): Fields {
    Fields(Some(r.key), Some(r.value), Some(PrintExpiry(r.expiry)))
  }

  function FieldsOfChain(c: Chain): seq<Fields> {
    if c == [] then [] else [FieldsOf(c[0])] + FieldsOfChain(c[1..])
  }

  lemma ExpiryIsClean(x: Long)
    ensures Separable(PrintExpiry(x)) && '\n' !in PrintExpiry(x)
    ensures PrintExpiry(x) == "-1" <==> x == LONG_MAX
  {
    if x != LONG_MAX {
      var s := PrintZu(x);
      DecShape(Unsigned(x));
      assert IsDigit(s[0]) && "-1"[0] == '-';
    }
  }

  lemma RecordText(r: Rec) returns (text: Text)
    requires Separable(r.key) && Separable(r.value)
    ensures Woven(text, BANG, true) && Weave(text) == PrintRecord(r)
    ensures TokensOf(text) == [r.key, r.value, PrintExpiry(r.expiry)]
  {
    ExpiryIsClean(r.expiry);
    var x := PrintExpiry(r.expiry);
    var last := Piece("!", x, End(""));
    var middle := Piece("!", r.value, last);
    text := Piece("", r.key, middle);
    assert Woven(last, BANG, false) && Woven(middle, BANG, false);
    assert TokensOf(last) == [x] && TokensOf(middle) == [r.value, x];
    assert x + "" == x;
    assert Weave(last) == "!" + x;
    assert "" + PrintRecord(r) == PrintRecord(r);
  }

  lemma ParseOfPrintRecord(r: Rec)
    requires Separable(r.key) && Separable(r.value)
    ensures ParseRecord(PrintRecord(r)) == FieldsOf(r)
    ensures IsToken(PrintRecord(r), BAR)
  {
    hide PrintExpiry, Split;
    var text := RecordText(r);
    SplitOfWeave(text, BANG);
    ExpiryIsClean(r.expiry);
  }

  lemma {:induction false} PrintRecordsCons(c: Chain)
    requires c != []
    ensures PrintRecords(c) == PrintRecord(c[0]) + ("|" + PrintRecords(c[1..]))
  {
    hide PrintRecord;
    var n := |c| - 1;
    var last := PrintRecord(c[n]) + "|";
    if n == 0 {
      assert "|" + PrintRecords([]) == "|";
    } else {
      PrintRecordsCons(c[..n]);
      assert c[1..][..n - 1] == c[..n][1..];
      assert PrintRecords(c[1..]) == PrintRecords(c[..n][1..]) + last;
      assert PrintRecord(c[0]) + ("|" + PrintRecords(c[..n][1..])) + last
          == PrintRecord(c[0]) + ("|" + (PrintRecords(c[..n][1..]) + last));
    }
  }

  /** The bucket line as its records and bars. */
  function ChainText(g: string, c: Chain): Text
    decreases |c|
  {
    if c == [] then End("") else Piece(g, PrintRecord(c[0]), ChainText("|", c[1..]))
  }

  lemma {:induction false} ChainTextWeaves(g: string, c: Chain)
    requires c != []
    ensures Weave(ChainText(g, c)) + "|" == g + PrintRecords(c)
    decreases |c|
  {
    PrintRecordsCons(c);
    var r, rest := PrintRecord(c[0]), Weave(ChainText("|", c[1..]));
    if |c| == 1 {
      assert c[1..] == [];
      assert rest == "" && PrintRecords(c[1..]) == "";
    } else {
      ChainTextWeaves("|", c[1..]);
    }
    assert g + (r + rest) + "|" == g + (r + (rest + "|"));
  }

  lemma {:induction false} ChainTextParses(g: string, c: Chain)
    requires SeparableChain(c) && IsGap(g, BAR)
    ensures Woven(ChainText(g, c), BAR, g == "")
    ensures ParseRecords(TokensOf(ChainText(g, c))) == FieldsOfChain(c)
    decreases |c|
  {
    if c != [] {
      ParseOfPrintRecord(c[0]);
      ChainTextParses("|", c[1..]);
      var tokens := TokensOf(ChainText(g, c));
      assert tokens[1..] == TokensOf(ChainText("|", c[1..]));
    }
  }

  lemma PrintChainIsText(c: Chain)
    requires c != []
    ensures PrintChain(c) == Weave(ChainText("", c))
    ensures PrintRecords(c) == PrintChain(c) + "|"
  {
    ChainTextWeaves("", c);
    var s := Weave(ChainText("", c));
    assert PrintRecords(c) == s + "|" by {
      assert "" + PrintRecords(c) == PrintRecords(c);
    }
    assert (s + "|")[..|s|] == s;
  }

  /** Parsing a printed bucket gives back every record's fields, in order. */
  lemma ParseOfPrintChain(c: Chain)
    requires c != [] && SeparableChain(c)
    ensures ParseLine(PrintChain(c)) == FieldsOfChain(c)
  {
    PrintChainIsText(c);
    ChainTextParses("", c);
    SplitOfWeave(ChainText("", c), BAR);
  }

  lemma {:induction false} TokensAreFromText(t: Text)
    ensures forall w <- TokensOf(t) :: forall ch <- w :: ch in Weave(t)
  {
    if t.Piece? {
      TokensAreFromText(t.rest);
      assert forall ch <- t.token :: ch in t.token + Weave(t.rest);
    }
  }

  lemma SplitIsFromText(s: string, delims: set<char>)
    ensures forall w <- Split(s, delims) :: w != "" && forall ch <- w :: ch in s && ch !in delims
  {
    var t := SplitWeaves(s, delims);
    TokensAreFromText(t);
    SplitGivesTokens(s, delims);
  }

  /** A field `strtok` gave back is not empty and holds neither a bang nor a byte that is not in the text. */
  predicate Without(field: Option<string>, ch: char) {
    field.Some? ==> field.value != "" && '!' !in field.value && ch !in field.value
  }

  lemma {:induction false} ParsedFieldsAreFromText(kvs: seq<string>, ch: char)
    requires forall kv <- kvs :: ch !in kv
    ensures forall f <- ParseRecords(kvs) :: Without(f.key, ch) && Without(f.value, ch)
  {
    if kvs != [] {
      SplitIsFromText(kvs[0], BANG);
      var parts, f := Split(kvs[0], BANG), ParseRecord(kvs[0]);
      assert ch !in kvs[0];
      assert f.key.Some? ==> f.key.value in parts;
      assert f.value.Some? ==> f.value.value in parts;
      ParsedFieldsAreFromText(kvs[1..], ch);
    }
  }

  lemma {:induction false} FieldsOfChainAt(c: Chain, i: nat)
    requires i < |c|
    ensures FieldsOf(c[i]) in FieldsOfChain(c)
  {
    if i > 0 {
      FieldsOfChainAt(c[1..], i - 1);
    }
  }

  /** A bucket line gives back its records exactly when no field is empty or holds a separator. */
  lemma ParseInvertsPrint(c: Chain)
    requires c != []
    ensures ParseLine(PrintChain(c)) == FieldsOfChain(c) <==> SeparableChain(c)
  {
    if SeparableChain(c) {
      ParseOfPrintChain(c);
    }
    if ParseLine(PrintChain(c)) == FieldsOfChain(c) {
      SplitIsFromText(PrintChain(c), BAR);
      ParsedFieldsAreFromText(Split(PrintChain(c), BAR), '|');
      forall r <- c ensures Separable(r.key) && Separable(r.value) {
        var i :| 0 <= i < |c| && c[i] == r;
        FieldsOfChainAt(c, i);
      }
    }
  }

  // ---------- replaying one bucket ----------

  /** A record after save and rebuild at time `now`; None when it is dropped. */
  function Reloaded(r: Rec, now: Long): Option<Rec> {
    if r.expiry == LONG_MAX then Some(Rec(r.key, r.value, -1, false))
    else
      var x: Long := if r.expiry >= 0 then r.expiry else LONG_MAX;
      if x <= now then None else Some(Rec(r.key, r.value, x, false))
  }

  function ReloadedChain(c: Chain, now: Long): Chain {
    if c == [] then [] else Kept(c[0], now) + ReloadedChain(c[1..], now)
  }

  function Kept(r: Rec, now: Long): Chain {
    match Reloaded(r, now)
    case Some(r') => [r']
    case None => []
  }

  /** `more` at the end of bucket `b`. */
  function AppendTo(t: Buckets, b: nat, more: Chain): (t': Buckets)
    requires b < |t|
    ensures |t'| == |t|
  {
    t[b := t[b] + more]
  }

  lemma AppendedIsFound(t: Buckets, r: Rec)
    requires Wf(t) && Find(t, r.key).None?
    ensures var b := Bucket(r.key); var t' := AppendTo(t, b, [r]);
            Wf(t') && Position(t'[b], r.key) == |t[b]| && Find(t', r.key) == Some(r)
            && forall k | k != r.key :: Find(t', k) == Find(t, k)
  {
    var b := Bucket(r.key);
    var t': Buckets := AppendTo(t, b, [r]);
    assert WfChain(t[b], b);
    assert t'[b][|t[b]|].key == r.key;
    forall k | k != r.key ensures Find(t', k) == Find(t, k) {
      var p := Position(t[Bucket(k)], k);
      assert p < |t[Bucket(k)]| ==> t'[Bucket(k)][p].key == k;
    }
  }

  /** Replaying the printed form of a record whose key is not in the table appends what is left of it. */
  lemma LoadPrinted(t: Buckets, r: Rec, now: Long)
    requires Wf(t) && Find(t, r.key).None? && Total(t) + 1 < MAX_ALLOWED
    ensures LoadRecord(t, FieldsOf(r), now) == AppendTo(t, Bucket(r.key), Kept(r, now))
  {
    hide Find, Bucket, WfChain, Insert, WithExpiry, Atol, PrintZu;
    var b, added := Bucket(r.key), Rec(r.key, r.value, -1, false);
    NewRecordGoesLast(t, r.key, r.value);
    ExpiryIsClean(r.expiry);
    assert Insert(t, r.key, r.value) == AppendTo(t, b, [added]);
    if r.expiry != LONG_MAX {
      AtolOfPrintZu(r.expiry);
      GiveLastExpiry(t, added, Atol(PrintExpiry(r.expiry)), now);
    }
  }

  /** Giving the last record an expiry drops it or stamps it. */
  lemma GiveLastExpiry(t: Buckets, r: Rec, x: Long, now: Long)
    requires Wf(t) && Find(t, r.key).None? && r.expiry == -1 && !r.inHeap
    ensures WithExpiry(AppendTo(t, Bucket(r.key), [r]), r.key, x, now)
         == AppendTo(t, Bucket(r.key), if x <= now then [] else [r.(expiry := x)])
  {
    hide Find, Bucket, WfChain, Delete, SetExpiry, AppendTo;
    AppendedIsFound(t, r);
    if x <= now {
      DeleteLast(t, r);
    } else {
      StampLast(t, r, x);
    }
  }

  lemma DeleteLast(t: Buckets, r: Rec)
    requires Wf(t) && Find(t, r.key).None?
    ensures Delete(AppendTo(t, Bucket(r.key), [r]), r.key) == AppendTo(t, Bucket(r.key), [])
  {
    var b := Bucket(r.key);
    var t1 := AppendTo(t, b, [r]);
    var p := |t[b]|;
    AppendedIsFound(t, r);
    assert t1[b][..p] + t1[b][p + 1..] == t[b] + [];
  }

  lemma StampLast(t: Buckets, r: Rec, x: Long)
    requires Wf(t) && Find(t, r.key).None?
    ensures SetExpiry(AppendTo(t, Bucket(r.key), [r]), r.key, x, r.inHeap)
         == AppendTo(t, Bucket(r.key), [r.(expiry := x)])
  {
    var b := Bucket(r.key);
    var t1 := AppendTo(t, b, [r]);
    AppendedIsFound(t, r);
    assert Stamp(t1[b], r.key, x, r.inHeap) == t[b] + [r.(expiry := x)];
  }

  lemma AppendKept(t: Buckets, r: Rec, now: Long)
    requires Wf(t) && Find(t, r.key).None?
    ensures var t' := AppendTo(t, Bucket(r.key), Kept(r, now));
            Wf(t') && Total(t') <= Total(t) + 1 && forall k | k != r.key :: Find(t', k) == Find(t, k)
  {
    var b := Bucket(r.key);
    TotalUpdate(t, b, t[b] + Kept(r, now));
    if Reloaded(r, now).Some? {
      AppendedIsFound(t, Reloaded(r, now).value);
    } else {
      AppendNothing(t, b);
    }
  }

  lemma AppendNothing(t: Buckets, b: nat)
    requires b < |t|
    ensures AppendTo(t, b, []) == t
  {
    assert t[b] + [] == t[b];
  }

  lemma AppendTwice(t: Buckets, b: nat, first: Chain, second: Chain)
    requires b < |t|
    ensures AppendTo(AppendTo(t, b, first), b, second) == AppendTo(t, b, first + second)
  {
    assert t[b] + first + second == t[b] + (first + second);
  }

  lemma ChainTail(c: Chain, b: nat)
    requires WfChain(c, b) && c != []
    ensures WfChain(c[1..], b) && forall r <- c[1..] :: r in c && r.key != c[0].key
  {
    forall r <- c[1..] ensures r in c && r.key != c[0].key {
      var j :| 0 <= j < |c| - 1 && c[1..][j] == r;
      assert c[j + 1] == r;
    }
  }
}
