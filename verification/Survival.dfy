/** Which tables come back from the savefile: the exact condition, and what happens to the others. */
module Survival {
  import opened Common
  import opened Table
  import opened Tokens
  import opened SaveFormat
  import opened Pieces
  import opened RoundTrip
  import opened Invariants

  // ---------- what a rebuild can store ----------

  /** A key and a value that a line of the file can hold. */
  predicate Clean(k: string, v: string) {
    Separable(k) && Separable(v) && '\n' !in k && '\n' !in v
  }

  lemma {:induction false} LineHasNoNewline(text: string, max: nat)
    ensures '\n' !in StripNewline(text[..LineBytes(text, max)])
  {
    if text != "" && max > 0 && text[0] != '\n' {
      var n := LineBytes(text[1..], max - 1);
      LineHasNoNewline(text[1..], max - 1);
      var line, rest := text[..n + 1], text[1..][..n];
      assert line == [text[0]] + rest;
      assert rest != "" ==> line[|line| - 1] == rest[|rest| - 1];
      assert StripNewline(line) == [text[0]] + StripNewline(rest);
    }
  }

  lemma LineFieldsAreClean(line: string)
    requires '\n' !in line
    ensures forall f <- ParseLine(line) | f.key.Some? && f.value.Some? :: Clean(f.key.value, f.value.value)
  {
    hide Split, ParseRecords;
    SplitIsFromText(line, BAR);
    ParsedFieldsAreFromText(Split(line, BAR), '|');
    ParsedFieldsAreFromText(Split(line, BAR), '\n');
    forall f <- ParseLine(line) | f.key.Some? && f.value.Some? ensures Clean(f.key.value, f.value.value) {
      assert Without(f.key, '|') && Without(f.value, '|') && Without(f.key, '\n') && Without(f.value, '\n');
    }
  }

  lemma WithExpiryFind(t: Buckets, k: string, x: Long, now: Long)
    requires Wf(t)
    ensures var t' := WithExpiry(t, k, x, now);
      && Wf(t') && Total(t') <= Total(t)
      && (Find(t', k).Some? ==> Find(t, k).Some? && Find(t', k).value.value == Find(t, k).value.value)
      && forall k' | k' != k :: Find(t', k') == Find(t, k')
  {
    hide WfChain, Find, Delete, SetExpiry;
    FindDelete(t, k);
    FindCollect(t, k, now);
    var t1 := Collect(t, k, now);
    if x > now && Find(t1, k).Some? {
      FindSetExpiry(t1, k, x, Find(t1, k).value.inHeap);
    }
  }

  /** What replaying one record does to every key. */
  lemma LoadRecordFind(t: Buckets, f: Fields, now: Long)
    requires Wf(t) && f.key.Some? && f.value.Some?
    ensures var t', k, v := LoadRecord(t, f, now), f.key.value, f.value.value;
      && Wf(t') && Total(t') <= Total(t) + 1
      && (Find(t', k).Some? ==> Find(t', k).value.key == k && Find(t', k).value.value == v)
      && (f.expiry.None? ==> Find(t', k) == if Full(t, k) then None else Some(Written(Find(t, k), k, v)))
      && forall k' | k' != k :: Find(t', k') == Find(t, k')
  {
    hide WfChain, Find, Full, Insert, WithExpiry;
    var k, v := f.key.value, f.value.value;
    FindInsert(t, k, v);
    if Full(t, k) {
      FullMeansMissing(t, k, v);
    }
    FoundUnderItsKey(LoadRecord(t, f, now), k);
    var t1 := Insert(t, k, v);
    if !(f.expiry.None? || f.expiry.value == "-1") {
      WithExpiryFind(t1, k, Decimal.Atol(f.expiry.value), now);
    }
  }

  lemma FullMeansMissing(t: Buckets, k: string, v: string)
    requires |t| == MOD && Full(t, k)
    ensures Find(Insert(t, k, v), k) == None
  {
  }

  lemma FoundUnderItsKey(t: Buckets, k: string)
    requires |t| == MOD
    ensures Find(t, k).Some? ==> Find(t, k).value.key == k
  {
  }

  lemma {:induction false} LoadRecordsKeepClean(t: Buckets, fs: seq<Fields>, now: Long)
    requires Wf(t) && AllFields(t, Clean) && Complete(fs)
    requires forall f <- fs :: Clean(f.key.value, f.value.value)
    ensures Wf(LoadRecords(t, fs, now)) && AllFields(LoadRecords(t, fs, now), Clean)
    decreases |fs|
  {
    hide WfChain, Find, Clean, LoadRecord;
    if fs != [] {
      var f, t' := fs[0], LoadRecord(t, fs[0], now);
      LoadRecordFind(t, f, now);
      forall k ensures FieldsAt(t', k, Clean) {
        assert FieldsAt(t, k, Clean);
      }
      LoadRecordsKeepClean(t', fs[1..], now);
    }
  }

  /** Whatever text is rebuilt from, the fields it stores are clean. */
  lemma {:induction false} RebuiltFieldsAreClean(l: Loader, text: string, now: Long)
    requires Wf(l.table) && AllFields(l.table, Clean) && TextOk(text, l.on)
    ensures Wf(LoadText(l, text, now).table) && AllFields(LoadText(l, text, now).table, Clean)
    decreases |text|
  {
    hide AllFields, LoadRecords, ParseLine, LineBytes, Clean;
    if text != "" {
      var n := LineBytes(text, LINE_MAX);
      var line := StripNewline(text[..n]);
      LineHasNoNewline(text, LINE_MAX);
      if line != "$" && l.on {
        LineFieldsAreClean(line);
        LoadRecordsKeepClean(l.table, ParseLine(line), now);
      }
      RebuiltFieldsAreClean(LoadLine(l, line, now), text[n..], now);
    }
  }

  lemma NothingIsClean()
    ensures Wf(Empty()) && AllFields(Empty(), Clean)
  {
    EmptyIsWf();
  }

  /** If a table comes back, every record of it that a rebuild keeps has clean fields. */
  lemma KeptFieldsAreClean(t: Buckets, k: string, now: Long)
    requires Wf(t) && ComesBack(t, now) && Find(t, k).Some? && Reloaded(Find(t, k).value, now).Some?
    ensures Clean(k, Find(t, k).value.value)
  {
    hide LoadText, TextOk, SaveText, Find, Clean;
    NothingIsClean();
    RebuiltFieldsAreClean(Loader(Empty(), false), SaveText(t), now);
    FindInReload(t, k, now);
    FoundUnderItsKey(t, k);
    assert FieldsAt(Reload(t, now), k, Clean);
  }

  // ---------- which record a field of the file comes from ----------

  /** What the reader makes of record `j`. */
  function PiecesAt(c: Chain, j: nat): seq<Fields>
    requires j < |c|
  {
    RecordPieces(PrintRecord(c[j]), RoomAt(c, j))
  }

  lemma {:induction false} ChainPieceOrigin(c: Chain, i: nat, f: Fields) returns (j: nat)
    requires i <= |c| && f in ChainPieces(c, i)
    ensures i <= j < |c| && f in PiecesAt(c, j)
    decreases |c| - i
  {
    hide RecordPieces, PrintRecord, RoomAt;
    j := i;
    if f !in PiecesAt(c, i) {
      j := ChainPieceOrigin(c, i + 1, f);
    }
  }

  lemma {:induction false} ChainPieceIsRead(c: Chain, i: nat, j: nat)
    requires i <= j < |c|
    ensures forall f <- PiecesAt(c, j) :: f in ChainPieces(c, i)
    decreases |c| - i
  {
    hide RecordPieces, PrintRecord, RoomAt;
    if i < j {
      ChainPieceIsRead(c, i + 1, j);
    }
  }

  lemma BucketPieces(c: Chain)
    requires SeparableChain(c)
    ensures BucketFields(c) == ChainPieces(c, 0)
  {
    hide PieceFields, PrintChain, SeparableChain, RecordPieces, RoomAfter;
    if c != [] {
      assert c[0..] == c;
      PiecesOfChain(c, 0);
    }
  }

  lemma {:induction false} FieldOrigin(t: seq<Chain>, f: Fields) returns (b: nat, j: nat)
    requires (forall c <- t :: SeparableChain(c)) && f in FileFields(t)
    ensures b < |t| && j < |t[b]| && f in PiecesAt(t[b], j)
  {
    hide BucketFields, ChainPieces, SeparableChain, PiecesAt;
    if f in BucketFields(t[0]) {
      BucketPieces(t[0]);
      j := ChainPieceOrigin(t[0], 0, f);
      b := 0;
    } else {
      b, j := FieldOrigin(t[1..], f);
      b := b + 1;
    }
  }

  lemma {:induction false} PieceIsRead(t: seq<Chain>, b: nat, j: nat)
    requires (forall c <- t :: SeparableChain(c)) && b < |t| && j < |t[b]|
    ensures forall f <- PiecesAt(t[b], j) :: f in FileFields(t)
  {
    hide BucketFields, ChainPieces, SeparableChain, PiecesAt;
    if b == 0 {
      BucketPieces(t[0]);
      ChainPieceIsRead(t[0], 0, j);
    } else {
      PieceIsRead(t[1..], b - 1, j);
    }
  }

  // ---------- cut records ----------

  /** Every field is clean. */
  ghost predicate CleanTable(t: Buckets) {
    forall b | 0 <= b < |t| :: SeparableChain(t[b]) && OnOneLine(t[b])
  }

  predicate IsCut(t: Buckets, b: nat, j: nat) {
    b < |t| && j < |t[b]| && !Whole(t[b], j)
  }

  predicate CutInValue(t: Buckets, b: nat, j: nat) {
    b < |t| && j < |t[b]| && !Whole(t[b], j) && InValue(t[b][j], RoomAt(t[b], j))
  }

  /** The part of the value before the cut, and the part after it, which the reader takes for a key. */
  function HeadOf(t: Buckets, b: nat, j: nat): string
    requires CutInValue(t, b, j)
  {
    t[b][j].value[..KeptBytes(t[b][j], RoomAt(t[b], j))]
  }

  function TailOf(t: Buckets, b: nat, j: nat): string
    requires CutInValue(t, b, j)
  {
    t[b][j].value[KeptBytes(t[b][j], RoomAt(t[b], j))..]
  }

  lemma CutPieces(t: Buckets, b: nat, j: nat)
    requires CleanTable(t) && IsCut(t, b, j)
    ensures Complete(PiecesAt(t[b], j)) <==> CutInValue(t, b, j)
    ensures CutInValue(t, b, j) ==>
      PiecesAt(t[b], j) == [Fields(Some(t[b][j].key), Some(HeadOf(t, b, j)), None),
                            Fields(Some(TailOf(t, b, j)), Some(PrintExpiry(t[b][j].expiry)), None)]
  {
    hide PrintRecord, RoomAt, RecordPieces, PrintExpiry, InValue;
    assert SeparableChain(t[b]);
    CutRecord(t[b][j], RoomAt(t[b], j));
  }

  lemma WholePiece(t: Buckets, b: nat, j: nat)
    requires CleanTable(t) && b < |t| && j < |t[b]| && Whole(t[b], j)
    ensures PiecesAt(t[b], j) == [FieldsOf(t[b][j])]
  {
    hide PrintRecord, RoomAt, ParseRecord;
    assert SeparableChain(t[b]);
    ParseOfPrintRecord(t[b][j]);
  }

  /** A rebuild from a saved file is defined exactly when every cut falls next to a bar or inside a value. */
  lemma DefinedExactly(t: Buckets)
    requires |t| == MOD && CleanTable(t)
    ensures TextOk(SaveText(t), false) <==> forall b, j | IsCut(t, b, j) :: CutInValue(t, b, j)
  {
    hide TextOk, SaveText, PiecesAt, FileFields, SeparableChain, OnOneLine, Whole, InValue, RoomAt;
    assert forall c <- t :: SeparableChain(c) && OnOneLine(c);
    ReadFile(t, 0);
    if Complete(FileFields(t)) {
      forall b, j | IsCut(t, b, j) ensures CutInValue(t, b, j) {
        PieceIsRead(t, b, j);
        CutPieces(t, b, j);
      }
    }
    if forall b, j | IsCut(t, b, j) :: CutInValue(t, b, j) {
      forall f <- FileFields(t) ensures f.key.Some? && f.value.Some? {
        var b, j := FieldOrigin(t, f);
        if IsCut(t, b, j) {
          CutPieces(t, b, j);
        } else {
          WholePiece(t, b, j);
        }
      }
    }
  }

  lemma SameKeySamePlace(t: Buckets, b: nat, j: nat, b': nat, j': nat)
    requires Wf(t) && b < MOD && j < |t[b]| && b' < MOD && j' < |t[b']| && t[b][j].key == t[b'][j'].key
    ensures b == b' && j == j'
  {
    assert WfChain(t[b], b) && WfChain(t[b'], b');
  }

  /** A field that the reader files under a cut record's key: that record's own first half, or another's second half. */
  lemma FieldOfCutKey(t: Buckets, b: nat, j: nat, f: Fields) returns (b': nat, j': nat)
    requires Wf(t) && CleanTable(t) && IsCut(t, b, j) && Complete(FileFields(t))
    requires f in FileFields(t) && f.key == Some(t[b][j].key)
    ensures CutInValue(t, b, j) && f.expiry.None?
    ensures (b' == b && j' == j && f.value == Some(HeadOf(t, b, j)))
         || (CutInValue(t, b', j') && TailOf(t, b', j') == t[b][j].key
             && f.value == Some(PrintExpiry(t[b'][j'].expiry)))
  {
    hide PiecesAt, FileFields, SeparableChain, OnOneLine, Whole, InValue, RoomAt, PrintExpiry, WfChain;
    assert forall c <- t :: SeparableChain(c);
    PieceIsRead(t, b, j);
    CutPieces(t, b, j);
    b', j' := FieldOrigin(t, f);
    if IsCut(t, b', j') {
      PieceIsRead(t, b', j');
      CutPieces(t, b', j');
      if f == PiecesAt(t[b'], j')[0] {
        SameKeySamePlace(t, b, j, b', j');
      }
    } else {
      WholePiece(t, b', j');
      SameKeySamePlace(t, b, j, b', j');
    }
  }

  /** A key that the file never gives an expiry ends up without one, with one of the values the file gives it. */
  lemma {:induction false} LoadedWithoutExpiry(t: Buckets, fs: seq<Fields>, k: string, vs: set<string>, now: Long)
    requires Wf(t) && Complete(fs)
    requires forall f <- fs | f.key == Some(k) :: f.expiry.None? && f.value.value in vs
    requires Unexpiring(t, k, vs)
    ensures var t' := LoadRecords(t, fs, now); Unexpiring(t', k, vs)
    ensures Total(t) + |fs| < MAX_ALLOWED && (Find(t, k).Some? || exists f <- fs :: f.key == Some(k))
            ==> Find(LoadRecords(t, fs, now), k).Some?
    decreases |fs|
  {
    hide WfChain, Find, LoadRecord;
    if fs != [] {
      var f, t' := fs[0], LoadRecord(t, fs[0], now);
      LoadRecordFind(t, f, now);
      assert f in fs;
      assert Total(t) + 1 < MAX_ALLOWED ==> !Full(t, k);
      LoadedWithoutExpiry(t', fs[1..], k, vs, now);
    }
  }

  /** If `k` is there, it never expires, is outside the heap and has one of these values. */
  predicate Unexpiring(t: Buckets, k: string, vs: set<string>)
    requires |t| == MOD
  {
    match Find(t, k)
    case Some(r) => r.key == k && r.expiry == -1 && !r.inHeap && r.value in vs
    case None => true
  }

  lemma LoadedIntoEmpty(fs: seq<Fields>, k: string, vs: set<string>, now: Long)
    requires Complete(fs) && forall f <- fs | f.key == Some(k) :: f.expiry.None? && f.value.value in vs
    ensures Unexpiring(LoadRecords(Empty(), fs, now), k, vs)
    ensures |fs| < MAX_ALLOWED && (exists f <- fs :: f.key == Some(k)) ==> Find(LoadRecords(Empty(), fs, now), k).Some?
  {
    EmptyHasNothing();
    LoadedWithoutExpiry(Empty(), fs, k, vs, now);
  }

  lemma PartsComplete(a: seq<Fields>, b: seq<Fields>)
    requires Complete(a + b)
    ensures Complete(a) && Complete(b)
  {
    assert forall f <- b :: f in a + b;
    assert forall f <- a :: f in a + b;
  }

  /** If the reading is defined, no record is read as more than two. */
  lemma {:induction false} FewPieces(c: Chain, i: nat)
    requires SeparableChain(c) && i <= |c| && Complete(ChainPieces(c, i))
    ensures |ChainPieces(c, i)| <= 2 * (|c| - i)
    decreases |c| - i
  {
    hide PrintRecord, RoomAt, RecordPieces, Separable, Complete, InValue;
    if i < |c| {
      PartsComplete(PiecesAt(c, i), ChainPieces(c, i + 1));
      if Whole(c, i) {
        ParseOfPrintRecord(c[i]);
        OnePiece(PrintRecord(c[i]), RoomAt(c, i));
      } else {
        CutRecord(c[i], RoomAt(c, i));
      }
      FewPieces(c, i + 1);
    }
  }

  lemma OnePiece(s: string, room: nat)
    requires 0 < room && |s| <= room
    ensures |RecordPieces(s, room)| == 1
  {
  }

  lemma {:induction false} FewFields(t: seq<Chain>)
    requires (forall c <- t :: SeparableChain(c)) && Complete(FileFields(t))
    ensures |FileFields(t)| <= 2 * Total(t)
  {
    hide BucketFields, ChainPieces, SeparableChain, Complete;
    if t != [] {
      PartsComplete(BucketFields(t[0]), FileFields(t[1..]));
      BucketPieces(t[0]);
      FewPieces(t[0], 0);
      FewFields(t[1..]);
    }
  }

  /** A key that every field of the file gives the same value and no expiry comes back with that value. */
  lemma OneValueComesBack(t: Buckets, k: string, v: string, f: Fields, now: Long)
    requires Wf(t) && CleanTable(t) && TextOk(SaveText(t), false) && 2 * Total(t) < MAX_ALLOWED
    requires f in FileFields(t) && f.key == Some(k)
    requires forall g <- FileFields(t) | g.key == Some(k) :: g.expiry.None? && g.value == Some(v)
    ensures Find(LoadText(Loader(Empty(), false), SaveText(t), now).table, k) == Some(Rec(k, v, -1, false))
  {
    hide TextOk, SaveText, LoadText, LoadRecords, FileFields, Find, WfChain, SeparableChain, OnOneLine;
    assert forall c <- t :: SeparableChain(c) && OnOneLine(c);
    ReadFile(t, now);
    FewFields(t);
    LoadedIntoEmpty(FileFields(t), k, {v}, now);
  }

  /** A record cut inside its value comes back with the first half, unless some other second half spells its key. */
  lemma ValueIsCut(t: Buckets, b: nat, j: nat, now: Long)
    requires Wf(t) && CleanTable(t) && TextOk(SaveText(t), false) && 2 * Total(t) < MAX_ALLOWED
    requires CutInValue(t, b, j)
    requires forall b', j' | CutInValue(t, b', j') :: TailOf(t, b', j') != t[b][j].key
    ensures Find(LoadText(Loader(Empty(), false), SaveText(t), now).table, t[b][j].key)
         == Some(Rec(t[b][j].key, HeadOf(t, b, j), -1, false))
  {
    hide TextOk, SaveText, LoadText, PiecesAt, FileFields, Whole, InValue, RoomAt, Find, WfChain;
    hide SeparableChain, OnOneLine;
    var k := t[b][j].key;
    DefinedMeansComplete(t);
    forall f <- FileFields(t) | f.key == Some(k) ensures f.expiry.None? && f.value == Some(HeadOf(t, b, j)) {
      var _, _ := FieldOfCutKey(t, b, j, f);
    }
    PieceIsRead(t, b, j);
    CutPieces(t, b, j);
    OneValueComesBack(t, k, HeadOf(t, b, j), PiecesAt(t[b], j)[0], now);
  }

  lemma DefinedMeansComplete(t: Buckets)
    requires |t| == MOD && CleanTable(t)
    ensures TextOk(SaveText(t), false) <==> Complete(FileFields(t))
    ensures forall c <- t :: SeparableChain(c)
  {
    hide TextOk, SaveText, LoadText, FileFields, SeparableChain, OnOneLine;
    assert forall c <- t :: SeparableChain(c) && OnOneLine(c);
    ReadFile(t, 0);
  }

  /** A field filed under a second half that spells no stored key and no other second half is that half's own. */
  lemma FieldOfTail(t: Buckets, b: nat, j: nat, f: Fields)
    requires Wf(t) && CleanTable(t) && Complete(FileFields(t)) && CutInValue(t, b, j) && OnlyTail(t, b, j)
    requires f in FileFields(t) && f.key == Some(TailOf(t, b, j))
    ensures f.expiry.None? && f.value == Some(PrintExpiry(t[b][j].expiry))
  {
    hide PiecesAt, FileFields, SeparableChain, OnOneLine, Whole, InValue, RoomAt, PrintExpiry, WfChain, Find;
    assert forall c <- t :: SeparableChain(c);
    var b', j' := FieldOrigin(t, f);
    StoredIsFound(t, b', j');
    if IsCut(t, b', j') {
      PieceIsRead(t, b', j');
      CutPieces(t, b', j');
      assert f == PiecesAt(t[b'], j')[1];
    } else {
      WholePiece(t, b', j');
    }
  }

  /** The second half of this value is no stored key, and no other second half. */
  ghost predicate OnlyTail(t: Buckets, b: nat, j: nat)
    requires |t| == MOD && CutInValue(t, b, j)
  {
    && Find(t, TailOf(t, b, j)).None?
    && forall b', j' | CutInValue(t, b', j') && TailOf(t, b', j') == TailOf(t, b, j) :: b' == b && j' == j
  }

  /** The second half of a cut value comes back as a key of its own, with the expiry text for a value. */
  lemma SecondHalfIsAKey(t: Buckets, b: nat, j: nat, now: Long)
    requires Wf(t) && CleanTable(t) && TextOk(SaveText(t), false) && 2 * Total(t) < MAX_ALLOWED
    requires CutInValue(t, b, j) && OnlyTail(t, b, j)
    ensures Find(LoadText(Loader(Empty(), false), SaveText(t), now).table, TailOf(t, b, j))
         == Some(Rec(TailOf(t, b, j), PrintExpiry(t[b][j].expiry), -1, false))
  {
    hide TextOk, SaveText, LoadText, PiecesAt, FileFields, Whole, InValue, RoomAt, Find, WfChain;
    hide SeparableChain, OnOneLine;
    hide PrintExpiry;
    var k := TailOf(t, b, j);
    DefinedMeansComplete(t);
    forall f <- FileFields(t) | f.key == Some(k)
      ensures f.expiry.None? && f.value == Some(PrintExpiry(t[b][j].expiry))
    {
      FieldOfTail(t, b, j, f);
    }
    PieceIsRead(t, b, j);
    CutPieces(t, b, j);
    OneValueComesBack(t, k, PrintExpiry(t[b][j].expiry), PiecesAt(t[b], j)[1], now);
  }

  // ---------- the exact condition ----------

  ghost predicate NothingDropped(t: Buckets, now: Long)
    requires |t| == MOD
  {
    forall k :: Stays(t, k, now)
  }

  predicate Stays(t: Buckets, k: string, now: Long)
    requires |t| == MOD
  {
    Find(t, k).Some? ==> Reloaded(Find(t, k).value, now).Some?
  }

  /** If the table comes back, a cut record never expires, and another's second half gave it its value back. */
  lemma CutIsRepaired(t: Buckets, b: nat, j: nat, now: Long) returns (b': nat, j': nat)
    requires Wf(t) && CleanTable(t) && ComesBack(t, now) && IsCut(t, b, j)
    requires NothingDropped(t, now) || 2 * Total(t) < MAX_ALLOWED
    ensures CutInValue(t, b, j) && t[b][j].expiry == LONG_MAX
    ensures CutInValue(t, b', j') && TailOf(t, b', j') == t[b][j].key && PrintExpiry(t[b'][j'].expiry) == t[b][j].value
  {
    hide TextOk, SaveText, LoadText, LoadRecords, PiecesAt, FileFields, Whole, InValue, RoomAt, Find, PrintExpiry;
    hide SeparableChain, OnOneLine, WfChain;
    var fs, r := FileFields(t), t[b][j];
    assert forall c <- t :: SeparableChain(c) && OnOneLine(c);
    ReadFile(t, now);
    DefinedExactly(t);
    var vs := set f | f in fs && f.key == Some(r.key) && f.value.Some? :: f.value.value;
    forall f <- fs | f.key == Some(r.key) ensures f.expiry.None? && f.value.value in vs {
      var _, _ := FieldOfCutKey(t, b, j, f);
    }
    LoadedIntoEmpty(fs, r.key, vs, now);
    StoredIsFound(t, b, j);
    FindInReload(t, r.key, now);
    if !NothingDropped(t, now) {
      FewFields(t);
      PieceIsRead(t, b, j);
      CutPieces(t, b, j);
      assert PiecesAt(t[b], j)[0] in fs;
    } else {
      assert Stays(t, r.key, now);
    }
    var f :| f in fs && f.key == Some(r.key) && f.value == Some(r.value);
    b', j' := FieldOfCutKey(t, b, j, f);
    assert |HeadOf(t, b, j)| < |r.value|;
  }

  lemma CutIsFluke(t: Buckets, b: nat, j: nat, now: Long)
    requires Wf(t) && CleanTable(t) && ComesBack(t, now) && IsCut(t, b, j)
    requires NothingDropped(t, now) || 2 * Total(t) < MAX_ALLOWED
    ensures Fluke(t[b][j], RoomAt(t[b], j))
  {
    hide ComesBack, NothingDropped, CleanTable, WfChain, RoomAt, Whole, Total;
    var b1, j1 := CutIsRepaired(t, b, j, now);
    var b2, j2 := CutIsRepaired(t, b1, j1, now);
    var _, _ := CutIsRepaired(t, b2, j2, now);
    assert t[b][j].value == "-1" && t[b1][j1].value == "-1";
    assert "-1"[1..] == "1";
  }

  /** A table of which a rebuild drops nothing comes back exactly when every field is clean and no cut does harm. */
  lemma ComesBackExactly(t: Buckets, now: Long)
    requires Wf(t) && Total(t) < MAX_ALLOWED && NothingDropped(t, now)
    ensures ComesBack(t, now) <==> Savable(t)
  {
    hide ComesBack, NothingDropped, Harmless, Find, Reloaded, Total;
    if Savable(t) {
      SaveThenRebuild(t, now);
    }
    if ComesBack(t, now) {
      forall b | 0 <= b < MOD ensures SeparableChain(t[b]) && OnOneLine(t[b]) {
        StoredFieldsAreClean(t, b, now);
      }
      forall b | 0 <= b < MOD ensures SavableChain(t[b]) {
        forall j | 0 <= j < |t[b]| ensures Harmless(t[b], j) {
          CutsAreHarmless(t, b, j, now);
        }
      }
    }
  }

  lemma StoredFieldsAreClean(t: Buckets, b: nat, now: Long)
    requires Wf(t) && NothingDropped(t, now) && ComesBack(t, now) && b < MOD
    ensures SeparableChain(t[b]) && OnOneLine(t[b])
  {
    hide ComesBack, Find, Reloaded, WfChain;
    forall r <- t[b] ensures Clean(r.key, r.value) {
      var j :| 0 <= j < |t[b]| && t[b][j] == r;
      StoredIsFound(t, b, j);
      assert Stays(t, r.key, now);
      KeptFieldsAreClean(t, r.key, now);
    }
  }

  lemma CutsAreHarmless(t: Buckets, b: nat, j: nat, now: Long)
    requires Wf(t) && CleanTable(t) && ComesBack(t, now) && b < MOD && j < |t[b]|
    requires NothingDropped(t, now) || 2 * Total(t) < MAX_ALLOWED
    ensures Harmless(t[b], j)
  {
    hide ComesBack, NothingDropped, CleanTable, WfChain, Whole, RoomAt, Total;
    if !Whole(t[b], j) {
      CutIsFluke(t, b, j, now);
    }
  }

  /** Whatever has expired, a table with clean fields comes back exactly when every cut is harmless. */
  lemma CleanTableComesBack(t: Buckets, now: Long)
    requires Wf(t) && CleanTable(t) && 2 * Total(t) < MAX_ALLOWED
    ensures ComesBack(t, now) <==> forall b | 0 <= b < MOD :: HarmlessChain(t[b])
  {
    hide ComesBack, Harmless, SeparableChain, OnOneLine, Find, Total;
    if Savable(t) {
      SaveThenRebuild(t, now);
    }
    if ComesBack(t, now) {
      forall b | 0 <= b < MOD ensures HarmlessChain(t[b]) {
        forall j | 0 <= j < |t[b]| ensures Harmless(t[b], j) {
          CutsAreHarmless(t, b, j, now);
        }
      }
    }
  }
}
