/** Runs of requests whose savefile does not give back what was stored. */
module Losses {
  import opened Common
  import opened Djb2
  import opened Table
  import opened Tokens
  import opened Decimal
  import opened Commands
  import opened Reference
  import opened SaveFormat
  import opened Pieces
  import opened RoundTrip
  import opened Invariants
  import opened Survival
  import opened Dbsave

  // ---------- runs that lose values ----------

  /** A SET for each record. */
  function SetAll(c: Chain, now: Long): seq<Event> {
    if c == [] then [] else [Event(Set(c[0].key, c[0].value), now)] + SetAll(c[1..], now)
  }

  predicate Fresh(c: Chain) {
    forall r <- c :: r.expiry == -1 && !r.inHeap
  }

  /** SETs of new keys of one bucket build its chain in order. */
  lemma {:induction false} SetAllBuilds(done: Chain, c: Chain, b: nat, now: Long)
    requires b < MOD && WfChain(done + c, b) && Fresh(c) && |done + c| + 1 < MAX_ALLOWED
    ensures Run(AppendTo(Empty(), b, done), SetAll(c, now)) == AppendTo(Empty(), b, done + c)
    decreases |c|
  {
    hide WfChain, Find, Bucket;
    var t := AppendTo(Empty(), b, done);
    if c == [] {
      assert done + c == done;
    } else {
      var r := c[0];
      OneChain(done, c, b);
      NewRecordGoesLast(t, r.key, r.value);
      assert Rec(r.key, r.value, -1, false) == r && t[b] == done && [] + (done + [r]) == done + [r];
      assert Insert(t, r.key, r.value) == AppendTo(Empty(), b, done + [r]);
      assert (done + [r]) + c[1..] == done + c;
      assert SetAll(c, now)[1..] == SetAll(c[1..], now);
      SetAllBuilds(done + [r], c[1..], b, now);
    }
  }

  /** A table with one chain. */
  lemma Alone(c: Chain, b: nat)
    requires b < MOD && WfChain(c, b)
    ensures var t := AppendTo(Empty(), b, c);
            Wf(t) && t[b] == c && Total(t) == |c| && forall i | 0 <= i < MOD && i != b :: t[i] == []
  {
    EmptyHasNothing();
    TotalUpdate(Empty(), b, c);
    assert [] + c == c;
  }

  lemma NextIsNew(done: Chain, c: Chain, b: nat)
    requires WfChain(done + c, b) && c != []
    ensures WfChain(done, b) && Bucket(c[0].key) == b && FindIn(done, c[0].key).None?
  {
    hide Bucket;
    var all := done + c;
    assert all[|done|] == c[0];
    assert forall i | 0 <= i < |done| :: done[i].key == all[i].key && all[i].key != c[0].key;
  }

  lemma OneChain(done: Chain, c: Chain, b: nat)
    requires b < MOD && WfChain(done + c, b) && c != [] && |done + c| + 1 < MAX_ALLOWED
    ensures var t, k := AppendTo(Empty(), b, done), c[0].key;
            Wf(t) && Bucket(k) == b && Find(t, k).None? && !Full(t, k)
  {
    hide Bucket, Total, WfChain, FindIn;
    NextIsNew(done, c, b);
    Alone(done, b);
  }

  /** Keys of two letters that share a bucket: three up in the first and two up in the second adds 101 to the hash. */
  function SomeKey(j: nat): string
    requires j < 16
  {
    ['A' + (3 * j) as char, '0' + (2 * j) as char]
  }

  lemma FoldOfTwo(c: char, d: char)
    requires c as int < 128 && d as int < 128
    ensures Fold([c, d]) == 33 * 33 * 5381 + 33 * c as int + d as int
  {
    assert [c, d][..1] == [c] && [c][..0] == [];
    assert Fold([c]) == 33 * 5381 + c as int;
  }

  /** Sixteen such keys, each with a value of 490 bytes. */
  function SomeChain(): (c: Chain)
    ensures |c| == 16 && forall j | 0 <= j < 16 :: c[j] == Rec(SomeKey(j), SomeValue(), -1, false)
  {
    seq(16, j requires 0 <= j < 16 => Rec(SomeKey(j), SomeValue(), -1, false))
  }

  function SomeValue(): (v: string)
    ensures |v| == 490 && forall c <- v :: c == 'v'
  {
    seq(490, _ => 'v')
  }

  lemma SomeKeyFold(j: nat)
    requires j < 16
    ensures Fold(SomeKey(j)) == 33 * 33 * 5381 + 33 * 65 + 48 + 101 * j
  {
    hide Fold;
    FoldOfTwo(SomeKey(j)[0], SomeKey(j)[1]);
  }

  lemma SomeKeysDiffer(i: nat, j: nat)
    requires i < j < 16
    ensures SomeKey(i) != SomeKey(j)
  {
    assert SomeKey(i)[0] != SomeKey(j)[0];
  }

  lemma SomeChainIsWf()
    ensures WfChain(SomeChain(), Bucket(SomeKey(0))) && Fresh(SomeChain())
  {
    hide Fold, SomeKey, SomeChain, SomeValue;
    forall j | 0 <= j < 16 ensures Bucket(SomeKey(j)) == Bucket(SomeKey(0)) {
      SomeKeyFold(j);
      SomeKeyFold(0);
    }
    forall i, j | 0 <= i < j < 16 ensures SomeKey(i) != SomeKey(j) {
      SomeKeysDiffer(i, j);
    }
  }

  /** The table that sixteen SETs leave: one long chain. */
  function SomeTable(): (t: Buckets)
    ensures |t| == MOD
  {
    AppendTo(Empty(), Bucket(SomeKey(0)), SomeChain())
  }

  /** Records of one length take the same room each. */
  lemma {:induction false} EvenRoom(c: Chain, j: nat, n: nat)
    requires j <= |c| && j * (n + 1) < LINE_MAX && forall i | 0 <= i < j :: |PrintRecord(c[i])| == n
    ensures RoomAt(c, j) == LINE_MAX - j * (n + 1)
  {
    hide PrintRecord;
    if j > 0 {
      assert j * (n + 1) == (j - 1) * (n + 1) + n + 1;
      EvenRoom(c, j - 1, n);
    }
  }

  lemma SomeRecordLength(j: nat)
    requires j < 16
    ensures |PrintRecord(SomeChain()[j])| == 514
  {
    NeverTakesTwenty();
  }

  lemma NeverTakesTwenty()
    ensures |PrintExpiry(-1)| == 20
  {
    ScratchHolds(-1);
  }

  /** The sixteenth record is cut inside its value, and no other record is cut. */
  lemma SomeRoom(j: nat)
    requires j < 16
    ensures RoomAt(SomeChain(), j) == LINE_MAX - 515 * j
    ensures Whole(SomeChain(), j) <==> j < 15
  {
    hide PrintRecord, SomeChain;
    forall i | 0 <= i < 16 ensures |PrintRecord(SomeChain()[i])| == 514 {
      SomeRecordLength(i);
    }
    EvenRoom(SomeChain(), j, 514);
  }

  lemma SomeChainIsClean()
    ensures SeparableChain(SomeChain()) && OnOneLine(SomeChain())
  {
    hide PrintRecord;
    var c := SomeChain();
    forall r <- c ensures Separable(r.key) && Separable(r.value) && '\n' !in r.key && '\n' !in r.value
    {
      var j :| 0 <= j < 16 && c[j] == r;
    }
  }

  lemma SomeTableIsClean()
    ensures Wf(SomeTable()) && Total(SomeTable()) == 16 && CleanTable(SomeTable())
    ensures SomeTable()[Bucket(SomeKey(0))] == SomeChain()
    ensures forall b, j | IsCut(SomeTable(), b, j) :: b == Bucket(SomeKey(0)) && j == 15
  {
    hide PrintRecord, RoomAt, Whole, WfChain, Wf, Total, AppendTo, SomeChain, SomeKey, SeparableChain, OnOneLine;
    var t, b, c := SomeTable(), Bucket(SomeKey(0)), SomeChain();
    SomeChainIsWf();
    SomeChainIsClean();
    Alone(c, b);
    NothingIsSavable();
    forall j | 0 <= j < 16 ensures Whole(c, j) <==> j < 15 {
      SomeRoom(j);
    }
  }

  /** Only keys of two letters are stored. */
  lemma NotSomeKey(k: string)
    requires |k| != 2
    ensures Find(SomeTable(), k).None?
  {
    hide Bucket, WfChain, Total, Wf, SomeKey, Fold;
    SomeTableIsClean();
    var b := Bucket(k);
    forall j | 0 <= j < |SomeTable()[b]| ensures SomeTable()[b][j].key != k {
      OnlySomeChain(b);
      TwoLetters(j);
    }
  }

  lemma TwoLetters(j: nat)
    requires j < 16
    ensures |SomeKey(j)| == 2
  {
  }

  lemma OnlySomeChain(b: nat)
    requires b < MOD
    ensures SomeTable()[b] == [] || SomeTable()[b] == SomeChain()
  {
    hide Bucket, WfChain, Total, Wf, SomeChain;
    SomeChainIsWf();
    Alone(SomeChain(), Bucket(SomeKey(0)));
  }

  lemma NothingIsSavable()
    ensures SeparableChain([]) && OnOneLine([])
  {
  }

  /** Sixteen ordinary SETs whose file gives the last key 463 bytes of its value, and makes a key of the other 27. */
  lemma SomeSaveIsCut(now: Long)
    ensures var t := Run(Empty(), SetAll(SomeChain(), now)); var k := SomeKey(15);
      && Find(t, k) == Some(Rec(k, SomeValue(), -1, false))
      && TextOk(SaveText(t), false)
      && var t' := LoadText(Loader(Empty(), false), SaveText(t), now).table;
         Find(t', k) == Some(Rec(k, SomeValue()[..463], -1, false))
         && Find(t', SomeValue()[463..]) == Some(Rec(SomeValue()[463..], PrintExpiry(-1), -1, false))
  {
    hide PrintExpiry;
    hide SaveText, LoadText, TextOk, Find, Wf, RoomAt, Whole, CleanTable, WfChain, Run, Bucket, Total, SetAll;
    var t, b, c := SomeTable(), Bucket(SomeKey(0)), SomeChain();
    SomeChainIsWf();
    SomeTableIsClean();
    assert [] + c == c && AppendTo(Empty(), b, []) == Empty() by {
      AppendNothing(Empty(), b);
    }
    SetAllBuilds([], c, b, now);
    StoredIsFound(t, b, 15);
    SomeRoom(15);
    SomeRecordLength(15);
    assert CutInValue(t, b, 15) && HeadOf(t, b, 15) == SomeValue()[..463] && TailOf(t, b, 15) == SomeValue()[463..];
    DefinedExactly(t);
    assert forall b', j' | CutInValue(t, b', j') :: b' == b && j' == 15 by {
      forall b', j' | CutInValue(t, b', j') ensures b' == b && j' == 15 {
        assert IsCut(t, b', j');
      }
    }
    assert TailOf(t, b, 15)[0] == 'v';
    ValueIsCut(t, b, 15, now);
    NotSomeKey(SomeValue()[463..]);
    SecondHalfIsAKey(t, b, 15, now);
  }

  /** A table of one record is read as one line. */
  lemma {:induction false} OneLineFields(saved: seq<Chain>, b: nat)
    requires b < |saved| && forall i | 0 <= i < |saved| && i != b :: saved[i] == []
    ensures FileFields(saved) == BucketFields(saved[b])
    decreases |saved|
  {
    hide BucketFields;
    if b == 0 {
      NoFields(saved[1..]);
      assert BucketFields(saved[0]) + [] == BucketFields(saved[0]);
    } else {
      assert BucketFields([]) == [] by {
        NoFields([[]]);
      }
      OneLineFields(saved[1..], b - 1);
      assert [] + FileFields(saved[1..]) == FileFields(saved[1..]);
    }
  }

  lemma {:induction false} NoFields(saved: seq<Chain>)
    requires forall i | 0 <= i < |saved| :: saved[i] == []
    ensures FileFields(saved) == [] && BucketFields([]) == []
  {
    if saved != [] {
      NoFields(saved[1..]);
    }
  }

  /** What a rebuild makes of the file of a single record. */
  lemma ReadAlone(t: Buckets, r: Rec, now: Long)
    requires IsAlone(t, r) && '\n' !in r.key && '\n' !in r.value && |PrintRecord(r)| <= LINE_MAX
    ensures var fs := ParseLine(PrintRecord(r));
      && (TextOk(SaveText(t), false) <==> Complete(fs))
      && (Complete(fs) ==>
          LoadText(Loader(Empty(), false), SaveText(t), now) == Loader(LoadRecords(Empty(), fs, now), false))
  {
    hide LoadText, TextOk, SaveText, LoadRecords, ParseLine, PrintRecord, Complete, FileFields, BucketFields, Bucket;
    var b := Bucket(r.key);
    NothingIsSavable();
    assert OnOneLine([r]);
    assert forall c <- t :: OnOneLine(c);
    ReadFile(t, now);
    OneLineFields(t, b);
    AloneOnLine(r);
  }

  lemma AloneOnLine(r: Rec)
    requires |PrintRecord(r)| <= LINE_MAX
    ensures BucketFields([r]) == ParseLine(PrintRecord(r))
  {
    hide ParseLine, PrintRecord;
    PrintChainCons([r]);
  }

  /** A value with a bang in it: what follows is read as an expiry time long past, and the rebuild deletes the key. */
  lemma SomeBangIsFatal(now: Long, later: Long)
    requires 0 <= later
    ensures var t := Apply(Empty(), Set("k", "a!b"), now);
      && Find(t, "k") == Some(Rec("k", "a!b", -1, false))
      && TextOk(SaveText(t), false)
      && Find(LoadText(Loader(Empty(), false), SaveText(t), later).table, "k") == None
  {
    hide LoadText, TextOk, SaveText, Find, ParseLine, PrintExpiry, Apply, LoadRecords, Complete, LoadRecord, IsAlone;
    var r, f := Rec("k", "a!b", -1, false), Fields(Some("k"), Some("a"), Some("b"));
    SetIsAlone("k", "a!b", now);
    AloneIsFound(Apply(Empty(), Set("k", "a!b"), now), r);
    NeverTakesTwenty();
    ReadAlone(Apply(Empty(), Set("k", "a!b"), now), r, later);
    BangLine();
    LoadOneRecord(Empty(), f, later);
    BangDeletes(f, later);
  }

  lemma BangLine()
    ensures ParseLine(PrintRecord(Rec("k", "a!b", -1, false))) == [Fields(Some("k"), Some("a"), Some("b"))]
  {
    hide Split, PrintExpiry, ParseLine;
    var x := PrintExpiry(-1);
    var s := PrintRecord(Rec("k", "a!b", -1, false));
    ExpiryIsClean(-1);
    var t4 := Piece("!", x, End(""));
    var t3 := Piece("!", "b", t4);
    var t2 := Piece("!", "a", t3);
    var t1 := Piece("", "k", t2);
    assert Woven(t4, BANG, false) && Woven(t3, BANG, false) && Woven(t2, BANG, false);
    assert TokensOf(t4) == [x] && TokensOf(t3) == ["b", x] && TokensOf(t2) == ["a", "b", x];
    assert Weave(t4) == "!" + x by {
      assert x + "" == x;
    }
    assert Weave(t1) == s;
    SplitOfWeave(t1, BANG);
    assert IsToken(s, BAR);
    ParseWhole(s);
  }

  lemma BangDeletes(f: Fields, later: Long)
    requires f == Fields(Some("k"), Some("a"), Some("b")) && 0 <= later
    ensures Find(LoadRecord(Empty(), f, later), "k") == None
  {
    hide Bucket, Insert, Find, WfChain, Cut, Atol;
    EmptyHasNothing();
    FindInsert(Empty(), "k", "a");
    FindDelete(Insert(Empty(), "k", "a"), "k");
    NotANumber();
  }

  lemma NotANumber()
    ensures Atol("b") == 0
  {
  }

  /** A file line with a long value is loaded; the next SAVE has room for it exactly up to 2024 bytes of value. */
  lemma LongRecordOverruns(v: string, now: Long)
    requires Separable(v) && '\n' !in v && |v| + 2 <= LINE_MAX
    ensures var text := "$" + ("\n" + ("k" + ("!" + v) + ("\n" + ("$" + ("\n" + "")))));
      && TextOk(text, false)
      && var t := LoadText(Loader(Empty(), false), text, now).table;
         Find(t, "k") == Some(Rec("k", v, -1, false)) && (BuffersHold(t) <==> |v| <= 2024)
  {
    hide LoadText, TextOk, Find, ParseLine, ParseRecord, Insert, IsAlone;
    hide BuffersHold, LoadRecords, LoadRecord, Complete;
    var line, r, f := "k" + ("!" + v), Rec("k", v, -1, false), Fields(Some("k"), Some(v), None);
    ParsePair("k", v);
    ParseWhole(line);
    var t := Apply(Empty(), Set("k", v), now);
    NothingToRead(t, now);
    ReadFramed(Empty(), line, "", now);
    LoadOneRecord(Empty(), f, now);
    JustInserted(f, now);
    SetIsAlone("k", v, now);
    AloneIsFound(t, r);
    AloneIsHeld(t, r);
  }

  lemma JustInserted(f: Fields, now: Long)
    requires f.key.Some? && f.value.Some? && f.expiry.None?
    ensures LoadRecord(Empty(), f, now) == Insert(Empty(), f.key.value, f.value.value)
    ensures Insert(Empty(), f.key.value, f.value.value) == Apply(Empty(), Set(f.key.value, f.value.value), now)
  {
    hide Insert;
  }

  lemma AloneIsHeld(t: Buckets, r: Rec)
    requires IsAlone(t, r) && r.key == "k" && r.expiry == -1
    ensures BuffersHold(t) <==> |r.value| <= 2024
  {
    hide Bucket, PrintExpiry, Total;
    TotalOfAlone(t, r);
    NeverTakesTwenty();
    RecordLength(r);
    PrintRecordsCons([r]);
    assert PrintRecords([]) == "" && [r][1..] == [];
    assert |PrintRecords([r])| == |r.value| + 24;
    assert BufferHolds([r], 1) <==> |r.value| <= 2024;
    assert BufferHolds([], 1);
    assert t[Bucket("k")] == [r];
  }
}
