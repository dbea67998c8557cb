/** A bucket line of any length: `fgets` hands it over in pieces, and each piece is parsed on its own. */
module Pieces {
  import opened Common
  import opened Table
  import opened Tokens
  import Decimal
  import opened SaveFormat

  /** What is parsed from a line when `room` bytes of it are read first and at most `LINE_MAX` at a time after that. */
  function PieceFields(line: string, room: nat): seq<Fields>
    requires room > 0
    decreases |line|
  {
    if |line| <= room then ParseLine(line) else ParseLine(line[..room]) + PieceFields(line[room..], LINE_MAX)
  }

  /** Every cut falls next to a bar. */
  predicate CutsAtBars(line: string, room: nat)
    requires room > 0
    decreases |line|
  {
    |line| <= room ||
    ((line[room - 1] == '|' || line[room] == '|') && CutsAtBars(line[room..], LINE_MAX))
  }

  // ---------- record by record ----------

  /** What one record's text turns into when the buffer has `room` bytes left for it. */
  function RecordPieces(s: string, room: nat): seq<Fields>
    requires room > 0
    decreases |s|
  {
    if |s| <= room then [ParseRecord(s)] else [ParseRecord(s[..room])] + RecordPieces(s[room..], LINE_MAX)
  }

  /** The room left after `n` bytes and a bar. */
  function RoomAfter(room: nat, n: nat): (r: nat)
    requires 0 < room <= LINE_MAX
    ensures 0 < r <= LINE_MAX
    decreases n
  {
    if room > n + 1 then room - n - 1
    else if room == n + 1 then LINE_MAX
    else if room == n then LINE_MAX - 1
    else RoomAfter(LINE_MAX, n - room)
  }

  /** The room the buffer has left where record `j` starts. */
  function RoomAt(c: Chain, j: nat): (r: nat)
    requires j <= |c|
    ensures 0 < r <= LINE_MAX
  {
    if j == 0 then LINE_MAX else RoomAfter(RoomAt(c, j - 1), |PrintRecord(c[j - 1])|)
  }

  /** What the records from `j` on turn into. */
  function ChainPieces(c: Chain, j: nat): seq<Fields>
    requires j <= |c|
    decreases |c| - j
  {
    if j == |c| then [] else RecordPieces(PrintRecord(c[j]), RoomAt(c, j)) + ChainPieces(c, j + 1)
  }

  /** No cut falls inside record `j`. */
  predicate Whole(c: Chain, j: nat)
    requires j < |c|
  {
    |PrintRecord(c[j])| <= RoomAt(c, j)
  }

  lemma ParseHead(s: string, rest: string)
    requires IsToken(s, BAR)
    ensures ParseLine(s + ("|" + rest)) == [ParseRecord(s)] + ParseLine(rest)
  {
    var line := s + ("|" + rest);
    assert "" + line == line;
    StrtokOfWord("", s, "|" + rest, BAR);
    assert Split(line, BAR) == [s] + Split(rest, BAR);
    assert ([s] + Split(rest, BAR))[1..] == Split(rest, BAR);
  }

  lemma ParseWhole(s: string)
    requires IsToken(s, BAR)
    ensures ParseLine(s) == [ParseRecord(s)]
  {
    assert s + "" == s && "" + s == s;
    StrtokOfWord("", s, "", BAR);
    assert Split(s, BAR) == [s] + Split("", BAR) && Split("", BAR) == [];
    assert [s][1..] == [];
    assert ParseRecords([s]) == [ParseRecord(s)] + [];
  }

  lemma ParseNothing()
    ensures ParseLine("") == []
  {
    assert Split("", BAR) == [];
  }

  /** A bar at the start of a piece is skipped. */
  lemma LeadingBar(rest: string)
    requires rest != ""
    ensures PieceFields("|" + rest, LINE_MAX) == PieceFields(rest, LINE_MAX - 1)
    ensures CutsAtBars("|" + rest, LINE_MAX) <==> CutsAtBars(rest, LINE_MAX - 1)
  {
    var line, n := "|" + rest, LINE_MAX - 1;
    SkipBar(rest);
    if |rest| > n {
      SkipBar(rest[..n]);
      assert line[..LINE_MAX] == "|" + rest[..n] && line[LINE_MAX..] == rest[n..];
    }
  }

  lemma SkipBar(rest: string)
    ensures ParseLine("|" + rest) == ParseLine(rest)
  {
    assert ("|" + rest)[1..] == rest;
    assert SkipDelims("|" + rest, BAR) == SkipDelims(rest, BAR);
  }

  /** The first record of a line takes its pieces, and the rest is read with the room it leaves. */
  lemma {:induction false} FirstRecord(s: string, rest: string, room: nat)
    requires IsToken(s, BAR) && rest != "" && 0 < room <= LINE_MAX
    ensures PieceFields(s + ("|" + rest), room) == RecordPieces(s, room) + PieceFields(rest, RoomAfter(room, |s|))
    decreases |s|
  {
    hide ParseLine, ParseRecord, IsToken;
    var line, n := s + ("|" + rest), |s|;
    ParseHead(s, rest);
    ParseWhole(s);
    if room > n + 1 {
      var m := room - n - 1;
      if |line| > room {
        assert line[..room] == s + ("|" + rest[..m]) && line[room..] == rest[m..];
        ParseHead(s, rest[..m]);
      }
    } else if room == n + 1 {
      assert line[..room] == s + ("|" + "") && line[room..] == rest;
      ParseHead(s, "");
      ParseNothing();
    } else if room == n {
      assert line[..room] == s && line[room..] == "|" + rest;
      LeadingBar(rest);
    } else {
      var head, tail := s[..room], s[room..];
      assert line[..room] == head && line[room..] == tail + ("|" + rest);
      assert IsToken(head, BAR) && IsToken(tail, BAR) by {
        TokenParts(s, room);
      }
      ParseWhole(head);
      FirstRecord(tail, rest, LINE_MAX);
    }
  }

  lemma TokenParts(s: string, i: nat)
    requires IsToken(s, BAR) && 0 < i < |s|
    ensures IsToken(s[..i], BAR) && IsToken(s[i..], BAR)
  {
  }

  lemma {:induction false} OnlyRecord(s: string, room: nat)
    requires IsToken(s, BAR) && 0 < room
    ensures PieceFields(s, room) == RecordPieces(s, room)
    ensures CutsAtBars(s, room) <==> |s| <= room
    decreases |s|
  {
    if |s| <= room {
      ParseWhole(s);
    } else {
      TokenParts(s, room);
      ParseWhole(s[..room]);
      OnlyRecord(s[room..], LINE_MAX);
    }
  }

  lemma PrintChainCons(c: Chain)
    requires c != []
    ensures PrintChain(c) == if |c| == 1 then PrintRecord(c[0]) else PrintRecord(c[0]) + ("|" + PrintChain(c[1..]))
    ensures PrintChain(c) != ""
  {
    hide PrintRecord, PrintRecords;
    var s := PrintRecord(c[0]);
    PrintRecordsCons(c);
    RecordIsSome(c[0]);
    if |c| == 1 {
      assert c[1..] == [];
      NoRecords();
      assert PrintRecords(c) == s + "|";
    } else {
      SomeRecords(c[1..]);
      DropLastOfTwo(s, PrintRecords(c[1..]));
    }
  }

  lemma RecordIsSome(r: Rec)
    ensures PrintRecord(r) != ""
  {
  }

  lemma NoRecords()
    ensures PrintRecords([]) == ""
  {
  }

  lemma SomeRecords(c: Chain)
    requires c != []
    ensures PrintRecords(c) != ""
  {
    hide PrintRecord;
  }

  lemma DropLastOfTwo(s: string, rest: string)
    requires rest != ""
    ensures (s + ("|" + rest))[..|s + ("|" + rest)| - 1] == s + ("|" + rest[..|rest| - 1])
  {
  }

  /** A bucket line, however long, turns into what its records turn into one by one. */
  lemma {:induction false} PiecesOfChain(c: Chain, j: nat)
    requires j < |c| && SeparableChain(c)
    ensures PieceFields(PrintChain(c[j..]), RoomAt(c, j)) == ChainPieces(c, j)
    decreases |c| - j
  {
    hide PieceFields, RecordPieces, PrintChain, PrintRecord, RoomAfter;
    var s := PrintRecord(c[j]);
    PrintChainCons(c[j..]);
    ParseOfPrintRecord(c[j]);
    assert c[j..][1..] == c[j + 1..];
    if j + 1 == |c| {
      OnlyRecord(s, RoomAt(c, j));
      assert ChainPieces(c, j + 1) == [];
    } else {
      PrintChainCons(c[j + 1..]);
      FirstRecord(s, PrintChain(c[j + 1..]), RoomAt(c, j));
      PiecesOfChain(c, j + 1);
    }
  }

  lemma {:induction false} FirstCuts(s: string, rest: string, room: nat)
    requires IsToken(s, BAR) && rest != "" && 0 < room <= LINE_MAX
    ensures CutsAtBars(s + ("|" + rest), room) <==> |s| <= room && CutsAtBars(rest, RoomAfter(room, |s|))
  {
    var line, n := s + ("|" + rest), |s|;
    if room > n + 1 {
      if |line| > room {
        assert line[room..] == rest[room - n - 1..];
      }
    } else if room == n + 1 {
      assert line[room..] == rest;
    } else if room == n {
      assert line[room..] == "|" + rest;
      LeadingBar(rest);
    } else {
      assert line[room - 1] == s[room - 1] && line[room] == s[room];
    }
  }

  /** Every cut of a bucket line falls next to a bar exactly when no record is cut. */
  lemma {:induction false} CutsOfChain(c: Chain, j: nat)
    requires j < |c| && SeparableChain(c)
    ensures CutsAtBars(PrintChain(c[j..]), RoomAt(c, j)) <==> forall i | j <= i < |c| :: Whole(c, i)
    decreases |c| - j
  {
    hide CutsAtBars, PrintChain, PrintRecord, RoomAfter;
    var s := PrintRecord(c[j]);
    PrintChainCons(c[j..]);
    ParseOfPrintRecord(c[j]);
    assert c[j..][1..] == c[j + 1..];
    if j + 1 == |c| {
      OnlyRecord(s, RoomAt(c, j));
    } else {
      PrintChainCons(c[j + 1..]);
      FirstCuts(s, PrintChain(c[j + 1..]), RoomAt(c, j));
      CutsOfChain(c, j + 1);
    }
    assert Whole(c, j) <==> |s| <= RoomAt(c, j);
  }

  /** A record cut in two counts twice. */
  lemma {:induction false} CountPieces(c: Chain, j: nat)
    requires j <= |c|
    ensures |ChainPieces(c, j)| >= |c| - j
    ensures |ChainPieces(c, j)| == |c| - j <==> forall i | j <= i < |c| :: Whole(c, i)
    decreases |c| - j
  {
    hide PrintRecord, RoomAt, RecordPieces, Whole;
    if j < |c| {
      CountPieces(c, j + 1);
      CountOne(c, j);
    }
  }

  lemma CountOne(c: Chain, j: nat)
    requires j < |c|
    ensures var n := |RecordPieces(PrintRecord(c[j]), RoomAt(c, j))|; n >= 1 && (n == 1 <==> Whole(c, j))
  {
    hide PrintRecord, RoomAt, ParseRecord;
    var s := PrintRecord(c[j]);
    assert |s| > RoomAt(c, j) ==> |RecordPieces(s[RoomAt(c, j)..], LINE_MAX)| >= 1;
  }

  lemma {:induction false} WholePieces(c: Chain, j: nat)
    requires j <= |c| && SeparableChain(c) && forall i | j <= i < |c| :: Whole(c, i)
    ensures ChainPieces(c, j) == FieldsOfChain(c[j..])
    decreases |c| - j
  {
    hide PrintRecord, RoomAfter, ParseRecord, FieldsOf;
    if j < |c| {
      assert Whole(c, j);
      ParseOfPrintRecord(c[j]);
      WholePieces(c, j + 1);
      assert c[j..][1..] == c[j + 1..];
    }
  }

  lemma {:induction false} AsManyFields(c: Chain)
    ensures |FieldsOfChain(c)| == |c|
  {
    if c != [] {
      AsManyFields(c[1..]);
    }
  }

  /** A bucket line of any length gives back its records exactly when every cut falls next to a bar. */
  lemma LineIsReadWhole(c: Chain)
    requires c != [] && SeparableChain(c)
    ensures PieceFields(PrintChain(c), LINE_MAX) == FieldsOfChain(c) <==> CutsAtBars(PrintChain(c), LINE_MAX)
  {
    hide PieceFields, PrintChain, Whole, ChainPieces, FieldsOfChain, CutsAtBars;
    assert c[0..] == c;
    PiecesOfChain(c, 0);
    CutsOfChain(c, 0);
    CountPieces(c, 0);
    AsManyFields(c);
    if CutsAtBars(PrintChain(c), LINE_MAX) {
      WholePieces(c, 0);
    }
  }

  // ---------- a cut inside a record ----------

  /** A value and what is left of the record after it: two fields. */
  lemma ParsePair(k: string, v: string)
    requires Separable(k) && Separable(v)
    ensures ParseRecord(k + ("!" + v)) == Fields(Some(k), Some(v), None)
  {
    hide Split;
    var last := Piece("!", v, End(""));
    var line := k + ("!" + v);
    assert Woven(last, BANG, false);
    assert TokensOf(last) == [v];
    assert v + "" == v;
    assert Weave(last) == "!" + v;
    assert "" + line == line;
    SplitOfWeave(Piece("", k, last), BANG);
    assert Split(line, BANG) == [k] + [v];
  }

  /** A key alone, with or without the bang before or after it: no value. */
  lemma ParseKeyOnly(g: string, k: string, g': string)
    requires Separable(k) && IsGap(g, BANG) && IsGap(g', BANG)
    ensures ParseRecord(g + (k + g')) == Fields(Some(k), None, None)
  {
    var t := Piece(g, k, End(g'));
    SplitOfWeave(t, BANG);
    assert TokensOf(t) == [k];
  }

  /** The only cut of `r` falls at `room`, inside its value. */
  predicate InValue(r: Rec, room: nat) {
    |r.key| + 1 < room < |r.key| + 1 + |r.value| && |PrintRecord(r)| <= room + LINE_MAX
  }

  /** How much of the value comes before the cut. */
  function KeptBytes(r: Rec, room: nat): (i: nat)
    requires InValue(r, room)
    ensures 0 < i < |r.value|
  {
    room - |r.key| - 1
  }

  /** A piece without a bang inside makes a record without a value, whatever follows it. */
  lemma BangFreePiece(s: string, room: nat)
    requires Separable(s) && room > 0
    ensures !Complete(RecordPieces(s, room))
  {
    hide ParseRecord;
    var head := if |s| <= room then s else s[..room];
    assert head == "" + (head + "");
    ParseKeyOnly("", head, "");
    assert RecordPieces(s, room)[0] == ParseRecord(head);
  }

  /** The first cut falls at the first bang or before it: the head has no value. */
  lemma CutBeforeValue(r: Rec, room: nat)
    requires Separable(r.key) && 0 < room <= |r.key| + 1 && room < |PrintRecord(r)|
    ensures !Complete(RecordPieces(PrintRecord(r), room))
  {
    hide ParseRecord, PrintExpiry;
    var s, k := PrintRecord(r), r.key;
    var head, g := if room <= |k| then k[..room] else k, if room <= |k| then "" else "!";
    assert s[..room] == "" + (head + g);
    ParseKeyOnly("", head, g);
    assert RecordPieces(s, room)[0] == ParseRecord(s[..room]);
  }

  /** The part of a record from inside its value on: a bit of value, a bang and the expiry; or less. */
  lemma CutAfterBang(v: string, x: string)
    requires Separable(v) && Separable(x) && |x| < LINE_MAX && |v| + 1 + |x| > LINE_MAX
    ensures !Complete(RecordPieces(v + ("!" + x), LINE_MAX))
  {
    hide ParseRecord;
    var s := v + ("!" + x);
    var head, tail := s[..LINE_MAX], s[LINE_MAX..];
    assert RecordPieces(s, LINE_MAX) == [ParseRecord(head)] + RecordPieces(tail, LINE_MAX);
    if LINE_MAX <= |v| {
      assert head == "" + (v[..LINE_MAX] + "");
      ParseKeyOnly("", v[..LINE_MAX], "");
    } else {
      assert tail == x[LINE_MAX - |v| - 1..];
      BangFreePiece(tail, LINE_MAX);
      assert RecordPieces(tail, LINE_MAX) == RecordPieces(s, LINE_MAX)[1..];
    }
  }

  /** The first cut falls at the second bang or after it: the tail has no value. */
  lemma CutAfterValue(r: Rec, room: nat)
    requires |r.key| + 1 + |r.value| <= room < |PrintRecord(r)|
    ensures !Complete(RecordPieces(PrintRecord(r), room))
  {
    hide ParseRecord, PrintExpiry, PrintRecord;
    var s, x, n := PrintRecord(r), PrintExpiry(r.expiry), |r.key| + 1 + |r.value|;
    ExpiryIsClean(r.expiry);
    ExpiryIsShort(r.expiry);
    RecordParts(r);
    DropPast(r.key + ("!" + r.value), "!" + x, room);
    ParseExpiryOnly(x, room - n);
    var tail := s[room..];
    assert RecordPieces(tail, LINE_MAX) == [ParseRecord(tail)];
    assert RecordPieces(s, room)[1] == ParseRecord(tail);
  }

  lemma RecordParts(r: Rec)
    ensures PrintRecord(r) == (r.key + ("!" + r.value)) + ("!" + PrintExpiry(r.expiry))
  {
    hide PrintExpiry;
  }

  lemma DropPast(a: string, b: string, i: nat)
    requires |a| <= i <= |a| + |b|
    ensures (a + b)[i..] == b[i - |a|..]
  {
  }

  /** What is left of an expiry text, with or without the bang before it. */
  lemma ParseExpiryOnly(x: string, i: nat)
    requires Separable(x) && i <= |x|
    ensures ParseRecord(("!" + x)[i..]).value.None?
  {
    hide ParseRecord;
    var g, y := if i == 0 then "!" else "", if i == 0 then x else x[i - 1..];
    assert ("!" + x)[i..] == g + (y + "");
    ParseKeyOnly(g, y, "");
  }

  lemma ExpiryIsShort(x: Long)
    ensures |PrintExpiry(x)| <= 20
  {
    Decimal.PrintZuLength(x);
  }

  /** A first cut inside the value, and the part after it. */
  lemma CutThroughValue(r: Rec, room: nat)
    requires |r.key| + 1 < room < |r.key| + 1 + |r.value|
    ensures var i, s := room - |r.key| - 1, PrintRecord(r);
      && room < |s|
      && s[..room] == r.key + ("!" + r.value[..i])
      && s[room..] == r.value[i..] + ("!" + PrintExpiry(r.expiry))
      && RecordPieces(s, room) == [ParseRecord(s[..room])] + RecordPieces(s[room..], LINE_MAX)
  {
    hide ParseRecord, PrintExpiry;
  }

  /** A single cut inside the value makes two records of one. */
  lemma CutInTwo(r: Rec, room: nat)
    requires Separable(r.key) && Separable(r.value) && InValue(r, room)
    ensures var i := KeptBytes(r, room);
      RecordPieces(PrintRecord(r), room) == [Fields(Some(r.key), Some(r.value[..i]), None),
                                             Fields(Some(r.value[i..]), Some(PrintExpiry(r.expiry)), None)]
  {
    hide ParseRecord, PrintExpiry;
    var i, s := KeptBytes(r, room), PrintRecord(r);
    CutThroughValue(r, room);
    ExpiryIsClean(r.expiry);
    ParsePair(r.key, r.value[..i]);
    ParsePair(r.value[i..], PrintExpiry(r.expiry));
    assert RecordPieces(s[room..], LINE_MAX) == [ParseRecord(s[room..])];
  }

  /** Two cuts of one record cannot both have a bang on each side. */
  lemma CutTwice(r: Rec, room: nat)
    requires Separable(r.value) && |r.key| + 1 < room < |r.key| + 1 + |r.value| && |PrintRecord(r)| > room + LINE_MAX
    ensures !Complete(RecordPieces(PrintRecord(r), room))
  {
    hide ParseRecord, PrintExpiry;
    var s, v, x := PrintRecord(r), r.value[room - |r.key| - 1..], PrintExpiry(r.expiry);
    CutThroughValue(r, room);
    ExpiryIsClean(r.expiry);
    ExpiryIsShort(r.expiry);
    CutAfterBang(v, x);
    assert RecordPieces(s[room..], LINE_MAX) == RecordPieces(s, room)[1..];
  }

  /** A single cut inside the value makes two records of one; any other leaves a record without a value. */
  lemma CutRecord(r: Rec, room: nat)
    requires Separable(r.key) && Separable(r.value)
    requires 0 < room < |PrintRecord(r)|
    ensures Complete(RecordPieces(PrintRecord(r), room)) <==> InValue(r, room)
    ensures InValue(r, room) ==>
      var i := KeptBytes(r, room);
      RecordPieces(PrintRecord(r), room) == [Fields(Some(r.key), Some(r.value[..i]), None),
                                             Fields(Some(r.value[i..]), Some(PrintExpiry(r.expiry)), None)]
  {
    hide RecordPieces, PrintRecord, PrintExpiry, Separable;
    if room <= |r.key| + 1 {
      CutBeforeValue(r, room);
    } else if room >= |r.key| + 1 + |r.value| {
      CutAfterValue(r, room);
    } else if |PrintRecord(r)| > room + LINE_MAX {
      CutTwice(r, room);
    } else {
      CutInTwo(r, room);
    }
  }

  /** The one record that comes back from a cut: its halves spell it twice. */
  predicate Fluke(r: Rec, room: nat) {
    r.key == "1" && r.value == "-1" && r.expiry == LONG_MAX && room == 3
  }

  predicate Harmless(c: Chain, j: nat)
    requires j < |c|
  {
    Whole(c, j) || Fluke(c[j], RoomAt(c, j))
  }

  /** No cut falls inside a record, apart from the one record that does not mind. */
  predicate HarmlessChain(c: Chain) {
    forall j | 0 <= j < |c| :: Harmless(c, j)
  }

  /** A line that fits the buffer is not cut at all. */
  lemma ShortLineIsHarmless(c: Chain)
    requires SeparableChain(c) && (c != [] ==> |PrintChain(c)| <= LINE_MAX)
    ensures HarmlessChain(c)
  {
    if c != [] {
      assert c[0..] == c;
      CutsOfChain(c, 0);
    }
  }
}
