/** `strtok` on values, what its tokens are, and the request tokenizer. */
module Tokens {
  import opened Common

  const MAX_CMD_PARAMS: nat := 16
  const BLANKS: set<char> := {' ', '\t', '\n'}

  function SkipDelims(s: string, delims: set<char>): (r: string)
    ensures |r| <= |s|
    ensures r != "" ==> r[0] !in delims
  {
    if s != "" && s[0] in delims then SkipDelims(s[1..], delims) else s
  }

  /** The front of `s` up to the first delimiter. */
  function Word(s: string, delims: set<char>): (w: string)
    ensures |w| <= |s| && w == s[..|w|]
    ensures forall c <- w :: c !in delims
    ensures |w| < |s| ==> s[|w|] in delims
  {
    if s == "" || s[0] in delims then "" else [s[0]] + Word(s[1..], delims)
  }

  /** One call of `strtok`: the next token and what is left after the delimiter that ended it. */
  function Strtok(s: string, delims: set<char>): (r: Option<(string, string)>)
    ensures r.Some? ==> |r.value.0| + |r.value.1| <= |s| && r.value.0 != ""
  {
    var r := SkipDelims(s, delims);
    if r == "" then None
    else
      var w := Word(r, delims);
      Some((w, if |w| < |r| then r[|w| + 1..] else ""))
  }

  /** The tokens of repeated `strtok` calls. */
  function Split(s: string, delims: set<char>): seq<string>
    decreases |s|
  {
    match Strtok(s, delims)
    case None => []
    case Some((w, rest)) => [w] + Split(rest, delims)
  }

  // ---------- what the tokens are ----------

  predicate IsToken(w: string, delims: set<char>) {
    w != "" && forall c <- w :: c !in delims
  }

  predicate IsGap(g: string, delims: set<char>) {
    forall c <- g :: c in delims
  }

  /** Gaps and tokens in turn, starting and ending with a gap. */
  datatype Text = End(gap: string) | Piece(gap: string, token: string, rest: Text)

  function Weave(t: Text): string {
    match t
    case End(g) => g
    case Piece(g, w, rest) => g + (w + Weave(rest))
  }

  function TokensOf(t: Text): seq<string> {
    match t
    case End(_) => []
    case Piece(_, w, rest) => [w] + TokensOf(rest)
  }

  /** Tokens are nonempty and free of delimiters, gaps hold nothing else, and no two tokens touch. */
  predicate Woven(t: Text, delims: set<char>, atStart: bool) {
    match t
    case End(g) => IsGap(g, delims)
    case Piece(g, w, rest) =>
      IsGap(g, delims) && (atStart || g != "") && IsToken(w, delims) && Woven(rest, delims, false)
  }

  lemma {:induction false} SkipGap(g: string, s: string, delims: set<char>)
    requires IsGap(g, delims) && (s != "" ==> s[0] !in delims)
    ensures SkipDelims(g + s, delims) == s
  {
    if g == "" {
      assert g + s == s;
    } else {
      assert (g + s)[0] == g[0] && (g + s)[1..] == g[1..] + s;
      SkipGap(g[1..], s, delims);
    }
  }

  lemma {:induction false} WordStops(w: string, s: string, delims: set<char>)
    requires (forall c <- w :: c !in delims) && (s != "" ==> s[0] in delims)
    ensures Word(w + s, delims) == w
  {
    if w == "" {
      assert w + s == s;
    } else {
      assert (w + s)[0] == w[0] && (w + s)[1..] == w[1..] + s;
      WordStops(w[1..], s, delims);
    }
  }

  /** The text without the first character of its first gap. */
  function DropOne(t: Text): Text
    requires t.gap != ""
  {
    match t
    case End(g) => End(g[1..])
    case Piece(g, w, rest) => Piece(g[1..], w, rest)
  }

  lemma WeaveDropOne(t: Text, delims: set<char>)
    requires t.gap != "" && Woven(t, delims, false)
    ensures Weave(t) != "" && Weave(t)[0] in delims
    ensures Weave(DropOne(t)) == Weave(t)[1..] && TokensOf(DropOne(t)) == TokensOf(t)
    ensures Woven(DropOne(t), delims, true)
  {
    match t
    case End(g) =>
    case Piece(g, w, rest) =>
      var x := w + Weave(rest);
      assert (g + x)[1..] == g[1..] + x;
  }

  lemma StrtokOfWord(g: string, w: string, x: string, delims: set<char>)
    requires IsGap(g, delims) && IsToken(w, delims) && (x != "" ==> x[0] in delims)
    ensures Strtok(g + (w + x), delims) == Some((w, if x == "" then "" else x[1..]))
  {
    assert (w + x)[0] == w[0];
    SkipGap(g, w + x, delims);
    WordStops(w, x, delims);
    if x != "" {
      assert (w + x)[|w| + 1..] == x[1..];
    }
  }

  /** A string whose tokens and gaps are known splits into just those tokens. */
  lemma {:induction false} SplitOfWeave(t: Text, delims: set<char>)
    requires Woven(t, delims, true)
    ensures Split(Weave(t), delims) == TokensOf(t)
    decreases |TokensOf(t)|
  {
    match t
    case End(g) =>
      assert g + "" == g;
      SkipGap(g, "", delims);
    case Piece(g, w, rest) =>
      if rest.gap == "" {
        StrtokOfWord(g, w, "", delims);
        assert Split("", delims) == [];
      } else {
        WeaveDropOne(rest, delims);
        StrtokOfWord(g, w, Weave(rest), delims);
        SplitOfWeave(DropOne(rest), delims);
      }
  }

  /** What one call of `strtok` skips, takes and drops; `d` is the dropped delimiter, if there is one. */
  lemma StrtokCuts(s: string, delims: set<char>) returns (g: string, d: string)
    requires Strtok(s, delims).Some?
    ensures var (w, rest) := Strtok(s, delims).value;
      IsGap(g, delims) && IsToken(w, delims) && IsGap(d, delims) && |d| <= 1 && s == g + (w + (d + rest))
      && (d == "" ==> rest == "")
  {
    g := GapBefore(s, delims);
    var r := SkipDelims(s, delims);
    var w := Word(r, delims);
    if |w| < |r| {
      d := [r[|w|]];
      CutAt(r, |w|);
    } else {
      d := "";
      assert w + ("" + "") == w;
    }
  }

  lemma CutAt(s: string, i: nat)
    requires i < |s|
    ensures s == s[..i] + ([s[i]] + s[i + 1..])
  {
  }

  /** Every string is woven from its tokens. */
  lemma {:induction false} SplitWeaves(s: string, delims: set<char>) returns (t: Text)
    ensures Woven(t, delims, true) && Weave(t) == s && TokensOf(t) == Split(s, delims)
    decreases |s|
  {
    var token := Strtok(s, delims);
    if token.None? {
      var g := GapBefore(s, delims);
      assert g + "" == g;
      t := End(s);
    } else {
      var (w, rest) := token.value;
      var g, d := StrtokCuts(s, delims);
      var after := SplitWeaves(rest, delims);
      if d == "" {
        t := WeaveLast(g, w, delims);
        assert w + ("" + "") == w;
      } else {
        t := WeaveOn(g, w, d, after, delims);
      }
    }
  }

  /** A gap and the last token, with nothing after it. */
  lemma WeaveLast(g: string, w: string, delims: set<char>) returns (t: Text)
    requires IsGap(g, delims) && IsToken(w, delims)
    ensures Woven(t, delims, true) && Weave(t) == g + w && TokensOf(t) == [w] + Split("", delims)
  {
    t := Piece(g, w, End(""));
    assert w + "" == w && Split("", delims) == [];
  }

  /** Puts a gap, a token and a delimiter before a text. */
  lemma WeaveOn(g: string, w: string, d: string, after: Text, delims: set<char>) returns (t: Text)
    requires IsGap(g, delims) && IsToken(w, delims) && IsGap(d, delims) && d != "" && Woven(after, delims, true)
    ensures Woven(t, delims, true) && Weave(t) == g + (w + (d + Weave(after)))
    ensures TokensOf(t) == [w] + TokensOf(after)
  {
    AddedToGap(d, after, delims);
    t := Piece(g, w, AddToGap(d, after));
  }

  function AddToGap(g: string, t: Text): Text {
    match t
    case End(g') => End(g + g')
    case Piece(g', w, rest) => Piece(g + g', w, rest)
  }

  lemma AddedToGap(g: string, t: Text, delims: set<char>)
    requires IsGap(g, delims) && g != "" && Woven(t, delims, true)
    ensures Woven(AddToGap(g, t), delims, false)
    ensures Weave(AddToGap(g, t)) == g + Weave(t) && TokensOf(AddToGap(g, t)) == TokensOf(t)
  {
    match t
    case End(_) =>
    case Piece(g', w, rest) =>
      assert (g + g') + (w + Weave(rest)) == g + (g' + (w + Weave(rest)));
  }

  lemma {:induction false} GapBefore(s: string, delims: set<char>) returns (g: string)
    ensures IsGap(g, delims) && s == g + SkipDelims(s, delims)
  {
    if s != "" && s[0] in delims {
      g := GapBefore(s[1..], delims);
      g := [s[0]] + g;
    } else {
      g := "";
    }
  }

  /** The tokens of a string are those of the one way to weave it. */
  lemma SplitIsTheOnlyWeave(s: string, tokens: seq<string>, delims: set<char>)
    ensures Split(s, delims) == tokens <==>
            exists t: Text :: Woven(t, delims, true) && Weave(t) == s && TokensOf(t) == tokens
  {
    var t := SplitWeaves(s, delims);
    forall t: Text | Woven(t, delims, true) && Weave(t) == s && TokensOf(t) == tokens
      ensures Split(s, delims) == tokens
    {
      SplitOfWeave(t, delims);
    }
  }

  lemma {:induction false} WovenTokens(t: Text, delims: set<char>, atStart: bool)
    requires Woven(t, delims, atStart)
    ensures forall w <- TokensOf(t) :: IsToken(w, delims)
  {
    if t.Piece? {
      WovenTokens(t.rest, delims, false);
    }
  }

  lemma SplitGivesTokens(s: string, delims: set<char>)
    ensures forall w <- Split(s, delims) :: IsToken(w, delims)
  {
    var t := SplitWeaves(s, delims);
    WovenTokens(t, delims, true);
  }

  // ---------- the request tokenizer ----------

  /** At most sixteen tokens are kept. */
  function Arguments(req: string): seq<string> {
    var all := Split(req, BLANKS);
    if |all| <= MAX_CMD_PARAMS then all else all[..MAX_CMD_PARAMS]
  }

  /** The tokens from the one `strtok` has just returned on. */
  function Remaining(token: Option<(string, string)>, delims: set<char>): seq<string> {
    match token
    case None => []
    case Some((w, rest)) => [w] + Split(rest, delims)
  }

  method Tokenize(input: string, tokens: array<string>) returns (count: nat)
    requires tokens.Length == MAX_CMD_PARAMS
    modifies tokens
    ensures count == (if |Split(input, BLANKS)| <= 16 then |Split(input, BLANKS)| else 16)
    ensures tokens[..count] == Arguments(input) == Split(input, BLANKS)[..count]
  {
    count := 0;
    ghost var found: seq<string> := [];
    var token := Strtok(input, BLANKS);
    while token.Some? && count < MAX_CMD_PARAMS
      invariant count == |found| <= MAX_CMD_PARAMS && forall i | 0 <= i < count :: tokens[i] == found[i]
      invariant Split(input, BLANKS) == found + Remaining(token, BLANKS)
      decreases MAX_CMD_PARAMS - count
    {
      var (word, rest) := token.value;
      tokens[count] := word;
      count := count + 1;
      token := Strtok(rest, BLANKS);
      Reassociate(found, [word], Remaining(token, BLANKS));
      found := found + [word];
    }
    assert tokens[..count] == found;
  }

  lemma Reassociate<T>(a: seq<T>, b: seq<T>, c: seq<T>)
    ensures a + (b + c) == a + b + c
  {
  }

  /** Sum of the tokens' lengths. */
  function TextLength(tokens: seq<string>): nat {
    if tokens == [] then 0 else |tokens[0]| + TextLength(tokens[1..])
  }

  lemma {:induction false} SplitLength(s: string, delims: set<char>)
    ensures TextLength(Split(s, delims)) <= |s|
    decreases |s|
  {
    match Strtok(s, delims) {
      case None =>
      case Some((w, rest)) =>
        SplitLength(rest, delims);
        assert ([w] + Split(rest, delims))[1..] == Split(rest, delims);
    }
  }

  /** Any two different arguments of a request fit in it together. */
  lemma TwoTokensFit(tokens: seq<string>)
    requires |tokens| >= 3
    ensures |tokens[1]| + |tokens[2]| <= TextLength(tokens)
  {
    assert TextLength(tokens) == |tokens[0]| + TextLength(tokens[1..]);
    assert TextLength(tokens[1..]) == |tokens[1]| + TextLength(tokens[1..][1..]);
    assert tokens[1..][1..][0] == tokens[2];
  }

  predicate Blank(c: char) {
    c == ' ' || c == '\t' || c == '\n'
  }

  /** Not empty, and free of blanks. */
  predicate IsWord(w: string) {
    w != "" && forall c <- w :: !Blank(c)
  }

  predicate AllBlank(g: string) {
    forall c <- g :: Blank(c)
  }

  /** Requests are cut at space, tab and newline, and nowhere else. */
  lemma BlanksAreThree(w: string)
    ensures IsWord(w) <==> IsToken(w, BLANKS)
    ensures AllBlank(w) <==> IsGap(w, BLANKS)
  {
    assert forall c: char :: c in BLANKS <==> Blank(c);
  }

  lemma OneWord(g0: string, a: string, g1: string)
    requires IsWord(a) && AllBlank(g0) && AllBlank(g1)
    ensures Arguments(g0 + (a + g1)) == [a]
  {
    BlanksAreThree(a);
    BlanksAreThree(g0);
    BlanksAreThree(g1);
    var t := Piece(g0, a, End(g1));
    SplitOfWeave(t, BLANKS);
    assert TokensOf(t) == [a];
  }

  lemma TwoWords(g0: string, a: string, g1: string, b: string, g2: string)
    requires IsWord(a) && IsWord(b) && AllBlank(g0) && AllBlank(g1) && AllBlank(g2) && g1 != ""
    ensures Arguments(g0 + (a + (g1 + (b + g2)))) == [a, b]
  {
    BlanksAreThree(a);
    BlanksAreThree(b);
    BlanksAreThree(g0);
    BlanksAreThree(g1);
    BlanksAreThree(g2);
    var t1 := Piece(g1, b, End(g2));
    var t := Piece(g0, a, t1);
    assert Woven(t1, BLANKS, false);
    SplitOfWeave(t, BLANKS);
    assert TokensOf(t1) == [b] && TokensOf(t) == [a, b];
    assert Weave(t1) == g1 + (b + g2);
  }

  lemma ThreeWords(g0: string, a: string, g1: string, b: string, g2: string, c: string, g3: string)
    requires IsWord(a) && IsWord(b) && IsWord(c)
    requires AllBlank(g0) && AllBlank(g1) && AllBlank(g2) && AllBlank(g3) && g1 != "" && g2 != ""
    ensures Arguments(g0 + (a + (g1 + (b + (g2 + (c + g3)))))) == [a, b, c]
  {
    BlanksAreThree(a);
    BlanksAreThree(b);
    BlanksAreThree(c);
    BlanksAreThree(g0);
    BlanksAreThree(g1);
    BlanksAreThree(g2);
    BlanksAreThree(g3);
    var t2 := Piece(g2, c, End(g3));
    var t1 := Piece(g1, b, t2);
    var t := Piece(g0, a, t1);
    assert Woven(t2, BLANKS, false) && Woven(t1, BLANKS, false);
    SplitOfWeave(t, BLANKS);
    assert TokensOf(t2) == [c] && TokensOf(t1) == [b, c] && TokensOf(t) == [a, b, c];
    assert Weave(t2) == g2 + (c + g3) && Weave(t1) == g1 + (b + (g2 + (c + g3)));
  }

  /** The arguments with a single space between any two. */
  function JoinWithSpaces(tokens: seq<string>): string {
    if tokens == [] then "" else if |tokens| == 1 then tokens[0] else tokens[0] + " " + JoinWithSpaces(tokens[1..])
  }

  /** The same as gaps and tokens, after the gap `g`. */
  function Spaced(g: string, tokens: seq<string>): Text
    decreases |tokens|
  {
    if tokens == [] then End("") else Piece(g, tokens[0], Spaced(" ", tokens[1..]))
  }

  lemma {:induction false} SpacedIsJoined(g: string, tokens: seq<string>)
    requires forall w <- tokens :: IsToken(w, BLANKS)
    requires IsGap(g, BLANKS)
    ensures tokens != [] ==> Weave(Spaced(g, tokens)) == g + JoinWithSpaces(tokens)
    ensures TokensOf(Spaced(g, tokens)) == tokens
    ensures Woven(Spaced(g, tokens), BLANKS, g == "")
    decreases |tokens|
  {
    if tokens != [] {
      SpacedIsJoined(" ", tokens[1..]);
      assert tokens == [tokens[0]] + tokens[1..];
      if |tokens| > 1 {
        assert tokens[0] + " " + JoinWithSpaces(tokens[1..]) == tokens[0] + (" " + JoinWithSpaces(tokens[1..]));
      }
    }
  }

  /** Joining the arguments with single spaces and splitting again gives the arguments back. */
  lemma RetokenizeArguments(req: string)
    ensures Arguments(JoinWithSpaces(Arguments(req))) == Arguments(req)
  {
    var tokens := Arguments(req);
    SplitGivesTokens(req, BLANKS);
    SpacedIsJoined("", tokens);
    if tokens != [] {
      assert "" + JoinWithSpaces(tokens) == JoinWithSpaces(tokens);
      SplitOfWeave(Spaced("", tokens), BLANKS);
    }
  }
}
