/** The two library conversions the program relies on: `%zu` of a `time_t`, and a saturating `atol`. */
module Decimal {
  import opened Common

  function Digit(d: nat): (c: char)
    requires d < 10
    ensures IsDigit(c) && DigitValue(c) == d
  {
    '0' + d as char
  }

  predicate IsDigit(c: char) {
    '0' <= c <= '9'
  }

  function DigitValue(c: char): nat
    requires IsDigit(c)
  {
    c as int - '0' as int
  }

  function Dec(n: nat): string {
    if n < 10 then [Digit(n)] else Dec(n / 10) + [Digit(n % 10)]
  }

  /** `%zu` reads the 64 bits of its argument as an unsigned number. */
  function Unsigned(x: Long): nat {
    if x >= 0 then x else x + TWO_64
  }

  function PrintZu(x: Long): string {
    Dec(Unsigned(x))
  }

  function Saturate(x: int): Long {
    if x > LONG_MAX then LONG_MAX else if x < LONG_MIN then LONG_MIN else x
  }

  predicate IsSpace(c: char) {
    c == ' ' || '\t' <= c <= '\r'
  }

  /** The number spelled by the digits at the front of `s`, after `acc`. */
  function DigitsValue(s: string, acc: nat): nat {
    if s == "" || !IsDigit(s[0]) then acc else DigitsValue(s[1..], 10 * acc + DigitValue(s[0]))
  }

  function SkipSpace(s: string): string {
    if s != "" && IsSpace(s[0]) then SkipSpace(s[1..]) else s
  }

  /** White space, an optional sign, digits; anything after them is ignored. */
  function Atol(s: string): Long {
    var r := SkipSpace(s);
    if r != "" && r[0] == '-' then Saturate(0 - DigitsValue(r[1..], 0))
    else if r != "" && r[0] == '+' then Saturate(DigitsValue(r[1..], 0))
    else Saturate(DigitsValue(r, 0))
  }

  predicate AllDigits(s: string) {
    forall c <- s :: IsDigit(c)
  }

  lemma {:induction false} DecShape(n: nat)
    ensures Dec(n) != "" && AllDigits(Dec(n))
  {
    if n >= 10 {
      DecShape(n / 10);
    }
  }

  lemma {:induction false} DigitsValueAppend(s: string, t: string, acc: nat)
    requires AllDigits(s)
    ensures DigitsValue(s + t, acc) == DigitsValue(t, DigitsValue(s, acc))
  {
    if s == "" {
      assert s + t == t;
    } else {
      assert (s + t)[0] == s[0] && (s + t)[1..] == s[1..] + t;
      DigitsValueAppend(s[1..], t, 10 * acc + DigitValue(s[0]));
    }
  }

  lemma {:induction false} DecValue(n: nat)
    ensures DigitsValue(Dec(n), 0) == n
  {
    if n < 10 {
      assert Dec(n)[1..] == "";
      assert DigitsValue("", DigitValue(Dec(n)[0])) == n;
    } else {
      DecShape(n / 10);
      DecValue(n / 10);
      DigitsValueAppend(Dec(n / 10), [Digit(n % 10)], 0);
      assert [Digit(n % 10)][1..] == "";
      assert DigitsValue("", n) == n;
    }
  }

  /** Reading a printed number back gives the number, cut to the range of a `long`. */
  lemma AtolOfDec(n: nat)
    ensures Atol(Dec(n)) == Saturate(n)
  {
    DecShape(n);
    DecValue(n);
    assert IsDigit(Dec(n)[0]);
  }

  /** A printed `time_t` reads back as itself, except that every negative one becomes LONG_MAX. */
  lemma AtolOfPrintZu(x: Long)
    ensures Atol(PrintZu(x)) == if x >= 0 then x else LONG_MAX
  {
    AtolOfDec(Unsigned(x));
  }

  /** A printed `time_t` spells the number modulo 2^64. */
  lemma PrintZuSpells(x: Long)
    ensures var n := DigitsValue(PrintZu(x), 0);
            0 <= n < 18_446_744_073_709_551_616 && (n - x) % 18_446_744_073_709_551_616 == 0
  {
    DecValue(Unsigned(x));
  }

  // ---------- numbers as people spell them ----------

  predicate AllSpace(w: string) {
    forall c <- w :: c == ' ' || 9 <= c as int <= 13
  }

  predicate NoDigitFirst(s: string) {
    s == "" || !('0' <= s[0] <= '9')
  }

  function Zeros(m: nat): (z: string)
    ensures |z| == m && forall c <- z :: c == '0'
  {
    seq(m, _ => '0')
  }

  lemma {:induction false} SkipAllSpace(w: string, s: string)
    requires AllSpace(w) && (s != "" ==> !(s[0] == ' ' || 9 <= s[0] as int <= 13))
    ensures SkipSpace(w + s) == s
  {
    if w == "" {
      assert w + s == s;
    } else {
      assert (w + s)[0] == w[0] && (w + s)[1..] == w[1..] + s;
      assert w[0] in w && forall c <- w[1..] :: c in w;
      SkipAllSpace(w[1..], s);
    }
  }

  lemma {:induction false} ZerosFirst(z: string, s: string)
    requires forall c <- z :: c == '0'
    ensures DigitsValue(z + s, 0) == DigitsValue(s, 0)
  {
    if z == "" {
      assert z + s == s;
    } else {
      assert z[0] in z && forall c <- z[1..] :: c in z;
      assert (z + s)[0] == '0' && (z + s)[1..] == z[1..] + s;
      ZerosFirst(z[1..], s);
    }
  }

  /** Zeros, digits, and text after them. */
  lemma SpelledDigits(m: nat, n: nat, s: string)
    requires NoDigitFirst(s)
    ensures DigitsValue(Zeros(m) + (Dec(n) + s), 0) == n
    ensures var d := Zeros(m) + (Dec(n) + s); d != "" && IsDigit(d[0])
  {
    DecShape(n);
    DecValue(n);
    ZerosFirst(Zeros(m), Dec(n) + s);
    DigitsValueAppend(Dec(n), s, 0);
  }

  /** After white space, with or without sign and zeros and with any text behind, a number is read, cut to a `long`. */
  lemma AtolOfSpelled(w: string, m: nat, n: nat, s: string)
    requires AllSpace(w) && NoDigitFirst(s)
    ensures var d := Zeros(m) + (Dec(n) + s);
      && Atol(w + ("-" + d)) == (if n <= 9_223_372_036_854_775_808 then -(n as int) else -9_223_372_036_854_775_808)
      && Atol(w + ("+" + d)) == (if n <= 9_223_372_036_854_775_807 then n else 9_223_372_036_854_775_807)
      && Atol(w + d) == (if n <= 9_223_372_036_854_775_807 then n else 9_223_372_036_854_775_807)
  {
    hide SkipSpace, DigitsValue, Dec;
    var d := Zeros(m) + (Dec(n) + s);
    SpelledDigits(m, n, s);
    SkipAllSpace(w, "-" + d);
    SkipAllSpace(w, "+" + d);
    SkipAllSpace(w, d);
    assert ("-" + d)[1..] == d && ("+" + d)[1..] == d;
  }

  /** Without a digit after white space and sign it reads zero. */
  lemma AtolOfNoNumber(w: string, s: string)
    requires AllSpace(w) && NoDigitFirst(s) && (s != "" ==> !(s[0] == ' ' || 9 <= s[0] as int <= 13))
    requires s != "" && (s[0] == '-' || s[0] == '+') ==> NoDigitFirst(s[1..])
    ensures Atol(w + s) == 0
  {
    SkipAllSpace(w, s);
  }

  function Pow10(k: nat): nat {
    if k == 0 then 1 else 10 * Pow10(k - 1)
  }

  /** A number takes at most `k` digits exactly when it is below 10^k. */
  lemma {:induction false} DecLength(n: nat, k: nat)
    requires k > 0
    ensures |Dec(n)| <= k <==> n < Pow10(k)
  {
    assert Pow10(1) == 10 * Pow10(0);
    if k == 1 {
      DecShape(n / 10);
    } else if n >= 10 {
      DecLength(n / 10, k - 1);
    } else {
      Pow10AtLeast(k);
    }
  }

  lemma {:induction false} Pow10AtLeast(k: nat)
    requires k > 0
    ensures Pow10(k) >= 10
  {
    if k > 1 {
      Pow10AtLeast(k - 1);
    }
  }

  lemma SomePowers()
    ensures Pow10(19) == 10_000_000_000_000_000_000 && Pow10(20) == 100_000_000_000_000_000_000
  {
    assert Pow10(5) == 100_000;
    assert Pow10(10) == 10_000_000_000;
    assert Pow10(15) == 1_000_000_000_000_000;
  }

  lemma PrintZuLength(x: Long)
    ensures |PrintZu(x)| <= 20
  {
    SomePowers();
    DecLength(Unsigned(x), 20);
  }

  /**
   * The text and its NUL fit an array of 20 bytes exactly when the unsigned value is below 10^19;
   * those of -1, for "never", do not.
   */
  lemma ScratchHolds(x: Long)
    ensures |PrintZu(x)| + 1 <= 20 <==> Unsigned(x) < 10_000_000_000_000_000_000
    ensures |PrintZu(-1)| == 20
  {
    SomePowers();
    DecLength(Unsigned(x), 19);
    DecLength(Unsigned(-1), 19);
    DecLength(Unsigned(-1), 20);
  }
}
