/** The string hash that chooses an entry's bucket. */
module Djb2 {
  import opened Common

  /** A byte read through a signed `char`. */
  function SignedChar(c: char): (x: int)
    ensures -128 <= x <= 127 && (x - c as int) % 256 == 0
  {
    var b := c as int % 256;
    if b < 128 then b else b - 256
  }

  /** The 64-bit accumulator after the bytes of `k`. */
  function Fold(k: string): (h: nat)
    ensures h < TWO_64
  {
    if k == "" then 5381 else (33 * Fold(k[..|k| - 1]) + SignedChar(k[|k| - 1])) % TWO_64
  }

  function Bucket(k: string): (b: nat)
    ensures b < MOD
  {
    Fold(k) % MOD
  }

  /** 64-bit left shift by five places. */
  function ShiftLeft5(h: nat): nat {
    h * 32 % TWO_64
  }

  method StringFoldingHash(k: string) returns (idx: nat)
    ensures idx == Bucket(k) == Fold(k) % 101
  {
    var hash: nat := 5381;
    for i := 0 to |k|
      invariant hash == Fold(k[..i])
    {
      assert k[..i + 1][..i] == k[..i];
      WrappingShiftAdd(hash, SignedChar(k[i]));
      hash := (ShiftLeft5(hash) + hash + SignedChar(k[i])) % TWO_64;
    }
    assert k[..|k|] == k;
    idx := hash % MOD;
  }

  /** Shift-and-add with wrap-around is multiplication by 33 with wrap-around. */
  lemma WrappingShiftAdd(h: nat, c: int)
    ensures (ShiftLeft5(h) + h + c) % TWO_64 == (33 * h + c) % TWO_64
  {
    var q := h * 32 / TWO_64;
    assert ShiftLeft5(h) + h + c == 33 * h + c - q * TWO_64;
    ModShift(33 * h + c, -q);
  }

  lemma ModShift(x: int, q: int)
    ensures (x + q * TWO_64) % TWO_64 == x % TWO_64
  {
  }

  function Pow33(n: nat): nat {
    if n == 0 then 1 else 33 * Pow33(n - 1)
  }

  /** The sum of c_i * 33^(n-1-i) over the n bytes of `k`, first byte first. */
  function Weighted(k: string): int {
    if k == "" then 0 else SignedChar(k[0]) * Pow33(|k| - 1) + Weighted(k[1..])
  }

  lemma {:induction false} WeightedSnoc(k: string)
    requires k != ""
    ensures Weighted(k) == 33 * Weighted(k[..|k| - 1]) + SignedChar(k[|k| - 1])
  {
    var n := |k|;
    if n == 1 {
      assert k[1..] == "" && k[..0] == "";
      assert Pow33(0) == 1;
    } else {
      var init := k[..n - 1];
      WeightedSnoc(k[1..]);
      assert k[1..][..n - 2] == init[1..];
      Scale(SignedChar(k[0]), n - 2);
    }
  }

  lemma Scale(c: int, n: nat)
    ensures c * Pow33(n + 1) == 33 * (c * Pow33(n))
  {
  }

  /** The accumulator is 5381 * 33^n + sum of c_i * 33^(n-1-i), reduced to 64 bits once. */
  lemma {:induction false} FoldClosedForm(k: string)
    ensures Fold(k) == (5381 * Pow33(|k|) + Weighted(k)) % TWO_64
  {
    if k != "" {
      var init, c := k[..|k| - 1], SignedChar(k[|k| - 1]);
      var x := 5381 * Pow33(|init|) + Weighted(init);
      FoldClosedForm(init);
      WeightedSnoc(k);
      var q := x / TWO_64;
      assert 33 * Fold(init) + c == 33 * x + c + (-33 * q) * TWO_64;
      ModShift(33 * x + c, -33 * q);
    }
  }
}
