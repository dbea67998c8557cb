/** Constants and integer types shared by every module: C's `long`, `size_t` and the status codes. */
module Common {

  const LONG_MAX: int := 0x7FFF_FFFF_FFFF_FFFF
  const LONG_MIN: int := -0x8000_0000_0000_0000
  const TWO_64: int := 0x1_0000_0000_0000_0000

  /** Largest value of a C `int`. */
  const INT_MAX: nat := 0x7FFF_FFFF

  /** `heap_index` of an entry that is not in the TTL heap. */
  const SIZE_MAX: nat := 0xFFFF_FFFF_FFFF_FFFF

  /** A 64-bit `long` or `time_t`. */
  type Long = x: int | LONG_MIN <= x <= LONG_MAX

  /** Two's complement reading of a 64-bit sum. */
  function Wrap(x: int): (r: Long)
    ensures LONG_MIN <= x <= LONG_MAX ==> r == x
  {
    (x - LONG_MIN) % TWO_64 + LONG_MIN
  }

  /** Wrapping changes a sum by a multiple of 2^64. */
  lemma WrapIsCongruent(x: int)
    ensures (Wrap(x) - x) % TWO_64 == 0
  {
    var q := (x - LONG_MIN) / TWO_64;
    assert Wrap(x) - x == -q * TWO_64;
  }

  // Status codes.
  const DB_ERR_OK := 0
  const DB_ERR_INVALID_ARGS := 2
  const DB_ERR_KEY_NOTEXIST := 4
  const DB_ERR_KEY_EXISTS := 5
  const DB_ERR_CMD_NOTEXIST := 6
  const DB_ERR_KEY_EXPIRED := 7
  const DB_ERR_KEY_NOT_EXPIRED := 8
  const DB_ERR_HELP := 40
  const DB_ERR_EXIT := 41
  const DB_ERR_SHUTDOWN := 42
  const ERR_FULL := 100

  /** Number of buckets of the hash table. */
  const MOD: nat := 101

  /** Most entries the table may hold, plus one. */
  const MAX_ALLOWED: nat := 0x7FFF_FFFF_FFFF_FFFF

  datatype Option<+T> = None | Some(value: T)

  lemma SubsetCardinality<T>(a: set<T>, b: set<T>)
    requires a <= b
    ensures |a| <= |b|
  {
    assert |b| == |a| + |b - a| by { assert b == a + (b - a); }
  }

  lemma {:induction false} DistinctCardinality<T>(s: seq<T>, elems: set<T>)
    requires forall i, j | 0 <= i < j < |s| :: s[i] != s[j]
    requires elems == set x | x in s
    ensures |elems| == |s|
  {
    if s == [] {
      assert elems == {};
    } else {
      var last := |s| - 1;
      assert elems == (set x | x in s[..last]) + {s[last]} by {
        assert s == s[..last] + [s[last]];
      }
      DistinctCardinality(s[..last], set x | x in s[..last]);
    }
  }
}
