/** Binary-heap order on a sequence of keys, and what one swap of the sifting loops does to it. */
module HeapOrder {

  function Parent(i: nat): nat
    requires i > 0
  {
    (i - 1) / 2
  }

  function Left(i: nat): nat {
    2 * i + 1
  }

  function Right(i: nat): nat {
    2 * i + 2
  }

  /** Number of steps from slot `i` up to the root. */
  function Depth(i: nat): nat {
    if i == 0 then 0 else 1 + Depth(Parent(i))
  }

  function Pow2(k: nat): nat {
    if k == 0 then 1 else 2 * Pow2(k - 1)
  }

  /** `Depth(i)` is the rounded-down binary logarithm of `i + 1`. */
  lemma {:induction false} DepthIsFloorLog(i: nat)
    ensures Pow2(Depth(i)) <= i + 1 < 2 * Pow2(Depth(i))
  {
    if i > 0 {
      DepthIsFloorLog(Parent(i));
    }
  }

  lemma {:induction false} Pow2Monotone(j: nat, k: nat)
    requires j <= k
    ensures 0 < Pow2(j) <= Pow2(k)
  {
    if j < k {
      Pow2Monotone(j, k - 1);
    } else if j > 0 {
      Pow2Monotone(j - 1, k - 1);
    }
  }

  /** There are `k` steps from slot `i` up to the root, or more, exactly when 2^k <= i + 1. */
  lemma {:induction false} StepsFit(i: nat, k: nat)
    ensures k <= Depth(i) <==> Pow2(k) <= i + 1
  {
    DepthIsFloorLog(i);
    if k <= Depth(i) {
      Pow2Monotone(k, Depth(i));
    } else {
      Pow2Monotone(Depth(i) + 1, k);
    }
  }

  /** One step down at least doubles the slot number, counted from one; so do the `k` steps that follow. */
  lemma StepDownDoubles(i: nat, c: nat, k: nat, last: nat)
    requires (c == Left(i) || c == Right(i)) && (c + 1) * Pow2(k) <= last + 1
    ensures c > i && (i + 1) * Pow2(k + 1) <= last + 1
  {
    Doubled(i + 1, c + 1, Pow2(k));
  }

  lemma AtLeastOnce(i: nat, m: nat)
    ensures m <= (i + 1) * m
  {
  }

  lemma Doubled(a: nat, b: nat, m: nat)
    requires 2 * a <= b
    ensures a * (2 * m) <= b * m
  {
    assert a * (2 * m) == 2 * a * m;
  }

  lemma {:induction false} DepthMonotone(i: nat, j: nat)
    requires i <= j
    ensures Depth(i) <= Depth(j)
  {
    if i > 0 {
      DepthMonotone(Parent(i), Parent(j));
    }
  }

  /** The capacities reachable from 16 by doubling. */
  ghost predicate DoubledFrom16(capacity: nat) {
    exists k: nat :: capacity == 16 * Pow2(k)
  }

  lemma SixteenIsDoubled()
    ensures DoubledFrom16(16)
  {
    assert 16 == 16 * Pow2(0);
  }

  lemma DoublingStaysDoubled(capacity: nat)
    requires DoubledFrom16(capacity)
    ensures capacity > 0 && DoubledFrom16(2 * capacity)
  {
    var k: nat :| capacity == 16 * Pow2(k);
    assert 2 * capacity == 16 * Pow2(k + 1);
    Pow2Monotone(0, k);
  }

  /** Slot `j` is no smaller than its parent. */
  predicate InOrder(s: seq<int>, j: nat)
    requires 0 < j < |s|
  {
    s[Parent(j)] <= s[j]
  }

  ghost predicate HeapOrdered(s: seq<int>) {
    forall j | 0 < j < |s| :: InOrder(s, j)
  }

  /** `i`'s children, if any, are no smaller than `i`'s parent. */
  predicate Bridged(s: seq<int>, i: nat)
    requires i < |s|
  {
    i > 0 ==>
      && (Left(i) < |s| ==> s[Parent(i)] <= s[Left(i)])
      && (Right(i) < |s| ==> s[Parent(i)] <= s[Right(i)])
  }

  /** In order except perhaps between `i` and its parent. */
  ghost predicate OrderedButAbove(s: seq<int>, i: nat)
    requires i < |s|
  {
    Bridged(s, i) && forall j | 0 < j < |s| && j != i :: InOrder(s, j)
  }

  /** In order except perhaps between `i` and its children. */
  ghost predicate OrderedButBelow(s: seq<int>, i: nat)
    requires i < |s|
  {
    Bridged(s, i) && forall j | 0 < j < |s| && j != Left(i) && j != Right(i) :: InOrder(s, j)
  }

  /** In order except perhaps around slot `i`; plain heap order when there is no slot `i`. */
  ghost predicate OrderedApartFrom(s: seq<int>, i: nat) {
    && (i < |s| ==> Bridged(s, i))
    && forall j | 0 < j < |s| && j != i && j != Left(i) && j != Right(i) :: InOrder(s, j)
  }

  function Swap<T>(s: seq<T>, a: nat, b: nat): seq<T>
    requires a < |s| && b < |s|
  {
    s[a := s[b]][b := s[a]]
  }

  lemma {:induction false} RootIsMinimum(s: seq<int>, i: nat)
    requires HeapOrdered(s) && i < |s|
    ensures s[0] <= s[i]
    decreases i
  {
    if i > 0 {
      assert InOrder(s, i);
      RootIsMinimum(s, Parent(i));
    }
  }

  /** The only slots whose parent is `i` are its two children. */
  lemma ChildrenOf(i: nat, j: nat)
    requires j > 0
    ensures Parent(j) == i <==> j == Left(i) || j == Right(i)
  {
  }

  lemma UpStep(s: seq<int>, i: nat)
    requires 0 < i < |s| && OrderedButAbove(s, i) && s[i] <= s[Parent(i)]
    ensures OrderedButAbove(Swap(s, i, Parent(i)), Parent(i))
  {
    var p := Parent(i);
    var t := Swap(s, i, p);
    forall j | 0 < j < |t| && j != p ensures InOrder(t, j) {
      assert j != i ==> InOrder(s, j);
    }
    if p > 0 {
      assert InOrder(s, p);
      assert Left(p) < |s| && Left(p) != i ==> InOrder(s, Left(p));
      assert Right(p) < |s| && Right(p) != i ==> InOrder(s, Right(p));
    }
  }

  lemma UpDone(s: seq<int>, i: nat)
    requires i < |s| && OrderedButAbove(s, i) && (i > 0 ==> s[Parent(i)] <= s[i])
    ensures HeapOrdered(s)
  {
    assert i > 0 ==> InOrder(s, i);
  }

  lemma DownStep(s: seq<int>, i: nat, c: nat)
    requires i < |s| && (c == Left(i) || c == Right(i)) && c < |s| && OrderedButBelow(s, i)
    requires s[c] <= s[i]
    requires Left(i) < |s| ==> s[c] <= s[Left(i)]
    requires Right(i) < |s| ==> s[c] <= s[Right(i)]
    ensures OrderedButBelow(Swap(s, i, c), c)
  {
    var t := Swap(s, i, c);
    assert Left(c) < |s| ==> InOrder(s, Left(c));
    assert Right(c) < |s| ==> InOrder(s, Right(c));
    forall j | 0 < j < |t| && j != Left(c) && j != Right(c) ensures InOrder(t, j) {
      ChildrenOf(i, j);
      ChildrenOf(c, j);
      assert j != Left(i) && j != Right(i) ==> InOrder(s, j);
    }
  }

  lemma DownDone(s: seq<int>, i: nat)
    requires i < |s| && OrderedButBelow(s, i)
    requires Left(i) < |s| ==> s[i] <= s[Left(i)]
    requires Right(i) < |s| ==> s[i] <= s[Right(i)]
    ensures HeapOrdered(s)
  {
    assert Left(i) < |s| ==> InOrder(s, Left(i));
    assert Right(i) < |s| ==> InOrder(s, Right(i));
  }

  lemma AppendedBelow(s: seq<int>, key: int)
    requires HeapOrdered(s)
    ensures OrderedButAbove(s + [key], |s|)
  {
    var t := s + [key];
    forall j | 0 < j < |t| && j != |s| ensures InOrder(t, j) {
      assert InOrder(s, j);
    }
  }

  lemma RemovedLast(s: seq<int>)
    requires HeapOrdered(s) && |s| > 0
    ensures HeapOrdered(s[..|s| - 1])
  {
    var t := s[..|s| - 1];
    forall j | 0 < j < |t| ensures InOrder(t, j) {
      assert InOrder(s, j);
    }
  }

  lemma NothingIsOrdered(s: seq<int>)
    requires s == []
    ensures HeapOrdered(s)
  {
  }

  lemma SwapLastApart(s: seq<int>, i: nat)
    requires HeapOrdered(s) && i < |s|
    ensures OrderedApartFrom(Swap(s, i, |s| - 1)[..|s| - 1], i)
  {
    var t := Swap(s, i, |s| - 1)[..|s| - 1];
    forall j | 0 < j < |t| && j != i && j != Left(i) && j != Right(i) ensures InOrder(t, j) {
      ChildrenOf(i, j);
      assert InOrder(s, j);
    }
    if 0 < i < |t| {
      assert InOrder(s, i);
      assert Left(i) < |t| ==> InOrder(s, Left(i));
      assert Right(i) < |t| ==> InOrder(s, Right(i));
    }
  }

  lemma ApartGoesUp(s: seq<int>, i: nat)
    requires 0 < i < |s| && OrderedApartFrom(s, i) && s[i] <= s[Parent(i)]
    ensures OrderedButAbove(s, i)
  {
    forall j | 0 < j < |s| && j != i ensures InOrder(s, j) {
    }
  }

  lemma ApartGoesDown(s: seq<int>, i: nat)
    requires i < |s| && OrderedApartFrom(s, i) && (i > 0 ==> s[Parent(i)] <= s[i])
    ensures OrderedButBelow(s, i)
  {
    forall j | 0 < j < |s| && j != Left(i) && j != Right(i) ensures InOrder(s, j) {
    }
  }
}
