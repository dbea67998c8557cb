/** What the hash table holds, as a value: the records of each bucket's chain in order, and each operation on it. */
module Table {
  import opened Common
  import opened Djb2

  /** One stored entry; `inHeap` says whether the TTL heap holds it. */
  datatype Rec = Rec(key: string, value: string, expiry: Long, inHeap: bool)

  type Chain = seq<Rec>
  type Buckets = seq<Chain>

  function Empty(): (t: Buckets)
    ensures |t| == MOD && forall b | 0 <= b < MOD :: t[b] == []
  {
    seq(MOD, _ => [])
  }

  /** Where the chain walk for `k` stops: at its record, or past the end. */
  function Position(c: Chain, k: string): (i: nat)
    ensures i <= |c|
    ensures forall j | 0 <= j < i :: c[j].key != k
    ensures i < |c| ==> c[i].key == k
  {
    if c == [] || c[0].key == k then 0 else 1 + Position(c[1..], k)
  }

  ghost predicate WfChain(c: Chain, b: nat) {
    && (forall j | 0 <= j < |c| :: Bucket(c[j].key) == b)
    && (forall i, j | 0 <= i < j < |c| :: c[i].key != c[j].key)
  }

  /** Every key is in the bucket it hashes to, once. */
  ghost predicate Wf(t: Buckets) {
    |t| == MOD && forall b | 0 <= b < MOD :: WfChain(t[b], b)
  }

  function FindIn(c: Chain, k: string): Option<Rec> {
    var p := Position(c, k);
    if p < |c| then Some(c[p]) else None
  }

  function Find(t: Buckets, k: string): Option<Rec>
    requires |t| == MOD
  {
    FindIn(t[Bucket(k)], k)
  }

  /** Total chain length. */
  function Total(t: seq<Chain>): nat {
    if t == [] then 0 else |t[0]| + Total(t[1..])
  }

  // ---------- operations ----------

  function Put(c: Chain, k: string, v: string): Chain {
    var p := Position(c, k);
    if p < |c| then c[p := c[p].(value := v)] else c + [Rec(k, v, -1, false)]
  }

  /** The record an insert of `k` and `v` leaves where `before` was: only a new record starts over. */
  function Written(before: Option<Rec>, k: string, v: string): Rec {
    match before
    case Some(r) => r.(value := v)
    case None => Rec(k, v, -1, false)
  }

  predicate Full(t: Buckets, k: string)
    requires |t| == MOD
  {
    Find(t, k).None? && Total(t) + 1 >= MAX_ALLOWED
  }

  function Insert(t: Buckets, k: string, v: string): Buckets
    requires |t| == MOD
  {
    if Full(t, k) then t else t[Bucket(k) := Put(t[Bucket(k)], k, v)]
  }

  function Cut(c: Chain, k: string): Chain {
    var p := Position(c, k);
    if p < |c| then c[..p] + c[p + 1..] else c
  }

  function Delete(t: Buckets, k: string): Buckets
    requires |t| == MOD
  {
    t[Bucket(k) := Cut(t[Bucket(k)], k)]
  }

  /** Deleting `k` would free an entry that the heap keeps: its expiry is the value that the delete takes for "none". */
  predicate StrandsEntry(t: Buckets, k: string)
    requires |t| == MOD
  {
    Find(t, k).Some? && Find(t, k).value.inHeap && Find(t, k).value.expiry == LONG_MAX
  }

  /** `-1` means "never"; anything else has expired once the clock reaches it. */
  predicate Expired(expiry: Long, now: Long) {
    !(expiry > now || expiry == -1)
  }

  /** The lazy deletion done by every lookup of `k`. */
  function Collect(t: Buckets, k: string, now: Long): (t': Buckets)
    requires |t| == MOD
    ensures |t'| == MOD
  {
    match Find(t, k)
    case Some(r) => if Expired(r.expiry, now) then Delete(t, k) else t
    case None => t
  }

  function Stamp(c: Chain, k: string, expiry: Long, inHeap: bool): Chain {
    var p := Position(c, k);
    if p < |c| then c[p := c[p].(expiry := expiry, inHeap := inHeap)] else c
  }

  function SetExpiry(t: Buckets, k: string, expiry: Long, inHeap: bool): Buckets
    requires |t| == MOD
  {
    t[Bucket(k) := Stamp(t[Bucket(k)], k, expiry, inHeap)]
  }

  // ---------- the table as a finite map ----------

  datatype Cell = Cell(value: string, expiry: Long, inHeap: bool)

  ghost function Keys(t: Buckets): set<string> {
    set b, j | 0 <= b < |t| && 0 <= j < |t[b]| :: t[b][j].key
  }

  function CellOf(r: Rec): Cell {
    Cell(r.value, r.expiry, r.inHeap)
  }

  ghost function ToMap(t: Buckets): map<string, Cell>
    requires |t| == MOD
  {
    map k | k in Keys(t) && Find(t, k).Some? :: CellOf(Find(t, k).value)
  }

  lemma ToMapFinds(t: Buckets, k: string)
    requires |t| == MOD
    ensures k in ToMap(t) <==> Find(t, k).Some?
    ensures k in ToMap(t) ==> ToMap(t)[k] == CellOf(Find(t, k).value)
  {
    var b, p := Bucket(k), Position(t[Bucket(k)], k);
    if Find(t, k).Some? {
      assert t[b][p].key in Keys(t);
    }
  }

  lemma EmptyIsWf()
    ensures Wf(Empty()) && ToMap(Empty()) == map[]
  {
    forall k ensures k !in ToMap(Empty()) {
      ToMapFinds(Empty(), k);
    }
  }

  // ---------- chain lemmas ----------

  lemma PutChain(c: Chain, b: nat, k: string, v: string)
    requires WfChain(c, b) && Bucket(k) == b
    ensures WfChain(Put(c, k, v), b)
    ensures FindIn(Put(c, k, v), k) == Some(Written(FindIn(c, k), k, v))
    ensures forall k' | k' != k :: FindIn(Put(c, k, v), k') == FindIn(c, k')
  {
    var c' := Put(c, k, v);
    assert c'[Position(c, k)].key == k;
    forall k' ensures k' == k || FindIn(c', k') == FindIn(c, k') {
      var p := Position(c, k');
      if p < |c| {
        assert c'[p].key == k';
      }
    }
  }

  lemma StampChain(c: Chain, b: nat, k: string, x: Long, h: bool)
    requires WfChain(c, b)
    ensures WfChain(Stamp(c, k, x, h), b) && |Stamp(c, k, x, h)| == |c|
    ensures FindIn(Stamp(c, k, x, h), k) ==
            match FindIn(c, k) case Some(r) => Some(r.(expiry := x, inHeap := h)) case None => None
    ensures forall k' | k' != k :: FindIn(Stamp(c, k, x, h), k') == FindIn(c, k')
  {
    var c' := Stamp(c, k, x, h);
    forall k' ensures Position(c', k') == Position(c, k') {
      var p := Position(c, k');
      var q := Position(c', k');
      if q < |c'| {
        assert c[q].key == k';
      }
      if p < |c| {
        assert c'[p].key == k';
      }
    }
  }

  lemma CutAt(c: Chain, b: nat, i: nat)
    requires WfChain(c, b) && i < |c|
    ensures WfChain(c[..i] + c[i + 1..], b)
    ensures FindIn(c[..i] + c[i + 1..], c[i].key) == None
  {
    var c' := c[..i] + c[i + 1..];
    forall j | 0 <= j < |c'| ensures c'[j] == if j < i then c[j] else c[j + 1] {
    }
  }

  lemma CutKeepsOthers(c: Chain, b: nat, i: nat, k: string)
    requires WfChain(c, b) && i < |c| && c[i].key != k
    ensures FindIn(c[..i] + c[i + 1..], k) == FindIn(c, k)
  {
    var c' := c[..i] + c[i + 1..];
    var p, q := Position(c, k), Position(c', k);
    if p < |c| {
      assert c'[if p < i then p else p - 1] == c[p];
    }
    if q < |c'| {
      assert c'[q] == c[if q < i then q else q + 1];
    }
  }

  lemma CutChain(c: Chain, b: nat, k: string)
    requires WfChain(c, b)
    ensures WfChain(Cut(c, k), b)
    ensures FindIn(Cut(c, k), k) == None
    ensures forall k' | k' != k :: FindIn(Cut(c, k), k') == FindIn(c, k')
  {
    var i := Position(c, k);
    if i < |c| {
      var c' := Cut(c, k);
      assert c' == c[..i] + c[i + 1..] && c[i].key == k;
      CutAt(c, b, i);
      forall k' | k' != k ensures FindIn(c', k') == FindIn(c, k') {
        CutKeepsOthers(c, b, i, k');
      }
    }
  }

  // ---------- what an operation does to every lookup ----------

  lemma {:induction false} TotalUpdate(t: seq<Chain>, b: nat, c: Chain)
    requires b < |t|
    ensures Total(t[b := c]) == Total(t) - |t[b]| + |c|
  {
    if b == 0 {
      assert t[b := c][1..] == t[1..];
    } else {
      assert t[b := c][1..] == t[1..][b - 1 := c];
      TotalUpdate(t[1..], b - 1, c);
    }
  }

  lemma {:induction false} ChainWithinTotal(t: seq<Chain>, b: nat)
    requires b < |t|
    ensures |t[b]| <= Total(t)
  {
    if b > 0 {
      ChainWithinTotal(t[1..], b - 1);
    }
  }

  /** A full table stays as it is; otherwise an insert gives `k` the value `v` and leaves every other key alone. */
  lemma FindInsert(t: Buckets, k: string, v: string)
    requires Wf(t)
    ensures Wf(Insert(t, k, v))
    ensures !Full(t, k) ==> Find(Insert(t, k, v), k) == Some(Written(Find(t, k), k, v))
    ensures forall k' | k' != k :: Find(Insert(t, k, v), k') == Find(t, k')
    ensures Total(Insert(t, k, v)) == Total(t) + if Find(t, k).None? && !Full(t, k) then 1 else 0
  {
    var b := Bucket(k);
    PutChain(t[b], b, k, v);
    TotalUpdate(t, b, Put(t[b], k, v));
  }

  /** A new key is refused exactly when 2^63 - 2 entries are stored. */
  lemma NewKeyIsStored(t: Buckets, k: string, v: string)
    requires Wf(t) && Find(t, k).None?
    ensures Find(Insert(t, k, v), k).Some? <==> Total(t) < 9_223_372_036_854_775_806
  {
    FindInsert(t, k, v);
  }

  /** An insert of a stored key replaces the value where the record stands; no record moves and none else changes. */
  lemma UpdateKeepsPlace(t: Buckets, k: string, v: string)
    requires Wf(t) && Find(t, k).Some?
    ensures var t' := Insert(t, k, v); forall b, j | 0 <= b < MOD && 0 <= j < |t[b]| ::
      |t'[b]| == |t[b]| && t'[b][j] == if t[b][j].key == k then t[b][j].(value := v) else t[b][j]
  {
    PlaceIsUnique(t, k);
  }

  /** An expiry update changes the record where it stands. */
  lemma StampKeepsPlace(t: Buckets, k: string, x: Long, h: bool)
    requires Wf(t)
    ensures var t' := SetExpiry(t, k, x, h); forall b, j | 0 <= b < MOD && 0 <= j < |t[b]| ::
      |t'[b]| == |t[b]| && t'[b][j] == if t[b][j].key == k then t[b][j].(expiry := x, inHeap := h) else t[b][j]
  {
    PlaceIsUnique(t, k);
  }

  /** Only the record at the key's position has the key. */
  lemma PlaceIsUnique(t: Buckets, k: string)
    requires Wf(t)
    ensures forall b, j | 0 <= b < MOD && 0 <= j < |t[b]| ::
      t[b][j].key == k <==> b == Bucket(k) && j == Position(t[b], k)
  {
    forall b, j | 0 <= b < MOD && 0 <= j < |t[b]|
      ensures t[b][j].key == k <==> b == Bucket(k) && j == Position(t[b], k)
    {
      assert WfChain(t[b], b);
    }
  }

  /** A key that is not stored gets a record at the end of its chain. */
  lemma NewRecordGoesLast(t: Buckets, k: string, v: string)
    requires Wf(t) && Find(t, k).None? && !Full(t, k)
    ensures Insert(t, k, v) == t[Bucket(k) := t[Bucket(k)] + [Rec(k, v, -1, false)]] && Wf(Insert(t, k, v))
    ensures Total(Insert(t, k, v)) == Total(t) + 1
  {
    FindInsert(t, k, v);
  }

  lemma FindDelete(t: Buckets, k: string)
    requires Wf(t)
    ensures Wf(Delete(t, k)) && Find(Delete(t, k), k) == None
    ensures forall k' | k' != k :: Find(Delete(t, k), k') == Find(t, k')
    ensures Total(Delete(t, k)) == Total(t) - if Find(t, k).Some? then 1 else 0
  {
    var b := Bucket(k);
    CutChain(t[b], b, k);
    TotalUpdate(t, b, Cut(t[b], k));
  }

  lemma DeleteMissing(t: Buckets, k: string)
    requires |t| == MOD && Find(t, k).None?
    ensures Delete(t, k) == t
  {
  }

  lemma FindCollect(t: Buckets, k: string, now: Long)
    requires Wf(t)
    ensures Wf(Collect(t, k, now))
    ensures Find(Collect(t, k, now), k) ==
            if Find(t, k).Some? && !Expired(Find(t, k).value.expiry, now) then Find(t, k) else None
    ensures forall k' | k' != k :: Find(Collect(t, k, now), k') == Find(t, k')
  {
    FindDelete(t, k);
  }

  lemma FindSetExpiry(t: Buckets, k: string, x: Long, h: bool)
    requires Wf(t)
    ensures Wf(SetExpiry(t, k, x, h))
    ensures Find(SetExpiry(t, k, x, h), k) ==
            match Find(t, k) case Some(r) => Some(r.(expiry := x, inHeap := h)) case None => None
    ensures forall k' | k' != k :: Find(SetExpiry(t, k, x, h), k') == Find(t, k')
    ensures Total(SetExpiry(t, k, x, h)) == Total(t)
  {
    var b := Bucket(k);
    StampChain(t[b], b, k, x, h);
    TotalUpdate(t, b, Stamp(t[b], k, x, h));
  }

  /** Rewriting the expiry of a record about to be deleted makes no difference. */
  lemma DeleteAfterSetExpiry(t: Buckets, k: string, x: Long, h: bool)
    requires Wf(t)
    ensures Delete(SetExpiry(t, k, x, h), k) == Delete(t, k)
  {
    var c := t[Bucket(k)];
    StampChain(c, Bucket(k), k, x, h);
    var p, q := Position(c, k), Position(Stamp(c, k, x, h), k);
    assert p == q by {
      assert p < |c| ==> Stamp(c, k, x, h)[p].key == k;
    }
    assert Cut(Stamp(c, k, x, h), k) == Cut(c, k);
  }

  /** The second of two expiry updates wins. */
  lemma SetExpiryTwice(t: Buckets, k: string, x: Long, h: bool, x': Long, h': bool)
    requires Wf(t)
    ensures SetExpiry(SetExpiry(t, k, x, h), k, x', h') == SetExpiry(t, k, x', h')
  {
    var c := t[Bucket(k)];
    var p, q := Position(c, k), Position(Stamp(c, k, x, h), k);
    assert p == q by {
      StampChain(c, Bucket(k), k, x, h);
      assert p < |c| ==> Stamp(c, k, x, h)[p].key == k;
    }
    assert Stamp(Stamp(c, k, x, h), k, x', h') == Stamp(c, k, x', h');
  }

  // ---------- the number of entries ----------

  ghost function ChainKeys(c: Chain): set<string> {
    set j | 0 <= j < |c| :: c[j].key
  }

  lemma {:induction false} ChainKeysCardinality(c: Chain)
    requires forall i, j | 0 <= i < j < |c| :: c[i].key != c[j].key
    ensures |ChainKeys(c)| == |c|
  {
    if c != [] {
      ChainKeysCardinality(c[..|c| - 1]);
      ChainKeysSnoc(c);
    }
  }

  lemma ChainKeysSnoc(c: Chain)
    requires c != []
    ensures ChainKeys(c) == ChainKeys(c[..|c| - 1]) + {c[|c| - 1].key}
  {
    var n := |c| - 1;
    forall k | k in ChainKeys(c) ensures k in ChainKeys(c[..n]) + {c[n].key} {
      var j :| 0 <= j < |c| && c[j].key == k;
      assert j < n ==> c[..n][j].key == k;
    }
    forall k | k in ChainKeys(c[..n]) ensures k in ChainKeys(c) {
      var j :| 0 <= j < n && c[..n][j].key == k;
      assert c[j].key == k;
    }
  }

  /** Keys of the buckets from `b` on. */
  ghost function KeysFrom(t: Buckets, b: nat): set<string>
    requires b <= |t|
  {
    set i, j | b <= i < |t| && 0 <= j < |t[i]| :: t[i][j].key
  }

  lemma {:induction false} KeysFromCardinality(t: Buckets, b: nat)
    requires Wf(t) && b <= MOD
    ensures |KeysFrom(t, b)| == Total(t[b..])
    decreases MOD - b
  {
    if b == MOD {
      assert KeysFrom(t, b) == {};
    } else {
      KeysFromCardinality(t, b + 1);
      ChainKeysCardinality(t[b]);
      assert t[b..][1..] == t[b + 1..];
      assert WfChain(t[b], b);
      LaterKeysDiffer(t, b);
    }
  }

  /** The keys of bucket `b` are not in any later bucket. */
  lemma LaterKeysDiffer(t: Buckets, b: nat)
    requires Wf(t) && b < MOD
    ensures KeysFrom(t, b) == ChainKeys(t[b]) + KeysFrom(t, b + 1)
    ensures ChainKeys(t[b]) !! KeysFrom(t, b + 1)
  {
    assert WfChain(t[b], b);
    forall i, j | b < i < MOD && 0 <= j < |t[i]| ensures Bucket(t[i][j].key) == i {
      assert WfChain(t[i], i);
    }
  }

  lemma EmptyHasNothing()
    ensures Wf(Empty()) && Total(Empty()) == 0
  {
    EmptyIsWf();
    TotalIsMapSize(Empty());
  }

  /** The table holds as many entries as the map it stands for has keys. */
  lemma TotalIsMapSize(t: Buckets)
    requires Wf(t)
    ensures |ToMap(t)| == Total(t)
  {
    KeysFromCardinality(t, 0);
    assert t[0..] == t;
    assert ToMap(t).Keys == KeysFrom(t, 0) by {
      forall k | k in KeysFrom(t, 0) ensures k in ToMap(t) {
        var b, j :| 0 <= b < MOD && 0 <= j < |t[b]| && t[b][j].key == k;
        assert WfChain(t[b], b);
        ToMapFinds(t, k);
      }
    }
  }
}
