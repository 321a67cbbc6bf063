/** The 16-bit hash that replicas compare: on an updated tree it is a function of the live
    entries alone, whatever splits and merges shaped the tree. */
module SyncHash {
  import opened KeyCodec
  import opened HTreeLeaf
  import opened HTreeBlocks
  import opened HTreePool
  import opened HashTree
  import Fnv1a

  const PLAIN_LIMIT := SPLIT_LIMIT * 4

  /** The entries of `m` whose hash has hex digit `b` at depth `d`. */
  ghost function Digit(td: nat, m: map<Key, Entry>, d: nat, b: nat): map<Key, Entry> {
    map k | k in m && Nibble(td, Fnv1a.Hash(k), d) == b :: m[k]
  }

  ghost function Digits(td: nat, m: map<Key, Entry>, d: nat, n: nat): map<Key, Entry> {
    map k | k in m && Nibble(td, Fnv1a.Hash(k), d) < n :: m[k]
  }

  /** The hash of a set of live entries: their plain sum up to 256 of them, otherwise a
      base-97 fold over the sixteen digit classes. */
  ghost function Sync(td: nat, live: map<Key, Entry>, d: nat): int
    decreases 8 - td - d, 1, 0
  {
    if |live| <= PLAIN_LIMIT || td + d > 7 then U16(HashSum(live)) else SyncFold(td, live, d, BUCKET_SIZE)
  }

  ghost function SyncFold(td: nat, live: map<Key, Entry>, d: nat, n: nat): int
    requires td + d <= 7
    decreases 8 - td - d, 0, n
  {
    if n == 0 then 0
    else U16(SyncFold(td, live, d, n - 1) * 97 + Sync(td, Digit(td, live, d, n - 1), d + 1))
  }

  // ---- Sums over parts ------------------------------------------------------------------------

  lemma {:induction false} HashSumUnion(a: map<Key, Entry>, b: map<Key, Entry>)
    requires a.Keys !! b.Keys
    ensures HashSum(a + b) == HashSum(a) + HashSum(b)
    decreases |a|
  {
    hide HashSum, Weight, Fnv1a.Hash;
    if a == map[] {
      assert a + b == b;
      EmptySum(a);
    } else {
      var k :| k in a;
      HashSumUnion(a - {k}, b);
      HashSumAt(a, k);
      HashSumAt(a + b, k);
      MinusUnion(a, b, k);
    }
  }

  lemma MinusUnion(a: map<Key, Entry>, b: map<Key, Entry>, k: Key)
    requires k !in b
    ensures (a + b) - {k} == (a - {k}) + b
  {
  }

  lemma EmptySum(a: map<Key, Entry>)
    requires a == map[]
    ensures HashSum(a) == 0 && |a| == 0
  {
  }

  /** Dead entries weigh nothing. */
  lemma {:induction false} LiveSum(m: map<Key, Entry>)
    ensures HashSum(LivePart(m)) == HashSum(m) && |LivePart(m)| == LiveCount(m)
    decreases |m|
  {
    hide HashSum, Weight, Fnv1a.Hash, LiveEntry;
    LiveSize(m);
    if m == map[] {
      assert LivePart(m) == map[];
    } else {
      var k :| k in m;
      LiveSum(m - {k});
      HashSumAt(m, k);
      if LiveEntry(m[k]) {
        HashSumAt(LivePart(m), k);
        assert LivePart(m) - {k} == LivePart(m - {k});
      } else {
        DeadWeight(k, m[k]);
        assert LivePart(m) == LivePart(m - {k});
      }
    }
  }

  lemma DeadWeight(k: Key, e: Entry)
    requires !LiveEntry(e)
    ensures Weight(Fnv1a.Hash(k), e) == 0
  {
  }

  lemma DigitsStep(td: nat, m: map<Key, Entry>, d: nat, n: nat)
    ensures HashSum(Digits(td, m, d, n + 1)) == HashSum(Digits(td, m, d, n)) + HashSum(Digit(td, m, d, n))
    ensures |Digits(td, m, d, n + 1)| == |Digits(td, m, d, n)| + |Digit(td, m, d, n)|
  {
    hide Nibble, HashSum, Fnv1a.Hash;
    assert Digits(td, m, d, n + 1) == Digits(td, m, d, n) + Digit(td, m, d, n);
    HashSumUnion(Digits(td, m, d, n), Digit(td, m, d, n));
    UnionSize(Digits(td, m, d, n), Digit(td, m, d, n));
  }

  lemma SubmapSize(a: map<Key, Entry>, b: map<Key, Entry>)
    requires a.Keys <= b.Keys
    ensures |a| <= |b|
  {
    assert b.Keys == a.Keys + (b.Keys - a.Keys);
    assert |a.Keys| <= |b.Keys|;
  }

  // ---- The tree against the specification ---------------------------------------------------

  ghost predicate SmallLeaves(pool: Pool, r: nat) {
    forall i: nat :: Reach(pool, r, i) && !pool[i].isNode ==> pool[i].count <= PLAIN_LIMIT
  }

  ghost predicate Summarised(pool: Pool, td: nat, i: nat, m: map<Key, Entry>)
    requires i < |pool|
  {
    pool[i].count == |LivePart(m)| && pool[i].hash == Sync(td, LivePart(m), Depth(i))
  }

  /** An updated subtree carries the exact live count and the specified hash. */
  lemma {:induction false} UpdatedHash(pool: Pool, dict: Dict, td: nat, i: nat, m: map<Key, Entry>)
    requires i < |pool| && SubOk(pool, dict, i) && Holds(pool, dict, td, i, m) && pool[i].valid
    requires SmallLeaves(pool, i)
    requires forall j :: 0 <= j < |pool| ==> td + Depth(j) <= 7
    ensures Summarised(pool, td, i, m)
    decreases |pool| - i
  {
    hide SubOk, Holds, Sync, HashSum, LiveCount, Depth, Summarised, Nibble;
    if pool[i].isNode {
      ToChildren(pool, dict, td, i, m);
      assert InnerNodeOk(pool, i);
      forall b | 0 <= b < BUCKET_SIZE ensures Summarised(pool, td, Child(i, b), Part(td, i, m, b)) {
        ChildReach(pool, i, b);
        SmallBelow(pool, i, Child(i, b));
        UpdatedHash(pool, dict, td, Child(i, b), Part(td, i, m, b));
      }
      InnerHash(pool, td, i, m);
    } else {
      LeafHash(pool, dict, td, i, m);
    }
  }

  lemma SmallBelow(pool: Pool, r: nat, c: nat)
    requires SmallLeaves(pool, r) && Reach(pool, r, c)
    ensures SmallLeaves(pool, c)
  {
    forall i: nat | Reach(pool, c, i) && !pool[i].isNode ensures pool[i].count <= PLAIN_LIMIT {
      ReachTrans(pool, r, c, i);
    }
  }

  lemma LeafHash(pool: Pool, dict: Dict, td: nat, i: nat, m: map<Key, Entry>)
    requires i < |pool| && !pool[i].isNode && SubOk(pool, dict, i) && Holds(pool, dict, td, i, m)
    requires pool[i].count <= PLAIN_LIMIT
    ensures Summarised(pool, td, i, m)
  {
    hide HashSum, LiveCount, Contents;
    LeafIsMap(pool, dict, td, i, m);
    assert Reach(pool, i, i);
    assert NodeOk(pool, dict, i);
    LiveSum(m);
  }

  lemma DigitOfLive(td: nat, i: nat, m: map<Key, Entry>, b: nat)
    ensures LivePart(Part(td, i, m, b)) == Digit(td, LivePart(m), Depth(i), b)
  {
    hide Nibble, Depth, LiveEntry, Fnv1a.Hash;
  }

  lemma InnerHash(pool: Pool, td: nat, i: nat, m: map<Key, Entry>)
    requires i < |pool| && pool[i].valid && InnerNodeOk(pool, i) && td + Depth(i) <= 7
    requires forall b :: 0 <= b < BUCKET_SIZE ==> Summarised(pool, td, Child(i, b), Part(td, i, m, b))
    ensures Summarised(pool, td, i, m)
  {
    hide Sync, HashSum, Depth, Nibble, SumCounts, FoldHashes, ChildDone, Digits, Digit, LivePart, SyncFold, Part;
    var live, d := LivePart(m), Depth(i);
    forall b | 0 <= b < BUCKET_SIZE ensures ChildDone(pool, td, i, live, b) {
      ChildIsDone(pool, td, i, m, b);
    }
    CountsOfParts(pool, td, i, live, BUCKET_SIZE);
    AllDigits(td, live, d);
    assert pool[i].count == |live|;
    if |live| <= PLAIN_LIMIT {
      PlainOfParts(pool, td, i, live, BUCKET_SIZE);
    } else {
      FoldOfParts(pool, td, i, live, BUCKET_SIZE);
    }
    SyncCases(td, live, d);
  }

  lemma ChildIsDone(pool: Pool, td: nat, i: nat, m: map<Key, Entry>, b: nat)
    requires b < BUCKET_SIZE && Child(i, b) < |pool| && Summarised(pool, td, Child(i, b), Part(td, i, m, b))
    ensures ChildDone(pool, td, i, LivePart(m), b)
  {
    hide Sync, Depth, Nibble, LivePart, Part, Digit;
    ParentOfChild(i, b);
    DigitOfLive(td, i, m, b);
  }

  lemma AllDigits(td: nat, live: map<Key, Entry>, d: nat)
    requires td + d <= 7
    ensures Digits(td, live, d, BUCKET_SIZE) == live
  {
    hide LiveEntry, Fnv1a.Hash;
  }

  lemma SyncCases(td: nat, live: map<Key, Entry>, d: nat)
    requires td + d <= 7
    ensures Sync(td, live, d)
      == if |live| <= PLAIN_LIMIT then U16(HashSum(live)) else SyncFold(td, live, d, BUCKET_SIZE)
  {
    hide SyncFold, HashSum;
  }

  ghost predicate ChildDone(pool: Pool, td: nat, i: nat, live: map<Key, Entry>, b: nat)
    requires Child(i, b) < |pool|
  {
    && pool[Child(i, b)].count == |Digit(td, live, Depth(i), b)|
    && pool[Child(i, b)].hash == Sync(td, Digit(td, live, Depth(i), b), Depth(i) + 1)
  }

  lemma {:induction false} CountsOfParts(pool: Pool, td: nat, i: nat, live: map<Key, Entry>, n: nat)
    requires n <= BUCKET_SIZE && Child(i, 15) < |pool|
    requires forall b :: 0 <= b < n ==> ChildDone(pool, td, i, live, b)
    ensures SumCounts(pool, i, n) == |Digits(td, live, Depth(i), n)|
    decreases n
  {
    hide Sync, Depth, Nibble, HashSum, Digits, Digit, SumCounts;
    if n == 0 {
      NoParts(pool, td, i, live);
    } else {
      CountsOfParts(pool, td, i, live, n - 1);
      SumCountsNext(pool, i, n - 1);
      DigitsStep(td, live, Depth(i), n - 1);
      assert ChildDone(pool, td, i, live, n - 1);
    }
  }

  lemma NoParts(pool: Pool, td: nat, i: nat, live: map<Key, Entry>)
    requires Child(i, 15) < |pool|
    ensures SumCounts(pool, i, 0) == |Digits(td, live, Depth(i), 0)|
  {
    assert Digits(td, live, Depth(i), 0) == map[];
  }

  lemma {:induction false} PlainOfParts(pool: Pool, td: nat, i: nat, live: map<Key, Entry>, n: nat)
    requires n <= BUCKET_SIZE && Child(i, 15) < |pool| && |live| <= PLAIN_LIMIT
    requires forall b :: 0 <= b < n ==> ChildDone(pool, td, i, live, b)
    ensures FoldHashes(pool, i, |live|, n) == U16(HashSum(Digits(td, live, Depth(i), n)))
    decreases n
  {
    hide Depth, Nibble, HashSum, Digits, Digit, U16, Sync, FoldHashes, ChildDone;
    if n == 0 {
      NoDigits(td, live, Depth(i));
      FoldPlain(pool, i, |live|, 0);
    } else {
      PlainOfParts(pool, td, i, live, n - 1);
      assert ChildDone(pool, td, i, live, n - 1);
      PlainStep(pool, td, i, live, n - 1);
    }
  }

  lemma PlainStep(pool: Pool, td: nat, i: nat, live: map<Key, Entry>, n: nat)
    requires n < BUCKET_SIZE && Child(i, 15) < |pool| && |live| <= PLAIN_LIMIT
    requires ChildDone(pool, td, i, live, n)
    requires FoldHashes(pool, i, |live|, n) == U16(HashSum(Digits(td, live, Depth(i), n)))
    ensures FoldHashes(pool, i, |live|, n + 1) == U16(HashSum(Digits(td, live, Depth(i), n + 1)))
  {
    hide Depth, Nibble, HashSum, Digits, Digit, U16, Sync, FoldHashes;
    var part := Digit(td, live, Depth(i), n);
    DigitsStep(td, live, Depth(i), n);
    DigitSmall(td, live, Depth(i), n);
    SyncSmall(td, part, Depth(i) + 1);
    U16Sum(HashSum(Digits(td, live, Depth(i), n)), HashSum(part));
    FoldPlain(pool, i, |live|, n);
  }

  lemma U16Sum(a: int, b: int)
    ensures U16(U16(a) + U16(b)) == U16(a + b)
  {
    U16Add(a, U16(b));
    U16Add(b, a);
  }

  lemma FoldPlain(pool: Pool, i: nat, count: nat, n: nat)
    requires n < BUCKET_SIZE && Child(i, 15) < |pool| && count <= PLAIN_LIMIT
    ensures FoldHashes(pool, i, count, 0) == 0
    ensures FoldHashes(pool, i, count, n + 1) == U16(FoldHashes(pool, i, count, n) + pool[Child(i, n)].hash)
  {
    hide U16;
  }

  lemma NoDigits(td: nat, live: map<Key, Entry>, d: nat)
    ensures U16(HashSum(Digits(td, live, d, 0))) == 0
  {
    assert Digits(td, live, d, 0) == map[];
  }

  lemma DigitSmall(td: nat, live: map<Key, Entry>, d: nat, b: nat)
    ensures |Digit(td, live, d, b)| <= |live|
  {
    SubmapSize(Digit(td, live, d, b), live);
  }

  lemma SyncSmall(td: nat, live: map<Key, Entry>, d: nat)
    requires |live| <= PLAIN_LIMIT
    ensures Sync(td, live, d) == U16(HashSum(live))
  {
  }

  lemma {:induction false} FoldOfParts(pool: Pool, td: nat, i: nat, live: map<Key, Entry>, n: nat)
    requires n <= BUCKET_SIZE && Child(i, 15) < |pool| && |live| > PLAIN_LIMIT && td + Depth(i) <= 7
    requires forall b :: 0 <= b < n ==> ChildDone(pool, td, i, live, b)
    ensures FoldHashes(pool, i, |live|, n) == SyncFold(td, live, Depth(i), n)
    decreases n
  {
    hide Depth, Nibble, Digit, U16, Sync;
    if n > 0 {
      FoldOfParts(pool, td, i, live, n - 1);
      assert ChildDone(pool, td, i, live, n - 1);
    }
  }

  // ---- Counts -------------------------------------------------------------------------------

  /** Every node of a tree holds the entries whose hashes lead to it. */
  lemma {:induction false} HoldsAt(pool: Pool, dict: Dict, td: nat, i: nat, m: map<Key, Entry>)
    requires Reach(pool, 0, i) && SubOk(pool, dict, 0) && Holds(pool, dict, td, 0, m)
    ensures SubOk(pool, dict, i) && Holds(pool, dict, td, i, OnPath(td, i, m))
    decreases i
  {
    hide SubOk, Holds, Nibble;
    if i == 0 {
      assert OnPath(td, 0, m) == m;
    } else {
      var p := Parent(i);
      var b := ChildOfParent(i);
      HoldsAt(pool, dict, td, p, m);
      ToChildren(pool, dict, td, p, OnPath(td, p, m));
      ToChild(pool, dict, td, p, OnPath(td, p, m), b);
      PathStep(td, p, m, b);
    }
  }

  lemma PathStep(td: nat, p: nat, m: map<Key, Entry>, b: nat)
    requires b < BUCKET_SIZE
    ensures Part(td, p, OnPath(td, p, m), b) == OnPath(td, Child(p, b), m)
  {
    hide Nibble, Depth;
    forall k | k in m
      ensures Own(td, Child(p, b), Fnv1a.Hash(k)) <==>
        Own(td, p, Fnv1a.Hash(k)) && Nibble(td, Fnv1a.Hash(k), Depth(p)) == b
    {
      ParentOfChild(p, b);
    }
  }

  /** A tree of at most 256 live entries has no overfull leaf. */
  lemma SmallTotal(pool: Pool, dict: Dict, td: nat, m: map<Key, Entry>)
    requires 0 < |pool| && SubOk(pool, dict, 0) && Holds(pool, dict, td, 0, m) && |LivePart(m)| <= PLAIN_LIMIT
    ensures SmallLeaves(pool, 0)
  {
    hide SubOk, Holds, LivePart, OnPath;
    forall i: nat | Reach(pool, 0, i) && !pool[i].isNode ensures pool[i].count <= PLAIN_LIMIT {
      HoldsAt(pool, dict, td, i, m);
      LeafCounts(pool, dict, td, i, OnPath(td, i, m));
      FewerOnPath(td, i, m);
    }
  }

  lemma FewerOnPath(td: nat, i: nat, m: map<Key, Entry>)
    ensures |LivePart(OnPath(td, i, m))| <= |LivePart(m)|
  {
    hide Own;
    SubmapSize(LivePart(OnPath(td, i, m)), LivePart(m));
  }

  /** Two updated trees with the same live entries have the same root hash and count,
      whatever their histories, dictionaries and shapes. */
  lemma ShapeIndependent(p: Pool, dp: Dict, mp: map<Key, Entry>, q: Pool, dq: Dict, mq: map<Key, Entry>, td: nat)
    requires 0 < |p| && SubOk(p, dp, 0) && Holds(p, dp, td, 0, mp) && p[0].valid && SmallLeaves(p, 0)
    requires 0 < |q| && SubOk(q, dq, 0) && Holds(q, dq, td, 0, mq) && q[0].valid && SmallLeaves(q, 0)
    requires forall j :: 0 <= j < |p| ==> td + Depth(j) <= 7
    requires forall j :: 0 <= j < |q| ==> td + Depth(j) <= 7
    requires LivePart(mp) == LivePart(mq)
    ensures p[0].hash == q[0].hash == Sync(td, LivePart(mp), 0)
    ensures p[0].count == q[0].count == |LivePart(mp)|
  {
    hide SubOk, Holds, Sync;
    UpdatedHash(p, dp, td, 0, mp);
    UpdatedHash(q, dq, td, 0, mq);
  }
}
