/** What counting the keys of the current bucket can do to a deletion. The count updates the tree of
    that bucket, which drops tombstones when it merges; the hint made of the tree lacks them, and
    the restart through hints has the keys again. */
module Revival {
  import opened Bytes
  import opened HTreeLeaf
  import opened HTreePool
  import opened HashTree
  import opened HTreeApi
  import opened Record
  import opened DataFile
  import opened Hint
  import opened Buffers
  import opened Protocol
  import opened SetRules
  import opened Bitcask
  import opened Replay
  import opened Lasts
  import opened HintTrees
  import opened CurrentTree
  import opened Store
  import opened Recovery
  import Fnv1a

  // ---- Count, then restart ------------------------------------------------------------------------

  /** The entry of a tree is for the last record of its key. */
  lemma Tombstone(td: nat, tpos: int, v: View, max: nat, hints: Files, trees: Trees, currTree: Index, key: Key)
    returns (j: nat)
    requires td <= 8 && Inv(v, max) && HintsOk(td, tpos, TableOf(v), v.curr, hints, trees, currTree)
    requires v.curr < MAX_BUCKET_COUNT && key in currTree
    ensures LastAt(TableOf(v), key, v.curr, j) && Accepts(td, tpos, key)
    ensures TableOf(v)[v.curr][j].version > 0 <==> currTree[key].ver > 0
  {
    hide Inv, CheckKey, AllSound, Knows, TreesOk, TreeHint, TableOf, InRange, StartOf, Plain, GenHash;
    var t := TableOf(v);
    TableOfOk(v, max);
    TreeRow(td, tpos, t, v.curr, hints, trees, currTree, v.curr);
    assert TreeAt(trees, currTree, v.curr, v.curr) == currTree;
    KnowsLive(td, tpos, t[v.curr], currTree, key);
    j :| LastIn(t[v.curr], key, j) && EntryFor(t[v.curr], j, currTree[key]);
  }

  /** The hints of a store after its current tree has changed. */
  lemma HintsAfter(td: nat, tpos: int, t: Table, trees: Trees, c: Index, c': Index, curr: nat, key: Key, j: nat)
    requires td <= 8 && TableOk(t) && |t| == MAX_BUCKET_COUNT && curr < |t|
    requires TreesOk(td, tpos, t, TreeList(trees, c', curr)) && LastAt(t, key, curr, j) && Accepts(td, tpos, key)
    requires t[curr][j].version <= 0
    ensures LiveIn(TreeList(trees, c', curr), key) <==> key !in c' && LiveIn(TreeList(trees, c, curr)[..curr], key)
  {
    hide TableOk, TreesOk, LiveIn, Accepts, LastAt;
    var cs, cs' := TreeList(trees, c, curr), TreeList(trees, c', curr);
    LiveInLast(td, tpos, t, cs', key, curr, j);
    assert cs'[..curr] == cs[..curr] && cs'[curr] == c';
  }

  /** bc_count, then a shutdown and a start through the hints: a key whose tombstone is in the tree of the
      current bucket is back if and only if the count merges on its way and an older hint has it live. */
  method CountAndRestart(store: Store, key: Key, beyond: seq<byte>)
    returns (count: nat, tree: HTree, files: Files, ghost m: map<Key, Entry>)
    requires store.Valid() && 9 <= |beyond| && store.log.curr < MAX_BUCKET_COUNT
    requires key in store.currTree && store.currTree[key].ver <= 0
    modifies store, store.log, store.bucketTree
    ensures store.Valid() && store.kv == old(store.kv) && fresh(tree) && fresh(tree.dc) && TreeIs(tree, m)
    ensures key in m <==>
      && old(Merges(store.bucketTree.pool, store.td, 0, store.currTree, Fnv1a.Hash(key)))
      && LiveIn(old(HintTreesOf(store))[..old(store.log.curr)], key)
  {
    hide TreeIs, Inv, Bounded, Mirrors, CellsOk, ReplayTable, TableOk, TableOf, TreeList, HintsOk, AllComplete;
    hide CurrentKnown, Faithful, LiveIn, InBucket, CheckKey, LastAt, TreesOk, Merges, TopOk, Recovered, LivePart;
    ghost var td, tpos, v, was, trees := store.td, store.tpos, store.log.Now(), store.currTree, store.trees;
    ghost var j := Tombstone(td, tpos, v, store.log.max, store.hints, trees, was, key);
    ghost var pool := store.bucketTree.pool;
    count := store.CountCurrent();
    DeadUpdated(pool, td, was, key);
    TreesBehind(td, tpos, TableOf(v), v.curr, store.hints, trees, store.currTree);
    HintsAfter(td, tpos, TableOf(v), trees, was, store.currTree, v.curr, key, j);
    tree, files, m := Restart(store, true, beyond);
  }

  lemma DeadUpdated(pool: Pool, td: nat, m: Index, k: Key)
    requires k in m && m[k].ver <= 0
    ensures k in Updated(pool, td, 0, m) <==> !Merges(pool, td, 0, m, Fnv1a.Hash(k))
  {
    hide Merges;
  }

  // ---- A deletion that does not last --------------------------------------------------------------

  /** One more than a root leaf can have live. */
  const ENOUGH := SPLIT_LIMIT * 4 + 1
  const BLOCK := 256

  /** Keys that the store has never seen, short enough for one block each. */
  ghost predicate Newcomers(td: nat, tpos: int, kv: map<Key, Cell>, c: Index, others: seq<Key>)
    requires td <= 8
  {
    && Distinct(others)
    && (forall i :: 0 <= i < |others| ==> Newcomer(td, tpos, others[i]) && others[i] !in kv && others[i] !in c)
  }

  predicate Newcomer(td: nat, tpos: int, k: Key)
    requires td <= 8
  {
    CheckKey(k) && InBucket(td, tpos, k) && |k| <= 200
  }

  const FILLER := Change([1], 0, 0)
  const REMOVAL := Change([], 0, -1)

  lemma FillerOk(td: nat, tpos: int, k: Key, tstamp: int, kv: map<Key, Cell>, top: nat)
    requires td <= 8 && Newcomer(td, tpos, k) && k !in kv && 0 <= tstamp < TWO_32 && TopOk(top)
    ensures Acceptable(k, FILLER, tstamp, VersionOf(CellOf(kv, k)), top) && WriteSize(k, FILLER) == BLOCK
    ensures Succeeds(CellOf(kv, k), FILLER) && Written(CellOf(kv, k), FILLER)
    ensures var kv' := KvSet(td, tpos, kv, k, FILLER); kv' == kv[k := Cell(1, 0, [1])]
  {
    hide TopOk;
    TopBounds(top);
  }

  lemma RemovalOk(td: nat, tpos: int, k: Key, tstamp: int, kv: map<Key, Cell>, top: nat)
    requires td <= 8 && Newcomer(td, tpos, k) && k in kv && kv[k].ver == 1 && 0 <= tstamp < TWO_32 && TopOk(top)
    ensures Acceptable(k, REMOVAL, tstamp, VersionOf(CellOf(kv, k)), top) && WriteSize(k, REMOVAL) == BLOCK
    ensures Succeeds(CellOf(kv, k), REMOVAL) && Written(CellOf(kv, k), REMOVAL)
    ensures var kv' := KvSet(td, tpos, kv, k, REMOVAL); kv' == kv[k := Cell(-2, 0, [])]
  {
    hide TopOk;
    TopBounds(top);
  }

  /** What is live in `c` was live in `c0` or is one of `ks`. */
  ghost predicate LiveWithin(c: Index, c0: Index, ks: seq<Key>) {
    forall k :: k in c && c[k].ver > 0 ==> (k in c0 && c0[k].ver > 0) || k in ks
  }

  predicate Distinct(ks: seq<Key>) {
    forall i, j :: 0 <= i < j < |ks| ==> ks[i] != ks[j]
  }

  function KeySet(ks: seq<Key>): set<Key> {
    if ks == [] then {} else KeySet(ks[..|ks| - 1]) + {ks[|ks| - 1]}
  }

  lemma {:induction false} DistinctCount(ks: seq<Key>, c: Index)
    requires Distinct(ks) && forall i :: 0 <= i < |ks| ==> ks[i] in c && c[ks[i]].ver > 0
    ensures |KeySet(ks)| == |ks| && (forall k :: k in KeySet(ks) ==> k in ks) && KeySet(ks) <= LivePart(c).Keys
    decreases |ks|
  {
    if ks != [] {
      var n := |ks| - 1;
      DistinctCount(ks[..n], c);
      assert ks[n] !in KeySet(ks[..n]);
    }
  }

  lemma ManyLive(c: Index, ks: seq<Key>)
    requires Distinct(ks) && forall i :: 0 <= i < |ks| ==> ks[i] in c && c[ks[i]].ver > 0
    ensures |LivePart(c)| >= |ks|
  {
    hide KeySet;
    DistinctCount(ks, c);
    SubsetSize(KeySet(ks), LivePart(c).Keys);
  }

  lemma FewLive(c: Index, c0: Index)
    requires LiveWithin(c, c0, [])
    ensures |LivePart(c)| <= |LivePart(c0)|
  {
    SubsetSize(LivePart(c).Keys, LivePart(c0).Keys);
  }

  lemma RootRuleIs(pool: Pool, height: nat, td: nat, known: bool, m: Index, pool': Pool, height': nat)
    requires RootRule(pool, height, td, true, known, m, pool', height')
    ensures 0 < |pool| && 0 < |pool'| && (pool[0].isNode ==> pool'[0].isNode && !pool'[0].valid)
    ensures !known && td + 1 < MAX_DEPTH ==> pool'[0].isNode || |LivePart(m)| <= SPLIT_LIMIT * 4
  {
    hide LivePart;
  }

  lemma RoomLeft(v: View, w: View, n: nat)
    requires InRoom(v, w, n) && |v.wbuf| + n <= v.wbufSize
    ensures w.curr == v.curr && |w.wbuf| <= |v.wbuf| + n && w.wbufSize == v.wbufSize
  {
  }

  lemma SameBelowTrans(a: seq<(seq<Rec>, Index)>, b: seq<(seq<Rec>, Index)>, c: seq<(seq<Rec>, Index)>, n: nat)
    requires SameBelow(a, b, n) && SameBelow(b, c, n)
    ensures SameBelow(a, c, n)
  {
  }

  /** The first `i` newcomers are live; what was there before is as it was. */
  ghost predicate FilledTo(kv0: map<Key, Cell>, c0: Index, kv: map<Key, Cell>, c: Index, others: seq<Key>, i: nat)
    requires i <= |others|
  {
    && (forall j :: 0 <= j < i ==> others[j] in kv && kv[others[j]].ver == 1)
    && (forall j :: 0 <= j < i ==> others[j] in c && c[others[j]].ver > 0)
    && (forall j :: i <= j < |others| ==> others[j] !in kv && others[j] !in c)
    && (forall k :: k in kv0 ==> k in kv && kv[k] == kv0[k])
    && LiveWithin(c, c0, others) && Distinct(others) && (forall j :: 0 <= j < |others| ==> others[j] !in kv0)
  }

  lemma NothingFilled(td: nat, tpos: int, kv: map<Key, Cell>, c: Index, others: seq<Key>)
    requires td <= 8 && Newcomers(td, tpos, kv, c, others)
    ensures FilledTo(kv, c, kv, c, others, 0)
  {
    hide Newcomer;
  }

  lemma NotYet(kv0: map<Key, Cell>, c0: Index, kv: map<Key, Cell>, c: Index, others: seq<Key>, i: nat)
    requires i < |others| && FilledTo(kv0, c0, kv, c, others, i)
    ensures others[i] !in kv && others[i] !in c
  {
  }

  lemma FillStep(kv0: map<Key, Cell>, c0: Index, kv: map<Key, Cell>, c: Index, kv': map<Key, Cell>, c': Index,
                 others: seq<Key>, i: nat)
    requires i < |others| && FilledTo(kv0, c0, kv, c, others, i) && kv' == kv[others[i] := Cell(1, 0, [1])]
    requires others[i] in c' && c' == c[others[i] := c'[others[i]]] && c'[others[i]].ver == 1
    ensures FilledTo(kv0, c0, kv', c', others, i + 1)
  {
  }

  lemma AllFilled(kv0: map<Key, Cell>, c0: Index, kv: map<Key, Cell>, c: Index, others: seq<Key>)
    requires FilledTo(kv0, c0, kv, c, others, |others|)
    ensures |LivePart(c)| >= |others|
  {
    ManyLive(c, others);
  }

  /** Enough new keys to split the root of the current bucket's tree. */
  method Fill(store: Store, others: seq<Key>, tstamp: int, memory: bool, beyond: seq<byte>)
    requires store.Valid() && 9 <= |beyond| && store.log.curr < MAX_BUCKET_COUNT && 0 <= tstamp < TWO_32
    requires store.td + 1 < MAX_DEPTH && |others| == ENOUGH
    requires Newcomers(store.td, store.tpos, store.kv, store.currTree, others)
    requires store.log.wbufCurr + BLOCK * ENOUGH <= store.log.wbufSize
    modifies store, store.log, store.log.wbuf, store.bucketTree, store.bucketTree.dc
    ensures store.Valid() && store.log.curr == old(store.log.curr)
    ensures store.log.wbuf == old(store.log.wbuf) || fresh(store.log.wbuf)
    ensures store.bucketTree == old(store.bucketTree) || (fresh(store.bucketTree) && fresh(store.bucketTree.dc))
    ensures store.log.wbufCurr <= old(store.log.wbufCurr) + BLOCK * ENOUGH
    ensures store.log.wbufSize == old(store.log.wbufSize)
    ensures 0 < |store.bucketTree.pool| && store.bucketTree.pool[0].isNode
    ensures FilledTo(old(store.kv), old(store.currTree), store.kv, store.currTree, others, |others|)
    ensures SameBelow(old(store.Rows()), store.Rows(), store.log.curr)
  {
    hide TreeIs, Inv, Bounded, InStep, TableOf, TreeList, RowList, SameBelow, AllComplete, CurrentKnown, TopOk;
    hide LivePart;
    hide Spends, InRoom, RootRule, Acceptable, KvSet, Succeeds, InBucket, CheckKey, WriteSize, FilledTo, Distinct;
    var i := 0;
    NothingFilled(store.td, store.tpos, store.kv, store.currTree, others);
    SameBelowSelf(store.Rows(), store.log.curr);
    TreeRoot(store.bucketTree, store.currTree);
    while i < |others|
      invariant 0 <= i <= |others| && store.Valid() && store.log.curr == old(store.log.curr)
      invariant store.log.wbuf == old(store.log.wbuf) || fresh(store.log.wbuf)
      invariant store.bucketTree == old(store.bucketTree) || (fresh(store.bucketTree) && fresh(store.bucketTree.dc))
      invariant store.log.wbufCurr <= old(store.log.wbufCurr) + BLOCK * i
      invariant store.log.wbufSize == old(store.log.wbufSize)
      invariant FilledTo(old(store.kv), old(store.currTree), store.kv, store.currTree, others, i)
      invariant SameBelow(old(store.Rows()), store.Rows(), store.log.curr) && 0 < |store.bucketTree.pool|
      invariant i > 0 ==> store.bucketTree.pool[0].isNode || |LivePart(store.currTree)| <= SPLIT_LIMIT * 4
    {
      ghost var v, kv, was, pool, height, rows :=
        store.log.Now(), store.kv, store.currTree, store.bucketTree.pool, store.bucketTree.height, store.Rows();
      NotYet(old(store.kv), old(store.currTree), kv, was, others, i);
      assert Newcomer(store.td, store.tpos, others[i]);
      FillerOk(store.td, store.tpos, others[i], tstamp, store.kv, store.log.top);
      var ok, full := store.Set(others[i], FILLER, tstamp, memory, beyond);
      RoomLeft(v, store.log.Now(), BLOCK);
      RootRuleIs(pool, height, store.td, false, store.currTree, store.bucketTree.pool, store.bucketTree.height);
      SameBelowTrans(old(store.Rows()), rows, store.Rows(), store.log.curr);
      FillStep(old(store.kv), old(store.currTree), kv, was, store.kv, store.currTree, others, i);
      i := i + 1;
    }
    AllFilled(old(store.kv), old(store.currTree), store.kv, store.currTree, others);
  }

  /** And all of them deleted again. */
  method Empty(store: Store, others: seq<Key>, tstamp: int, memory: bool, beyond: seq<byte>, ghost c0: Index)
    requires store.Valid() && 9 <= |beyond| && store.log.curr < MAX_BUCKET_COUNT && 0 <= tstamp < TWO_32
    requires |others| == ENOUGH && Distinct(others)
    requires forall i :: 0 <= i < |others| ==> Newcomer(store.td, store.tpos, others[i])
    requires forall i :: 0 <= i < |others| ==> others[i] in store.kv && store.kv[others[i]].ver == 1
    requires LiveWithin(store.currTree, c0, others)
    requires 0 < |store.bucketTree.pool| && store.bucketTree.pool[0].isNode
    requires store.log.wbufCurr + BLOCK * ENOUGH <= store.log.wbufSize
    modifies store, store.log, store.log.wbuf, store.bucketTree, store.bucketTree.dc
    ensures store.Valid() && store.log.curr == old(store.log.curr)
    ensures store.log.wbuf == old(store.log.wbuf) || fresh(store.log.wbuf)
    ensures store.bucketTree == old(store.bucketTree) || (fresh(store.bucketTree) && fresh(store.bucketTree.dc))
    ensures store.log.wbufCurr <= old(store.log.wbufCurr) + BLOCK * ENOUGH
    ensures store.log.wbufSize == old(store.log.wbufSize)
    ensures 0 < |store.bucketTree.pool| && store.bucketTree.pool[0].isNode
    ensures forall k :: k in old(store.kv) && k !in others ==> k in store.kv && store.kv[k] == old(store.kv)[k]
    ensures LiveWithin(store.currTree, c0, [])
    ensures SameBelow(old(store.Rows()), store.Rows(), store.log.curr)
  {
    hide TreeIs, Inv, Bounded, InStep, TableOf, TreeList, RowList, SameBelow, AllComplete, CurrentKnown, TopOk;
    hide LivePart;
    hide Spends, InRoom, RootRule, Acceptable, KvSet, Succeeds, InBucket, CheckKey, WriteSize;
    var i := 0;
    SameBelowSelf(store.Rows(), store.log.curr);
    assert others[0..] == others;
    while i < |others|
      invariant 0 <= i <= |others| && store.Valid() && store.log.curr == old(store.log.curr)
      invariant store.log.wbuf == old(store.log.wbuf) || fresh(store.log.wbuf)
      invariant store.bucketTree == old(store.bucketTree) || (fresh(store.bucketTree) && fresh(store.bucketTree.dc))
      invariant store.log.wbufCurr <= old(store.log.wbufCurr) + BLOCK * i
      invariant store.log.wbufSize == old(store.log.wbufSize)
      invariant forall j :: i <= j < |others| ==> others[j] in store.kv && store.kv[others[j]].ver == 1
      invariant forall k :: k in old(store.kv) && k !in others ==> k in store.kv && store.kv[k] == old(store.kv)[k]
      invariant LiveWithin(store.currTree, c0, others[i..])
      invariant SameBelow(old(store.Rows()), store.Rows(), store.log.curr)
      invariant 0 < |store.bucketTree.pool| && store.bucketTree.pool[0].isNode
    {
      ghost var v, was, pool, height, rows :=
        store.log.Now(), store.currTree, store.bucketTree.pool, store.bucketTree.height, store.Rows();
      assert Newcomer(store.td, store.tpos, others[i]);
      RemovalOk(store.td, store.tpos, others[i], tstamp, store.kv, store.log.top);
      var ok, full := store.Set(others[i], REMOVAL, tstamp, memory, beyond);
      RoomLeft(v, store.log.Now(), BLOCK);
      RootRuleIs(pool, height, store.td, others[i] in was, store.currTree, store.bucketTree.pool,
                 store.bucketTree.height);
      SameBelowTrans(old(store.Rows()), rows, store.Rows(), store.log.curr);
      OneLess(store.currTree, was, c0, others, i);
      i := i + 1;
    }
    assert others[i..] == [];
  }

  lemma OneLess(c: Index, was: Index, c0: Index, others: seq<Key>, i: nat)
    requires i < |others| && LiveWithin(was, c0, others[i..]) && others[i] in c && c[others[i]].ver <= 0
    requires c == was[others[i] := c[others[i]]]
    ensures LiveWithin(c, c0, others[i + 1..])
  {
    assert others[i..] == [others[i]] + others[i + 1..];
  }

  lemma TreesPrefix(td: nat, tpos: int, t: Table, cs: seq<Index>, n: nat)
    requires td <= 8 && TableOk(t) && TreesOk(td, tpos, t, cs) && n <= |t|
    ensures TableOk(t[..n]) && TreesOk(td, tpos, t[..n], cs[..n])
  {
    hide AllSound, Knows;
  }

  /** A key that was live in an older bucket is live in the older hints. */
  lemma OlderLive(td: nat, tpos: int, t0: Table, cs0: seq<Index>, b: nat, i: nat, t: Table, cs: seq<Index>, c: nat,
                  key: Key)
    requires td <= 8 && TableOk(t0) && TreesOk(td, tpos, t0, cs0) && |t0| == |t| == |cs| && b < c < |t|
    requires SameBelow(RowList(t0, cs0), RowList(t, cs), c) && Accepts(td, tpos, key)
    requires LastAt(t0, key, b, i) && t0[b][i].version > 0
    ensures LiveIn(cs[..c], key)
  {
    hide TableOk, TreesOk, LiveIn, Accepts;
    TreesSize(td, tpos, t0, cs0);
    forall n: nat | n < c ensures cs[n] == cs0[n] {
      assert RowList(t, cs)[n] == RowList(t0, cs0)[n];
    }
    assert cs[..c] == cs0[..c];
    TreesPrefix(td, tpos, t0, cs0, c);
    assert LastAt(t0[..c], key, b, i);
    LiveInLast(td, tpos, t0[..c], cs0[..c], key, b, i);
  }

  lemma OldRecord(td: nat, tpos: int, t: Table, curr: nat, index: Index, hints: Files, trees: Trees, currTree: Index,
                  key: Key)
    returns (b: nat, i: nat)
    requires td <= 8 && TableOk(t) && Mirrors(index, ReplayTable(td, tpos, t)) && Live(index, key)
    requires HintsOk(td, tpos, t, curr, hints, trees, currTree)
    ensures LastAt(t, key, b, i) && t[b][i].version > 0 && Bucket(index[key]) == b && Accepts(td, tpos, key)
    ensures TreesOk(td, tpos, t, TreeList(trees, currTree, curr))
  {
    hide Mirrors, ReplayTable, HintsOk, CheckKey, InBucket, GenHash, EntryOf, AllSound, StartOf, TreesOk;
    b, i := LiveAtLast(td, tpos, t, index, key);
    TableEntry(t, b, i);
    TreesBehind(td, tpos, t, curr, hints, trees, currTree);
  }

  /** A delete of a live key is accepted and leaves it with a negative version. */
  lemma LiveVersion(td: nat, tpos: int, t: Table, index: Index, kv: map<Key, Cell>, key: Key)
    requires td <= 8 && CellsOk(td, tpos, t, index, kv) && Live(index, key)
    ensures CheckKey(key) && InBucket(td, tpos, key) && key in kv && kv[key].ver > 0
  {
    hide CheckKey, InBucket, PointsTo, HashFor;
    assert CellOk(t, key, index[key], kv[key]);
  }

  lemma RemovalKills(td: nat, tpos: int, kv: map<Key, Cell>, key: Key)
    requires td <= 8 && CheckKey(key) && InBucket(td, tpos, key) && key in kv && kv[key].ver > 0
    ensures Succeeds(CellOf(kv, key), REMOVAL) && Written(CellOf(kv, key), REMOVAL)
    ensures var kv' := KvSet(td, tpos, kv, key, REMOVAL); key in kv' && kv'[key].ver < 0
  {
    hide CheckKey, InBucket;
  }

  lemma MergesAll(pool: Pool, td: nat, m: Index, h: int)
    requires 0 <= h && 0 < |pool| && pool[0].isNode && !pool[0].valid && |LivePart(m)| <= SPLIT_LIMIT
    ensures Merges(pool, td, 0, m, h)
  {
    hide LivePart, MergesIn;
  }

  /** What the deletion of a key looks like when the count will not leave its tombstone alone. */
  ghost predicate Doomed(store: Store, key: Key)
    reads store, store.log, store.bucketTree
  {
    && key in store.currTree && store.currTree[key].ver < 0 && key in store.kv && store.kv[key].ver < 0
    && Merges(store.bucketTree.pool, store.td, 0, store.currTree, Fnv1a.Hash(key))
    && store.log.curr <= MAX_BUCKET_COUNT && LiveIn(HintTreesOf(store)[..store.log.curr], key)
  }

  /** The operations: 257 new keys, all of them deleted again, and `key` deleted with them. */
  method Prepare(store: Store, key: Key, others: seq<Key>, tstamp: int, memory: bool, beyond: seq<byte>)
    requires store.Valid() && store.td + 1 < MAX_DEPTH && 9 <= |beyond| && store.log.curr < MAX_BUCKET_COUNT
    requires Live(store.index, key) && Bucket(store.index[key]) < store.log.curr && 0 <= tstamp < TWO_32
    requires Acceptable(key, REMOVAL, tstamp, VersionOf(CellOf(store.kv, key)), store.log.top)
    requires |others| == ENOUGH && Newcomers(store.td, store.tpos, store.kv, store.currTree, others)
    requires |LivePart(store.currTree)| <= SPLIT_LIMIT
    requires store.log.wbufCurr + 2 * BLOCK * ENOUGH + WriteSize(key, REMOVAL) <= store.log.wbufSize
    modifies store, store.log, store.log.wbuf, store.bucketTree, store.bucketTree.dc
    ensures store.Valid() && store.log.curr == old(store.log.curr) && Doomed(store, key)
    ensures store.bucketTree == old(store.bucketTree) || (fresh(store.bucketTree) && fresh(store.bucketTree.dc))
  {
    hide TreeIs, Inv, Bounded, TableOf, TreeList, RowList, SameBelow, AllComplete, CurrentKnown, TopOk, LivePart;
    hide CellsOk;
    hide Spends, InRoom, RootRule, Acceptable, KvSet, Succeeds, InBucket, CheckKey, WriteSize, Merges, Mirrors;
    hide LastAt, TreesOk, LiveIn, HintsOk, ReplayTable, TableOk, Bucket, Newcomer, Newcomers, Distinct, LiveWithin;
    ghost var td, tpos, t0, cs0 := store.td, store.tpos, TableOf(store.log.Now()), HintTreesOf(store);
    ghost var c0 := store.currTree;
    ghost var b, i := OldRecord(td, tpos, t0, store.log.curr, store.index, store.hints, store.trees, c0, key);
    LiveVersion(td, tpos, t0, store.index, store.kv, key);
    ghost var rows, kv := store.Rows(), store.kv;
    FillAndEmpty(store, others, tstamp, memory, beyond);
    ghost var emptied, v, was := store.Rows(), store.log.Now(), store.currTree;
    ghost var pool, height := store.bucketTree.pool, store.bucketTree.height;
    RemovalKills(td, tpos, store.kv, key);
    var ok, full := store.Set(key, REMOVAL, tstamp, memory, beyond);
    RoomLeft(v, store.log.Now(), WriteSize(key, REMOVAL));
    RootRuleIs(pool, height, td, key in was, store.currTree, store.bucketTree.pool, store.bucketTree.height);
    FewLeft(store.currTree, was, c0, key);
    MergesAll(store.bucketTree.pool, td, store.currTree, Fnv1a.Hash(key));
    SameBelowTrans(rows, emptied, store.Rows(), store.log.curr);
    OlderLive(td, tpos, t0, cs0, b, i, TableOf(store.log.Now()), HintTreesOf(store), store.log.curr, key);
  }

  method FillAndEmpty(store: Store, others: seq<Key>, tstamp: int, memory: bool, beyond: seq<byte>)
    requires store.Valid() && 9 <= |beyond| && store.log.curr < MAX_BUCKET_COUNT && 0 <= tstamp < TWO_32
    requires store.td + 1 < MAX_DEPTH && |others| == ENOUGH
    requires Newcomers(store.td, store.tpos, store.kv, store.currTree, others)
    requires store.log.wbufCurr + 2 * BLOCK * ENOUGH <= store.log.wbufSize
    modifies store, store.log, store.log.wbuf, store.bucketTree, store.bucketTree.dc
    ensures store.Valid() && store.log.curr == old(store.log.curr)
    ensures store.log.wbuf == old(store.log.wbuf) || fresh(store.log.wbuf)
    ensures store.bucketTree == old(store.bucketTree) || (fresh(store.bucketTree) && fresh(store.bucketTree.dc))
    ensures store.log.wbufCurr <= old(store.log.wbufCurr) + 2 * BLOCK * ENOUGH
    ensures store.log.wbufSize == old(store.log.wbufSize)
    ensures 0 < |store.bucketTree.pool| && store.bucketTree.pool[0].isNode
    ensures forall k :: k in old(store.kv) ==> k in store.kv && store.kv[k] == old(store.kv)[k]
    ensures LiveWithin(store.currTree, old(store.currTree), [])
    ensures SameBelow(old(store.Rows()), store.Rows(), store.log.curr)
  {
    hide TreeIs, Inv, Bounded, InStep, TableOf, TreeList, RowList, SameBelow, AllComplete, CurrentKnown, TopOk;
    hide LivePart;
    hide Newcomer, Distinct, LiveWithin, FilledTo, Newcomers;
    ghost var rows, kv, c := store.Rows(), store.kv, store.currTree;
    NotOthers(store.td, store.tpos, kv, c, others);
    Fill(store, others, tstamp, memory, beyond);
    FilledIs(kv, c, store.kv, store.currTree, others);
    ghost var filled := store.Rows();
    Empty(store, others, tstamp, memory, beyond, c);
    SameBelowTrans(rows, filled, store.Rows(), store.log.curr);
  }

  lemma FilledIs(kv0: map<Key, Cell>, c0: Index, kv: map<Key, Cell>, c: Index, others: seq<Key>)
    requires FilledTo(kv0, c0, kv, c, others, |others|)
    ensures forall i :: 0 <= i < |others| ==> others[i] in kv && kv[others[i]].ver == 1
    ensures LiveWithin(c, c0, others) && forall k :: k in kv0 ==> k in kv && kv[k] == kv0[k]
  {
  }

  /** A key that is live in an older bucket, 257 new keys, all of them deleted again together with it, a
      count, and a restart through the hints: the key is back. There is room for it all in the write
      buffer, so nothing is flushed on the way. */
  method Revive(store: Store, key: Key, others: seq<Key>, tstamp: int, memory: bool, beyond: seq<byte>)
    returns (tree: HTree, files: Files, ghost m: map<Key, Entry>)
    requires store.Valid() && store.td + 1 < MAX_DEPTH && 9 <= |beyond| && store.log.curr < MAX_BUCKET_COUNT
    requires Live(store.index, key) && Bucket(store.index[key]) < store.log.curr && 0 <= tstamp < TWO_32
    requires Acceptable(key, REMOVAL, tstamp, VersionOf(CellOf(store.kv, key)), store.log.top)
    requires |others| == ENOUGH && Newcomers(store.td, store.tpos, store.kv, store.currTree, others)
    requires |LivePart(store.currTree)| <= SPLIT_LIMIT
    requires store.log.wbufCurr + 2 * BLOCK * ENOUGH + WriteSize(key, REMOVAL) <= store.log.wbufSize
    modifies store, store.log, store.log.wbuf, store.bucketTree, store.bucketTree.dc
    ensures key in store.kv && store.kv[key].ver < 0 && key in m && !Recovered(store.kv, files, m)
  {
    hide TreeIs, Inv, Bounded, InStep, TableOf, TreeList, AllComplete, CurrentKnown, TopOk, LivePart, Answers, Merges;
    hide LiveIn, Newcomers, Acceptable, WriteSize, Bucket;
    Prepare(store, key, others, tstamp, memory, beyond);
    var count;
    count, tree, files, m := CountAndRestart(store, key, beyond);
  }

  lemma NotOthers(td: nat, tpos: int, kv: map<Key, Cell>, c: Index, others: seq<Key>)
    requires td <= 8 && Newcomers(td, tpos, kv, c, others)
    ensures Distinct(others) && forall i :: 0 <= i < |others| ==> Newcomer(td, tpos, others[i]) && others[i] !in kv
  {
    hide Newcomer;
  }

  lemma FewLeft(c: Index, was: Index, c0: Index, key: Key)
    requires LiveWithin(was, c0, []) && key in c && c == was[key := c[key]] && c[key].ver < 0
    ensures |LivePart(c)| <= |LivePart(c0)|
  {
    hide LivePart;
    FewLive(c, c0);
  }
}
