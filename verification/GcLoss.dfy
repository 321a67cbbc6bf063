/** Two collections in a row that lose a key, and the writes that lead there: an empty store, the
    smallest write buffer, and buckets four times as large. */
module GcLoss {
  import opened Bytes
  import opened HTreeLeaf
  import HTreePool
  import opened HashTree
  import opened HTreeApi
  import opened Record
  import opened DataFile
  import opened Buffers
  import opened Protocol
  import opened SetRules
  import opened Bitcask
  import opened Replay
  import opened Lasts
  import opened HintTrees
  import opened CurrentTree
  import opened Store
  import opened GcGuess
  import opened GcTables
  import opened GcRun
  import opened GcStore
  import opened GcTrace
  import opened Recovery
  import opened Revival

  lemma TwoFiles(files: Files, max: nat)
    requires FilesFit(files, 2, max) && |DirFile(files, 1)| == 0
    ensures Total(files, 2) <= max
  {
    assert Total(files, 2) == Total(files, 1) + |DirFile(files, 1)|;
  }

  /** Two collections that do it. The live keys below the current bucket are all in file 0, and file 1 is
      expected to be too large to go behind them although nothing in it is live. So the first collection
      makes file 1 an empty target and gives the current bucket number 2; the second one finds that the
      empty file fits behind the first, and gives it number 1. Every live key of the current bucket is
      lost. */
  method LoseKey(store: Store, k: Key)
    requires store.Valid() && store.Agrees() && 3 <= store.log.curr < MAX_BUCKET_COUNT
    requires FilesFit(store.log.files, store.log.curr, store.log.max)
    requires AllDead(store.index, 1, store.log.curr)
    requires Crowded(store.index, store.log.files, HintTreesOf(store), store.log.max, b => true)
    requires Live(store.index, k) && Bucket(store.index[k]) == store.log.curr
    modifies store`index, store`kv, store`hints, store`trees, store.log`files, store.log`done, store.log`curr
    ensures store.log.curr == 1 && Live(store.index, k) && Bucket(store.index[k]) > 1
  {
    hide CellsOk, Mirrors, ReplayTable, Inv, Bounded, TableOf, TableOk, HintsOk, AllComplete, CurrentKnown, FilesFit;
    hide OnlyDeadGone, Total, Present, Bucket, AllDead, Crowded, TreeList, TreeIs, TopOk;
    var all := World(b => true, b => true);
    ghost var index0, curr0 := store.index, store.log.curr;
    var ret := Optimize(store, all);
    ghost var index1, mid := store.index, store.log.curr;
    assert mid == 2 && Live(index1, k) && Fate(index0, store.currTree, curr0, index1, mid, k);
    TwoFiles(store.log.files, store.log.max);
    AllPresent(store.log.files, mid);
    ret := Optimize(store, all);
    TwiceFate(index0, store.currTree, curr0, index1, mid, store.index, store.log.curr, k);
  }

  // ---- Getting there ------------------------------------------------------------------------------

  const TOP := 0x40_0000
  const SIZE := 4 * TOP
  /** As many one-block records as fit below `SIZE - TOP`. */
  const MANY := (SIZE - TOP) / BLOCK

  lemma TopIsOk()
    ensures TopOk(TOP) && SIZE + TOP < TWO_32 && BLOCK * MANY == SIZE - TOP
  {
    Pow2Known();
    Pow2Double(21);
  }

  predicate Strangers(td: nat, tpos: int, others: seq<Key>, key: Key)
    requires td <= 8
  {
    && Distinct(others) && Newcomer(td, tpos, key) && key !in others
    && forall i :: 0 <= i < |others| ==> Newcomer(td, tpos, others[i])
  }

  ghost predicate FilledBy(kv: map<Key, Cell>, others: seq<Key>, i: nat, key: Key)
    requires i <= |others|
  {
    && key !in kv && (forall j :: 0 <= j < i ==> others[j] in kv && kv[others[j]].ver == 1)
    && (forall j :: i <= j < |others| ==> others[j] !in kv)
  }

  lemma FilledMore(kv: map<Key, Cell>, others: seq<Key>, i: nat, key: Key)
    requires i < |others| && Distinct(others) && key !in others && FilledBy(kv, others, i, key)
    ensures FilledBy(kv[others[i] := Cell(1, 0, [1])], others, i + 1, key)
  {
  }

  /** As long as `top` more bytes fit the number stays. */
  lemma StaysFirst(v: View, w: View, max: nat, top: nat, n: nat, size: nat)
    requires Spends(v, w, max, top, n) && v.curr == 0 && top <= max
    requires v.wbufStart + |v.wbuf| <= size && size + top <= max
    ensures w.curr == 0 && w.wbufStart + |w.wbuf| <= size + n
  {
  }

  /** One-block records of different keys, as many as the first bucket is sure to take. */
  method FillFirst(store: Store, others: seq<Key>, key: Key, tstamp: int, memory: bool, beyond: seq<byte>)
    requires store.Valid() && store.Agrees() && 9 <= |beyond| && 0 <= tstamp < TWO_32 && store.log.curr == 0
    requires store.log.max == SIZE && store.log.top == TOP && store.log.wbufStart + store.log.wbufCurr == 0
    requires |others| == MANY && Strangers(store.td, store.tpos, others, key) && store.kv == map[]
    modifies store, store.log, store.log.wbuf, store.bucketTree, store.bucketTree.dc
    ensures store.Valid() && store.Agrees() && store.log.curr == 0
    ensures store.log.wbuf == old(store.log.wbuf) || fresh(store.log.wbuf)
    ensures store.bucketTree == old(store.bucketTree) || (fresh(store.bucketTree) && fresh(store.bucketTree.dc))
    ensures FilledBy(store.kv, others, |others|, key)
  {
    hide TreeIs, Inv, Bounded, InStep, TableOf, TreeList, RowList, SameBelow, AllComplete, CurrentKnown, TopOk;
    hide LivePart;
    hide Spends, InRoom, RootRule, Acceptable, KvSet, InBucket, CheckKey, Succeeds, WriteSize, FilledBy, Distinct;
    hide Written;
    TopIsOk();
    var i := 0;
    assert FilledBy(map[], others, 0, key) by { NoneFilled(others, key); }
    while i < |others|
      invariant 0 <= i <= |others| && store.Valid() && store.Agrees() && store.log.curr == 0
      invariant store.log.wbuf == old(store.log.wbuf) || fresh(store.log.wbuf)
      invariant store.bucketTree == old(store.bucketTree) || (fresh(store.bucketTree) && fresh(store.bucketTree.dc))
      invariant store.log.wbufStart + store.log.wbufCurr <= BLOCK * i && FilledBy(store.kv, others, i, key)
    {
      ghost var v, kv := store.log.Now(), store.kv;
      assert others[i] !in kv by { FilledNot(kv, others, i, key); }
      assert Newcomer(store.td, store.tpos, others[i]);
      FillerOk(store.td, store.tpos, others[i], tstamp, kv, TOP);
      var ok, full := store.Set(others[i], FILLER, tstamp, memory, beyond);
      StaysFirst(v, store.log.Now(), SIZE, TOP, BLOCK, BLOCK * i);
      FilledMore(kv, others, i, key);
      i := i + 1;
    }
  }

  lemma NoneFilled(others: seq<Key>, key: Key)
    ensures FilledBy(map[], others, 0, key)
  {
  }

  lemma FilledNot(kv: map<Key, Cell>, others: seq<Key>, i: nat, key: Key)
    requires i < |others| && FilledBy(kv, others, i, key)
    ensures others[i] !in kv
  {
  }

  // ---- One key, again and again -------------------------------------------------------------------

  /** Grows with every write. */
  ghost function Progress(v: View): nat {
    v.curr * (SIZE + 1) + v.wbufStart + |v.wbuf|
  }

  lemma Progresses(v: View, w: View)
    requires Inv(v, SIZE) && v.wbufSize <= TOP && v.curr <= w.curr <= v.curr + 1
    requires w.curr == v.curr ==> v.wbufStart + |v.wbuf| < w.wbufStart + |w.wbuf|
    ensures Progress(v) < Progress(w)
  {
    hide Inv;
    CurrentSize(v, SIZE, TOP);
  }

  lemma ProgressBound(v: View)
    requires Inv(v, SIZE) && v.wbufSize <= TOP && v.curr <= 2
    ensures Progress(v) < 3 * (SIZE + 1)
  {
    hide Inv;
    CurrentSize(v, SIZE, TOP);
  }

  /** The buckets behind the first have trees with `key` alone; the second is nearly full when it is left. */
  ghost predicate Trail(rows: seq<(seq<Rec>, Index)>, curr: nat, key: Key, floor: nat) {
    && |rows| == MAX_BUCKET_COUNT && curr < |rows|
    && (forall b: nat :: 1 <= b <= curr ==> rows[b].1.Keys <= {key})
    && (curr >= 1 ==> key in rows[1].1 && key in rows[curr].1)
    && (curr >= 2 ==> AllSound(rows[1].0) && |FileBytes(rows[1].0)| > floor)
  }

  lemma TrailStep(rows: seq<(seq<Rec>, Index)>, v: nat, rows': seq<(seq<Rec>, Index)>, w: nat, key: Key, floor: nat)
    requires Trail(rows, v, key, floor) && SameBelow(rows, rows', w) && v <= w <= v + 1 && w < |rows|
    requires key in rows'[w].1 && rows'[w].1.Keys <= (if w == v then rows[v].1.Keys else {}) + {key}
    requires w > v ==> AllSound(rows[v].0) && |FileBytes(rows[v].0)| > floor
    ensures Trail(rows', w, key, floor)
  {
    hide AllSound, FileBytes;
  }

  /** The value that `key` does not have. */
  function Other(flip: bool): Change {
    Change(if flip then [2] else [1], 0, 0)
  }

  ghost predicate Flipped(kv: map<Key, Cell>, key: Key, flip: bool, n: nat) {
    key in kv ==> 0 < kv[key].ver <= n && kv[key].flag == 0 && kv[key].value == if flip then [1] else [2]
  }

  lemma OtherOk(td: nat, tpos: int, k: Key, tstamp: int, kv: map<Key, Cell>, flip: bool, n: nat, top: nat)
    requires td <= 8 && Newcomer(td, tpos, k) && Flipped(kv, k, flip, n) && n < TWO_31 - 1
    requires 0 <= tstamp < TWO_32 && TopOk(top)
    ensures Acceptable(k, Other(flip), tstamp, VersionOf(CellOf(kv, k)), top) && WriteSize(k, Other(flip)) == BLOCK
    ensures Succeeds(CellOf(kv, k), Other(flip)) && CheckKey(k) && InBucket(td, tpos, k)
    ensures Written(CellOf(kv, k), Other(flip))
    ensures var kv' := KvSet(td, tpos, kv, k, Other(flip));
      && k in kv' && kv' == kv[k := kv'[k]] && Flipped(kv', k, !flip, n + 1)
  {
    hide TopOk;
    TopBounds(top);
  }

  lemma RowAt(t: Table, cs: seq<Index>, b: nat)
    requires |t| == |cs| && b < |t|
    ensures RowList(t, cs)[b] == (t[b], cs[b])
  {
  }

  lemma CurrentRowIs(v: View, max: nat, trees: Trees, currTree: Index)
    requires Inv(v, max) && v.curr < MAX_BUCKET_COUNT
    ensures var row := RowList(TableOf(v), TreeList(trees, currTree, v.curr))[v.curr];
      row.1 == currTree && AllSound(row.0) && |FileBytes(row.0)| == v.wbufStart + |v.wbuf|
  {
    hide Inv, Recs, FileBytes, AllSound;
    EndOfBucket(v, max);
    RowAt(TableOf(v), TreeList(trees, currTree, v.curr), v.curr);
  }

  lemma SpendsIs(v: View, w: View, max: nat, top: nat, n: nat)
    requires Spends(v, w, max, top, n) && top <= max
    ensures v.curr <= w.curr <= v.curr + 1 && (w.curr > v.curr ==> v.wbufStart + |v.wbuf| > max - top)
  {
    hide Spent;
  }

  /** Where the store is between two writes of `key`. */
  ghost predicate Underway(store: Store, key: Key, flip: bool)
    reads store, store.log, store.log.wbuf, store.bucketTree, store.bucketTree.dc
  {
    && store.Valid() && store.Agrees() && store.log.curr <= 3 && store.log.max == SIZE && store.log.top == TOP
    && Newcomer(store.td, store.tpos, key) && Flipped(store.kv, key, flip, Progress(store.log.Now()))
    && Trail(store.Rows(), store.log.curr, key, SIZE - TOP) && (store.log.curr > 0 ==> key in store.kv)
  }

  lemma OnceMore(v: View, trees: Trees, c: Index, w: View, trees': Trees, c': Index, key: Key, kv': map<Key, Cell>,
                 flip: bool)
    requires Inv(v, SIZE) && Inv(w, SIZE) && v.wbufSize <= TOP && v.curr < 3 && w.curr < MAX_BUCKET_COUNT
    requires Spends(v, w, SIZE, TOP, BLOCK) && Flipped(kv', key, flip, Progress(v) + 1)
    requires key in c' && c'.Keys <= (if w.curr == v.curr then c.Keys else {}) + {key}
    requires w.curr == v.curr ==> v.wbufStart + |v.wbuf| < w.wbufStart + |w.wbuf|
    requires Trail(RowList(TableOf(v), TreeList(trees, c, v.curr)), v.curr, key, SIZE - TOP)
    requires SameBelow(RowList(TableOf(v), TreeList(trees, c, v.curr)),
                       RowList(TableOf(w), TreeList(trees', c', w.curr)), w.curr)
    ensures w.curr <= v.curr + 1 && Progress(v) < Progress(w) && Flipped(kv', key, flip, Progress(w))
    ensures Trail(RowList(TableOf(w), TreeList(trees', c', w.curr)), w.curr, key, SIZE - TOP)
  {
    hide Inv, TableOf, TreeList, RowList, SameBelow, Flipped, Trail, Progress, Spends;
    SpendsIs(v, w, SIZE, TOP, BLOCK);
    Progresses(v, w);
    FlippedMore(kv', key, flip, Progress(v) + 1, Progress(w));
    CurrentRowIs(v, SIZE, trees, c);
    CurrentRowIs(w, SIZE, trees', c');
    TrailStep(RowList(TableOf(v), TreeList(trees, c, v.curr)), v.curr,
              RowList(TableOf(w), TreeList(trees', c', w.curr)), w.curr, key, SIZE - TOP);
  }

  method RewriteOnce(store: Store, key: Key, flip: bool, tstamp: int, memory: bool, beyond: seq<byte>)
    requires Underway(store, key, flip) && store.log.curr < 3 && 9 <= |beyond| && 0 <= tstamp < TWO_32
    modifies store, store.log, store.log.wbuf, store.bucketTree, store.bucketTree.dc
    ensures Underway(store, key, !flip) && Progress(store.log.Now()) > Progress(old(store.log.Now()))
    ensures store.log.wbuf == old(store.log.wbuf) || fresh(store.log.wbuf)
    ensures store.bucketTree == old(store.bucketTree) || (fresh(store.bucketTree) && fresh(store.bucketTree.dc))
    ensures forall k :: k in old(store.kv) && k != key ==> k in store.kv && store.kv[k] == old(store.kv)[k]
  {
    hide TreeIs, Inv, Bounded, InStep, TableOf, TreeList, RowList, SameBelow, AllComplete, CurrentKnown, TopOk;
    hide LivePart;
    hide InRoom, RootRule, Acceptable, KvSet, InBucket, CheckKey, Succeeds, WriteSize, Written, Newcomer, Flipped;
    hide Trail;
    hide Progress, Spends;
    ghost var v, kv, was := store.log.Now(), store.kv, store.currTree;
    TopIsOk();
    ProgressBound(v);
    OtherOk(store.td, store.tpos, key, tstamp, kv, flip, Progress(v), TOP);
    ghost var trees := store.trees;
    var ok, full := store.Set(key, Other(flip), tstamp, memory, beyond);
    OnceMore(v, trees, was, store.log.Now(), store.trees, store.currTree, key, store.kv, !flip);
  }

  /** Writes `key` with changing values until it is in the fourth bucket. */
  method Rewrite(store: Store, key: Key, tstamp: int, memory: bool, beyond: seq<byte>)
    requires store.Valid() && store.Agrees() && 9 <= |beyond| && 0 <= tstamp < TWO_32 && store.log.curr == 0
    requires store.log.max == SIZE && store.log.top == TOP && Newcomer(store.td, store.tpos, key) && key !in store.kv
    modifies store, store.log, store.log.wbuf, store.bucketTree, store.bucketTree.dc
    ensures store.Valid() && store.Agrees() && store.log.curr == 3
    ensures store.log.wbuf == old(store.log.wbuf) || fresh(store.log.wbuf)
    ensures store.bucketTree == old(store.bucketTree) || (fresh(store.bucketTree) && fresh(store.bucketTree.dc))
    ensures forall k :: k in old(store.kv) ==> k in store.kv && store.kv[k] == old(store.kv)[k]
    ensures key in store.kv && store.kv[key].ver > 0 && Trail(store.Rows(), 3, key, SIZE - TOP)
  {
    hide TreeIs, Inv, Bounded, InStep, TableOf, TreeList, RowList, CurrentKnown, TopOk, Newcomer, Flipped, Trail;
    hide Progress;
    TopIsOk();
    var flip := false;
    NothingTrailed(store.Rows(), key, SIZE - TOP);
    FlipStart(store.kv, key, Progress(store.log.Now()));
    while store.log.curr < 3
      invariant Underway(store, key, flip)
      invariant store.log.wbuf == old(store.log.wbuf) || fresh(store.log.wbuf)
      invariant store.bucketTree == old(store.bucketTree) || (fresh(store.bucketTree) && fresh(store.bucketTree.dc))
      invariant forall k :: k in old(store.kv) ==> k in store.kv && store.kv[k] == old(store.kv)[k]
      decreases 3 * (SIZE + 1) - Progress(store.log.Now())
    {
      ProgressBound(store.log.Now());
      RewriteOnce(store, key, flip, tstamp, memory, beyond);
      flip := !flip;
    }
    FlippedIs(store.kv, key, flip, Progress(store.log.Now()));
  }

  lemma NothingTrailed(rows: seq<(seq<Rec>, Index)>, key: Key, floor: nat)
    requires |rows| == MAX_BUCKET_COUNT
    ensures Trail(rows, 0, key, floor)
  {
  }

  lemma FlipStart(kv: map<Key, Cell>, key: Key, n: nat)
    requires key !in kv
    ensures Flipped(kv, key, false, n)
  {
  }

  lemma FlippedMore(kv: map<Key, Cell>, key: Key, flip: bool, n: nat, m: nat)
    requires Flipped(kv, key, flip, n) && n <= m
    ensures Flipped(kv, key, flip, m)
  {
  }

  lemma FlippedIs(kv: map<Key, Cell>, key: Key, flip: bool, n: nat)
    requires Flipped(kv, key, flip, n) && key in kv
    ensures kv[key].ver > 0
  {
  }

  // ---- What that makes of the store ---------------------------------------------------------------

  /** A live key is in the tree of its bucket. */
  lemma LiveInTree(td: nat, tpos: int, v: View, max: nat, index: Index, hints: Files, trees: Trees, currTree: Index,
                   k: Key)
    requires td <= 8 && Inv(v, max) && v.curr < MAX_BUCKET_COUNT && TableOk(TableOf(v))
    requires Mirrors(index, ReplayTable(td, tpos, TableOf(v))) && Live(index, k)
    requires HintsOk(td, tpos, TableOf(v), v.curr, hints, trees, currTree)
    ensures Bucket(index[k]) <= v.curr && k in TreeAt(trees, currTree, v.curr, Bucket(index[k]))
    ensures TableOf(v)[Bucket(index[k])] != []
  {
    hide Inv, Mirrors, ReplayTable, HintsOk, CheckKey, InBucket, GenHash, EntryOf, AllSound, StartOf, TableOf, Knows;
    var t := TableOf(v);
    TableOfOk(v, max);
    var b, i := LiveAtLast(td, tpos, t, index, k);
    TableEntry(t, b, i);
    TreeRow(td, tpos, t, v.curr, hints, trees, currTree, b);
    KnowsLive(td, tpos, t[b], TreeAt(trees, currTree, v.curr, b), k);
  }

  /** A live key in the tree of the current bucket is in that bucket. */
  lemma InCurrent(td: nat, tpos: int, v: View, max: nat, index: Index, hints: Files, trees: Trees, currTree: Index,
                  k: Key)
    requires td <= 8 && Inv(v, max) && v.curr < MAX_BUCKET_COUNT && TableOk(TableOf(v))
    requires Mirrors(index, ReplayTable(td, tpos, TableOf(v))) && Live(index, k) && k in currTree
    requires HintsOk(td, tpos, TableOf(v), v.curr, hints, trees, currTree)
    ensures Bucket(index[k]) == v.curr
  {
    hide Inv, Mirrors, ReplayTable, HintsOk, CheckKey, InBucket, GenHash, EntryOf, AllSound, StartOf, TableOf, Knows;
    hide LastAt;
    var t := TableOf(v);
    var b, i := LiveAtLast(td, tpos, t, index, k);
    LastInside(t, k, b, i);
    TableEntry(t, b, i);
    var j := Tombstone(td, tpos, v, max, hints, trees, currTree, k);
    LastOnce(t, k, b, i, v.curr, j);
  }

  lemma LastInside(t: Table, k: Key, b: nat, i: nat)
    requires LastAt(t, k, b, i)
    ensures b < |t| && i < |t[b]| && t[b][i].key == k
  {
  }

  lemma Closed(v: View, max: nat, b: nat)
    requires Inv(v, max) && v.flushing == -1 && b < v.curr < MAX_BUCKET_COUNT && TableOf(v)[b] != []
    ensures b in v.files && AllSound(TableOf(v)[b]) && v.files[b] == FileBytes(TableOf(v)[b]) && |v.files[b]| > 0
  {
    hide SizesOk, Sound, FileBytes;
    RecsSound(v, b);
    assert FileOk(v, b);
    assert Recs(v, b) == Done(v, b);
    RecordAt(TableOf(v)[b], 0);
  }

  lemma LiveByCells(td: nat, tpos: int, t: Table, index: Index, kv: map<Key, Cell>, k: Key)
    requires td <= 8 && CellsOk(td, tpos, t, index, kv) && k in kv && kv[k].ver > 0
    ensures Live(index, k)
  {
    hide CheckKey, InBucket, PointsTo, HashFor;
    assert k in index && CellOk(t, k, index[k], kv[k]);
  }

  /** The state that the writes lead to is one in which two collections lose `key`. */
  lemma Poised(td: nat, tpos: int, v: View, index: Index, kv: map<Key, Cell>, hints: Files, trees: Trees,
               currTree: Index, others: seq<Key>, key: Key)
    requires td <= 8 && Inv(v, SIZE) && v.flushing == -1 && v.curr == 3
    requires InStep(td, tpos, TableOf(v), v.curr, index, kv, hints, trees, currTree)
    requires Trail(RowList(TableOf(v), TreeList(trees, currTree, 3)), 3, key, SIZE - TOP)
    requires Distinct(others) && |others| == MANY && key !in others && key in kv && kv[key].ver > 0
    requires forall j :: 0 <= j < |others| ==> others[j] in kv && kv[others[j]].ver > 0
    ensures AllDead(index, 1, 3) && Live(index, key) && Bucket(index[key]) == 3
    ensures Crowded(index, v.files, TreeList(trees, currTree, 3), SIZE, b => true)
  {
    hide Inv, Mirrors, ReplayTable, HintsOk, CellsOk, TableOf, TableOk, Bucket, RowList, AllSound, FileBytes;
    var t, cs := TableOf(v), TreeList(trees, currTree, 3);
    LiveByCells(td, tpos, t, index, kv, key);
    RowAt(t, cs, 3);
    RowAt(t, cs, 1);
    InCurrent(td, tpos, v, SIZE, index, hints, trees, currTree, key);
    forall k | Live(index, k) ensures Bucket(index[k]) == 0 || k == key {
      LiveInTree(td, tpos, v, SIZE, index, hints, trees, currTree, k);
      RowAt(t, cs, Bucket(index[k]));
    }
    forall j | 0 <= j < |others| ensures others[j] in LiveKeysIn(index, 0) {
      LiveByCells(td, tpos, t, index, kv, others[j]);
    }
    ManyInFirst(index, others);
    LiveInTree(td, tpos, v, SIZE, index, hints, trees, currTree, others[0]);
    NoRecords();
    Closed(v, SIZE, 0);
    Closed(v, SIZE, 1);
    assert cs[1].Keys == {key};
    HalfGuess(|v.files[1]|, cs[1]);
  }

  lemma ManyInFirst(index: Index, others: seq<Key>)
    requires Distinct(others) && forall j :: 0 <= j < |others| ==> others[j] in LiveKeysIn(index, 0)
    ensures |LiveKeysIn(index, 0)| >= |others|
  {
    hide LiveKeysIn;
    DistinctSize(others);
    SubsetSize(KeySet(others), LiveKeysIn(index, 0));
  }

  lemma {:induction false} DistinctSize(ks: seq<Key>)
    requires Distinct(ks)
    ensures |KeySet(ks)| == |ks| && forall k :: k in KeySet(ks) <==> k in ks
    decreases |ks|
  {
    if ks != [] {
      var n := |ks| - 1;
      DistinctSize(ks[..n]);
    }
  }

  /** Nothing is taken off for a single unused entry: half the size is expected. */
  lemma HalfGuess(size: nat, c: Index)
    requires |c.Keys| == 1
    ensures |c| == 1 && Guess(size, 1, 1) == size / 2
  {
  }

  /** An empty store, one-block records of 49152 keys, then one key with changing values until it is in
      the fourth bucket, and two collections: the key is out of reach. */
  method Lose(td: nat, tpos: int, others: seq<Key>, key: Key, tstamp: int, memory: bool, beyond: seq<byte>)
    returns (store: Store)
    requires td < HTreePool.MAX_DEPTH && |others| == MANY && Strangers(td, tpos, others, key)
    requires 0 <= tstamp < TWO_32 && 9 <= |beyond|
    ensures store.log.max == SIZE && store.log.curr == 1 && Live(store.index, key) && Bucket(store.index[key]) > 1
  {
    hide TreeIs, Inv, Bounded, TableOf, TreeList, CurrentKnown, TopOk, FilledBy, Trail, InStep, AllDead, Crowded;
    hide Bucket;
    hide Distinct, Newcomer, FilesFit;
    TopIsOk();
    store := new Store(td, tpos, SIZE, TOP);
    FillFirst(store, others, key, tstamp, memory, beyond);
    FilledAll(store.kv, others, key);
    Rewrite(store, key, tstamp, memory, beyond);
    Poised(td, tpos, store.log.Now(), store.index, store.kv, store.hints, store.trees, store.currTree, others, key);
    AllFilesFit(store.log.Now(), SIZE, TOP);
    LoseKey(store, key);
  }

  lemma FilledAll(kv: map<Key, Cell>, others: seq<Key>, key: Key)
    requires FilledBy(kv, others, |others|, key)
    ensures key !in kv && forall j :: 0 <= j < |others| ==> others[j] in kv && kv[others[j]].ver > 0
  {
  }
}
