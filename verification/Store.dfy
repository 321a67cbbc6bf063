/** bc_set and bc_get over the log and the index. The index is the finite map that HTreeApi proves
    a tree to be. Every run keeps two views of the index in step: the cells that clients
    have been told about, and what replaying the log would give. */
module Store {
  import opened Bytes
  import opened HTreeBlocks
  import opened HTreeLeaf
  import opened HTreePool
  import opened HashTree
  import opened HTreeApi
  import opened Record
  import QuickLz
  import opened DataFile
  import opened Buffers
  import opened Protocol
  import opened SetRules
  import opened Bitcask
  import opened Replay
  import opened Lasts
  import opened Hint
  import opened HintTrees
  import opened CurrentTree

  /** All buckets of a log. */
  ghost function TableOf(v: View): (t: Table)
    ensures |t| == MAX_BUCKET_COUNT
  {
    seq(MAX_BUCKET_COUNT, b requires 0 <= b < MAX_BUCKET_COUNT => Recs(v, b))
  }

  lemma TableOfOk(v: View, max: nat)
    requires Inv(v, max)
    ensures TableOk(TableOf(v)) && forall b :: v.curr < b < MAX_BUCKET_COUNT ==> TableOf(v)[b] == []
  {
    hide SizesOk, FileOk, AllSound;
    forall b | 0 <= b < MAX_BUCKET_COUNT ensures AllSound(TableOf(v)[b]) && (v.curr < b ==> TableOf(v)[b] == []) {
      RecsSound(v, b);
      assert v.curr < b ==> Done(v, b) == [];
    }
  }

  function CellOf(kv: map<Key, Cell>, key: Key): Option<Cell> {
    if key in kv then Some(kv[key]) else None
  }

  /** What a set does to the cells of all keys. */
  function KvSet(td: nat, tpos: int, kv: map<Key, Cell>, key: Key, w: Change): map<Key, Cell>
    requires td <= 8
  {
    if !CheckKey(key) || !InBucket(td, tpos, key) then kv else
    match CellStep(CellOf(kv, key), w)
    case None => kv
    case Some(c) => kv[key := c]
  }

  // ---- The index against the cells and against the log ------------------------------------------

  ghost predicate PointsTo(t: Table, k: Key, e: Entry, c: Cell) {
    exists s :: At(t, e, s) && Sound(s) && s.key == k && Plain(s).flag == c.flag && Plain(s).value == c.value
  }

  ghost predicate CellOk(t: Table, k: Key, e: Entry, c: Cell) {
    && e.ver == c.ver && c.ver != 0 && -TWO_31 <= c.ver < TWO_31 && e.hash == HashFor(c.ver, c.value)
    && (c.ver > 0 ==> PointsTo(t, k, e, c))
  }

  ghost predicate CellsOk(td: nat, tpos: int, t: Table, index: map<Key, Entry>, kv: map<Key, Cell>)
    requires td <= 8
  {
    && index.Keys == kv.Keys
    && forall k :: k in index ==> CheckKey(k) && InBucket(td, tpos, k) && CellOk(t, k, index[k], kv[k])
  }

  lemma PointsToExtends(t: Table, t': Table, k: Key, e: Entry, c: Cell)
    requires CellOk(t, k, e, c) && Extends(t, t') && TableOk(t')
    ensures CellOk(t', k, e, c)
  {
    hide At, Sound, Extends, TableOk, GenHash, Plain;
    if c.ver > 0 {
      var s :| At(t, e, s) && Sound(s) && s.key == k && Plain(s).flag == c.flag && Plain(s).value == c.value;
      AtExtends(t, t', e, s);
    }
  }

  lemma CellsExtend(td: nat, tpos: int, t: Table, t': Table, index: map<Key, Entry>, kv: map<Key, Cell>)
    requires td <= 8 && CellsOk(td, tpos, t, index, kv) && Extends(t, t') && TableOk(t')
    ensures CellsOk(td, tpos, t', index, kv)
  {
    hide CellOk, Extends, TableOk, InBucket, CheckKey;
    forall k | k in index ensures CheckKey(k) && InBucket(td, tpos, k) && CellOk(t', k, index[k], kv[k]) {
      PointsToExtends(t, t', k, index[k], kv[k]);
    }
  }

  /** The content that is compared in bc_set is the same content the rules speak of: equal hashes
      are implied by equal values, and a tombstone's hash is that of no empty value. */
  lemma SameByHash(c: Cell, w: Change, ver: int)
    requires c.ver != 0 && !BadSet(w) && Decide(c.ver, w.version) == Some(ver)
    ensures SameContent(Some(c), w, ver) <==>
      HashFor(ver, w.value) == HashFor(c.ver, c.value) && c.ver >= 0 && c.flag == w.flag && c.value == w.value
  {
    hide GenHash;
    if c.ver > 0 && ver < 0 {
      EmptyHash();
    }
  }

  /** The index after a record was appended, against the replay of the longer log. */
  lemma MirrorsAppend(td: nat, tpos: int, index: map<Key, Entry>, m: map<Key, Entry>, key: Key, e: Entry, r: Entry)
    requires td <= 8 && Mirrors(index, m) && InBucket(td, tpos, key)
    requires e.pos == r.pos && e.ver == r.ver && (e.ver > 0 ==> e.hash == r.hash)
    ensures Mirrors(index[key := e], ApplyEntry(td, tpos, m, key, r))
  {
    hide InBucket;
  }

  /** If `k` is in the current bucket then the tree of that bucket has its position, number and all. */
  predicate KnownAt(index: map<Key, Entry>, currTree: map<Key, Entry>, curr: nat, k: Key)
    requires k in index
  {
    Bucket(index[k]) == curr ==> k in currTree && currTree[k].pos == index[k].pos
  }

  ghost predicate CurrentKnown(index: map<Key, Entry>, currTree: map<Key, Entry>, curr: nat) {
    forall k :: k in index && index[k].ver > 0 ==> KnownAt(index, currTree, curr, k)
  }

  lemma KnownAdd(index: map<Key, Entry>, currTree: map<Key, Entry>, curr: nat, key: Key, e: Entry)
    requires Bucket(e) == curr
    ensures CurrentKnown(index, currTree, curr) ==> CurrentKnown(index[key := e], currTree[key := e], curr)
  {
  }

  lemma KnownRaise(index: map<Key, Entry>, currTree: map<Key, Entry>, curr: nat, key: Key, ver: int)
    requires key in index && index[key].ver > 0
    ensures var e := index[key].(ver := ver);
      CurrentKnown(index, currTree, curr) ==>
        CurrentKnown(index[key := e], if Bucket(index[key]) == curr then currTree[key := e] else currTree, curr)
  {
  }

  lemma KnownDrop(index: map<Key, Entry>, currTree: map<Key, Entry>, curr: nat, key: Key)
    ensures CurrentKnown(index, currTree, curr) ==> CurrentKnown(index - {key}, currTree, curr)
  {
  }

  /** Rotation starts a new tree, and no live entry is in the new bucket yet. */
  lemma RotatedTree(td: nat, tpos: int, v: View, max: nat, index: map<Key, Entry>, kv: map<Key, Cell>, curr: nat)
    requires td <= 8 && Inv(v, max) && CellsOk(td, tpos, TableOf(v), index, kv) && v.curr < curr
    ensures CurrentKnown(index, map[], curr)
  {
    hide Inv, TableOf, Sound, Plain, CheckKey, InBucket, HashFor, At;
    forall k | k in index && index[k].ver > 0 ensures Bucket(index[k]) != curr {
      var t, e, c := TableOf(v), index[k], kv[k];
      assert CellOk(t, k, e, c);
      var s :| At(t, e, s) && Sound(s) && s.key == k && Plain(s).flag == c.flag && Plain(s).value == c.value;
      AtInLog(v, e, s, max);
    }
  }

  /** What the client must respect: the flag bit of compressed values is reserved, versions fit
      32 bits, an empty value does not go with a very long key, and no record needs a buffer larger
      than `top`. */
  predicate Acceptable(key: Key, w: Change, tstamp: int, oldv: int, top: nat) {
    !BadSet(w) && CheckKey(key) ==>
      match Decide(oldv, w.version)
      case None => true
      case Some(ver) => var r := Rec(tstamp, w.flag, ver, key, w.value); Storable(r) && RecordLength(r) <= top
  }

  /** The bytes a write may add to the log. */
  function WriteSize(key: Key, w: Change): nat {
    RecordLength(Rec(0, 0, 0, key, w.value))
  }

  ghost function RowList(t: Table, cs: seq<Index>): (r: seq<(seq<Rec>, Index)>)
    requires |t| == |cs|
    ensures |r| == |t|
  {
    seq(|t|, b requires 0 <= b < |t| => (t[b], cs[b]))
  }

  /** Nothing has changed below bucket `n`. */
  ghost predicate SameBelow(was: seq<(seq<Rec>, Index)>, now: seq<(seq<Rec>, Index)>, n: nat) {
    |was| == |now| && forall b: nat :: b < n && b < |now| ==> now[b] == was[b]
  }

  /** Index, cells and hints are in step with the records. */
  ghost predicate InStep(td: nat, tpos: int, t: Table, curr: nat, index: map<Key, Entry>, kv: map<Key, Cell>,
                         hints: map<nat, seq<byte>>, trees: Trees, currTree: Index)
    requires td <= 8
  {
    && TableOk(t) && CellsOk(td, tpos, t, index, kv) && Mirrors(index, ReplayTable(td, tpos, t))
    && HintsOk(td, tpos, t, curr, hints, trees, currTree)
  }

  class Store {
    const td: nat
    const tpos: int
    const log: Log
    var index: map<Key, Entry>
    var bucketTree: HTree
    var hints: map<nat, seq<byte>>
    ghost var currTree: Index
    ghost var trees: Trees
    ghost var kv: map<Key, Cell>

    ghost predicate Valid()
      reads this, log, log.wbuf, bucketTree, bucketTree.dc
    {
      && td < MAX_DEPTH && TreeIs(bucketTree, currTree) && bucketTree.depth == td
      && log.Valid() && log.flushing == -1
      && InStep(td, tpos, TableOf(log.Now()), log.curr, index, kv, hints, trees, currTree)
    }

    /** The tree of the current bucket agrees with the index on the live entries of that bucket. */
    ghost predicate Agrees()
      reads this, log
    {
      CurrentKnown(index, currTree, log.curr)
    }

    /** Every bucket's records and tree. */
    ghost function Rows(): (r: seq<(seq<Rec>, Index)>)
      reads this, log, log.wbuf
      requires log.Valid()
      ensures |r| == MAX_BUCKET_COUNT
    {
      RowList(TableOf(log.Now()), TreeList(trees, currTree, log.curr))
    }

    /** The root of the tree of the current bucket has never been split. */
    ghost predicate Unsplit()
      reads this, bucketTree
    {
      bucketTree.height == 1 && 0 < |bucketTree.pool| && !bucketTree.pool[0].isNode
    }

    /** No tombstone has been dropped from a tree before its hint was made. */
    ghost predicate Counted()
      reads this, log, log.wbuf, bucketTree, bucketTree.dc
      requires Valid()
    {
      AllComplete(td, tpos, TableOf(log.Now()), log.curr, trees, currTree)
    }

    constructor (td: nat, tpos: int, max: nat, top: nat)
      requires td < MAX_DEPTH && TopOk(top) && max + top < TWO_32
      ensures Agrees() && Valid() && Counted() && Unsplit() && fresh(log) && fresh(log.wbuf) && kv == map[]
      ensures fresh(bucketTree) && fresh(bucketTree.dc) && currTree == map[]
      ensures this.td == td && this.tpos == tpos && log.max == max && log.top == top && log.Now() == Initial().v
    {
      var tree := NewTree(td, true);
      this.td, this.tpos := td, tpos;
      log := new Log(max, top);
      bucketTree := tree;
      index, currTree, hints, trees, kv := map[], map[], map[], map[], map[];
      new;
      EmptyTable(td, tpos, log.Now(), max);
      NoHints(td, tpos, log.Now());
    }

    /** The record under a live key. */
    method Fetch(key: Key, beyond: seq<byte>) returns (r: Option<Rec>)
      requires Valid() && 9 <= |beyond|
      ensures key !in kv || kv[key].ver < 0 <==> r == None
      ensures r.Some? ==> r.value.key == key && r.value.version == kv[key].ver
      ensures r.Some? ==> r.value.flag == kv[key].flag && r.value.value == kv[key].value
    {
      hide Inv, Bounded, Recs, Mirrors, ReplayTable, At, Sound, Plain, GenHash, TableOk, CheckKey, InBucket;
      assert key in index <==> key in kv;
      if key !in index || index[key].ver < 0 {
        return None;
      }
      var e := index[key];
      assert CellOk(TableOf(log.Now()), key, e, kv[key]);
      ghost var s :| At(TableOf(log.Now()), e, s) && Sound(s) && s.key == key
        && Plain(s).flag == kv[key].flag && Plain(s).value == kv[key].value;
      AtInLog(log.Now(), e, s, log.max);
      r := log.ReadAt(key, e, beyond, s);
      PlainKey(s);
    }

    /** Whether the stored content is the one to be written: the hashes are compared first. */
    method Unchanged(key: Key, w: Change, ver: int, beyond: seq<byte>) returns (same: bool)
      requires Valid() && 9 <= |beyond| && !BadSet(w) && Decide(VersionOf(CellOf(kv, key)), w.version) == Some(ver)
      ensures same == SameContent(CellOf(kv, key), w, ver)
    {
      hide Inv, Bounded, Recs, Mirrors, ReplayTable, PointsTo, GenHash, TableOk, CheckKey, InBucket, BadSet, Decide;
      hide HashFor;
      same := false;
      assert key in index <==> key in kv;
      if key in index {
        assert CellOk(TableOf(log.Now()), key, index[key], kv[key]);
        SameByHash(kv[key], w, ver);
        if HashFor(ver, w.value) == index[key].hash {
          var r := Fetch(key, beyond);
          same := r.Some? && r.value.flag == w.flag && r.value.value == w.value;
        }
      }
    }

    /** What bc_rotate does with the tree of the bucket it leaves: its hint is built. */
    method CloseBucket(b: nat, ghost v: View)
      requires td < MAX_DEPTH && TreeIs(bucketTree, currTree) && bucketTree.depth == td
      requires Inv(v, log.max) && Bounded(v, log.max, MAX_BUFFER) && b == v.curr < log.curr && b < MAX_BUCKET_COUNT
      requires log.max <= MAX_DATA && HintsOk(td, tpos, TableOf(v), b, hints, trees, currTree)
      modifies this`hints, this`trees, this`currTree, this`bucketTree
      ensures HintsOk(td, tpos, TableOf(v), log.curr, hints, trees, currTree) && currTree == map[]
      ensures fresh(bucketTree) && fresh(bucketTree.dc) && TreeIs(bucketTree, currTree) && bucketTree.depth == td
      ensures Unsplit() && TreeList(trees, currTree, log.curr) == old(TreeList(trees, currTree, b))
      ensures old(AllComplete(td, tpos, TableOf(v), b, trees, currTree)) ==>
        AllComplete(td, tpos, TableOf(v), log.curr, trees, currTree)
    {
      hide Inv, Bounded, Recs, HintsOk, HintReady, AllComplete, TreeHint, TableOf, FileBytes, AllSound, TreeIs;
      CloseReady(td, tpos, v, log.max, hints, trees, currTree);
      var hint := BuildHint(bucketTree, currTree, TableOf(v)[b]);
      TableOfOk(v, log.max);
      HintsRotate(td, tpos, TableOf(v), b, hints, trees, currTree, log.curr, hint);
      SameTrees(td, tpos, TableOf(v), b, hints, trees, currTree, log.curr);
      hints, trees := hints[b := hint], trees[b := currTree];
      currTree := map[];
      bucketTree := NewTree(td, true);
      TreeRoot(bucketTree, currTree);
    }

    /** ht_add on the tree of the current bucket. */
    method NoteCurrent(key: Key, e: Entry)
      requires td < MAX_DEPTH && TreeIs(bucketTree, currTree) && bucketTree.depth == td && CheckKey(key)
      modifies this`currTree, bucketTree, bucketTree.dc
      ensures TreeIs(bucketTree, currTree) && currTree == WithEntry(td, tpos, old(currTree), key, e)
      ensures RootRule(old(bucketTree.pool), old(bucketTree.height), td, InBucket(td, tpos, key), key in old(currTree),
                       currTree, bucketTree.pool, bucketTree.height)
    {
      hide TreeIs, RootRule, CheckKey, InBucket;
      CheckedKeyOk(key);
      currTree := Add(bucketTree, tpos, key, e, currTree);
    }

    /** An entry was noted in the tree of the current bucket. */
    ghost predicate Noted(was: Index, pool: Pool, height: nat, key: Key)
      reads this, bucketTree
    {
      && key in currTree && currTree == was[key := currTree[key]]
      && RootRule(pool, height, td, true, key in was, currTree, bucketTree.pool, bucketTree.height)
    }

    /** A record of `key` was added to the current bucket and its tree. */
    ghost predicate Booked(was: Index, v: View, key: Key)
      reads this, log
    {
      && key in currTree && currTree.Keys <= (if log.curr == v.curr then was.Keys else {}) + {key}
      && (log.curr == v.curr ==> v.wbufStart + |v.wbuf| < log.wbufStart + log.wbufCurr)
    }

    /** Appends the record and publishes it in the index, unless the bucket numbers are used up. */
    method Write(key: Key, w: Change, ver: int, tstamp: int, memory: bool) returns (full: bool)
      requires Valid() && CheckKey(key) && Storable(Rec(tstamp, w.flag, ver, key, w.value)) && ver != 0
      requires log.curr < MAX_BUCKET_COUNT && WriteSize(key, w) <= log.top
      modifies this, log, log.wbuf, bucketTree, bucketTree.dc
      ensures Valid() && (log.wbuf == old(log.wbuf) || fresh(log.wbuf))
      ensures bucketTree == old(bucketTree) || (fresh(bucketTree) && fresh(bucketTree.dc))
      ensures old(log.curr) <= log.curr <= old(log.curr) + 2 && (full <==> log.curr >= MAX_BUCKET_COUNT)
      ensures kv == if !full && InBucket(td, tpos, key) then old(kv)[key := Cell(ver, w.flag, w.value)] else old(kv)
      ensures old(Agrees()) || log.curr != old(log.curr) ==> Agrees()
      ensures old(Counted()) ==> Counted()
      ensures SameBelow(old(Rows()), Rows(), log.curr)
      ensures Spends(old(log.Now()), log.Now(), log.max, log.top, WriteSize(key, w))
      ensures InRoom(old(log.Now()), log.Now(), WriteSize(key, w))
      ensures !full && InBucket(td, tpos, key) ==>
        Booked(old(currTree), old(log.Now()), key) && currTree[key].ver == ver
      ensures Grown(old(currTree), old(Unsplit()) || log.curr != old(log.curr))
      ensures log.curr == old(log.curr) && InBucket(td, tpos, key) ==>
        Noted(old(currTree), old(bucketTree.pool), old(bucketTree.height), key)
    {
      hide CurrentKnown, Inv, Bounded, Recs, Mirrors, ReplayTable, CellsOk, GenHash, TableOk, CheckKey, Bucket;
      hide InBucket, HashFor, Storable, Sound, FileBytes, TableOf, HintsOk, AllComplete, TreeList, RowList;
      hide SameBelow, TreeIs, Spends, InRoom, RootRule, LivePart, TopOk, RecordLength, Longer, Plain, InStep;
      ghost var v := log.Now();
      var pos;
      ghost var s;
      SizeOfWrite(key, w, ver, tstamp);
      full, pos, s := AppendRecord(Rec(tstamp, w.flag, ver, key, w.value), memory);
      if full {
        SameBelowSelf(Rows(), log.curr);
        return;
      }
      StorableOk(Rec(tstamp, w.flag, ver, key, w.value));
      SizesFit(v, log.max, log.top);
      var e := Entry(pos, ver, HashFor(ver, w.value));
      ghost var was, pool, height := currTree, bucketTree.pool, bucketTree.height;
      BucketGrows(v, log.Now(), log.max, s);
      Publish(key, e, Cell(ver, w.flag, w.value), v, log.Now(), log.max, s);
      RootGrows(was, pool, height, td, tpos, key, e, bucketTree.pool, bucketTree.height);
    }

    /** The part of bc_set that appends the record; on the way the bucket may be closed. */
    method AppendRecord(r: Rec, memory: bool) returns (full: bool, pos: int, ghost s: Rec)
      requires Valid() && Storable(r) && RecordLength(r) <= log.top && log.curr < MAX_BUCKET_COUNT
      modifies this`hints, this`trees, this`currTree, this`bucketTree, log, log.wbuf
      ensures log.Valid() && log.flushing == -1 && (log.wbuf == old(log.wbuf) || fresh(log.wbuf))
      ensures TreeIs(bucketTree, currTree) && bucketTree.depth == td
      ensures if log.curr == old(log.curr) then bucketTree == old(bucketTree) && currTree == old(currTree)
        else fresh(bucketTree) && fresh(bucketTree.dc) && currTree == map[] && Unsplit() && Agrees()
      ensures old(log.curr) <= log.curr <= old(log.curr) + 2 && (full <==> log.curr >= MAX_BUCKET_COUNT)
      ensures Sound(s) && Plain(s) == r && s.key == r.key && s.version == r.version
      ensures full ==> TableOf(log.Now()) == old(TableOf(log.Now()))
      ensures !full ==> Longer(old(log.Now()), log.Now(), log.max, s)
      ensures !full ==> AllSound(Recs(old(log.Now()), log.curr))
      ensures !full ==> pos == |FileBytes(Recs(old(log.Now()), log.curr))| + log.curr
      ensures InStep(td, tpos, old(TableOf(log.Now())), log.curr, index, kv, hints, trees, currTree)
      ensures TreeList(trees, currTree, log.curr) == old(TreeList(trees, currTree, log.curr))
      ensures old(Counted()) ==> AllComplete(td, tpos, old(TableOf(log.Now())), log.curr, trees, currTree)
      ensures Spends(old(log.Now()), log.Now(), log.max, log.top, RecordLength(r))
      ensures InRoom(old(log.Now()), log.Now(), RecordLength(r))
    {
      hide CurrentKnown, Inv, Bounded, Recs, Mirrors, ReplayTable, CellsOk, TableOk, Storable, Stored, Sound, Wire;
      hide FileBytes, TableOf, HintsOk, AllComplete, TreeList, TreeIs, Spends, InRoom, TopOk, RecordLength, Plain;
      ghost var v := log.Now();
      StorableOk(r);
      var bs;
      bs, s := EncodeRecord(r, memory);
      StoredSound(r, memory, s);
      StoredKey(r, memory, s);
      StoredLength(r, memory, s);
      WireLength(s);
      SizesFit(v, log.max, log.top);
      var before := log.curr;
      full, pos := log.Append(bs, s);
      SpendsMore(v, log.Now(), log.max, log.top, |bs|, RecordLength(r));
      if log.curr != before {
        CloseBucket(before, v);
        RotatedTree(td, tpos, v, log.max, index, kv, log.curr);
      }
      if full { SameTable(v, log.Now()); }
    }

    /** The part of bc_set that puts the new position into the two trees. */
    method Publish(key: Key, e: Entry, c: Cell, ghost v: View, ghost w: View, ghost max: nat, ghost s: Rec)
      requires td < MAX_DEPTH && TreeIs(bucketTree, currTree) && bucketTree.depth == td && CheckKey(key)
      requires Longer(v, w, max, s) && Bounded(v, max, MAX_BUFFER) && max <= MAX_DATA && s.key == key
      requires -TWO_31 <= c.ver < TWO_31
      requires c == Cell(s.version, Plain(s).flag, Plain(s).value) && c.ver != 0 && AllSound(Recs(v, w.curr))
      requires e == Entry(|FileBytes(Recs(v, w.curr))| + w.curr, s.version, HashFor(c.ver, c.value))
      requires InStep(td, tpos, TableOf(v), w.curr, index, kv, hints, trees, currTree)
      modifies this`index, this`kv, this`currTree, bucketTree, bucketTree.dc
      ensures TreeIs(bucketTree, currTree) && currTree == WithEntry(td, tpos, old(currTree), key, e)
      ensures InStep(td, tpos, TableOf(w), w.curr, index, kv, hints, trees, currTree)
      ensures kv == if InBucket(td, tpos, key) then old(kv)[key := c] else old(kv)
      ensures old(CurrentKnown(index, currTree, w.curr)) ==> CurrentKnown(index, currTree, w.curr)
      ensures old(AllComplete(td, tpos, TableOf(v), w.curr, trees, currTree)) ==>
        AllComplete(td, tpos, TableOf(w), w.curr, trees, currTree)
      ensures SameBelow(RowList(TableOf(v), old(TreeList(trees, currTree, w.curr))),
                        RowList(TableOf(w), TreeList(trees, currTree, w.curr)), w.curr)
      ensures RootRule(old(bucketTree.pool), old(bucketTree.height), td, InBucket(td, tpos, key), key in old(currTree),
                       currTree, bucketTree.pool, bucketTree.height)
    {
      hide CurrentKnown, Bucket, Inv, Bounded, Recs, Mirrors, ReplayTable, CellsOk, TableOk, CheckKey, InBucket;
      hide HashFor, Sound, FileBytes, TableOf, HintsOk, AllComplete, TreeList, RowList, SameBelow, TreeIs, RootRule;
      hide Plain, Longer, InStep;
      PublishFacts(td, tpos, v, w, max, s, index, kv, hints, trees, currTree, e, c);
      NoteCurrent(key, e);
      if InBucket(td, tpos, key) {
        index, kv := index[key := e], kv[key := c];
      }
    }

    /** At most one key more; an unsplit root stays so up to 256 live keys. */
    ghost predicate Grown(was: Index, unsplit: bool)
      reads this, bucketTree
    {
      |currTree| <= |was| + 1 && (unsplit && |LivePart(currTree)| <= SPLIT_LIMIT * 4 ==> Unsplit())
    }

    /** Raises the version of a live key without writing its record again. */
    method Raise(key: Key, ver: int)
      requires Valid() && key in index && key in kv && kv[key].ver > 0 && 0 < ver < TWO_31
      modifies this, bucketTree, bucketTree.dc
      ensures Valid() && kv == old(kv)[key := old(kv)[key].(ver := ver)] && bucketTree == old(bucketTree)
      ensures old(Agrees()) ==> Agrees()
      ensures old(Counted()) ==> Counted()
      ensures SameBelow(old(Rows()), Rows(), log.curr)
      ensures Grown(old(currTree), old(Unsplit()))
    {
      hide CurrentKnown, Bucket, Inv, Bounded, Recs, Mirrors, ReplayTable, CellOk, TableOk, CheckKey, InBucket;
      hide TableOf, HintsOk, AllComplete, TreeIs, RootRule, LivePart, InStep, TopOk, SameBelow, RowList, TreeList;
      SizesFit(log.Now(), log.max, log.top);
      RaiseFacts(td, tpos, log.Now(), log.max, index, kv, hints, trees, currTree, key, ver);
      var e := index[key].(ver := ver);
      TreeRoot(bucketTree, currTree);
      ghost var was, pool, height := currTree, bucketTree.pool, bucketTree.height;
      if Bucket(index[key]) == log.curr {
        NoteCurrent(key, e);
        RootGrows(was, pool, height, td, tpos, key, e, bucketTree.pool, bucketTree.height);
      }
      index, kv := index[key := e], kv[key := kv[key].(ver := ver)];
    }

    /** bc_set: refuses, raises the version of equal content in place, or writes. `full` says that the
        bucket numbers were used up instead. */
    method Set(key: Key, w: Change, tstamp: int, memory: bool, beyond: seq<byte>) returns (ok: bool, full: bool)
      requires Valid() && 9 <= |beyond| && log.curr < MAX_BUCKET_COUNT
      requires Acceptable(key, w, tstamp, VersionOf(CellOf(kv, key)), log.top)
      modifies this, log, log.wbuf, bucketTree, bucketTree.dc
      ensures Valid() && (log.wbuf == old(log.wbuf) || fresh(log.wbuf))
      ensures bucketTree == old(bucketTree) || (fresh(bucketTree) && fresh(bucketTree.dc))
      ensures old(log.curr) <= log.curr <= old(log.curr) + 2 && (full <==> log.curr >= MAX_BUCKET_COUNT)
      ensures kv == if full then old(kv) else KvSet(td, tpos, old(kv), key, w)
      ensures ok <==> CheckKey(key) && Succeeds(CellOf(old(kv), key), w)
      ensures !ok ==> index == old(index) && kv == old(kv) && currTree == old(currTree)
      ensures !(ok && Written(CellOf(old(kv), key), w)) ==> log.Now() == old(log.Now())
      ensures old(Agrees()) || log.curr != old(log.curr) ==> Agrees()
      ensures old(Counted()) ==> Counted()
      ensures SameBelow(old(Rows()), Rows(), log.curr)
      ensures Spends(old(log.Now()), log.Now(), log.max, log.top, WriteSize(key, w))
      ensures InRoom(old(log.Now()), log.Now(), WriteSize(key, w))
      ensures !full && InBucket(td, tpos, key) && ok && Written(CellOf(old(kv), key), w) ==>
        key in kv && Booked(old(currTree), old(log.Now()), key) && currTree[key].ver == kv[key].ver
      ensures Grown(old(currTree), old(Unsplit()) || log.curr != old(log.curr))
      ensures log.curr == old(log.curr) && InBucket(td, tpos, key) && ok && Written(CellOf(old(kv), key), w) ==>
        Noted(old(currTree), old(bucketTree.pool), old(bucketTree.height), key)
    {
      hide CurrentKnown, Bucket, Inv, Bounded, Recs, Mirrors, ReplayTable, CellOk, TableOk, CheckKey, InBucket;
      hide Storable, BadSet, Decide, SameContent, TableOf, HintsOk, AllComplete, TreeList, RowList, SameBelow;
      hide TreeIs, Spends, InRoom, RootRule, LivePart, TopOk, WriteSize, Written, Booked, Noted;
      hide Succeeds;
      SucceedsExactly(CellOf(kv, key), w);
      full := false;
      SameBelowSelf(Rows(), log.curr);
      NothingSpent(log.Now(), log.max, log.top, WriteSize(key, w));
      if BadSet(w) || !CheckKey(key) {
        return false, full;
      }
      assert key in index <==> key in kv;
      assert key in index ==> CellOk(TableOf(log.Now()), key, index[key], kv[key]) && InBucket(td, tpos, key);
      if key in index { CellVersion(TableOf(log.Now()), key, index[key], kv[key]); }
      var oldv := if key in index then index[key].ver else 0;
      match Decide(oldv, w.version) {
        case None => return false, full;
        case Some(ver) =>
          SizeOfWrite(key, w, ver, tstamp);
          var same := Unchanged(key, w, ver, beyond);
          WrittenIs(CellOf(kv, key), w, ver);
          if same {
            SameKnown(CellOf(kv, key), w, ver);
            StorableOk(Rec(tstamp, w.flag, ver, key, w.value));
            if w.version != 0 {
              Raise(key, ver);
            }
          } else {
            DecideNotZero(oldv, w.version, ver);
            full := Write(key, w, ver, tstamp, memory);
          }
          return true, full;
      }
    }

    /** bc_flush does not change what the store holds. */
    method Flush(limit: nat, expired: bool)
      requires Valid() && log.curr < MAX_BUCKET_COUNT
      modifies this, log
      ensures Valid() && (log.wbuf == old(log.wbuf) || fresh(log.wbuf)) && kv == old(kv)
      ensures bucketTree == old(bucketTree) || (fresh(bucketTree) && fresh(bucketTree.dc))
      ensures old(log.curr) <= log.curr <= old(log.curr) + 1
      ensures expired || old(log.wbufCurr) > limit * 1024 ==> log.wbufCurr == 0
      ensures old(Agrees()) || log.curr != old(log.curr) ==> Agrees()
      ensures old(Counted()) ==> Counted()
      ensures TableOf(log.Now()) == old(TableOf(log.Now()))
      ensures TreeList(trees, currTree, log.curr) == old(TreeList(trees, currTree, log.curr))
      ensures Spends(old(log.Now()), log.Now(), log.max, log.top, 0)
      ensures |currTree| <= |old(currTree)| && (old(Unsplit()) || log.curr != old(log.curr) ==> Unsplit())
    {
      hide CurrentKnown, Inv, Bounded, Recs, Mirrors, ReplayTable, CellsOk, TableOk, TableOf, HintsOk, AllComplete;
      hide TreeList, TreeIs, Spends, TopOk;
      ghost var v := log.Now();
      var before := log.curr;
      var begun := log.Flush(limit, expired);
      SameTable(v, log.Now());
      if log.curr != before {
        SizesFit(v, log.max, log.top);
        CloseBucket(before, v);
        RotatedTree(td, tpos, v, log.max, index, kv, log.curr);
      }
    }

    /** A hash update may drop an entry that is dead. */
    method Prune(key: Key)
      requires Valid()
      modifies this`index, this`kv
      ensures Valid() && kv == if key in old(kv) && old(kv)[key].ver <= 0 then old(kv) - {key} else old(kv)
      ensures old(Agrees()) ==> Agrees()
      ensures old(Counted()) ==> Counted()
    {
      hide CurrentKnown, Inv, Bounded, Recs, ReplayTable, TableOk, TableOf, CheckKey, InBucket, PointsTo, HashFor;
      hide HintsOk, TreeIs, TopOk;
      assert key in index <==> key in kv;
      assert key in index ==> CellOk(TableOf(log.Now()), key, index[key], kv[key]);
      if key in index && index[key].ver <= 0 {
        KnownDrop(index, currTree, log.curr, key);
        index, kv := index - {key}, kv - {key};
      }
    }

    /** The second half of bc_count: the live keys of the current bucket are counted, and the update that
        goes with it drops exactly the dead entries on the way of a merge from the bucket's tree. */
    method CountCurrent() returns (count: nat)
      requires Valid()
      modifies this`currTree, bucketTree
      ensures Valid() && (old(Agrees()) ==> Agrees()) && count == |LivePart(old(currTree))|
      ensures currTree == Updated(old(bucketTree.pool), td, 0, old(currTree))
      ensures old(!bucketTree.pool[0].isNode) ==> currTree == old(currTree) && (old(Counted()) ==> Counted())
      ensures |currTree| <= |old(currTree)| && (old(Unsplit()) ==> Unsplit())
    {
      hide Inv, Bounded, Recs, ReplayTable, TableOk, TableOf, CellsOk, Mirrors, HintsOk, TreeIs, TopOk, CurrentKnown;
      hide AllComplete, LivePart, Updated, Pruned;
      TreeRoot(bucketTree, currTree);
      ghost var was := currTree;
      var hash;
      hash, count, currTree := GetHash(bucketTree, currTree);
      PrunedSize(was, currTree);
      DroppingHints(td, tpos, TableOf(log.Now()), log.curr, hints, trees, was, currTree);
      CountedAgrees(td, tpos, log.Now(), log.max, index, kv, hints, trees, was, currTree);
    }
  }

  /** The version that an accepted write leaves. */
  function NextVersion(c: Option<Cell>, w: Change): int {
    var v := VersionOf(c);
    if w.version != 0 && w.version != -1 then w.version
    else if w.version == -1 then -v - 1
    else if v > 0 && c == Some(Cell(v, w.flag, w.value)) then v
    else Abs(v) + 1
  }

  predicate Shows(r: Option<Rec>, c: Cell) {
    r.Some? && r.value.version == c.ver && r.value.flag == c.flag && r.value.value == c.value
  }

  /** What a get after a set finds: nothing if that was a deletion, else what was set; and what was there
      before if the set was refused. */
  method SetThenGet(store: Store, key: Key, w: Change, tstamp: int, memory: bool, beyond: seq<byte>)
    returns (ok: bool, full: bool, r: Option<Rec>)
    requires store.Valid() && 9 <= |beyond| && store.log.curr < MAX_BUCKET_COUNT
    requires Acceptable(key, w, tstamp, VersionOf(CellOf(store.kv, key)), store.log.top)
    modifies store, store.log, store.log.wbuf, store.bucketTree, store.bucketTree.dc
    ensures ok <==> CheckKey(key) && Succeeds(CellOf(old(store.kv), key), w)
    ensures ok && !full && InBucket(store.td, store.tpos, key) && w.version < 0 ==> r == None
    ensures ok && !full && InBucket(store.td, store.tpos, key) && w.version >= 0 ==>
      Shows(r, Cell(NextVersion(CellOf(old(store.kv), key), w), w.flag, w.value))
    ensures !ok && VersionOf(CellOf(old(store.kv), key)) <= 0 ==> r == None
    ensures !ok && VersionOf(CellOf(old(store.kv), key)) > 0 ==> Shows(r, old(store.kv)[key])
  {
    hide Inv, Bounded, InStep, TableOf, AllComplete, CurrentKnown, TreeIs, Spends, TopOk, LivePart, SameBelow, InRoom;
    hide Acceptable, CheckKey, InBucket, Written, WriteSize, CellStep;
    CellLaw(CellOf(store.kv, key), w);
    NotZero(store, key);
    ok, full := store.Set(key, w, tstamp, memory, beyond);
    r := store.Fetch(key, beyond);
  }

  lemma NotZero(store: Store, key: Key)
    requires store.Valid()
    ensures key in store.kv ==> store.kv[key].ver != 0
  {
    hide Inv, Bounded, TableOf, TreeIs, TopOk, Mirrors, ReplayTable, HintsOk, TableOk, CheckKey, InBucket, HashFor;
    hide PointsTo;
    if key in store.kv {
      assert key in store.index && CellOk(TableOf(store.log.Now()), key, store.index[key], store.kv[key]);
    }
  }

  /** Where there is room in the buffer nothing is flushed, and the buffer fills by at most `n` bytes. */
  ghost predicate InRoom(v: View, w: View, n: nat) {
    |v.wbuf| + n <= v.wbufSize ==> w.curr == v.curr && |w.wbuf| <= |v.wbuf| + n && w.wbufSize == v.wbufSize
  }

  lemma NothingSpent(v: View, max: nat, top: nat, n: nat)
    ensures Spends(v, v, max, top, n) && InRoom(v, v, n)
  {
  }

  lemma SizeOfWrite(key: Key, w: Change, ver: int, tstamp: int)
    ensures WriteSize(key, w) == RecordLength(Rec(tstamp, w.flag, ver, key, w.value))
  {
  }

  lemma WireLength(s: Rec)
    requires RecOk(s)
    ensures |Wire(s)| == RecordLength(s)
  {
  }

  lemma SpendsMore(v: View, w: View, max: nat, top: nat, n: nat, n': nat)
    requires Spends(v, w, max, top, n) && n <= n'
    requires |v.wbuf| + n <= v.wbufSize ==> w.curr == v.curr && |w.wbuf| == |v.wbuf| + n && w.wbufSize == v.wbufSize
    ensures Spends(v, w, max, top, n') && InRoom(v, w, n')
  {
    hide Spent;
  }

  lemma TreeRoot(tree: HTree, m: Index)
    requires TreeIs(tree, m)
    ensures 0 < |tree.pool|
  {
  }

  /** What a noted entry does to the size and the root. */
  lemma RootGrows(was: Index, pool: Pool, height: nat, td: nat, tpos: int, key: Key, e: Entry, pool': Pool,
                  height': nat)
    requires td < MAX_DEPTH
    requires RootRule(pool, height, td, InBucket(td, tpos, key), key in was, WithEntry(td, tpos, was, key, e), pool',
                      height')
    ensures var now := WithEntry(td, tpos, was, key, e);
      && |now| <= |was| + 1 && 0 < |pool'|
      && (height == 1 && !pool[0].isNode && |LivePart(now)| <= SPLIT_LIMIT * 4 ==> height' == 1 && !pool'[0].isNode)
  {
    hide LivePart, InBucket;
    assert was[key := e].Keys == was.Keys + {key};
  }

  lemma PrunedSize(m: Index, m': Index)
    requires Pruned(m, m')
    ensures |m'| <= |m|
  {
    assert m'.Keys <= m.Keys;
    SubsetSize(m'.Keys, m.Keys);
  }

  lemma CellVersion(t: Table, k: Key, e: Entry, c: Cell)
    requires CellOk(t, k, e, c)
    ensures e.ver == c.ver
  {
  }

  lemma SameBelowSelf(rows: seq<(seq<Rec>, Index)>, n: nat)
    ensures SameBelow(rows, rows, n)
  {
  }

  /** An append changes the row of the current bucket only. */
  lemma RowsAppended(v: View, w: View, max: nat, s: Rec, trees: Trees, c: Index, c': Index)
    requires Longer(v, w, max, s) && AllSound(Recs(v, w.curr))
    ensures SameBelow(RowList(TableOf(v), TreeList(trees, c, w.curr)), RowList(TableOf(w), TreeList(trees, c', w.curr)),
                      w.curr)
  {
    hide Inv, Recs, Sound, FileBytes;
    LongerTable(v, w, max, s);
  }

  lemma WrittenIs(c: Option<Cell>, w: Change, ver: int)
    requires Decide(VersionOf(c), w.version) == Some(ver)
    ensures Written(c, w) <==> !SameContent(c, w, ver)
  {
  }

  lemma SameTable(v: View, w: View)
    requires forall b: nat :: Recs(w, b) == Recs(v, b)
    ensures TableOf(w) == TableOf(v)
  {
    hide Recs;
  }

  lemma SameKnown(c: Option<Cell>, w: Change, ver: int)
    requires SameContent(c, w, ver)
    ensures c.Some? && c.value.ver > 0 && ver > 0
  {
  }

  lemma DecideNotZero(oldv: int, version: int, ver: int)
    requires Decide(oldv, version) == Some(ver)
    ensures ver != 0
  {
  }

  /** Raising the version of a live key in place. */
  lemma Raising(td: nat, tpos: int, v: View, max: nat, index: map<Key, Entry>, kv: map<Key, Cell>, key: Key, ver: int)
    requires td <= 8 && TableOk(TableOf(v)) && CellsOk(td, tpos, TableOf(v), index, kv)
    requires Mirrors(index, ReplayTable(td, tpos, TableOf(v)))
    requires key in index && key in kv && kv[key].ver > 0 && 0 < ver < TWO_31
    ensures var e, c := index[key].(ver := ver), kv[key].(ver := ver);
      && CellsOk(td, tpos, TableOf(v), index[key := e], kv[key := c])
      && Mirrors(index[key := e], ReplayTable(td, tpos, TableOf(v)))
  {
    hide Recs, ReplayTable, TableOk, TableOf, CheckKey, InBucket, PointsTo, GenHash;
    RaisedPoints(TableOf(v), key, index[key], kv[key], ver);
    assert CellOk(TableOf(v), key, index[key], kv[key]);
  }

  lemma RaisedPoints(t: Table, key: Key, e: Entry, c: Cell, ver: int)
    requires PointsTo(t, key, e, c)
    ensures PointsTo(t, key, e.(ver := ver), c.(ver := ver))
  {
    hide Sound, Plain, IsAt;
    var s :| At(t, e, s) && Sound(s) && s.key == key && Plain(s).flag == c.flag && Plain(s).value == c.value;
    assert At(t, e.(ver := ver), s);
  }

  lemma StorableOk(r: Rec)
    requires Storable(r)
    ensures RecOk(r)
  {
  }

  /** `w` is `v` with `s` at the end of its current bucket. */
  ghost predicate Longer(v: View, w: View, max: nat, s: Rec) {
    && Inv(v, max) && Inv(w, max) && v.curr <= w.curr < MAX_BUCKET_COUNT && Sound(s)
    && Recs(w, w.curr) == Recs(v, w.curr) + [s]
    && forall b: nat :: b != w.curr ==> Recs(w, b) == Recs(v, b)
  }

  lemma BucketGrows(v: View, w: View, max: nat, s: Rec)
    requires Longer(v, w, max, s)
    ensures w.curr == v.curr ==> v.wbufStart + |v.wbuf| < w.wbufStart + |w.wbuf|
  {
    hide Inv, Sound, FileBytes, Recs;
    if w.curr == v.curr {
      EndOfBucket(v, max);
      EndOfBucket(w, max);
      RecordAt(Recs(w, w.curr), |Recs(v, v.curr)|);
      assert Recs(w, w.curr)[..|Recs(v, v.curr)|] == Recs(v, v.curr);
    }
  }

  lemma LongerTable(v: View, w: View, max: nat, s: Rec)
    requires Longer(v, w, max, s)
    ensures var t, t' := TableOf(v), TableOf(w);
      && TableOk(t) && TableOk(t') && t' == t[w.curr := t[w.curr] + [s]] && Extends(t, t')
      && forall b :: w.curr < b < |t| ==> t[b] == []
  {
    hide Inv, Recs, Sound, AllSound;
    TableOfOk(v, max);
    TableOfOk(w, max);
    var t, t' := TableOf(v), TableOf(w);
    forall b | 0 <= b < |t| ensures t'[b] == if b == w.curr then t[b] + [s] else t[b] { }
  }

  /** Appending alone: old entries stay good, and the replay gains one entry. */
  lemma Appending(td: nat, tpos: int, v: View, w: View, max: nat, s: Rec, index: map<Key, Entry>, kv: map<Key, Cell>)
    requires td <= 8 && Longer(v, w, max, s) && TableOk(TableOf(v)) && CheckKey(s.key)
    requires CellsOk(td, tpos, TableOf(v), index, kv) && Mirrors(index, ReplayTable(td, tpos, TableOf(v)))
    ensures TableOk(TableOf(w)) && AllSound(Recs(v, w.curr)) && CellsOk(td, tpos, TableOf(w), index, kv)
    ensures ReplayTable(td, tpos, TableOf(w))
      == ApplyEntry(td, tpos, ReplayTable(td, tpos, TableOf(v)), s.key,
                    EntryOf(s, |FileBytes(Recs(v, w.curr))|, w.curr))
    ensures !InBucket(td, tpos, s.key) ==> Mirrors(index, ReplayTable(td, tpos, TableOf(w)))
  {
    hide Inv, Recs, Mirrors, ReplayTable, CellsOk, CheckKey, InBucket, FileBytes, EntryOf, TableOk, Extends;
    LongerTable(v, w, max, s);
    CellsExtend(td, tpos, TableOf(v), TableOf(w), index, kv);
    ReplayAppend(td, tpos, TableOf(v), w.curr, s);
  }

  /** Publishing an appended record makes its cell good. */
  lemma Publishing(td: nat, tpos: int, v: View, w: View, max: nat, s: Rec, index: map<Key, Entry>, kv: map<Key, Cell>,
                   e: Entry, c: Cell)
    requires td <= 8 && Longer(v, w, max, s) && TableOk(TableOf(v)) && CheckKey(s.key) && InBucket(td, tpos, s.key)
    requires CellsOk(td, tpos, TableOf(v), index, kv) && Mirrors(index, ReplayTable(td, tpos, TableOf(v)))
    requires AllSound(Recs(v, w.curr))
    requires e == Entry(|FileBytes(Recs(v, w.curr))| + w.curr, s.version, HashFor(c.ver, c.value))
    requires c == Cell(s.version, Plain(s).flag, Plain(s).value) && c.ver != 0 && -TWO_31 <= c.ver < TWO_31
    ensures TableOk(TableOf(w)) && CellsOk(td, tpos, TableOf(w), index[s.key := e], kv[s.key := c])
    ensures Mirrors(index[s.key := e], ReplayTable(td, tpos, TableOf(w)))
  {
    hide Inv, Recs, Mirrors, ReplayTable, CheckKey, InBucket, FileBytes, TableOk, Sound, Plain, GenHash, ApplyEntry, At;
    Appending(td, tpos, v, w, max, s, index, kv);
    MirrorsAppend(td, tpos, index, ReplayTable(td, tpos, TableOf(v)), s.key, e,
                  EntryOf(s, |FileBytes(Recs(v, w.curr))|, w.curr));
    EndIsAt(v, w, max, s, e);
    assert PointsTo(TableOf(w), s.key, e, c);
    hide CellOk;
  }

  lemma EndIsAt(v: View, w: View, max: nat, s: Rec, e: Entry)
    requires Longer(v, w, max, s) && AllSound(Recs(v, w.curr)) && e.pos == |FileBytes(Recs(v, w.curr))| + w.curr
    ensures At(TableOf(w), e, s)
  {
    hide Inv, Recs, FileBytes, HasPlain, RecOk;
    var front, recs := Recs(v, w.curr), Recs(w, w.curr);
    Aligned(front);
    DivMod(e.pos, 256, |FileBytes(front)| / 256, w.curr);
    RecsSoundInv(w, max);
    assert recs[..|front|] == front && recs[|front|] == s;
    assert StartOf(recs, |front|) == |FileBytes(front)|;
  }

  /** The new position in the two trees: index, cells, hints and rows as they should be. */
  lemma PublishFacts(td: nat, tpos: int, v: View, w: View, max: nat, s: Rec, index: map<Key, Entry>, kv: map<Key, Cell>,
                  hints: map<nat, seq<byte>>, trees: Trees, currTree: Index, e: Entry, c: Cell)
    requires td <= 8 && Longer(v, w, max, s) && Bounded(v, max, MAX_BUFFER) && max <= MAX_DATA
    requires CheckKey(s.key) && AllSound(Recs(v, w.curr))
    requires InStep(td, tpos, TableOf(v), w.curr, index, kv, hints, trees, currTree)
    requires e == Entry(|FileBytes(Recs(v, w.curr))| + w.curr, s.version, HashFor(c.ver, c.value))
    requires c == Cell(s.version, Plain(s).flag, Plain(s).value) && c.ver != 0 && -TWO_31 <= c.ver < TWO_31
    ensures var own, t, c' := InBucket(td, tpos, s.key), TableOf(w), WithEntry(td, tpos, currTree, s.key, e);
      var index', kv' := if own then index[s.key := e] else index, if own then kv[s.key := c] else kv;
      && InStep(td, tpos, t, w.curr, index', kv', hints, trees, c')
      && (AllComplete(td, tpos, TableOf(v), w.curr, trees, currTree) ==> AllComplete(td, tpos, t, w.curr, trees, c'))
      && (CurrentKnown(index, currTree, w.curr) ==> CurrentKnown(index', c', w.curr))
      && SameBelow(RowList(TableOf(v), TreeList(trees, currTree, w.curr)), RowList(t, TreeList(trees, c', w.curr)),
                   w.curr)
  {
    hide CurrentKnown, Bucket, Inv, Bounded, Recs, Mirrors, ReplayTable, CellsOk, TableOk, CheckKey, InBucket;
    hide HashFor, Sound, FileBytes, TableOf, HintsOk, AllComplete, TreeList, RowList, SameBelow, Plain, Longer;
    Appending(td, tpos, v, w, max, s, index, kv);
    AppendingHints(td, tpos, v, w, max, s, e, hints, trees, currTree);
    AtCurrent(v, w, max, s, e);
    RowsAppended(v, w, max, s, trees, currTree, WithEntry(td, tpos, currTree, s.key, e));
    KnownAdd(index, currTree, w.curr, s.key, e);
    if InBucket(td, tpos, s.key) { Publishing(td, tpos, v, w, max, s, index, kv, e, c); }
  }

  /** A raised version in the two trees. */
  lemma RaiseFacts(td: nat, tpos: int, v: View, max: nat, index: map<Key, Entry>, kv: map<Key, Cell>,
                   hints: map<nat, seq<byte>>, trees: Trees, currTree: Index, key: Key, ver: int)
    requires td <= 8 && Inv(v, max) && Bounded(v, max, MAX_BUFFER) && max <= MAX_DATA
    requires InStep(td, tpos, TableOf(v), v.curr, index, kv, hints, trees, currTree)
    requires key in index && key in kv && kv[key].ver > 0 && 0 < ver < TWO_31
    ensures var e, here := index[key].(ver := ver), Bucket(index[key]) == v.curr;
      var c', kv' := if here then currTree[key := e] else currTree, kv[key := kv[key].(ver := ver)];
      && CheckKey(key) && InBucket(td, tpos, key)
      && InStep(td, tpos, TableOf(v), v.curr, index[key := e], kv', hints, trees, c')
      && (AllComplete(td, tpos, TableOf(v), v.curr, trees, currTree) ==>
        AllComplete(td, tpos, TableOf(v), v.curr, trees, c'))
      && (CurrentKnown(index, currTree, v.curr) ==> CurrentKnown(index[key := e], c', v.curr))
      && SameBelow(RowList(TableOf(v), TreeList(trees, currTree, v.curr)),
                   RowList(TableOf(v), TreeList(trees, c', v.curr)), v.curr)
  {
    hide CurrentKnown, Bucket, Inv, Bounded, Recs, Mirrors, ReplayTable, CellOk, TableOk, CheckKey, InBucket;
    hide TableOf, HintsOk, AllComplete;
    assert CellOk(TableOf(v), key, index[key], kv[key]);
    CellVersion(TableOf(v), key, index[key], kv[key]);
    Raising(td, tpos, v, max, index, kv, key, ver);
    KnownRaise(index, currTree, v.curr, key, ver);
    if Bucket(index[key]) == v.curr {
      RaisingHints(td, tpos, v, max, index, kv, hints, trees, currTree, key, ver);
    }
  }

  lemma AtCurrent(v: View, w: View, max: nat, s: Rec, e: Entry)
    requires Longer(v, w, max, s) && AllSound(Recs(v, w.curr)) && e.pos == |FileBytes(Recs(v, w.curr))| + w.curr
    ensures Bucket(e) == w.curr
  {
    hide Inv, Recs, FileBytes, Sound;
    Aligned(Recs(v, w.curr));
    DivMod(e.pos, 256, |FileBytes(Recs(v, w.curr))| / 256, w.curr);
  }

  lemma RecsSoundInv(v: View, max: nat)
    requires Inv(v, max)
    ensures forall b: nat :: AllSound(Recs(v, b))
  {
    hide AllSound;
    forall b: nat ensures AllSound(Recs(v, b)) { RecsSound(v, b); }
  }

  lemma PlainKey(s: Rec)
    requires Sound(s)
    ensures Plain(s).key == s.key && Plain(s).version == s.version && Plain(s).tstamp == s.tstamp
  {
    hide QuickLz.Image;
  }

  lemma AtInLog(v: View, e: Entry, s: Rec, max: nat)
    requires Inv(v, max) && At(TableOf(v), e, s)
    ensures 0 <= Position(e) && Bucket(e) <= v.curr && IsAt(Recs(v, Bucket(e)), Position(e), s)
  {
    hide Inv, Sound, StartOf;
    TableOfOk(v, max);
  }

  lemma EmptyTable(td: nat, tpos: int, v: View, max: nat)
    requires td <= 8 && v == Initial().v && Inv(v, max)
    ensures TableOk(TableOf(v)) && ReplayTable(td, tpos, TableOf(v)) == map[]
  {
    hide Inv, ReplayTable;
    TableOfOk(v, max);
    var t := TableOf(v);
    assert forall b :: 0 <= b < |t| ==> t[b] == [];
    ReplayTrim(td, tpos, t, 0);
    assert t[..0] == [];
    NoTable(td, tpos);
  }

  lemma NoTable(td: nat, tpos: int)
    requires td <= 8
    ensures ReplayTable(td, tpos, []) == map[]
  {
  }

  // ---- The current tree and the hints -----------------------------------------------------------

  lemma NoHints(td: nat, tpos: int, v: View)
    requires td <= 8 && v == Initial().v && TableOk(TableOf(v))
    ensures HintsOk(td, tpos, TableOf(v), 0, map[], map[], map[])
    ensures AllComplete(td, tpos, TableOf(v), 0, map[], map[])
  {
    hide Knows, Complete;
    var t := TableOf(v);
    forall b: nat | b < |t| ensures t[b] == [] && TreeAt(map[], map[], 0, b) == map[] { }
    KnowsNothing(td, tpos);
    TreeRows(td, tpos, t, 0, map[], map[]);
  }

  lemma CloseReady(td: nat, tpos: int, v: View, max: nat, hints: map<nat, seq<byte>>, trees: Trees, currTree: Index)
    requires td <= 8 && Inv(v, max) && Bounded(v, max, MAX_BUFFER) && v.curr < MAX_BUCKET_COUNT && max <= MAX_DATA
    requires HintsOk(td, tpos, TableOf(v), v.curr, hints, trees, currTree)
    ensures var recs := TableOf(v)[v.curr]; AllSound(recs) && |FileBytes(recs)| <= MAX_DATA && HintReady(currTree, recs)
  {
    hide Inv, Recs, AllSound, FileBytes, HintReady, Knows, Ready;
    TreeRow(td, tpos, TableOf(v), v.curr, hints, trees, currTree, v.curr);
    ReadyForHint(td, tpos, TableOf(v)[v.curr], currTree);
    assert SizeOf(v, v.curr, max) <= Limit(max, MAX_BUFFER);
  }

  lemma EntryInRange(v: View, b: nat, max: nat, e: Entry, s: Rec)
    requires Inv(v, max) && Bounded(v, max, MAX_BUFFER) && max <= MAX_DATA && b < MAX_BUCKET_COUNT
    requires AllSound(Recs(v, b))
    requires RecOk(s) && e == Entry(|FileBytes(Recs(v, b))| + b, s.version, e.hash) && 0 <= e.hash < TWO_16
    ensures InRange(e)
  {
    hide Inv, Recs, AllSound, FileBytes;
    assert SizeOf(v, b, max) <= Limit(max, MAX_BUFFER);
  }

  lemma AppendingHints(td: nat, tpos: int, v: View, w: View, max: nat, s: Rec, e: Entry,
                       hints: map<nat, seq<byte>>, trees: Trees, currTree: Index)
    requires td <= 8 && Longer(v, w, max, s) && Bounded(v, max, MAX_BUFFER) && max <= MAX_DATA && CheckKey(s.key)
    requires AllSound(Recs(v, w.curr)) && HintsOk(td, tpos, TableOf(v), w.curr, hints, trees, currTree)
    requires e == Entry(|FileBytes(Recs(v, w.curr))| + w.curr, s.version, HashFor(s.version, Plain(s).value))
    ensures HintsOk(td, tpos, TableOf(w), w.curr, hints, trees, WithEntry(td, tpos, currTree, s.key, e))
    ensures AllComplete(td, tpos, TableOf(v), w.curr, trees, currTree) ==>
      AllComplete(td, tpos, TableOf(w), w.curr, trees, WithEntry(td, tpos, currTree, s.key, e))
  {
    hide Inv, Recs, HasPlain, RecOk, EmptyTrap, FileBytes, HintsOk, AllComplete, CheckKey, WithEntry, Plain, GenHash;
    hide Bounded;
    LongerTable(v, w, max, s);
    EntryInRange(v, w.curr, max, e, s);
    AtCurrent(v, w, max, s, e);
    HintsAppend(td, tpos, TableOf(v), w.curr, hints, trees, currTree, s, e);
  }

  lemma RaisingHints(td: nat, tpos: int, v: View, max: nat, index: map<Key, Entry>, kv: map<Key, Cell>,
                     hints: map<nat, seq<byte>>, trees: Trees, currTree: Index, key: Key, ver: int)
    requires td <= 8 && Inv(v, max) && Bounded(v, max, MAX_BUFFER) && max <= MAX_DATA && TableOk(TableOf(v))
    requires CellsOk(td, tpos, TableOf(v), index, kv) && Mirrors(index, ReplayTable(td, tpos, TableOf(v)))
    requires HintsOk(td, tpos, TableOf(v), v.curr, hints, trees, currTree)
    requires key in index && index[key].ver > 0 && Bucket(index[key]) == v.curr && 0 < ver < TWO_31
    ensures var c' := currTree[key := index[key].(ver := ver)];
      && HintsOk(td, tpos, TableOf(v), v.curr, hints, trees, c')
      && (AllComplete(td, tpos, TableOf(v), v.curr, trees, currTree) ==>
        AllComplete(td, tpos, TableOf(v), v.curr, trees, c'))
  {
    hide Inv, Recs, HasPlain, RecOk, EmptyTrap, FileBytes, StartOf, CheckKey, InBucket, ReplayTable, Plain, GenHash;
    hide Knows, Mirrors, Bounded, AllComplete, Complete, TableOf, TreeHint, TreeList, NoKeyFrom;
    var t, e, c' := TableOf(v), index[key].(ver := ver), currTree[key := index[key].(ver := ver)];
    var b, i := LiveAtLast(td, tpos, t, index, key);
    TableEntry(t, b, i);
    TreeRow(td, tpos, t, v.curr, hints, trees, currTree, b);
    assert EntryFor(t[b], i, e);
    KnowsRaise(td, tpos, t[b], currTree, key, i, e);
    LiveInRange(v, max, b, i, e);
    HintsChange(td, tpos, t, v.curr, hints, trees, currTree, c');
    if AllComplete(td, tpos, t, v.curr, trees, currTree) { CompleteRow(td, tpos, t, v.curr, trees, currTree); }
  }

  lemma CompleteRow(td: nat, tpos: int, t: Table, curr: nat, trees: Trees, currTree: Index)
    requires td <= 8 && |t| == MAX_BUCKET_COUNT && AllComplete(td, tpos, t, curr, trees, currTree) && curr < |t|
    ensures Complete(td, tpos, t[curr], currTree)
  {
    hide Complete;
    assert Complete(td, tpos, t[curr], TreeAt(trees, currTree, curr, curr));
  }

  lemma LiveInRange(v: View, max: nat, b: nat, i: nat, e: Entry)
    requires Inv(v, max) && Bounded(v, max, MAX_BUFFER) && max <= MAX_DATA && b < MAX_BUCKET_COUNT
    requires i < |TableOf(v)[b]|
    requires TableOk(TableOf(v)) && AllSound(TableOf(v)[b]) && e.pos == StartOf(TableOf(v)[b], i) + b
    requires -TWO_31 <= e.ver < TWO_31 && 0 <= e.hash < TWO_16
    ensures InRange(e)
  {
    hide Inv, Recs, Sound, FileBytes, RecordLength;
    assert SizeOf(v, b, max) <= Limit(max, MAX_BUFFER);
    OffsetGrows(TableOf(v)[b], i, i + 1);
  }

  lemma DroppingHints(td: nat, tpos: int, t: Table, curr: nat, hints: map<nat, seq<byte>>, trees: Trees,
                      currTree: Index, c: Index)
    requires td <= 8 && HintsOk(td, tpos, t, curr, hints, trees, currTree) && Pruned(currTree, c)
    ensures HintsOk(td, tpos, t, curr, hints, trees, c)
  {
    hide AllSound, Knows, TreeHint, TreeList, Accepts, InRange;
    if curr < |t| {
      TreeRow(td, tpos, t, curr, hints, trees, currTree, curr);
      KnowsDrop(td, tpos, t[curr], currTree, c);
    }
    HintsChange(td, tpos, t, curr, hints, trees, currTree, c);
  }

  /** A dead entry of the current tree is not one the index is live at. */
  lemma CountedAgrees(td: nat, tpos: int, v: View, max: nat, index: map<Key, Entry>, kv: map<Key, Cell>,
                      hints: map<nat, seq<byte>>, trees: Trees, currTree: Index, c: Index)
    requires td <= 8 && Inv(v, max) && TableOk(TableOf(v)) && Mirrors(index, ReplayTable(td, tpos, TableOf(v)))
    requires HintsOk(td, tpos, TableOf(v), v.curr, hints, trees, currTree) && Pruned(currTree, c)
    ensures CurrentKnown(index, currTree, v.curr) ==> CurrentKnown(index, c, v.curr)
  {
    hide Inv, TableOf, ReplayTable, AllSound, Knows, CheckKey, InBucket, Mirrors, StartOf, Plain, GenHash, TreeHint;
    hide TreeList;
    if CurrentKnown(index, currTree, v.curr) {
      forall key | key in index && index[key].ver > 0 && Bucket(index[key]) == v.curr
        ensures key in c && c[key].pos == index[key].pos
      {
        assert KnownAt(index, currTree, v.curr, key);
        var b, i := LiveAtLast(td, tpos, TableOf(v), index, key);
        TableEntry(TableOf(v), b, i);
        TreeRow(td, tpos, TableOf(v), v.curr, hints, trees, currTree, b);
        KnownAtLast(td, tpos, TableOf(v)[b], currTree, key, i);
      }
    }
  }
}
