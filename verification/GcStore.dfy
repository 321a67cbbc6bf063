/** bc_optimize on a store. The current bucket takes the number behind the last target, and the index
    entries that its tree knows go with it; the tree keeps the old number, so that a second collection
    without a rotation in between leaves its keys behind. */
module GcStore {
  import opened Bytes
  import opened HTreeLeaf
  import opened HashTree
  import opened HTreeApi
  import opened Record
  import opened DataFile
  import opened Hint
  import opened Buffers
  import opened Protocol
  import opened SetRules
  import opened Bitcask
  import opened Replay
  import opened Lasts
  import opened HintTrees
  import opened CurrentTree
  import opened Store
  import opened GcTables
  import opened GcRun
  import opened Recovery

  // ---- The number of the current bucket ---------------------------------------------------------

  /** update_item_pos for every entry of the current bucket's tree. */
  method RenumberCurrent(index: Index, tree: HTree, d: byte, ghost currTree: Index) returns (r: Index)
    requires TreeIs(tree, currTree)
    ensures r == Renumber(index, currTree, d)
  {
    hide TreeIs;
    var out := VisitTree(tree, currTree);
    r := index;
    ghost var seen: set<Key> := {};
    for n := 0 to |out|
      invariant r.Keys == index.Keys && forall k :: k in seen <==> exists j :: 0 <= j < n && out[j].key == k
      invariant forall k :: k in index ==> r[k] == if k in seen then RenumberEntry(index, currTree, d, k) else index[k]
    {
      var k, e := out[n].key, out[n].e;
      if k in r && r[k].pos == e.pos {
        r := r[k := Entry(e.pos - e.pos % 256 + d, r[k].ver, r[k].hash)];
      }
      seen := seen + {k};
    }
  }

  /** bc_get gives up on an entry whose bucket number is above the current one, and removes it. */
  predicate InReach(index: Index, curr: nat, k: Key) {
    k in index && Bucket(index[k]) <= curr
  }

  /** Two renumberings with the same tree: the first takes the key along, the second leaves it above
      the current bucket. */
  lemma LeftBehind(k: Key, at: nat, hash: int)
    requires at % 256 == 0
    ensures var tree := map[k := Entry(at + 3, 1, hash)];
      var once := Renumber(tree, tree, 2);
      var twice := Renumber(once, tree, 1);
      && once == map[k := Entry(at + 2, 1, hash)] && InReach(once, 2, k)
      && twice == once && !InReach(twice, 1, k)
  {
    var tree := map[k := Entry(at + 3, 1, hash)];
    assert Renumber(tree, tree, 2)[k] == Entry(at + 2, 1, hash);
  }

  // ---- Back in the store ------------------------------------------------------------------------

  ghost function DoneOf(t: Table, c: nat, tail: seq<Rec>): map<nat, seq<Rec>>
    requires |t| == MAX_BUCKET_COUNT
  {
    map b: nat | b < MAX_BUCKET_COUNT :: if b == c then tail else t[b]
  }

  /** The log with its files replaced and its current bucket renumbered. */
  ghost function InstalledView(v: View, t: Table, c: nat, dir: Files): View
    requires |t| == MAX_BUCKET_COUNT
  {
    v.(curr := c, files := dir, done := DoneOf(t, c, Done(v, v.curr)))
  }

  ghost predicate Installable(v: View, t: Table, c: nat, dir: Files, max: nat) {
    && Inv(v, max) && v.flushing == -1 && TableOk(t) && |t| == MAX_BUCKET_COUNT && c <= v.curr < MAX_BUCKET_COUNT
    && t[c] == Recs(v, v.curr) && (forall b: nat :: c < b < |t| ==> t[b] == [])
    && DirOk(dir, t, c, max) && (forall b :: b in dir ==> b <= c) && DirFile(dir, c) == FileOf(v, v.curr)
  }

  lemma InstalledRecs(v: View, t: Table, c: nat, dir: Files, max: nat)
    requires Installable(v, t, c, dir, max)
    ensures var w := InstalledView(v, t, c, dir);
      && RecordsOk(w) && (forall b: nat :: Recs(w, b) == if b < |t| then t[b] else [])
      && TableOf(w) == t
  {
    hide SizesOk, Sound, FileBytes, FileOk, DirOk;
    var w := InstalledView(v, t, c, dir);
    RecsSound(v, v.curr);
    forall b: nat ensures Recs(w, b) == if b < |t| then t[b] else [] { }
    forall b | b in w.done ensures AllSound(w.done[b]) { assert AllSound(t[b]); }
  }

  lemma InstalledDone(v: View, t: Table, c: nat, dir: Files, max: nat, b: nat)
    requires Installable(v, t, c, dir, max)
    ensures Done(InstalledView(v, t, c, dir), b) == if b == c then Done(v, v.curr) else if b < |t| then t[b] else []
  {
    hide Inv, TableOk, DirOk, Recs;
  }

  lemma InstalledFile(v: View, t: Table, c: nat, dir: Files, max: nat, b: nat)
    requires Installable(v, t, c, dir, max)
    ensures RecordsOk(InstalledView(v, t, c, dir)) && FileOk(InstalledView(v, t, c, dir), b)
  {
    hide SizesOk, AllSound, FileBytes, TableOf, Recs, RecordsOk, InstalledView;
    InstalledRecs(v, t, c, dir, max);
    InstalledDone(v, t, c, dir, max, b);
    InstalledFields(v, t, c, dir);
    NoRecords();
    assert FileOk(v, v.curr);
    if b < c { assert FileBytes(t[b]) == DirFile(dir, b); }
  }

  lemma InstalledFields(v: View, t: Table, c: nat, dir: Files)
    requires |t| == MAX_BUCKET_COUNT
    ensures var w := InstalledView(v, t, c, dir);
      && w.files == dir && w.curr == c && w.flushing == v.flushing && w.written == v.written && w.fbuf == v.fbuf
      && w.inFlush == v.inFlush && w.wbuf == v.wbuf && w.inBuf == v.inBuf
      && w.wbufStart == v.wbufStart && w.wbufSize == v.wbufSize
  {
  }

  lemma InstalledInv(v: View, t: Table, c: nat, dir: Files, max: nat)
    requires Installable(v, t, c, dir, max)
    ensures Inv(InstalledView(v, t, c, dir), max)
  {
    hide BufferSizeOk, AllSound, FileBytes, TableOf, FileOk, InstalledView, Recs, RecordsOk, Done, DirOk;
    InstalledRecs(v, t, c, dir, max);
    InstalledFields(v, t, c, dir);
    var w := InstalledView(v, t, c, dir);
    forall b: nat ensures FileOk(w, b) { InstalledFile(v, t, c, dir, max, b); }
    forall b: nat ensures Done(w, b) == (if b == c then Done(v, v.curr) else if b < |t| then t[b] else []) {
      InstalledDone(v, t, c, dir, max, b);
    }
  }

  lemma InstalledBounded(v: View, t: Table, c: nat, dir: Files, max: nat, top: nat)
    requires Installable(v, t, c, dir, max) && Bounded(v, max, top)
    ensures Inv(InstalledView(v, t, c, dir), max) && Bounded(InstalledView(v, t, c, dir), max, top)
  {
    hide Inv, AllSound, FileBytes, TableOf, Recs;
    InstalledInv(v, t, c, dir, max);
    InstalledRecs(v, t, c, dir, max);
    NoRecords();
    var w := InstalledView(v, t, c, dir);
    forall b: nat ensures SizeOf(w, b, max) <= Limit(max, top) {
      if b < c {
        assert FileBytes(t[b]) == DirFile(dir, b) && |DirFile(dir, b)| <= max;
      } else if b == c {
        assert SizeOf(v, v.curr, max) <= Limit(max, top);
      }
    }
  }

  predicate FilesFit(files: Files, curr: nat, max: nat) {
    forall b :: b in files && b < curr ==> |files[b]| <= max
  }

  lemma StartState(td: nat, tpos: int, v: View, max: nat, index: Index, kv: map<Key, Cell>)
    requires td <= 8 && Inv(v, max) && v.flushing == -1 && v.curr < MAX_BUCKET_COUNT && FilesFit(v.files, v.curr, max)
    requires TableOk(TableOf(v))
    requires CellsOk(td, tpos, TableOf(v), index, kv) && Mirrors(index, ReplayTable(td, tpos, TableOf(v)))
    ensures GcState(td, tpos, v.files, TableOf(v), kv, v.files, TableOf(v), index, kv, -1, 0, v.curr, max)
  {
    hide CellsOk, Mirrors, ReplayTable, Sound, FileBytes, SizesOk;
    var t := TableOf(v);
    forall b: nat | b < v.curr ensures FileBytes(t[b]) == DirFile(v.files, b) && |DirFile(v.files, b)| <= max {
      assert FileOk(v, b);
      assert Recs(v, b) == Done(v, b);
    }
  }

  function MovedDir(dir: Files, curr: nat, d: nat): Files {
    if curr in dir then (dir - {curr})[d := dir[curr]] else dir
  }

  /** The current bucket takes the number behind the last target. */
  lemma FinalMove(td: nat, tpos: int, v: View, max: nat, kv0: map<Key, Cell>, dir: Files, t: Table, index: Index,
                  kv: map<Key, Cell>, last: int)
    requires td <= 8 && Inv(v, max) && v.flushing == -1 && v.curr < MAX_BUCKET_COUNT
    requires GcState(td, tpos, v.files, TableOf(v), kv0, dir, t, index, kv, last, v.curr, v.curr, max)
    requires -1 <= last && last + 1 < v.curr
    ensures Installable(v, MovedTable(t, v.curr, last + 1), last + 1, MovedDir(dir, v.curr, last + 1), max)
  {
    hide CellsOk, Mirrors, ReplayTable, AllSound, FileBytes, SizesOk, OnlyDeadGone, AllLive, TableOf, RecordsOk;
    hide FlushOk, FileOk;
    var d := last + 1;
    TableOfOk(v, max);
    CurrentRow(v);
    MovedTableOk(t, v.curr, d);
    var t', dir' := MovedTable(t, v.curr, d), MovedDir(dir, v.curr, d);
    assert t[v.curr] == TableOf(v)[v.curr];
    forall b: nat | d < b < |t'| ensures t'[b] == [] {
      if b > v.curr { assert t[b] == TableOf(v)[b] == []; }
    }
    forall b: nat | b < d ensures FileBytes(t'[b]) == DirFile(dir', b) && |DirFile(dir', b)| <= max {
      assert FileBytes(t[b]) == DirFile(dir, b) && |DirFile(dir, b)| <= max;
    }
  }

  lemma CurrentRow(v: View)
    requires v.curr < MAX_BUCKET_COUNT
    ensures TableOf(v)[v.curr] == Recs(v, v.curr)
  {
    hide Recs;
  }

  /** Nothing was freed, so the current bucket keeps its number. */
  lemma FinalStay(td: nat, tpos: int, v: View, max: nat, kv0: map<Key, Cell>, dir: Files, t: Table, index: Index,
                  kv: map<Key, Cell>, last: int)
    requires td <= 8 && Inv(v, max) && v.flushing == -1 && v.curr < MAX_BUCKET_COUNT
    requires GcState(td, tpos, v.files, TableOf(v), kv0, dir, t, index, kv, last, v.curr, v.curr, max)
    requires last + 1 >= v.curr
    ensures Installable(v, t, v.curr, dir, max)
  {
    hide CellsOk, Mirrors, ReplayTable, AllSound, FileBytes, SizesOk, OnlyDeadGone, AllLive, TableOf, RecordsOk;
    hide FlushOk, FileOk;
    TableOfOk(v, max);
    CurrentRow(v);
    assert t[v.curr] == TableOf(v)[v.curr];
    forall b: nat | v.curr < b < |t| ensures t[b] == [] { assert t[b] == TableOf(v)[b] == []; }
  }

  // ---- What happens to one key ------------------------------------------------------------------

  /** A collection of the other files, seen from the current one. */
  ghost predicate Below(td: nat, tpos: int, t0: Table, index0: Index, t: Table, index: Index, curr: nat)
    requires td <= 8
  {
    && TableOk(t0) && TableOk(t) && |t| == |t0| && curr < |t| && t[curr] == t0[curr]
    && (forall b: nat :: curr < b < |t| ==> t0[b] == [] && t[b] == [])
    && Mirrors(index0, ReplayTable(td, tpos, t0)) && Mirrors(index, ReplayTable(td, tpos, t))
  }

  lemma CollectedKey(td: nat, tpos: int, t0: Table, index0: Index, t: Table, index: Index, curr: nat, k: Key)
    requires td <= 8 && Below(td, tpos, t0, index0, t, index, curr)
    requires Live(index0, k) && Live(index, k) && Bucket(index[k]) == curr
    ensures index[k].pos == index0[k].pos
  {
    hide ReplayTable, AllSound, StartOf, CheckKey, InBucket, GenHash, EntryOf, Mirrors;
    var b, i := LiveAtLast(td, tpos, t, index, k);
    TableEntry(t, b, i);
    assert LastAt(t0, k, curr, i);
    var b0, i0 := LiveAtLast(td, tpos, t0, index0, k);
    LastOnce(t0, k, b0, i0, curr, i);
  }

  /** Collecting the other files leaves the live entries of the current bucket as they were, and
      brings none into it. */
  lemma SameCurrent(td: nat, tpos: int, t0: Table, index0: Index, t: Table, index: Index, curr: nat, currTree: Index,
                    k: Key)
    requires td <= 8 && Below(td, tpos, t0, index0, t, index, curr) && Live(index0, k) && Live(index, k)
    ensures Bucket(index[k]) == curr <==> Bucket(index0[k]) == curr
    ensures KnownAt(index, currTree, curr, k) <==> KnownAt(index0, currTree, curr, k)
  {
    hide ReplayTable, Mirrors, TableOk, Position;
    if Bucket(index[k]) == curr { CollectedKey(td, tpos, t0, index0, t, index, curr, k); }
    if Bucket(index0[k]) == curr {
      assert Below(td, tpos, t, index, t0, index0, curr);
      CollectedKey(td, tpos, t, index, t0, index0, curr, k);
    }
  }

  lemma SameKnowledge(td: nat, tpos: int, t0: Table, index0: Index, t: Table, index: Index, curr: nat, currTree: Index)
    requires td <= 8 && Below(td, tpos, t0, index0, t, index, curr) && forall k :: Live(index, k) ==> Live(index0, k)
    ensures CurrentKnown(index0, currTree, curr) ==> CurrentKnown(index, currTree, curr)
  {
    hide Below, KnownAt;
    if CurrentKnown(index0, currTree, curr) {
      forall k | k in index && index[k].ver > 0 ensures KnownAt(index, currTree, curr, k) {
        assert Live(index, k);
        SameCurrent(td, tpos, t0, index0, t, index, curr, currTree, k);
      }
    }
  }

  lemma ReachStays(td: nat, tpos: int, t: Table, index: Index, curr: nat, k: Key)
    requires td <= 8 && TableOk(t) && curr < |t| && Mirrors(index, ReplayTable(td, tpos, t)) && Live(index, k)
    requires forall b: nat :: curr < b < |t| ==> t[b] == []
    ensures InReach(index, curr, k)
  {
    hide ReplayTable, AllSound, StartOf, CheckKey, InBucket, GenHash, EntryOf, Mirrors;
    var b, i := LiveAtLast(td, tpos, t, index, k);
    TableEntry(t, b, i);
  }

  /** After a renumbering, exactly the keys that the tree knows, or that are elsewhere, are in reach;
      and the tree knows none of the keys under the new number. */
  lemma ReachMoved(td: nat, tpos: int, t: Table, index: Index, currTree: Index, curr: nat, d: byte, k: Key)
    requires td <= 8 && TableOk(t) && d < curr < |t| && AllSound(t[curr]) && Knows(td, tpos, t[curr], currTree)
    requires Mirrors(index, ReplayTable(td, tpos, t)) && Live(index, k) && Gap(t, d - 1, curr)
    requires forall b: nat :: curr < b < |t| ==> t[b] == []
    ensures var r := Renumber(index, currTree, d);
      && Live(r, k) && (InReach(r, d, k) <==> KnownAt(index, currTree, curr, k))
      && (InReach(r, d, k) ==> (Bucket(index[k]) == curr <==> Bucket(r[k]) == d))
      && (Bucket(r[k]) == d ==> !KnownAt(r, currTree, d, k))
  {
    hide ReplayTable, AllSound, Mirrors, TableOk, Knows, Position;
    if Bucket(index[k]) == curr {
      RenumberExactly(index, currTree, curr, d, k);
    } else {
      ElsewhereUnknown(td, tpos, t, index, currTree, curr, k);
    }
  }

  // ---- Hints after a collection -----------------------------------------------------------------

  ghost function TreesOf(t: Table, n: nat): Trees
    requires TableOk(t) && n <= |t|
  {
    map b: nat | b < n :: (RowSound(t, b); Latest(t[b], b))
  }

  lemma CollectedHints(td: nat, tpos: int, t: Table, c: nat, hints: Files, currTree: Index)
    requires td <= 8 && TableOk(t) && |t| == MAX_BUCKET_COUNT && c < |t| && HintState(hints, t, c - 1)
    requires AllSound(t[c]) && Knows(td, tpos, t[c], currTree) && Ready(td, tpos, currTree)
    requires forall b: nat :: c < b < |t| ==> t[b] == []
    ensures HintsOk(td, tpos, t, c, hints, TreesOf(t, c), currTree)
    ensures Complete(td, tpos, t[c], currTree) ==> AllComplete(td, tpos, t, c, TreesOf(t, c), currTree)
  {
    hide AllSound, Knows, Complete, Ready, TreeHint, Latest;
    forall b: nat | b < |t|
      ensures AllSound(t[b]) && Knows(td, tpos, t[b], TreeAt(TreesOf(t, c), currTree, c, b))
      ensures b != c ==> Complete(td, tpos, t[b], TreeAt(TreesOf(t, c), currTree, c, b))
    {
      if b < c { LatestKnows(td, tpos, t[b], b); }
      if b > c { KnowsNothing(td, tpos); }
    }
    TreeRows(td, tpos, t, c, TreesOf(t, c), currTree);
  }

  // ---- bc_optimize ------------------------------------------------------------------------------

  /** Writes the outcome of a collection into the log. */
  method InstallLog(log: Log, dir: Files, curr: nat, ghost t: Table)
    requires log.Valid() && Installable(log.Now(), t, curr, dir, log.max)
    modifies log`files, log`done, log`curr
    ensures log.Valid() && TableOf(log.Now()) == t && log.curr == curr && log.files == dir
    ensures log.Now() == old(log.Now()).(curr := curr, files := dir, done := log.done)
  {
    hide AllSound, FileBytes, Inv, Bounded, TableOf, TableOk, Recs, Installable;
    ghost var v := log.Now();
    InstallableSize(v, t, curr, dir, log.max);
    InstalledBounded(v, t, curr, dir, log.max, log.top);
    InstalledRecs(v, t, curr, dir, log.max);
    log.done := DoneOf(t, curr, Done(v, v.curr));
    log.curr, log.files := curr, dir;
    assert log.Now() == InstalledView(v, t, curr, dir);
  }

  lemma InstallableSize(v: View, t: Table, c: nat, dir: Files, max: nat)
    requires Installable(v, t, c, dir, max)
    ensures |t| == MAX_BUCKET_COUNT && TableOk(t)
  {
  }

  /** What collecting the other files left, in terms of the store before. */
  ghost predicate Collected(td: nat, tpos: int, v: View, index0: Index, kv0: map<Key, Cell>, currTree: Index,
                            t: Table, index: Index, kv: map<Key, Cell>, last: int)
    requires td <= 8 && v.curr < MAX_BUCKET_COUNT
  {
    && Below(td, tpos, TableOf(v), index0, t, index, v.curr) && (forall k :: Live(index0, k) <==> Live(index, k))
    && CellsOk(td, tpos, t, index, kv) && OnlyDeadGone(kv0, kv) && Gap(t, last, v.curr) && -1 <= last < v.curr
    && AllSound(t[v.curr]) && Knows(td, tpos, t[v.curr], currTree) && Ready(td, tpos, currTree)
  }

  lemma SameLiving(td: nat, tpos: int, t0: Table, index0: Index, kv0: map<Key, Cell>, t: Table, index: Index,
                   kv: map<Key, Cell>)
    requires td <= 8 && CellsOk(td, tpos, t0, index0, kv0) && CellsOk(td, tpos, t, index, kv) && OnlyDeadGone(kv0, kv)
    ensures forall k :: Live(index0, k) <==> Live(index, k)
  {
    hide CheckKey, InBucket, PointsTo, HashFor;
    forall k ensures Live(index0, k) <==> Live(index, k) {
      if k in index0 { assert CellOk(t0, k, index0[k], kv0[k]); }
      if k in index { assert CellOk(t, k, index[k], kv[k]); }
    }
  }

  lemma CollectedFacts(td: nat, tpos: int, v: View, max: nat, index0: Index, kv0: map<Key, Cell>, currTree: Index,
                       hints0: Files, trees0: Trees, dir: Files, t: Table, index: Index, kv: map<Key, Cell>, last: int)
    requires td <= 8 && Inv(v, max) && v.curr < MAX_BUCKET_COUNT && TableOk(TableOf(v))
    requires CellsOk(td, tpos, TableOf(v), index0, kv0) && Mirrors(index0, ReplayTable(td, tpos, TableOf(v)))
    requires HintsOk(td, tpos, TableOf(v), v.curr, hints0, trees0, currTree)
    requires GcState(td, tpos, v.files, TableOf(v), kv0, dir, t, index, kv, last, v.curr, v.curr, max)
    ensures Collected(td, tpos, v, index0, kv0, currTree, t, index, kv, last)
  {
    hide CellsOk, Mirrors, ReplayTable, Inv, TableOf, TableOk, OnlyDeadGone, DirOk, AllLive, AllSound, Knows, TreesOk;
    hide Live;
    var t0 := TableOf(v);
    TableOfOk(v, max);
    SameLiving(td, tpos, t0, index0, kv0, t, index, kv);
    TreeRow(td, tpos, t0, v.curr, hints0, trees0, currTree, v.curr);
    assert t[v.curr] == t0[v.curr];
    assert TreeAt(trees0, currTree, v.curr, v.curr) == currTree;
  }

  /** The fate of a live key: it stays live, and in reach if and only if the current bucket kept its
      number or the key was known; keys in reach are in the current bucket if they were; no key in a
      renumbered bucket is known. */
  ghost predicate Fate(index0: Index, currTree: Index, curr0: nat, index: Index, curr: nat, k: Key)
    requires k in index0
  {
    && Live(index, k) && (InReach(index, curr, k) <==> curr == curr0 || KnownAt(index0, currTree, curr0, k))
    && (InReach(index, curr, k) ==> (Bucket(index0[k]) == curr0 <==> Bucket(index[k]) == curr))
    && (curr != curr0 && Bucket(index[k]) == curr ==> !KnownAt(index, currTree, curr, k))
  }

  lemma MovedFate(td: nat, tpos: int, v: View, index0: Index, kv0: map<Key, Cell>, currTree: Index, t: Table,
                  index: Index, kv: map<Key, Cell>, last: int, k: Key)
    requires td <= 8 && v.curr < MAX_BUCKET_COUNT && Collected(td, tpos, v, index0, kv0, currTree, t, index, kv, last)
    requires last + 1 < v.curr && Live(index0, k)
    ensures Fate(index0, currTree, v.curr, Renumber(index, currTree, last + 1), last + 1, k)
  {
    hide CellsOk, Mirrors, ReplayTable, TableOf, TableOk, OnlyDeadGone, AllSound, Knows, Ready, Bucket, KnownAt;
    hide Renumber;
    SameCurrent(td, tpos, TableOf(v), index0, t, index, v.curr, currTree, k);
    ReachMoved(td, tpos, t, index, currTree, v.curr, last + 1, k);
  }

  lemma StaidFate(td: nat, tpos: int, v: View, index0: Index, kv0: map<Key, Cell>, currTree: Index, t: Table,
                  index: Index, kv: map<Key, Cell>, last: int, k: Key)
    requires td <= 8 && v.curr < MAX_BUCKET_COUNT && Collected(td, tpos, v, index0, kv0, currTree, t, index, kv, last)
    requires Live(index0, k)
    ensures Fate(index0, currTree, v.curr, index, v.curr, k)
  {
    hide CellsOk, Mirrors, ReplayTable, TableOf, TableOk, OnlyDeadGone, AllSound, Knows, Ready, Bucket, KnownAt;
    SameCurrent(td, tpos, TableOf(v), index0, t, index, v.curr, currTree, k);
    ReachStays(td, tpos, t, index, v.curr, k);
  }

  /** A renumbering that knows every live key of the bucket keeps the contents. */
  lemma MovedContents(td: nat, tpos: int, v: View, index0: Index, kv0: map<Key, Cell>, currTree: Index, t: Table,
                      index: Index, kv: map<Key, Cell>, last: int)
    requires td <= 8 && v.curr < MAX_BUCKET_COUNT && Collected(td, tpos, v, index0, kv0, currTree, t, index, kv, last)
    requires last + 1 < v.curr && CurrentKnown(index0, currTree, v.curr)
    ensures var t', r := MovedTable(t, v.curr, last + 1), Renumber(index, currTree, last + 1);
      TableOk(t') && CellsOk(td, tpos, t', r, kv) && Mirrors(r, ReplayTable(td, tpos, t'))
  {
    hide CellsOk, Mirrors, ReplayTable, TableOf, TableOk, OnlyDeadGone, AllSound, Knows, Ready, CurrentKnown;
    hide Renumber, Gap, Renumbered;
    var d := last + 1;
    SameKnowledge(td, tpos, TableOf(v), index0, t, index, v.curr, currTree);
    RenumberedIs(td, tpos, t, index, currTree, v.curr, d);
    RenumberMirrors(td, tpos, t, index, v.curr, d, Renumber(index, currTree, d));
    RenumberCells(td, tpos, t, index, v.curr, d, Renumber(index, currTree, d), kv);
  }

  /** The table when the current bucket has number `last + 1` at the end. */
  function FinalTable(t: Table, curr: nat, last: int): (r: Table)
    requires -1 <= last < curr < |t|
    ensures |r| == |t|
  {
    if last + 1 < curr then MovedTable(t, curr, last + 1) else t
  }

  /** The hints when the current bucket has number `last + 1` at the end. */
  lemma FinalHints(td: nat, tpos: int, v: View, index0: Index, kv0: map<Key, Cell>, currTree: Index, t: Table,
                   index: Index, kv: map<Key, Cell>, last: int, hints: Files)
    requires td <= 8 && v.curr < MAX_BUCKET_COUNT && Collected(td, tpos, v, index0, kv0, currTree, t, index, kv, last)
    requires TableOk(t) && |t| == MAX_BUCKET_COUNT && HintState(hints, t, last)
    ensures var d, t' := last + 1, FinalTable(t, v.curr, last);
      && TableOk(t') && HintsOk(td, tpos, t', d, hints, TreesOf(t', d), currTree)
      && (Complete(td, tpos, TableOf(v)[v.curr], currTree) ==> AllComplete(td, tpos, t', d, TreesOf(t', d), currTree))
  {
    hide CellsOk, Mirrors, ReplayTable, TableOf, OnlyDeadGone, AllSound, Knows, Ready, Complete, HintsOk, AllComplete;
    hide TreeHint, Latest, TreesOf;
    var d := last + 1;
    var t' := FinalTable(t, v.curr, last);
    if d < v.curr { MovedTableOk(t, v.curr, d); }
    assert t'[d] == t[v.curr] == TableOf(v)[v.curr];
    CollectedHints(td, tpos, t', d, hints, currTree);
  }

  lemma AllAhead(td: nat, tpos: int, t: Table, curr: nat, hints: Files, trees: Trees, currTree: Index)
    requires td <= 8 && HintsOk(td, tpos, t, curr, hints, trees, currTree)
    ensures HintsAhead(hints, t, TreeList(trees, currTree, curr), 0, curr)
  {
    hide TreeHint, TreesOk, TableOk, Ready;
  }

  predicate NoGaps(files: Files, n: nat) {
    forall b: nat :: b < n ==> b in files
  }

  lemma {:induction false} AllPresent(files: Files, n: nat)
    requires NoGaps(files, n)
    ensures Present(files, n) == n
    decreases n
  {
    if n > 0 { AllPresent(files, n - 1); }
  }

  /** How many numbers are used, as a caller can tell beforehand. */
  ghost predicate Outcome(index: Index, files: Files, cs: seq<Index>, curr: nat, max: nat, hinted: nat -> bool,
                          files': Files, curr': nat)
  {
    && curr' <= Present(files, curr) && (curr' == 0 ==> Present(files, curr) == 0)
    && ((forall b :: hinted(b)) && Total(files, curr) <= max ==> curr' <= 1)
    && (AllDead(index, 1, curr) ==> curr' <= 2 && (curr' == 2 ==> |DirFile(files', 1)| == 0))
    && (Crowded(index, files, cs, max, hinted) && 2 <= curr ==> curr' >= 2)
  }

  /** The loop over the files, then the move of the current one behind them. */
  method CollectFiles(store: Store, world: World)
    returns (ret: int, index: Index, dir: Files, hints: Files, last: int, ghost t: Table, ghost kv: map<Key, Cell>)
    requires store.Valid() && store.log.curr < MAX_BUCKET_COUNT
    requires FilesFit(store.log.files, store.log.curr, store.log.max)
    ensures ret == 0 && -1 <= last < store.log.curr && TableOk(t) && |t| == MAX_BUCKET_COUNT
    ensures HintState(hints, t, last)
    ensures Collected(store.td, store.tpos, store.log.Now(), store.index, store.kv, store.currTree, t, index, kv, last)
    ensures Installable(store.log.Now(), FinalTable(t, store.log.curr, last), last + 1, dir, store.log.max)
    ensures FilesFit(dir, last + 1, store.log.max) && Total(dir, last + 1) <= Total(store.log.files, store.log.curr)
    ensures NoGaps(dir, last + 1)
    ensures Outcome(store.index, store.log.files, TreeList(store.trees, store.currTree, store.log.curr),
                    store.log.curr, store.log.max, world.hinted, dir, last + 1)
  {
    hide GcState, CellsOk, Mirrors, ReplayTable, Inv, Bounded, TableOf, TableOk, MovedTable, OnlyDeadGone, Recs;
    hide CurrentKnown, HintsOk, Collected, Total, Present, FilesFit, HintState, Installable, AllDead, Crowded;
    hide HintsAhead, TreeList, TreeIs, TopOk;
    var log := store.log;
    ghost var v := log.Now();
    ghost var cs := TreeList(store.trees, store.currTree, log.curr);
    SizesFit(v, log.max, log.top);
    AllAhead(store.td, store.tpos, TableOf(v), log.curr, store.hints, store.trees, store.currTree);
    StartState(store.td, store.tpos, v, log.max, store.index, store.kv);
    ret, index, dir, hints, last, t, kv :=
      CollectAll(store.td, store.tpos, store.index, log.files, store.hints, log.curr, log.max, world,
                 TableOf(v), store.kv, cs);
    FinalSizes(store.td, store.tpos, v, log.max, store.kv, dir, t, index, kv, last);
    CollectedFacts(store.td, store.tpos, v, log.max, store.index, store.kv, store.currTree, store.hints, store.trees,
                   dir, t, index, kv, last);
    if last + 1 < log.curr {
      FinalMove(store.td, store.tpos, v, log.max, store.kv, dir, t, index, kv, last);
      if log.curr in dir {
        dir := (dir - {log.curr})[last + 1 := dir[log.curr]];
      }
    } else {
      FinalStay(store.td, store.tpos, v, log.max, store.kv, dir, t, index, kv, last);
    }
  }

  /** Writes the outcome of a collection into the store, which is valid again if the index fits. */
  method Install(store: Store, index: Index, dir: Files, hints: Files, curr: nat, ghost t: Table,
                 ghost kv: map<Key, Cell>)
    requires store.Valid() && Installable(store.log.Now(), t, curr, dir, store.log.max)
    requires |t| == MAX_BUCKET_COUNT && TableOk(t) && curr < |t|
    requires HintsOk(store.td, store.tpos, t, curr, hints, TreesOf(t, curr), store.currTree)
    modifies store`index, store`kv, store`hints, store`trees, store.log`files, store.log`done, store.log`curr
    ensures store.index == index && store.kv == kv && store.log.curr == curr && store.log.files == dir
    ensures store.log.Valid()
    ensures store.log.Now() == old(store.log.Now()).(curr := curr, files := dir, done := store.log.done)
    ensures CellsOk(store.td, store.tpos, t, index, kv) && Mirrors(index, ReplayTable(store.td, store.tpos, t)) ==>
      && store.Valid()
      && (AllComplete(store.td, store.tpos, t, curr, TreesOf(t, curr), store.currTree) ==> store.Counted())
  {
    hide CellsOk, Mirrors, ReplayTable, Inv, Bounded, TableOf, TableOk, Recs, HintsOk, AllComplete, Installable;
    hide TreesOf, TreeIs;
    InstallLog(store.log, dir, curr, t);
    store.index, store.hints := index, hints;
    store.kv, store.trees := kv, TreesOf(t, curr);
  }

  /** bc_optimize: it succeeds and never takes more room. Every live key keeps its version, flag and value
      and only dead keys may be forgotten, if and only if the current bucket keeps its number or its tree
      knows all of its live keys; otherwise the unknown ones, and only those, are out of reach. */
  method Optimize(store: Store, world: World) returns (ret: int)
    requires store.Valid() && store.log.curr < MAX_BUCKET_COUNT
    requires FilesFit(store.log.files, store.log.curr, store.log.max)
    modifies store`index, store`kv, store`hints, store`trees, store.log`files, store.log`done, store.log`curr
    ensures ret == 0 && store.log.Valid() && store.log.curr <= old(store.log.curr)
    ensures FilesFit(store.log.files, store.log.curr, store.log.max) && NoGaps(store.log.files, store.log.curr)
    ensures store.log.Now() ==
      old(store.log.Now()).(curr := store.log.curr, files := store.log.files, done := store.log.done)
    ensures forall k :: Live(store.index, k) ==> Live(old(store.index), k)
    ensures forall k :: Live(old(store.index), k) ==>
      Fate(old(store.index), old(store.currTree), old(store.log.curr), store.index, store.log.curr, k)
    ensures store.log.curr == old(store.log.curr) || old(store.Agrees()) ==>
      store.Valid() && OnlyDeadGone(old(store.kv), store.kv) && (old(store.Counted()) ==> store.Counted())
    ensures store.log.curr == old(store.log.curr) && old(store.Agrees()) ==> store.Agrees()
    ensures Total(store.log.files, store.log.curr) <= old(Total(store.log.files, store.log.curr))
    ensures Outcome(old(store.index), old(store.log.files), old(TreeList(store.trees, store.currTree, store.log.curr)),
                    old(store.log.curr), store.log.max, world.hinted, store.log.files, store.log.curr)
  {
    hide CellsOk, Mirrors, ReplayTable, Inv, Bounded, TableOf, TableOk, FinalTable, OnlyDeadGone, Recs, CurrentKnown;
    hide HintsOk, AllComplete, Collected, Fate, Renumber, Total, Present, FilesFit, HintState, Installable, TreesOf;
    hide Complete, Live, KnownAt, Outcome, TreeList, TreeIs;
    var log := store.log;
    ghost var v, kv0, index0 := log.Now(), store.kv, store.index;
    var index, dir, hints, last;
    ghost var t, kv;
    ret, index, dir, hints, last, t, kv := CollectFiles(store, world);
    FinalHints(store.td, store.tpos, v, index0, kv0, store.currTree, t, index, kv, last, hints);
    FinalIndex(store.td, store.tpos, v, index0, kv0, store.currTree, t, index, kv, last);
    if old(store.Counted()) { CurrentComplete(store.td, store.tpos, TableOf(v), v.curr, store.trees, store.currTree); }
    if last + 1 < log.curr {
      index := RenumberCurrent(index, store.bucketTree, last + 1, store.currTree);
    }
    t := FinalTable(t, log.curr, last);
    Install(store, index, dir, hints, last + 1, t, kv);
  }

  lemma CurrentComplete(td: nat, tpos: int, t: Table, curr: nat, trees: Trees, currTree: Index)
    requires td <= 8 && |t| == MAX_BUCKET_COUNT && curr < |t| && AllComplete(td, tpos, t, curr, trees, currTree)
    ensures Complete(td, tpos, t[curr], currTree)
  {
    hide Complete;
    assert TreeAt(trees, currTree, curr, curr) == currTree;
  }

  /** The index when the current bucket has number `last + 1` at the end. */
  lemma FinalIndex(td: nat, tpos: int, v: View, index0: Index, kv0: map<Key, Cell>, currTree: Index, t: Table,
                   index: Index, kv: map<Key, Cell>, last: int)
    requires td <= 8 && v.curr < MAX_BUCKET_COUNT && Collected(td, tpos, v, index0, kv0, currTree, t, index, kv, last)
    ensures OnlyDeadGone(kv0, kv) && last < v.curr < |t|
    ensures var d := last + 1; var moved := d < v.curr;
      var t', r := FinalTable(t, v.curr, last), if moved then Renumber(index, currTree, d) else index;
      && (forall k :: Live(r, k) <==> Live(index0, k))
      && (forall k :: Live(index0, k) ==> k in index0 && Fate(index0, currTree, v.curr, r, d, k))
      && (!moved || CurrentKnown(index0, currTree, v.curr) ==>
        TableOk(t') && CellsOk(td, tpos, t', r, kv) && Mirrors(r, ReplayTable(td, tpos, t')))
      && (!moved && CurrentKnown(index0, currTree, v.curr) ==> CurrentKnown(r, currTree, v.curr))
  {
    hide CellsOk, Mirrors, ReplayTable, TableOf, TableOk, OnlyDeadGone, AllSound, Knows, Ready, Fate, MovedTable;
    hide CurrentKnown, KnownAt;
    var d := last + 1;
    forall k | Live(index0, k)
      ensures Fate(index0, currTree, v.curr, if d < v.curr then Renumber(index, currTree, d) else index, d, k)
    {
      if d < v.curr {
        MovedFate(td, tpos, v, index0, kv0, currTree, t, index, kv, last, k);
      } else {
        StaidFate(td, tpos, v, index0, kv0, currTree, t, index, kv, last, k);
      }
    }
    if d < v.curr && CurrentKnown(index0, currTree, v.curr) {
      MovedContents(td, tpos, v, index0, kv0, currTree, t, index, kv, last);
    }
    if d == v.curr { SameKnowledge(td, tpos, TableOf(v), index0, t, index, v.curr, currTree); }
  }

  lemma {:induction false} TotalFewer(dir: Files, dir': Files, n: nat, m: nat)
    requires n <= m && forall b: nat :: b < n ==> DirFile(dir', b) == DirFile(dir, b)
    ensures Total(dir', n) <= Total(dir, m)
    decreases m
  {
    if n < m {
      TotalFewer(dir, dir', n, m - 1);
    } else if n > 0 {
      TotalFewer(dir, dir', n - 1, m - 1);
    }
  }

  lemma FinalSizes(td: nat, tpos: int, v: View, max: nat, kv0: map<Key, Cell>, dir: Files, t: Table, index: Index,
                   kv: map<Key, Cell>, last: int)
    requires td <= 8 && v.curr < MAX_BUCKET_COUNT
    requires GcState(td, tpos, v.files, TableOf(v), kv0, dir, t, index, kv, last, v.curr, v.curr, max)
    ensures TableOk(t) && -1 <= last < v.curr < |t| == MAX_BUCKET_COUNT
    ensures var d := last + 1; var dir' := if d < v.curr then MovedDir(dir, v.curr, d) else dir;
      && FilesFit(dir', d, max) && Total(dir', d) <= Total(dir, v.curr)
      && (forall b: nat :: b < d ==> DirFile(dir', b) == DirFile(dir, b) && (b in dir ==> b in dir'))
  {
    hide CellsOk, OnlyDeadGone, TableOf, FileBytes, AllLive, Mirrors, ReplayTable, TableOk;
    var d := last + 1;
    var dir' := if d < v.curr then MovedDir(dir, v.curr, d) else dir;
    forall b: nat | b < d ensures DirFile(dir', b) == DirFile(dir, b) && |DirFile(dir, b)| <= max { }
    forall b | b in dir' && b < d ensures |dir'[b]| <= max { assert DirFile(dir', b) == DirFile(dir, b); }
    TotalFewer(dir, dir', d, v.curr);
  }
}
