/** The loop of bc_optimize, on files that are all old enough: every file below the current one is
    collected, the target never passes the source, and the hints are those of the new files. */
module GcRun {
  import opened Bytes
  import opened HTreeLeaf
  import opened HTreeApi
  import opened Record
  import opened DataFile
  import opened Hint
  import opened Buffers
  import opened Protocol
  import opened SetRules
  import opened Replay
  import opened Store
  import opened Lasts
  import opened GcGuess
  import opened GcTables
  import opened Gc
  import opened Recovery

  function DirFile(dir: Files, b: nat): seq<byte> {
    if b in dir then dir[b] else []
  }

  /** The directory below the current bucket holds the table's records, no file too large. */
  ghost predicate DirOk(dir: Files, t: Table, curr: nat, max: nat)
    requires TableOk(t) && curr <= |t|
  {
    forall b: nat :: b < curr ==> FileBytes(t[b]) == DirFile(dir, b) && |DirFile(dir, b)| <= max
  }

  /** From the current bucket on nothing changes, and no bucket between target and source has a file. */
  ghost predicate DirFrame(dir0: Files, dir: Files, t0: Table, t: Table, last: int, i: nat, curr: nat) {
    && |t| == |t0|
    && (forall b: nat :: i <= b < |t| ==> t[b] == t0[b])
    && (forall b: nat :: last < b < i ==> b !in dir)
    && (forall b: nat :: i <= b ==> (b in dir <==> b in dir0) && (b in dir ==> dir[b] == dir0[b]))
  }

  ghost predicate GcState(td: nat, tpos: int, dir0: Files, t0: Table, kv0: map<Key, Cell>, dir: Files, t: Table,
                          index: Index, kv: map<Key, Cell>, last: int, i: nat, curr: nat, max: nat)
    requires td <= 8
  {
    && GcInv(td, tpos, t, index, last, i) && i <= curr < |t| && |t| == MAX_BUCKET_COUNT
    && CellsOk(td, tpos, t, index, kv) && OnlyDeadGone(kv0, kv)
    && DirOk(dir, t, curr, max) && DirFrame(dir0, dir, t0, t, last, i, curr)
  }

  lemma CellsIndexOk(td: nat, tpos: int, t: Table, index: Index, kv: map<Key, Cell>)
    requires td <= 8 && CellsOk(td, tpos, t, index, kv)
    ensures IndexOk(index)
  {
    hide CheckKey, InBucket, PointsTo, HashFor;
    forall k | k in index ensures CheckKey(k) && -TWO_31 <= index[k].ver < TWO_31 {
      assert CellOk(t, k, index[k], kv[k]);
    }
  }

  function SweptDir(dir: Files, i: nat, d: nat, out: seq<byte>): Files {
    (dir - {i})[d := out]
  }

  lemma SweptDirOk(dir: Files, t: Table, i: nat, d: nat, added: seq<Rec>, out: seq<byte>, curr: nat, max: nat)
    requires TableOk(t) && d <= i < curr <= |t| && AllSound(added) && DirOk(dir, t, curr, max)
    requires AllSound(Target(t, i, d) + added) && out == FileBytes(Target(t, i, d) + added) && |out| <= max
    ensures TableOk(SweptTable(t, i, d, added))
    ensures DirOk(SweptDir(dir, i, d, out), SweptTable(t, i, d, added), curr, max)
  {
    hide AllSound, FileBytes;
    SweptTableOk(t, i, d, added);
    NoRecords();
    var dir', t' := SweptDir(dir, i, d, out), SweptTable(t, i, d, added);
    forall b: nat | b < curr ensures FileBytes(t'[b]) == DirFile(dir', b) && |DirFile(dir', b)| <= max {
      assert FileBytes(t[b]) == DirFile(dir, b) && |DirFile(dir, b)| <= max;
      if b == d { assert t'[b] == Target(t, i, d) + added; }
    }
  }

  lemma SweptFrame(dir0: Files, dir: Files, t0: Table, t: Table, last: int, i: nat, curr: nat, d: nat, added: seq<Rec>,
                   out: seq<byte>)
    requires DirFrame(dir0, dir, t0, t, last, i, curr) && d <= i < curr <= |t| && last <= d
    ensures DirFrame(dir0, SweptDir(dir, i, d, out), t0, SweptTable(t, i, d, added), d, i + 1, curr)
  {
  }

  lemma OnlyDeadTwice(a: map<Key, Cell>, b: map<Key, Cell>, c: map<Key, Cell>)
    requires OnlyDeadGone(a, b) && OnlyDeadGone(b, c)
    ensures OnlyDeadGone(a, c)
  {
  }

  /** One successful collection keeps the state of the run. */
  lemma AttemptKeeps(td: nat, tpos: int, dir0: Files, t0: Table, kv0: map<Key, Cell>, dir: Files, t: Table,
                     index: Index, kv: map<Key, Cell>, last: int, i: nat, curr: nat, max: nat, d: nat, from: seq<nat>,
                     added: seq<Rec>, out: seq<byte>, index': Index)
    requires td <= 8 && GcState(td, tpos, dir0, t0, kv0, dir, t, index, kv, last, i, curr, max) && i < curr
    requires last <= d <= last + 1 && 0 <= d <= i
    requires AllSound(t[i]) && Picks(index, t[i], i, from) && Copied(index, t[i], from, added) && AllSound(added)
    requires AllSound(Target(t, i, d))
    requires Relocated(index, index', Target(t, i, d), added, d)
    requires AllSound(Target(t, i, d) + added) && out == FileBytes(Target(t, i, d) + added) && |out| <= max
    ensures GcState(td, tpos, dir0, t0, kv0, SweptDir(dir, i, d, out), SweptTable(t, i, d, added), index',
                    Restrict(kv, index'), d, i + 1, curr, max)
  {
    hide GcInv, CellsOk, OnlyDeadGone, DirOk, DirFrame, Picks, Copied, Relocated, AllSound, SweptDir, FileBytes;
    hide TableOk, Target;
    assert TableOk(t) by { GcTableOk(td, tpos, t, index, last, i); }
    assert Swept(td, tpos, t, index, last, i, d, from, added, index');
    StepKeeps(td, tpos, t, index, last, i, d, from, added, index');
    StepCells(td, tpos, t, index, last, i, d, from, added, index', kv);
    OnlyDeadTwice(kv0, kv, Restrict(kv, index'));
    SweptDirOk(dir, t, i, d, added, out, curr, max);
    SweptFrame(dir0, dir, t0, t, last, i, curr, d, added, out);
  }

  lemma GcTableOk(td: nat, tpos: int, t: Table, index: Index, last: int, i: nat)
    requires td <= 8 && GcInv(td, tpos, t, index, last, i)
    ensures TableOk(t) && -1 <= last < i <= |t|
  {
  }

  // ---- Hints ------------------------------------------------------------------------------------

  /** The hints of the targets are those that scanning their data would make. */
  ghost predicate HintState(hints: Files, t: Table, last: int)
    requires TableOk(t)
  {
    forall b: nat :: b <= last && b < |t| && t[b] != [] ==> b in hints && TreeHint(hints[b], Latest(t[b], b))
  }

  function SweptHints(hints: Files, i: nat, d: nat, hint: seq<byte>): Files {
    (if d != i then hints - {i} else hints)[d := hint]
  }

  lemma SweptHintState(hints: Files, t: Table, last: int, i: nat, d: nat, added: seq<Rec>, hint: seq<byte>)
    requires TableOk(t) && HintState(hints, t, last) && d <= i < |t| && last <= d <= last + 1 && AllSound(added)
    requires AllSound(Target(t, i, d) + added) && TreeHint(hint, Latest(Target(t, i, d) + added, d))
    ensures TableOk(SweptTable(t, i, d, added))
    ensures HintState(SweptHints(hints, i, d, hint), SweptTable(t, i, d, added), d)
  {
    hide AllSound, TreeHint, Latest;
    SweptTableOk(t, i, d, added);
    var t', hints' := SweptTable(t, i, d, added), SweptHints(hints, i, d, hint);
    assert t'[d] == Target(t, i, d) + added;
    forall b: nat | b <= d && b < |t'| && t'[b] != [] ensures b in hints' && TreeHint(hints'[b], Latest(t'[b], b)) {
      if b < d { assert t'[b] == t[b] && b in hints; }
    }
  }

  /** Survivors are the last records of their keys, and the records of the target are live there. */
  lemma SurvivorsCollectable(td: nat, tpos: int, t: Table, index: Index, last: int, i: nat, d: nat)
    requires td <= 8 && GcInv(td, tpos, t, index, last, i) && d <= i < |t| && d <= last + 1
    ensures AllSound(t[i]) && Collectable(index, t[i], i, Target(t, i, d))
  {
    hide ReplayTable, AllSound, Mirrors, GenHash, Plain, Sound, StartOf, TableOk;
    GcTableOk(td, tpos, t, index, last, i);
    RowSound(t, i);
    forall j: nat | j < |t[i]| && Survivor(index, t[i], i, j)
      ensures Sound(t[i][j]) && index[t[i][j].key].hash == GenHash(Plain(t[i][j]).value)
      ensures NoKey(Target(t, i, d), t[i][j].key)
    {
      SurvivorCollectable(td, tpos, t, index, last, i, d, j);
    }
  }

  lemma RowSound(t: Table, i: nat)
    requires TableOk(t) && i < |t|
    ensures AllSound(t[i])
  {
  }

  lemma SurvivorCollectable(td: nat, tpos: int, t: Table, index: Index, last: int, i: nat, d: nat, j: nat)
    requires td <= 8 && GcInv(td, tpos, t, index, last, i) && d <= i < |t| && d <= last + 1
    requires AllSound(t[i]) && j < |t[i]| && Survivor(index, t[i], i, j)
    ensures Sound(t[i][j]) && index[t[i][j].key].hash == GenHash(Plain(t[i][j]).value)
    ensures NoKey(Target(t, i, d), t[i][j].key)
  {
    hide ReplayTable, HasPlain, RecOk, Mirrors, GenHash, Plain, TableOk, StartOf, CheckKey, InBucket, NoKeyFrom;
    var k := t[i][j].key;
    var b, l := LiveAtLast(td, tpos, t, index, k);
    TableEntry(t, b, l);
    TableEntry(t, i, j);
    if j < l { SurvivorsDiffer(index, t[i], i, j, l); }
    RowSound(t, d);
    forall x | 0 <= x < |Target(t, i, d)| ensures Target(t, i, d)[x].key != k {
      assert Survivor(index, t[d], d, x);
      TableEntry(t, d, x);
    }
  }

  // ---- Sizes ------------------------------------------------------------------------------------

  function Total(dir: Files, n: nat): nat {
    if n == 0 then 0 else Total(dir, n - 1) + |DirFile(dir, n - 1)|
  }

  function Present(dir: Files, n: nat): (r: nat)
    ensures r <= n
  {
    if n == 0 then 0 else Present(dir, n - 1) + if n - 1 in dir then 1 else 0
  }

  lemma {:induction false} TotalChange(dir: Files, dir': Files, n: nat, b: nat)
    requires forall c: nat :: c != b ==> DirFile(dir', c) == DirFile(dir, c)
    ensures Total(dir', n) == if b < n then Total(dir, n) - |DirFile(dir, b)| + |DirFile(dir', b)| else Total(dir, n)
    decreases n
  {
    if n > 0 { TotalChange(dir, dir', n - 1, b); }
  }

  lemma {:induction false} TotalTwo(dir: Files, n: nat, b: nat, c: nat)
    requires b < c < n
    ensures |DirFile(dir, b)| + |DirFile(dir, c)| <= Total(dir, n)
    decreases n
  {
    if c < n - 1 { TotalTwo(dir, n - 1, b, c); } else { TotalOne(dir, c, b); }
  }

  lemma {:induction false} TotalOne(dir: Files, n: nat, b: nat)
    requires b < n
    ensures |DirFile(dir, b)| <= Total(dir, n)
    decreases n
  {
    if b < n - 1 { TotalOne(dir, n - 1, b); }
  }

  /** Collecting a file never takes more room. */
  lemma SweptTotal(dir: Files, i: nat, d: nat, out: seq<byte>, n: nat)
    requires d <= i < n && |out| <= |DirFile(dir, i)| + (if d < i then |DirFile(dir, d)| else 0)
    ensures Total(SweptDir(dir, i, d, out), n) <= Total(dir, n)
  {
    var mid := dir - {i};
    TotalChange(dir, mid, n, i);
    TotalChange(mid, mid[d := out], n, d);
  }

  // ---- One file ---------------------------------------------------------------------------------

  /** Everything a collection may depend on besides the store: whether a hint can be opened, whether
      memory for compression is there. */
  datatype World = World(hinted: nat -> bool, memory: nat -> bool)

  /** The live keys of a bucket. */
  ghost function LiveKeysIn(index: Index, b: nat): set<Key> {
    set k | k in index && index[k].ver > 0 && Bucket(index[k]) == b
  }

  /** No bucket from `n` on, below the current one, has a live key. */
  ghost predicate AllDead(index: Index, n: nat, curr: nat) {
    forall k :: Live(index, k) ==> !(n <= Bucket(index[k]) < curr)
  }

  /** Whether the target starts empty, as a temporary file or as itself. */
  predicate Afresh(dir: Files, i: nat, d: nat) {
    d == i || d !in dir
  }

  /** What becomes of the size of the target and of the buckets of live keys. */
  ghost predicate Packed(index: Index, dir: Files, i: nat, d: nat, index': Index, dir': Files) {
    && (Afresh(dir, i, d) ==> |DirFile(dir', d)| >= PADDING * |LiveKeysIn(index, i)|)
    && (LiveKeysIn(index, i) == {} ==> |DirFile(dir', d)| == if Afresh(dir, i, d) then 0 else |DirFile(dir, d)|)
    && (forall k :: Live(index', k) ==>
      Live(index, k) && Bucket(index'[k]) == if Bucket(index[k]) == i then d else Bucket(index[k]))
  }

  lemma {:induction false} FileAtLeast(recs: seq<Rec>)
    requires AllSound(recs)
    ensures |FileBytes(recs)| >= PADDING * |recs|
    decreases |recs|
  {
    hide Sound, FileBytes;
    if recs != [] {
      var n := |recs| - 1;
      FileAtLeast(recs[..n]);
      RecordAt(recs, n);
    }
  }

  function KeysOf(recs: seq<Rec>): (ks: set<Key>)
    ensures |ks| <= |recs| && forall k :: k in ks <==> Within(recs, k)
  {
    if recs == [] then {} else
    var n := |recs| - 1;
    var ks := KeysOf(recs[..n]) + {recs[n].key};
    KeysOfLast(recs, KeysOf(recs[..n]));
    ks
  }

  lemma KeysOfLast(recs: seq<Rec>, front: set<Key>)
    requires recs != [] && forall k :: k in front <==> Within(recs[..|recs| - 1], k)
    ensures forall k :: k in front + {recs[|recs| - 1].key} <==> Within(recs, k)
  {
    var n := |recs| - 1;
    forall k ensures k in front + {recs[n].key} <==> Within(recs, k) {
      assert recs == recs[..n] + [recs[n]];
      WithinMore(recs[..n], recs[n], k);
    }
  }

  /** A survivor has its position in the source, and every live key of the source is one. */
  lemma AddedAreLive(td: nat, tpos: int, t: Table, index: Index, last: int, i: nat, d: nat, from: seq<nat>,
                     added: seq<Rec>, index': Index, k: Key)
    requires td <= 8 && Swept(td, tpos, t, index, last, i, d, from, added, index')
    ensures Within(added, k) <==> k in LiveKeysIn(index, i)
  {
    hide ReplayTable, HasPlain, RecOk, StartOf, Plain, GenHash, AllLive, Picks, Copied, Relocated, Mirrors, TableOk;
    if Within(added, k) {
      var x :| 0 <= x < |added| && added[x].key == k;
      GcTableOk(td, tpos, t, index, last, i);
      AddedPick(index, t[i], i, from, added, x);
      TableEntry(t, i, from[x]);
    }
    if k in LiveKeysIn(index, i) { NotInSource(td, tpos, t, index, last, i, d, from, added, index', k); }
  }

  lemma PackedIs(td: nat, tpos: int, t: Table, index: Index, last: int, i: nat, d: nat, from: seq<nat>,
                 added: seq<Rec>, index': Index, dir: Files, out: seq<byte>)
    requires td <= 8 && Swept(td, tpos, t, index, last, i, d, from, added, index') && TableOk(t)
    requires AllSound(Target(t, i, d) + added) && out == FileBytes(Target(t, i, d) + added)
    requires i in dir && AllSound(t[d]) && FileBytes(t[d]) == DirFile(dir, d) && (d !in dir ==> t[d] == [])
    ensures Packed(index, dir, i, d, index', SweptDir(dir, i, d, out))
  {
    hide ReplayTable, AllLive, Picks, Copied, Mirrors, TableOk, AllSound, FileBytes, Relocated;
    var base := Target(t, i, d);
    forall k ensures Within(added, k) <==> k in LiveKeysIn(index, i) {
      AddedAreLive(td, tpos, t, index, last, i, d, from, added, index', k);
    }
    FileAtLeast(base + added);
    SubsetSize(LiveKeysIn(index, i), KeysOf(added));
    if added != [] { assert Within(added, added[0].key); }
    NoRecords();
    assert base + [] == base;
    forall k | Live(index', k)
      ensures Live(index, k)
      ensures Bucket(index'[k]) == if Bucket(index[k]) == i then d else Bucket(index[k])
    {
      MovedBucket(td, tpos, t, index, last, i, d, from, added, index', k);
    }
  }

  lemma MovedBucket(td: nat, tpos: int, t: Table, index: Index, last: int, i: nat, d: nat, from: seq<nat>,
                    added: seq<Rec>, index': Index, k: Key)
    requires td <= 8 && Swept(td, tpos, t, index, last, i, d, from, added, index') && Live(index', k)
    ensures Live(index, k)
    ensures Bucket(index'[k]) == if Bucket(index[k]) == i then d else Bucket(index[k])
  {
    hide ReplayTable, HasPlain, RecOk, StartOf, Plain, GenHash, AllLive, Picks, Copied, Mirrors, TableOk, NewStart;
    AddedAreLive(td, tpos, t, index, last, i, d, from, added, index', k);
    if Within(added, k) {
      var x :| 0 <= x < |added| && added[x].key == k;
      GcTableOk(td, tpos, t, index, last, i);
      SweptTableOk(t, i, d, added);
      MovedCell(t, i, d, added, x, index'[k]);
      NewBucket(t, i, d, added, x, index'[k]);
    }
  }

  lemma NewBucket(t: Table, b: nat, d: nat, added: seq<Rec>, x: nat, e: Entry)
    requires TableOk(t) && d <= b < |t| && AllSound(Target(t, b, d)) && AllSound(added) && x < |added|
    requires e.pos == NewStart(Target(t, b, d), added, x) + d
    ensures Bucket(e) == d
  {
    hide HasPlain, RecOk, StartOf, NewStart, SweptTable;
    SweptTableOk(t, b, d, added);
    SweptRow(t, b, d, added, x);
    var t', i := SweptTable(t, b, d, added), |Target(t, b, d)| + x;
    TableEntry(t', d, i);
  }

  lemma NoneSurvives(t: Table, index: Index, i: nat)
    requires TableOk(t) && i < |t| && AllSound(t[i]) && LiveKeysIn(index, i) == {}
    ensures NoSurvivor(index, t[i], i)
  {
    hide HasPlain, RecOk, StartOf, TableOk;
    forall j: nat | j < |t[i]| ensures !Survivor(index, t[i], i, j) {
      TableEntry(t, i, j);
      assert t[i][j].key !in LiveKeysIn(index, i);
    }
  }

  /** The hints of the files still to be collected. */
  ghost predicate HintsAhead(hints: Files, t: Table, cs: seq<Index>, i: nat, curr: nat) {
    |cs| == |t| && forall b: nat :: i <= b < curr && b < |t| && t[b] != [] ==> b in hints && TreeHint(hints[b], cs[b])
  }

  lemma AheadKept(hints: Files, t: Table, cs: seq<Index>, i: nat, curr: nat, d: nat, hint: seq<byte>, added: seq<Rec>)
    requires d <= i < |t| && HintsAhead(hints, t, cs, i, curr)
    ensures HintsAhead(SweptHints(hints, i, d, hint), SweptTable(t, i, d, added), cs, i + 1, curr)
  {
    hide TreeHint;
  }

  /** One call of optimizeDataFile on file `i` with target `d`. */
  method Attempt(td: nat, tpos: int, index: Index, dir: Files, hints: Files, last: int, i: nat, d: nat, curr: nat,
                 max: nat, world: World, ghost dir0: Files, ghost t0: Table, ghost kv0: map<Key, Cell>, ghost t: Table,
                 ghost kv: map<Key, Cell>, ghost cs: seq<Index>)
    returns (ret: int, index': Index, dir': Files, hints': Files, ghost t': Table, ghost kv': map<Key, Cell>)
    requires td <= 8 && GcState(td, tpos, dir0, t0, kv0, dir, t, index, kv, last, i, curr, max) && max <= MAX_DATA
    requires i < curr && i in dir && last <= d <= last + 1 && 0 <= d <= i && TableOk(t) && HintState(hints, t, last)
    requires HintsAhead(hints, t, cs, i, curr)
    ensures ret == 0 || ret == 1
    ensures ret == 0 ==> GcState(td, tpos, dir0, t0, kv0, dir', t', index', kv', d, i + 1, curr, max) && d in dir'
    ensures ret == 0 ==> TableOk(t') && HintState(hints', t', d) && Total(dir', curr) <= Total(dir, curr)
    ensures ret == 0 ==> HintsAhead(hints', t', cs, i + 1, curr) && Packed(index, dir, i, d, index', dir')
    ensures ret == 0 ==> forall b :: b in dir && b != i ==> b in dir'
    ensures ret == 1 ==> index' == index && dir' == dir && hints' == hints && t' == t && kv' == kv
    ensures Afresh(dir, i, d) || (world.hinted(d) && |dir[d]| + |dir[i]| <= max) ==> ret == 0
    ensures LiveKeysIn(index, i) == {} && (world.hinted(d) || |DirFile(dir, d)| == 0) ==> ret == 0
  {
    hide GcState, GcInv, CellsOk, OnlyDeadGone, DirFrame, AllSound, FileBytes, Picks, Copied, Relocated, IndexOk;
    hide Collectable, TreeHint, Latest, Total, TableOk, SweptTable, Packed, HintsAhead, LiveKeysIn, NoSurvivor;
    StateFacts(td, tpos, dir0, t0, kv0, dir, t, index, kv, last, i, curr, max);
    var useTmp := d == i || d !in dir;
    RowSound(t, i);
    RowSound(t, d);
    assert FileBytes(t[i]) == DirFile(dir, i) && FileBytes(t[d]) == DirFile(dir, d);
    if d !in dir { EmptyFile(t[d]); }
    SurvivorsCollectable(td, tpos, t, index, last, i, d);
    if LiveKeysIn(index, i) == {} { NoneSurvives(t, index, i); }
    var dest := if d in dir then dir[d] else [];
    var destHint := if d in hints then hints[d] else [];
    ghost var from, added;
    var out, hint;
    NoRecords();
    ret, out, hint, index', from, added := OptimizeDataFile(index, i, d, dir[i], dest, destHint, useTmp,
      world.hinted(d) && d in hints, max, world.memory, t[i], t[d]);
    dir', hints', t', kv' := dir, hints, t, kv;
    if ret == 0 {
      SweptTableOk(t, i, d, added);
      AttemptKeeps(td, tpos, dir0, t0, kv0, dir, t, index, kv, last, i, curr, max, d, from, added, out, index');
      SweptHintState(hints, t, last, i, d, added, hint);
      SweptTotal(dir, i, d, out, curr);
      AheadKept(hints, t, cs, i, curr, d, hint, added);
      assert Swept(td, tpos, t, index, last, i, d, from, added, index');
      PackedIs(td, tpos, t, index, last, i, d, from, added, index', dir, out);
      if d != i {
        hints' := hints' - {i};
      }
      dir', hints' := (dir - {i})[d := out], hints'[d := hint];
      t', kv' := SweptTable(t, i, d, added), Restrict(kv, index');
    }
  }

  lemma StateFacts(td: nat, tpos: int, dir0: Files, t0: Table, kv0: map<Key, Cell>, dir: Files, t: Table, index: Index,
                   kv: map<Key, Cell>, last: int, i: nat, curr: nat, max: nat)
    requires td <= 8 && GcState(td, tpos, dir0, t0, kv0, dir, t, index, kv, last, i, curr, max)
    ensures TableOk(t) && -1 <= last < i <= curr < |t| == MAX_BUCKET_COUNT && DirOk(dir, t, curr, max) && IndexOk(index)
    ensures GcInv(td, tpos, t, index, last, i)
    ensures forall b: nat :: last < b < i ==> b !in dir
    ensures forall b: nat :: i <= b ==> (b in dir <==> b in dir0) && DirFile(dir, b) == DirFile(dir0, b)
    ensures forall b: nat :: b < curr ==> |DirFile(dir, b)| <= max
  {
    hide CellsOk, OnlyDeadGone, Mirrors, ReplayTable, AllLive, IndexOk, TableOk, FileBytes;
    CellsIndexOk(td, tpos, t, index, kv);
  }

  /** What bc_optimize expects of file `i` from its hint. */
  ghost function Expected(index: Index, dir: Files, cs: seq<Index>, i: nat, hinted: nat -> bool): nat
    requires i < |cs| <= 256
  {
    var size := |DirFile(dir, i)|;
    if size > 0 && hinted(i) then Guess(size, |cs[i]|, UnusedCount(index, cs[i], i)) else 0
  }

  /** Whether the expected size fits behind the last target, and whether the copy then does. */
  ghost predicate Roomy(index: Index, dir: Files, cs: seq<Index>, prev: int, i: nat, max: nat, hinted: nat -> bool)
    requires i < |cs| <= 256
  {
    prev >= 0 && |DirFile(dir, prev)| + Expected(index, dir, cs, i, hinted) <= max
  }

  ghost predicate Copies(index: Index, dir: Files, prev: nat, i: nat, max: nat, hinted: nat -> bool) {
    || (hinted(prev) && |DirFile(dir, prev)| + |DirFile(dir, i)| <= max)
    || (LiveKeysIn(index, i) == {} && (hinted(prev) || |DirFile(dir, prev)| == 0))
  }

  /** The target that the loop over files settles on. */
  ghost predicate Chosen(index: Index, dir: Files, cs: seq<Index>, prev: int, i: nat, max: nat, hinted: nat -> bool,
                         last: int)
    requires i < |cs| <= 256
  {
    && prev <= last <= prev + 1
    && (!Roomy(index, dir, cs, prev, i, max, hinted) ==> last == prev + 1)
    && (Roomy(index, dir, cs, prev, i, max, hinted) && Copies(index, dir, prev, i, max, hinted) ==> last == prev)
  }

  /** The body of the loop over files: chooses the target, and takes the next one if the first
      is too full. There is always a target that does. */
  method CollectFile(td: nat, tpos: int, index: Index, dir: Files, hints: Files, prev: int, i: nat, curr: nat, max: nat,
                     world: World, ghost dir0: Files, ghost t0: Table, ghost kv0: map<Key, Cell>, ghost t: Table,
                     ghost kv: map<Key, Cell>, ghost cs: seq<Index>)
    returns (ret: int, index': Index, dir': Files, hints': Files, last: int, ghost t': Table, ghost kv': map<Key, Cell>)
    requires td <= 8 && GcState(td, tpos, dir0, t0, kv0, dir, t, index, kv, prev, i, curr, max) && i < curr && i in dir
    requires TableOk(t) && HintState(hints, t, prev) && max <= MAX_DATA && HintsAhead(hints, t, cs, i, curr)
    requires i < |cs| <= 256 && forall b: nat :: b <= prev ==> b in dir
    ensures ret == 0 && Chosen(index, dir, cs, prev, i, max, world.hinted, last) && 0 <= last <= i
    ensures GcState(td, tpos, dir0, t0, kv0, dir', t', index', kv', last, i + 1, curr, max)
    ensures TableOk(t') && HintState(hints', t', last) && Total(dir', curr) <= Total(dir, curr)
    ensures HintsAhead(hints', t', cs, i + 1, curr) && Packed(index, dir, i, last, index', dir')
    ensures forall b: nat :: b <= last ==> b in dir'
  {
    hide GcState, HintState, TableOk, Total, DirOk, IndexOk, GcInv, Packed, LiveKeysIn, TreeHint, UnusedCount, Guess;
    StateFacts(td, tpos, dir0, t0, kv0, dir, t, index, kv, prev, i, curr, max);
    last := prev;
    var readable := |dir[i]| > 0 && world.hinted(i);
    if |dir[i]| > 0 { HintThere(dir, hints, t, cs, i, curr, max); }
    var guess := GuessSize(index, i, |dir[i]|, readable, if i in hints then hints[i] else [], cs[i]);
    var lastSize := if last >= 0 then |DirFile(dir, last)| else 0;
    if last == -1 || lastSize + guess > max {
      last := last + 1;
    }
    var last0 := last;
    index', dir', hints', t', kv' := index, dir, hints, t, kv;
    while last <= last0 + 1
      invariant prev <= last <= prev + 1 && last0 <= last <= i && last >= 0 && (last != last0 ==> last0 == prev)
      invariant last != last0 ==> !Copies(index, dir, prev, i, max, world.hinted)
      invariant index' == index && dir' == dir && hints' == hints && t' == t && kv' == kv
      decreases last0 + 1 - last
    {
      ret, index', dir', hints', t', kv' :=
        Attempt(td, tpos, index, dir, hints, prev, i, last, curr, max, world, dir0, t0, kv0, t, kv, cs);
      if ret == 0 {
        return;
      }
      if last < i {
        last := last + 1;
      } else {
        return -1, index, dir, hints, last, t, kv;
      }
    }
    ret := 0;
  }

  lemma HintThere(dir: Files, hints: Files, t: Table, cs: seq<Index>, i: nat, curr: nat, max: nat)
    requires TableOk(t) && curr <= |t| && DirOk(dir, t, curr, max) && HintsAhead(hints, t, cs, i, curr)
    requires i < curr && |DirFile(dir, i)| > 0
    ensures i in hints && TreeHint(hints[i], cs[i])
  {
    hide AllSound, FileBytes, TreeHint;
    NoRecords();
    assert FileBytes(t[i]) == DirFile(dir, i);
  }

  lemma SkipKeeps(td: nat, tpos: int, dir0: Files, t0: Table, kv0: map<Key, Cell>, dir: Files, t: Table, index: Index,
                  kv: map<Key, Cell>, last: int, i: nat, curr: nat, max: nat)
    requires td <= 8 && GcState(td, tpos, dir0, t0, kv0, dir, t, index, kv, last, i, curr, max) && i < curr && i !in dir
    ensures GcState(td, tpos, dir0, t0, kv0, dir, t, index, kv, last, i + 1, curr, max)
  {
    hide CellsOk, OnlyDeadGone, Mirrors, ReplayTable, AllLive, AllSound, FileBytes;
    assert FileBytes(t[i]) == DirFile(dir, i);
    assert AllSound(t[i]);
    EmptyFile(t[i]);
  }

  /** File 1 is expected to be too large for the first target, even if all its records are dead. */
  ghost predicate Crowded(index: Index, dir: Files, cs: seq<Index>, max: nat, hinted: nat -> bool) {
    && 0 in dir && 1 in dir && |cs| > 1 && |dir[1]| > 0 && hinted(1)
    && PADDING * |LiveKeysIn(index, 0)| + Guess(|dir[1]|, |cs[1]|, |cs[1]|) > max
  }

  /** Where the targets are after the first `i` files. */
  ghost predicate Course(index0: Index, dir0: Files, cs: seq<Index>, curr: nat, max: nat, hinted: nat -> bool, i: nat,
                         index: Index, dir: Files, last: int)
  {
    && last + 1 <= Present(dir0, i) && (last == -1 ==> Present(dir0, i) == 0)
    && ((forall b :: hinted(b)) && Total(dir0, curr) <= max ==> last <= 0)
    && (AllDead(index0, 1, curr) ==> Emptied(index, dir, curr, last))
    && (Crowded(index0, dir0, cs, max, hinted) && 1 <= i ==> last >= if i == 1 then 0 else 1)
    && (Crowded(index0, dir0, cs, max, hinted) && i == 1 ==> PADDING * |LiveKeysIn(index0, 0)| <= |DirFile(dir, 0)|)
    && (i == 0 ==> index == index0)
  }

  ghost predicate Emptied(index: Index, dir: Files, curr: nat, last: int) {
    AllDead(index, 1, curr) && last <= 1 && (last == 1 ==> |DirFile(dir, 1)| == 0)
  }

  lemma CourseStep(index0: Index, dir0: Files, cs: seq<Index>, curr: nat, max: nat, hinted: nat -> bool, i: nat,
                   index: Index, dir: Files, prev: int, index': Index, dir': Files, last: int)
    requires Course(index0, dir0, cs, curr, max, hinted, i, index, dir, prev) && i < |cs| <= 256
    requires -1 <= prev < i < curr
    requires i in dir && i in dir0 && dir[i] == dir0[i] && Total(dir, curr) <= Total(dir0, curr)
    requires forall b: nat :: prev < b < i ==> b !in dir
    requires forall b: nat :: b < curr ==> |DirFile(dir, b)| <= max
    requires Chosen(index, dir, cs, prev, i, max, hinted, last) && Packed(index, dir, i, last, index', dir')
    ensures Course(index0, dir0, cs, curr, max, hinted, i + 1, index', dir', last)
  {
    hide LiveKeysIn, Guess, UnusedCount, Total, Emptied;
    if prev >= 0 { TotalTwo(dir, curr, prev, i); }
    if AllDead(index0, 1, curr) { StepEmptied(index, dir, cs, prev, i, curr, max, hinted, index', dir', last); }
    if Crowded(index0, dir0, cs, max, hinted) && i == 1 {
      GuessFalls(|dir[1]|, |cs[1]|, UnusedCount(index, cs[1], 1), |cs[1]|);
    }
    if i == 0 { assert Afresh(dir, i, last) && |DirFile(dir', last)| >= PADDING * |LiveKeysIn(index, i)|; }
  }

  lemma NoLiveKeys(index: Index, i: nat, curr: nat)
    requires AllDead(index, 1, curr) && 1 <= i < curr
    ensures LiveKeysIn(index, i) == {}
  {
    hide Bucket;
    assert forall k :: k in LiveKeysIn(index, i) ==> Live(index, k);
  }

  lemma StepEmptied(index: Index, dir: Files, cs: seq<Index>, prev: int, i: nat, curr: nat, max: nat,
                    hinted: nat -> bool, index': Index, dir': Files, last: int)
    requires Emptied(index, dir, curr, prev) && i < |cs| <= 256 && -1 <= prev < i < curr && i in dir
    requires forall b: nat :: prev < b < i ==> b !in dir
    requires forall b: nat :: b < curr ==> |DirFile(dir, b)| <= max
    requires Chosen(index, dir, cs, prev, i, max, hinted, last) && Packed(index, dir, i, last, index', dir')
    ensures Emptied(index', dir', curr, last)
  {
    hide Guess, UnusedCount;
    if i > 0 { NoLiveKeys(index, i, curr); }
    assert Expected(index, dir, cs, i, hinted) <= |DirFile(dir, i)|;
  }

  lemma CourseSkip(index0: Index, dir0: Files, cs: seq<Index>, curr: nat, max: nat, hinted: nat -> bool, i: nat,
                   index: Index, dir: Files, last: int)
    requires Course(index0, dir0, cs, curr, max, hinted, i, index, dir, last) && i !in dir0
    ensures Course(index0, dir0, cs, curr, max, hinted, i + 1, index, dir, last)
  {
    hide LiveKeysIn, Guess, Total, Emptied;
  }

  /** The loop of bc_optimize over the files below the current one. There are never more targets than files;
      if everything fits and every hint opens there is one. */
  method CollectAll(td: nat, tpos: int, index: Index, dir: Files, hints: Files, curr: nat, max: nat, world: World,
                    ghost t: Table, ghost kv: map<Key, Cell>, ghost cs: seq<Index>)
    returns (ret: int, index': Index, dir': Files, hints': Files, last: int, ghost t': Table, ghost kv': map<Key, Cell>)
    requires td <= 8 && GcState(td, tpos, dir, t, kv, dir, t, index, kv, -1, 0, curr, max) && max <= MAX_DATA
    requires HintsAhead(hints, t, cs, 0, curr)
    ensures ret == 0 && -1 <= last && GcState(td, tpos, dir, t, kv, dir', t', index', kv', last, curr, curr, max)
    ensures TableOk(t') && HintState(hints', t', last) && Total(dir', curr) <= Total(dir, curr)
    ensures forall b: nat :: b <= last ==> b in dir'
    ensures last + 1 <= Present(dir, curr) && (last == -1 ==> Present(dir, curr) == 0)
    ensures (forall b :: world.hinted(b)) && Total(dir, curr) <= max ==> last <= 0
    ensures AllDead(index, 1, curr) ==> last <= 1 && (last == 1 ==> |DirFile(dir', 1)| == 0)
    ensures Crowded(index, dir, cs, max, world.hinted) && 2 <= curr ==> last >= 1
  {
    hide GcState, TableOk, Total, DirOk, IndexOk, GcInv, Course, HintsAhead, Chosen, Packed, HintState, LiveKeysIn;
    hide Crowded;
    StateFacts(td, tpos, dir, t, kv, dir, t, index, kv, -1, 0, curr, max);
    CourseStart(index, dir, cs, curr, max, world.hinted);
    HintNone(hints, t);
    ret, index', dir', hints', last, t', kv' := 0, index, dir, hints, -1, t, kv;
    var i := 0;
    while i < curr
      invariant 0 <= i <= curr && -1 <= last < i + 1 && ret == 0 && TableOk(t') && HintState(hints', t', last)
      invariant GcState(td, tpos, dir, t, kv, dir', t', index', kv', last, i, curr, max)
      invariant Total(dir', curr) <= Total(dir, curr) && forall b: nat :: b <= last ==> b in dir'
      invariant HintsAhead(hints', t', cs, i, curr)
      invariant Course(index, dir, cs, curr, max, world.hinted, i, index', dir', last)
    {
      StateFacts(td, tpos, dir, t, kv, dir', t', index', kv', last, i, curr, max);
      AheadAll(hints', t', cs, i, curr);
      if i in dir' {
        ghost var was, index1, dir1 := last, index', dir';
        ret, index', dir', hints', last, t', kv' :=
          CollectFile(td, tpos, index', dir', hints', last, i, curr, max, world, dir, t, kv, t', kv', cs);
        CourseStep(index, dir, cs, curr, max, world.hinted, i, index1, dir1, was, index', dir', last);
      } else {
        SkipKeeps(td, tpos, dir, t, kv, dir', t', index', kv', last, i, curr, max);
        CourseSkip(index, dir, cs, curr, max, world.hinted, i, index', dir', last);
        AheadSkip(hints', t', cs, i, curr);
      }
      i := i + 1;
    }
    StateFacts(td, tpos, dir, t, kv, dir', t', index', kv', last, curr, curr, max);
    CourseEnd(index, dir, cs, curr, max, world.hinted, index', dir', last);
  }

  lemma CourseStart(index: Index, dir: Files, cs: seq<Index>, curr: nat, max: nat, hinted: nat -> bool)
    ensures Course(index, dir, cs, curr, max, hinted, 0, index, dir, -1)
  {
  }

  lemma CourseEnd(index: Index, dir: Files, cs: seq<Index>, curr: nat, max: nat, hinted: nat -> bool,
                  index': Index, dir': Files, last: int)
    requires Course(index, dir, cs, curr, max, hinted, curr, index', dir', last)
    ensures last + 1 <= Present(dir, curr) && (last == -1 ==> Present(dir, curr) == 0)
    ensures (forall b :: hinted(b)) && Total(dir, curr) <= max ==> last <= 0
    ensures AllDead(index, 1, curr) ==> last <= 1 && (last == 1 ==> |DirFile(dir', 1)| == 0)
    ensures Crowded(index, dir, cs, max, hinted) && 2 <= curr ==> last >= 1
  {
    hide LiveKeysIn, Guess, Total, Crowded;
  }

  lemma HintNone(hints: Files, t: Table)
    requires TableOk(t)
    ensures HintState(hints, t, -1)
  {
  }

  lemma AheadAll(hints: Files, t: Table, cs: seq<Index>, i: nat, curr: nat)
    requires HintsAhead(hints, t, cs, i, curr)
    ensures |cs| == |t|
  {
  }

  lemma AheadSkip(hints: Files, t: Table, cs: seq<Index>, i: nat, curr: nat)
    requires HintsAhead(hints, t, cs, i, curr)
    ensures HintsAhead(hints, t, cs, i + 1, curr)
  {
    hide TreeHint;
  }
}
