/** Starting up again: empty bucket numbers are compacted and the data files, or their hints, are
    replayed in order. What comes back is what clients were told. */
module Recovery {
  import opened Bytes
  import opened HTreeBlocks
  import opened HTreeLeaf
  import HTreePool
  import opened HashTree
  import opened HTreeApi
  import opened Record
  import opened DataFile
  import opened Hint
  import opened Buffers
  import opened Protocol
  import opened SetRules
  import opened Bitcask
  import opened Replay
  import opened Lasts
  import opened HintTrees
  import opened CurrentTree
  import opened Store

  // ---- Compaction of bucket numbers ------------------------------------------------------------

  function NonEmpty(t: Table): (r: Table)
    ensures |r| <= |t|
  {
    if t == [] then [] else
    var n := |t| - 1;
    if t[n] == [] then NonEmpty(t[..n]) else NonEmpty(t[..n]) + [t[n]]
  }

  lemma {:induction false} NonEmptyOk(t: Table)
    requires TableOk(t)
    ensures TableOk(NonEmpty(t)) && forall b :: 0 <= b < |NonEmpty(t)| ==> NonEmpty(t)[b] != []
    decreases |t|
  {
    hide AllSound;
    if t != [] {
      TableFront(t);
      NonEmptyOk(t[..|t| - 1]);
    }
  }

  /** Two entries for the same stored record, found under different bucket numbers. */
  ghost predicate Twins(t: Table, e: Entry, t': Table, e': Entry) {
    e.ver == e'.ver && e.hash == e'.hash && exists s :: At(t, e, s) && At(t', e', s)
  }

  ghost predicate SameUpToNumber(t: Table, m: map<Key, Entry>, t': Table, m': map<Key, Entry>) {
    m.Keys == m'.Keys && forall k :: k in m ==> Twins(t, m[k], t', m'[k])
  }

  /** The same file under two numbers. */
  lemma {:induction false} LatestTwins(t: Table, b: nat, t': Table, b': nat, recs: seq<Rec>)
    requires TableOk(t) && TableOk(t') && b < |t| && b' < |t'| && AllSound(recs) && recs <= t[b] && recs <= t'[b']
    ensures SameUpToNumber(t, Latest(recs, b), t', Latest(recs, b'))
    decreases |recs|
  {
    hide HasPlain, RecOk, CheckKey, FileBytes, GenHash, At;
    if recs != [] {
      var n := |recs| - 1;
      LatestTwins(t, b, t', b', recs[..n]);
      if CheckKey(recs[n].key) {
        LastIsAt(t, b, recs);
        LastIsAt(t', b', recs);
        assert Twins(t, EntryOf(recs[n], StartOf(recs, n), b), t', EntryOf(recs[n], StartOf(recs, n), b'));
      }
    }
  }

  lemma LastIsAt(t: Table, b: nat, recs: seq<Rec>)
    requires TableOk(t) && b < |t| && AllSound(recs) && recs != [] && recs <= t[b]
    ensures At(t, EntryOf(recs[|recs| - 1], StartOf(recs, |recs| - 1), b), recs[|recs| - 1])
  {
    hide HasPlain, RecOk, FileBytes, GenHash;
    var n := |recs| - 1;
    Aligned(recs[..n]);
    var e := EntryOf(recs[n], StartOf(recs, n), b);
    DivMod(e.pos, 256, StartOf(recs, n) / 256, b);
    assert t[b][..n] == recs[..n] && t[b][n] == recs[n];
    assert StartOf(t[b], n) == StartOf(recs, n);
  }

  lemma TwinsExtend(t: Table, e: Entry, t': Table, e': Entry, u: Table, u': Table)
    requires Twins(t, e, t', e') && Extends(t, u) && Extends(t', u') && TableOk(u) && TableOk(u')
    ensures Twins(u, e, u', e')
  {
    hide At, TableOk, Extends;
    var s :| At(t, e, s) && At(t', e', s);
    AtExtends(t, u, e, s);
    AtExtends(t', u', e', s);
  }

  lemma OverlayTwins(td: nat, tpos: int, t: Table, m: map<Key, Entry>, c: map<Key, Entry>, t': Table,
                     m': map<Key, Entry>, c': map<Key, Entry>)
    requires td <= 8 && SameUpToNumber(t, m, t', m') && SameUpToNumber(t, c, t', c')
    ensures SameUpToNumber(t, Overlay(td, tpos, m, c), t', Overlay(td, tpos, m', c'))
  {
    hide InBucket, At;
    assert forall k :: k in c ==> Twins(t, c[k], t', c'[k]);
    assert forall k :: k in m ==> Twins(t, m[k], t', m'[k]);
  }

  /** Replaying the compacted files leads to the same records. */
  lemma {:induction false} CompactReplay(td: nat, tpos: int, t: Table)
    requires td <= 8 && TableOk(t)
    ensures TableOk(NonEmpty(t))
    ensures SameUpToNumber(t, ReplayTable(td, tpos, t), NonEmpty(t), ReplayTable(td, tpos, NonEmpty(t)))
    decreases |t|
  {
    hide AllSound, ReplayFile, Twins, Latest, Overlay;
    NonEmptyOk(t);
    if t != [] {
      var n := |t| - 1;
      TableFront(t);
      var front, cf := t[..n], NonEmpty(t[..n]);
      CompactReplay(td, tpos, front);
      var m, m' := ReplayTable(td, tpos, front), ReplayTable(td, tpos, cf);
      var t' := NonEmpty(t);
      assert Extends(front, t) && Extends(cf, t');
      forall k | k in m ensures Twins(t, m[k], t', m'[k]) {
        TwinsExtend(front, m[k], cf, m'[k], t, t');
      }
      if t[n] == [] {
        ReplayNothing(td, tpos, m, n);
      } else {
        var c := |t'| - 1;
        assert t'[..c] == cf && t'[c] == t[n];
        LatestTwins(t, n, t', c, t[n]);
        ReplayLatest(td, tpos, m, t[n], n);
        ReplayLatest(td, tpos, m', t[n], c);
        OverlayTwins(td, tpos, t, m, Latest(t[n], n), t', m', Latest(t[n], c));
      }
    }
  }

  /** The live cells are exactly the replayed keys, each with its flag and value. */
  ghost predicate Survives(kv: map<Key, Cell>, t: Table, m: map<Key, Entry>) {
    && (forall k :: k in m <==> k in kv && kv[k].ver > 0)
    && (forall k :: k in m ==> PointsTo(t, k, m[k], kv[k]))
  }

  lemma PointsToTwin(t: Table, k: Key, i: Entry, c: Cell, e: Entry, t': Table, e': Entry)
    requires PointsTo(t, k, i, c) && i.pos == e.pos && Twins(t, e, t', e')
    ensures PointsTo(t', k, e', c)
  {
    hide Sound, Plain, IsAt;
    var s :| At(t, i, s) && Sound(s) && s.key == k && Plain(s).flag == c.flag && Plain(s).value == c.value;
    var s' :| At(t, e, s') && At(t', e', s');
    AtOnce(t, e, s, s');
  }

  lemma IndexSurvives(td: nat, tpos: int, t: Table, index: map<Key, Entry>, kv: map<Key, Cell>)
    requires td <= 8 && TableOk(t) && CellsOk(td, tpos, t, index, kv) && Mirrors(index, ReplayTable(td, tpos, t))
    ensures TableOk(NonEmpty(t)) && Survives(kv, NonEmpty(t), ReplayTable(td, tpos, NonEmpty(t)))
  {
    hide TableOk, ReplayTable, Twins, PointsTo, CheckKey, InBucket, HashFor;
    CompactReplay(td, tpos, t);
    var m, m' := ReplayTable(td, tpos, t), ReplayTable(td, tpos, NonEmpty(t));
    forall k ensures k in m' <==> k in kv && kv[k].ver > 0 {
      if k in kv { assert CellOk(t, k, index[k], kv[k]); }
    }
    forall k | k in m' ensures PointsTo(NonEmpty(t), k, m'[k], kv[k]) {
      assert CellOk(t, k, index[k], kv[k]);
      PointsToTwin(t, k, index[k], kv[k], m[k], NonEmpty(t), m'[k]);
    }
  }

  // ---- Start-up ---------------------------------------------------------------------------------

  type Files = map<nat, seq<byte>>

  /** The files hold the records of the table; an absent file holds none. */
  ghost predicate Stores(files: Files, t: Table)
    requires TableOk(t)
  {
    && (forall b :: b in files && b < MAX_BUCKET_COUNT ==> b < |t|)
    && (forall b: nat :: b < |t| ==> FileBytes(t[b]) == if b in files then files[b] else [])
  }

  lemma NonEmptyStep(t: Table, i: nat)
    requires i < |t|
    ensures NonEmpty(t[..i + 1]) == if t[i] == [] then NonEmpty(t[..i]) else NonEmpty(t[..i]) + [t[i]]
  {
    assert t[..i + 1][..i] == t[..i];
  }

  /** The part of the directory that has been compacted, and the part that has not. */
  ghost predicate Compacting(dir: Files, files: Files, t: Table, i: nat, last: nat)
    requires TableOk(t) && i <= |t|
  {
    && last == |NonEmpty(t[..i])| && last <= i
    && TableOk(NonEmpty(t[..i]))
    && (forall b: nat :: b < last ==> b in dir && dir[b] == FileBytes(NonEmpty(t[..i])[b]))
    && (forall b: nat :: last <= b < i ==> b !in dir)
    && (forall b: nat :: i <= b ==> (b in dir <==> b in files) && (b in dir ==> dir[b] == files[b]))
  }

  lemma CompactingStart(files: Files, t: Table)
    requires TableOk(t)
    ensures Compacting(files, files, t, 0, 0)
  {
    assert t[..0] == [];
  }

  lemma HasRecords(files: Files, t: Table, i: nat)
    requires TableOk(t) && Stores(files, t) && i < |t|
    ensures AllSound(t[i]) && (t[i] != [] <==> i in files && |files[i]| > 0)
    ensures t[i] != [] ==> files[i] == FileBytes(t[i])
  {
    hide FileBytes;
    NoRecords();
    if t[i] != [] { SomethingBuffered(t[i]); }
  }

  lemma CompactingStep(dir: Files, files: Files, t: Table, i: nat, last: nat, dir': Files)
    requires TableOk(t) && Stores(files, t) && i < |t| && Compacting(dir, files, t, i, last)
    requires dir' == if i in dir && |dir[i]| > 0 then (dir - {i})[last := dir[i]] else dir - {i}
    ensures Compacting(dir', files, t, i + 1, if i in dir && |dir[i]| > 0 then last + 1 else last)
  {
    hide AllSound, FileBytes, NonEmpty, Stores;
    NonEmptyStep(t, i);
    HasRecords(files, t, i);
    assert TableOk(t[..i + 1]);
    NonEmptyOk(t[..i + 1]);
    var was, now := NonEmpty(t[..i]), NonEmpty(t[..i + 1]);
    assert i in dir <==> i in files;
    forall b: nat | b < |now| ensures b in dir' && dir'[b] == FileBytes(now[b]) {
      if b < last { assert now[b] == was[b]; }
    }
  }

  /** The trees of the buckets that are not empty. */
  ghost function Picked(t: Table, cs: seq<Index>): (r: seq<Index>)
    requires |cs| == |t|
    ensures |r| == |NonEmpty(t)|
  {
    if t == [] then [] else
    var n := |t| - 1;
    if t[n] == [] then Picked(t[..n], cs[..n]) else Picked(t[..n], cs[..n]) + [cs[n]]
  }

  lemma PickedStep(t: Table, cs: seq<Index>, i: nat)
    requires |cs| == |t| && i < |t|
    ensures Picked(t[..i + 1], cs[..i + 1])
      == if t[i] == [] then Picked(t[..i], cs[..i]) else Picked(t[..i], cs[..i]) + [cs[i]]
  {
    assert t[..i + 1][..i] == t[..i] && cs[..i + 1][..i] == cs[..i];
  }

  /** Every bucket that holds records has a hint made of its tree. */
  ghost predicate Covered(hints: Files, t: Table, cs: seq<Index>)
    requires |cs| == |t|
  {
    forall b: nat :: b < |t| && t[b] != [] ==> b in hints && TreeHint(hints[b], cs[b])
  }

  /** The hints that have been moved along with their data, and those still to be moved. */
  ghost predicate HintsMoved(hdir: Files, hints: Files, t: Table, cs: seq<Index>, i: nat)
    requires |cs| == |t| && i <= |t|
  {
    && (forall b: nat :: b < |Picked(t[..i], cs[..i])| ==> b in hdir && TreeHint(hdir[b], Picked(t[..i], cs[..i])[b]))
    && (forall b: nat :: i <= b ==> (b in hdir <==> b in hints) && (b in hdir ==> hdir[b] == hints[b]))
  }

  lemma HintsMovedStart(hints: Files, t: Table, cs: seq<Index>)
    requires |cs| == |t|
    ensures HintsMoved(hints, hints, t, cs, 0)
  {
    assert t[..0] == [];
  }

  lemma HintsMovedStep(hdir: Files, hints: Files, t: Table, cs: seq<Index>, i: nat, last: nat, hdir': Files)
    requires |cs| == |t| && i < |t| && HintsMoved(hdir, hints, t, cs, i) && Covered(hints, t, cs)
    requires last == |NonEmpty(t[..i])| <= i
    requires t[i] != [] && i in hdir ==> hdir' == (hdir - {i})[last := hdir[i]]
    requires t[i] == [] ==> hdir' == hdir - {i} || hdir' == hdir
    ensures HintsMoved(hdir', hints, t, cs, i + 1)
  {
    hide TreeHint, Picked, NonEmpty;
    PickedStep(t, cs, i);
    var was, now := Picked(t[..i], cs[..i]), Picked(t[..i + 1], cs[..i + 1]);
    forall b: nat | b < |now| ensures b in hdir' && TreeHint(hdir'[b], now[b]) {
      if b < last { assert now[b] == was[b]; }
    }
  }

  /** skip_empty_file: moves every file that is not empty to the first free number, its hint with it. */
  method SkipEmptyFiles(files: Files, hints: Files, ghost t: Table, ghost cs: seq<Index>)
    returns (dir: Files, hdir: Files, last: nat)
    requires TableOk(t) && |cs| == |t| == MAX_BUCKET_COUNT && Stores(files, t)
    ensures TableOk(NonEmpty(t)) && last == |NonEmpty(t)| && Stores(dir, NonEmpty(t))
    ensures Covered(hints, t, cs) ==> Covered(hdir, NonEmpty(t), Picked(t, cs))
  {
    hide TableOk, NonEmpty, FileBytes, Covered, HintsMoved, Picked;
    dir, hdir, last := files, hints, 0;
    CompactingStart(files, t);
    HintsMovedStart(hints, t, cs);
    var i := 0;
    while i < MAX_BUCKET_COUNT
      invariant 0 <= i <= MAX_BUCKET_COUNT && Compacting(dir, files, t, i, last)
      invariant Covered(hints, t, cs) ==> HintsMoved(hdir, hints, t, cs, i)
    {
      ghost var was, wasLast, hwas := dir, last, hdir;
      HasRecords(files, t, i);
      if i in dir {
        if |dir[i]| > 0 {
          if i != last {
            dir := (dir - {i})[last := dir[i]];
            if i in hdir {
              hdir := (hdir - {i})[last := hdir[i]];
            }
          }
          last := last + 1;
        } else {
          dir, hdir := dir - {i}, hdir - {i};
        }
      }
      assert dir == if i in was && |was[i]| > 0 then (was - {i})[wasLast := was[i]] else was - {i};
      CompactingStep(was, files, t, i, wasLast, dir);
      if Covered(hints, t, cs) { HintsMovedStep(hwas, hints, t, cs, i, wasLast, hdir); }
      i := i + 1;
    }
    assert t[..i] == t && cs[..i] == cs;
    if Covered(hints, t, cs) { HintsArrived(hdir, hints, t, cs); }
  }

  lemma HintsArrived(hdir: Files, hints: Files, t: Table, cs: seq<Index>)
    requires |cs| == |t| && HintsMoved(hdir, hints, t, cs, |t|)
    ensures Covered(hdir, NonEmpty(t), Picked(t, cs))
  {
    hide TreeHint;
    assert t[..|t|] == t && cs[..|t|] == cs;
  }

  lemma {:induction false} PickedOk(td: nat, tpos: int, t: Table, cs: seq<Index>)
    requires td <= 8 && TableOk(t) && TreesOk(td, tpos, t, cs)
    ensures TableOk(NonEmpty(t)) && TreesOk(td, tpos, NonEmpty(t), Picked(t, cs))
    decreases |t|
  {
    hide AllSound, Knows;
    NonEmptyOk(t);
    if t != [] {
      TreesFront(td, tpos, t, cs);
      PickedOk(td, tpos, t[..|t| - 1], cs[..|t| - 1]);
    }
  }

  /** Empty buckets have nothing in their trees, so compaction does not change which hint entry is last. */
  lemma {:induction false} PickedLive(td: nat, tpos: int, t: Table, cs: seq<Index>, k: Key)
    requires td <= 8 && TableOk(t) && TreesOk(td, tpos, t, cs) && Accepts(td, tpos, k)
    ensures LiveIn(Picked(t, cs), k) <==> LiveIn(cs, k)
    decreases |t|
  {
    hide AllSound, Knows, Accepts;
    if t != [] {
      var n := |t| - 1;
      TreesFront(td, tpos, t, cs);
      PickedLive(td, tpos, t[..n], cs[..n], k);
      if t[n] == [] {
        assert NoKey(t[n], k);
        NoEntry(td, tpos, t[n], cs[n], k);
      } else {
        var r := Picked(t, cs);
        assert r[..|r| - 1] == Picked(t[..n], cs[..n]) && r[|r| - 1] == cs[n];
      }
    }
  }

  ghost predicate SmallFiles(t: Table)
    requires TableOk(t)
  {
    forall b :: 0 <= b < |t| ==> |FileBytes(t[b])| <= MAX_DATA
  }

  lemma FilePresent(dir: Files, t: Table, i: nat)
    requires TableOk(t) && Stores(dir, t) && i <= |t| && forall b :: 0 <= b < |t| ==> t[b] != []
    ensures i < MAX_BUCKET_COUNT ==> (i in dir <==> i < |t|)
    ensures i < |t| ==> AllSound(t[i]) && dir[i] == FileBytes(t[i])
  {
    hide FileBytes;
    if i < |t| { SomethingBuffered(t[i]); }
  }

  /** What is scanned: the tree behind a hint, or the latest entries of the data. */
  ghost function Scanned(hints: Files, t: Table, cs: seq<Index>): (r: seq<Index>)
    requires TableOk(t) && |cs| == |t|
    ensures |r| == |t|
  {
    seq(|t|, b requires 0 <= b < |t| => if b in hints then cs[b] else Latest(t[b], b))
  }

  lemma ScanStep(td: nat, tpos: int, cs: seq<Index>, i: nat)
    requires td <= 8 && i < |cs| <= MAX_BUCKET_COUNT
    ensures ScanTrees(td, tpos, cs[..i + 1])
      == Overlay(td, tpos, ScanTrees(td, tpos, cs[..i]), NumberedAll(cs[i], i))
  {
    hide Overlay, NumberedAll;
    assert cs[..i + 1][..i] == cs[..i];
  }

  lemma NoTrees(td: nat, tpos: int)
    requires td <= 8
    ensures ScanTrees(td, tpos, []) == map[]
  {
  }

  /** The scan of bc_scan without a snapshot: each file through its hint if there is one. */
  method Scan(td: nat, tpos: int, dir: Files, hints: Files, beyond: seq<byte>, ghost t: Table, ghost cs: seq<Index>)
    returns (tree: HTree, ghost m: map<Key, Entry>)
    requires td < HTreePool.MAX_DEPTH && 9 <= |beyond| && TableOk(t) && Stores(dir, t)
    requires |cs| == |t| && (forall b :: 0 <= b < |t| ==> t[b] != []) && SmallFiles(t)
    requires forall b: nat :: b < |t| && b in hints ==> TreeHint(hints[b], cs[b])
    ensures fresh(tree) && fresh(tree.dc) && tree.depth == td && TreeIs(tree, m)
    ensures |t| <= MAX_BUCKET_COUNT && m == ScanTrees(td, tpos, Scanned(hints, t, cs))
  {
    hide TreeIs, ScanTrees, ReplayFile, FileBytes, TreeHint, AllSound, Stores, Overlay, NumberedAll, Latest;
    tree := NewTree(td, false);
    m := map[];
    ghost var seen := Scanned(hints, t, cs);
    var i := 0;
    assert seen[..0] == [];
    NoTrees(td, tpos);
    FilePresent(dir, t, 0);
    while i < MAX_BUCKET_COUNT && i in dir
      invariant 0 <= i <= |t| <= MAX_BUCKET_COUNT && (i < MAX_BUCKET_COUNT ==> (i in dir <==> i < |t|))
      invariant fresh(tree) && fresh(tree.dc) && tree.depth == td && TreeIs(tree, m)
      invariant m == ScanTrees(td, tpos, seen[..i])
    {
      FilePresent(dir, t, i);
      ScanStep(td, tpos, seen, i);
      if i in hints {
        m := ScanHintFile(tree, tpos, i, hints[i], cs[i], m);
      } else {
        ReplayLatest(td, tpos, m, t[i], i);
        LatestNumbered(t[i], i, i);
        var hint;
        hint, m := ScanDataFile(tree, tpos, i, dir[i], beyond, t[i], m);
      }
      i := i + 1;
      FilePresent(dir, t, i);
    }
    assert seen[..i] == seen;
  }

  /** Without hints the scan is the replay. */
  lemma {:induction false} ScanIsReplay(td: nat, tpos: int, t: Table, cs: seq<Index>)
    requires td <= 8 && TableOk(t) && |cs| == |t|
    ensures |t| <= MAX_BUCKET_COUNT && ScanTrees(td, tpos, Scanned(map[], t, cs)) == ReplayTable(td, tpos, t)
    decreases |t|
  {
    hide AllSound, ReplayFile, Overlay, NumberedAll, Latest;
    if t != [] {
      var n := |t| - 1;
      TableFront(t);
      ScanIsReplay(td, tpos, t[..n], cs[..n]);
      assert Scanned(map[], t, cs)[..n] == Scanned(map[], t[..n], cs[..n]);
      ReplayLatest(td, tpos, ReplayTable(td, tpos, t[..n]), t[n], n);
      LatestNumbered(t[n], n, n);
    }
  }

  // ---- Start-up through hints -------------------------------------------------------------------

  /** A key that both scans have is at the same place in both. */
  lemma PlacedAlike(td: nat, tpos: int, t: Table, cs: seq<Index>, k: Key)
    requires td <= 8 && TableOk(t) && TreesOk(td, tpos, t, cs) && |cs| <= MAX_BUCKET_COUNT
    requires k in ScanTrees(td, tpos, cs) && k in ReplayTable(td, tpos, t)
    ensures SameAt(ScanTrees(td, tpos, cs), ReplayTable(td, tpos, t), k) && ScanTrees(td, tpos, cs)[k].ver > 0
  {
    hide TableOk, TreesOk, CheckKey, InBucket, Sound, StartOf, Plain, GenHash, ScanTrees, ReplayTable, NoKeyFrom;
    var found, b, i := FindLast(t, k);
    if !found { ReplayNone(td, tpos, t, k); }
    if !CheckKey(k) || !InBucket(td, tpos, k) { ReplayOthers(td, tpos, t, k); }
    ReplayLast(td, tpos, t, k, b, i);
    ScanPlace(td, tpos, t, cs, k, b, i);
  }

  lemma KeysAlike(td: nat, tpos: int, t: Table, cs: seq<Index>)
    requires td <= 8 && TableOk(t) && TreesOk(td, tpos, t, cs) && |cs| <= MAX_BUCKET_COUNT
    ensures var x, y := ScanTrees(td, tpos, cs), ReplayTable(td, tpos, t);
      && (x.Keys == y.Keys <==> SameLive(x, y))
      && (x.Keys == y.Keys ==> forall k :: k in x ==> x[k].ver > 0)
  {
    hide TableOk, TreesOk, ScanTrees, ReplayTable;
    var x, y := ScanTrees(td, tpos, cs), ReplayTable(td, tpos, t);
    if x.Keys == y.Keys {
      forall k | k in x ensures SameAt(x, y, k) && x[k].ver > 0 {
        assert k in x.Keys;
        PlacedAlike(td, tpos, t, cs, k);
      }
    }
  }

  /** Compaction does not change which keys the hints give. */
  lemma PickedKeys(td: nat, tpos: int, t: Table, cs: seq<Index>)
    requires td <= 8 && TableOk(t) && TreesOk(td, tpos, t, cs) && |cs| <= MAX_BUCKET_COUNT
    ensures |Picked(t, cs)| <= MAX_BUCKET_COUNT
    ensures ScanTrees(td, tpos, Picked(t, cs)).Keys == ScanTrees(td, tpos, cs).Keys
  {
    hide TableOk, TreesOk, CheckKey, InBucket, ScanTrees, LiveIn;
    TreesSize(td, tpos, t, cs);
    PickedOk(td, tpos, t, cs);
    TreesSize(td, tpos, NonEmpty(t), Picked(t, cs));
    forall k ensures k in ScanTrees(td, tpos, Picked(t, cs)) <==> k in ScanTrees(td, tpos, cs) {
      if !InBucket(td, tpos, k) {
        ScanForeign(td, tpos, cs, k);
        ScanForeign(td, tpos, Picked(t, cs), k);
      } else {
        ScanHas(td, tpos, cs, k);
        ScanHas(td, tpos, Picked(t, cs), k);
        if CheckKey(k) {
          PickedLive(td, tpos, t, cs, k);
        } else {
          LiveInChecked(td, tpos, t, cs, k);
          LiveInChecked(td, tpos, NonEmpty(t), Picked(t, cs), k);
        }
      }
    }
  }

  lemma SurvivesAlike(kv: map<Key, Cell>, t: Table, m: map<Key, Entry>, m': map<Key, Entry>)
    requires Survives(kv, t, m) && SameLive(m', m)
    ensures Survives(kv, t, m')
  {
    hide IsAt, Sound, Plain;
    forall k | k in m' ensures PointsTo(t, k, m'[k], kv[k]) {
      assert k in m.Keys && PointsTo(t, k, m[k], kv[k]);
      var s :| At(t, m[k], s) && Sound(s) && s.key == k && Plain(s).flag == kv[k].flag && Plain(s).value == kv[k].value;
      assert At(t, m'[k], s);
    }
  }

  /** Start-up through the hints has exactly the live cells, if and only if no key whose tombstone
      is missing from its hint has an older live hint entry. */
  lemma ReopenExactly(td: nat, tpos: int, t: Table, index: map<Key, Entry>, kv: map<Key, Cell>, cs: seq<Index>)
    requires td <= 8 && TableOk(t) && CellsOk(td, tpos, t, index, kv) && Mirrors(index, ReplayTable(td, tpos, t))
    requires TreesOk(td, tpos, t, cs)
    ensures |cs| == |t| && |Picked(t, cs)| <= MAX_BUCKET_COUNT
    ensures var m := ScanTrees(td, tpos, Picked(t, cs));
      && (Faithful(td, tpos, t, cs) ==> Survives(kv, NonEmpty(t), m) && forall k :: k in m ==> m[k].ver > 0)
      && ((forall k :: k in m <==> k in kv && kv[k].ver > 0) ==> Faithful(td, tpos, t, cs))
  {
    hide TableOk, TreesOk, CellsOk, Mirrors, ScanTrees, ReplayTable, Faithful, PointsTo;
    TreesSize(td, tpos, t, cs);
    IndexSurvives(td, tpos, t, index, kv);
    LiveReplayed(td, tpos, t, index, kv);
    HintRestartExactly(td, tpos, t, cs);
    KeysAlike(td, tpos, t, cs);
    PickedKeys(td, tpos, t, cs);
    PickedOk(td, tpos, t, cs);
    KeysAlike(td, tpos, NonEmpty(t), Picked(t, cs));
    var m, r, r' := ScanTrees(td, tpos, Picked(t, cs)), ReplayTable(td, tpos, t), ReplayTable(td, tpos, NonEmpty(t));
    assert r'.Keys == r.Keys;
    if m.Keys == r'.Keys { SurvivesAlike(kv, NonEmpty(t), r', m); }
    if forall k :: k in m <==> k in kv && kv[k].ver > 0 { assert m.Keys == r.Keys; }
  }

  lemma LiveReplayed(td: nat, tpos: int, t: Table, index: map<Key, Entry>, kv: map<Key, Cell>)
    requires td <= 8 && TableOk(t) && CellsOk(td, tpos, t, index, kv) && Mirrors(index, ReplayTable(td, tpos, t))
    ensures forall k :: k in ReplayTable(td, tpos, t) <==> k in kv && kv[k].ver > 0
  {
    hide TableOk, ReplayTable, PointsTo, CheckKey, InBucket, HashFor;
    forall k ensures k in ReplayTable(td, tpos, t) <==> k in kv && kv[k].ver > 0 {
      if k in kv { assert k in index && CellOk(t, k, index[k], kv[k]); }
    }
  }

  // ---- Whole runs -------------------------------------------------------------------------------

  datatype Op =
    | SetOp(key: Key, w: Change, tstamp: int, memory: bool)
    | FlushOp(limit: nat, expired: bool)
    | PruneOp(key: Key)
    | CountOp

  function KvStep(td: nat, tpos: int, kv: map<Key, Cell>, op: Op): map<Key, Cell>
    requires td <= 8
  {
    match op
    case SetOp(key, w, _, _) => KvSet(td, tpos, kv, key, w)
    case FlushOp(_, _) => kv
    case PruneOp(key) => if key in kv && kv[key].ver <= 0 then kv - {key} else kv
    case CountOp => kv
  }

  /** What clients have been told after `ops`. */
  function KvRun(td: nat, tpos: int, ops: seq<Op>): map<Key, Cell>
    requires td <= 8
  {
    if ops == [] then map[] else KvStep(td, tpos, KvRun(td, tpos, ops[..|ops| - 1]), ops[|ops| - 1])
  }

  predicate OpOk(td: nat, tpos: int, top: nat, ops: seq<Op>, i: nat)
    requires td <= 8 && i < |ops|
  {
    ops[i].SetOp? ==>
      Acceptable(ops[i].key, ops[i].w, ops[i].tstamp, VersionOf(CellOf(KvRun(td, tpos, ops[..i]), ops[i].key)), top)
  }

  predicate RunOk(td: nat, tpos: int, top: nat, ops: seq<Op>)
    requires td <= 8
  {
    forall i :: 0 <= i < |ops| ==> OpOk(td, tpos, top, ops, i)
  }

  /** The bytes an operation may add to the log. */
  function OpSize(op: Op): nat {
    if op.SetOp? then WriteSize(op.key, op.w) else 0
  }

  method Step(store: Store, op: Op, beyond: seq<byte>) returns (full: bool)
    requires store.Valid() && 9 <= |beyond| && store.log.curr < MAX_BUCKET_COUNT
    requires op.SetOp? ==> Acceptable(op.key, op.w, op.tstamp, VersionOf(CellOf(store.kv, op.key)), store.log.top)
    modifies store, store.log, store.log.wbuf, store.bucketTree, store.bucketTree.dc
    ensures store.Valid() && (store.log.wbuf == old(store.log.wbuf) || fresh(store.log.wbuf))
    ensures store.bucketTree == old(store.bucketTree) || (fresh(store.bucketTree) && fresh(store.bucketTree.dc))
    ensures old(store.log.curr) <= store.log.curr <= old(store.log.curr) + 2
    ensures full <==> store.log.curr >= MAX_BUCKET_COUNT
    ensures store.kv == if full && op.SetOp? then old(store.kv) else KvStep(store.td, store.tpos, old(store.kv), op)
    ensures old(store.Agrees()) || store.log.curr != old(store.log.curr) ==> store.Agrees()
    ensures Spends(old(store.log.Now()), store.log.Now(), store.log.max, store.log.top, OpSize(op))
    ensures old(store.Counted()) && (op.CountOp? ==> old(store.Unsplit())) ==> store.Counted()
    ensures |store.currTree| <= |old(store.currTree)| + if op.SetOp? then 1 else 0
    ensures old(store.Unsplit()) && |store.currTree| <= HTreePool.SPLIT_LIMIT * 4 ==> store.Unsplit()
  {
    hide Inv, Bounded, InStep, TableOf, Acceptable, KvSet, AllComplete, CurrentKnown, TreeIs, Spends, TopOk, LivePart;
    hide SameBelow, WriteSize, InRoom;
    NothingSpent(store.log.Now(), store.log.max, store.log.top, 0);
    match op {
      case SetOp(key, w, tstamp, memory) =>
        var ok;
        ok, full := store.Set(key, w, tstamp, memory, beyond);
        LiveFew(store.currTree);
      case FlushOp(limit, expired) => store.Flush(limit, expired);
      case PruneOp(key) => store.Prune(key);
      case CountOp => var count := store.CountCurrent();
    }
    full := store.log.curr >= MAX_BUCKET_COUNT;
  }

  lemma LiveFew(m: Index)
    ensures |LivePart(m)| <= |m|
  {
    assert LivePart(m).Keys <= m.Keys;
    SubsetSize(LivePart(m).Keys, m.Keys);
  }

  /** A get on the recovered store: the index entry, then the file it names. */
  ghost predicate Answers(files: Files, m: map<Key, Entry>, k: Key, c: Cell) {
    && k in m && Bucket(m[k]) in files && 0 <= Position(m[k]) <= |files[Bucket(m[k])]|
    && exists r :: Protocol.Fetch(files[Bucket(m[k])][Position(m[k])..], k, m[k]) == Some(r)
         && r.flag == c.flag && r.value == c.value && r.version > 0
  }

  ghost predicate Recovered(kv: map<Key, Cell>, files: Files, m: map<Key, Entry>) {
    && (forall k :: k in m <==> k in kv && kv[k].ver > 0)
    && (forall k :: k in m ==> Answers(files, m, k, kv[k]))
  }

  lemma AnswersKey(t: Table, files: Files, m: map<Key, Entry>, k: Key, c: Cell)
    requires TableOk(t) && Stores(files, t) && k in m && m[k].ver > 0 && PointsTo(t, k, m[k], c)
    ensures Answers(files, m, k, c)
  {
    hide Sound, Plain, FileBytes, DecodeBytes, StartOf;
    var e := m[k];
    var s :| At(t, e, s) && Sound(s) && s.key == k && Plain(s).flag == c.flag && Plain(s).value == c.value;
    var recs := t[Bucket(e)];
    var i :| 0 <= i < |recs| && recs[i] == s && StartOf(recs, i) == Position(e);
    DecodesIn(recs, i, []);
    assert FileBytes(recs) + [] == FileBytes(recs);
    FetchWanted(files[Bucket(e)][Position(e)..], k, e, s);
  }

  lemma SurvivesAnswers(kv: map<Key, Cell>, t: Table, files: Files, m: map<Key, Entry>)
    requires TableOk(t) && Stores(files, t) && Survives(kv, t, m) && forall k :: k in m ==> m[k].ver > 0
    ensures Recovered(kv, files, m)
  {
    hide TableOk, Stores, PointsTo, Answers;
    forall k | k in m ensures Answers(files, m, k, kv[k]) {
      AnswersKey(t, files, m, k, kv[k]);
    }
  }

  /** When the write buffer is empty the files hold everything. */
  lemma FilesHoldAll(v: View, max: nat)
    requires Inv(v, max) && v.flushing == -1 && v.wbuf == [] && Bounded(v, max, MAX_BUFFER) && max <= MAX_DATA
    requires v.curr <= MAX_BUCKET_COUNT
    ensures TableOk(TableOf(v)) && Stores(v.files, TableOf(v)) && SmallFiles(TableOf(v))
  {
    hide SizesOk, AllSound, FileBytes;
    TableOfOk(v, max);
    if v.inBuf != [] { SomethingBuffered(v.inBuf); }
    forall b: nat | b < MAX_BUCKET_COUNT
      ensures FileBytes(TableOf(v)[b]) == (if b in v.files then v.files[b] else [])
      ensures |FileBytes(TableOf(v)[b])| <= MAX_DATA
    {
      assert FileOk(v, b);
      assert Recs(v, b) == Done(v, b);
      assert SizeOf(v, b, max) <= Limit(max, MAX_BUFFER);
    }
  }

  lemma KvRunStep(td: nat, tpos: int, ops: seq<Op>, i: nat)
    requires td <= 8 && i < |ops|
    ensures KvRun(td, tpos, ops[..i + 1]) == KvStep(td, tpos, KvRun(td, tpos, ops[..i]), ops[i])
  {
    hide KvStep;
    assert ops[..i + 1][..i] == ops[..i];
  }

  predicate NoCount(ops: seq<Op>) {
    forall i :: 0 <= i < |ops| ==> !ops[i].CountOp?
  }

  /** The bytes that the first `n` operations may add to the log, and the writes among them. */
  function Volume(ops: seq<Op>, n: nat): nat
    requires n <= |ops|
  {
    if n == 0 then 0 else Volume(ops, n - 1) + OpSize(ops[n - 1])
  }

  function Sets(ops: seq<Op>, n: nat): (r: nat)
    requires n <= |ops|
    ensures r <= n
  {
    if n == 0 then 0 else Sets(ops, n - 1) + if ops[n - 1].SetOp? then 1 else 0
  }

  lemma {:induction false} SetsMono(ops: seq<Op>, n: nat, m: nat)
    requires n <= m <= |ops|
    ensures Sets(ops, n) <= Sets(ops, m)
    decreases m
  {
    if n < m { SetsMono(ops, n, m - 1); }
  }

  /** A shutdown and a start. */
  method Reopen(store: Store, useHints: bool, beyond: seq<byte>) returns (files: Files, index: map<Key, Entry>)
    requires store.Valid() && 9 <= |beyond| && store.log.curr < MAX_BUCKET_COUNT
    modifies store, store.log
    ensures !useHints || old(store.Counted()) ==> Recovered(old(store.kv), files, index)
  {
    hide TreeIs, Recovered, Inv, Bounded, InStep, TableOf, TopOk, AllComplete, CurrentKnown, LatestLive, Faithful;
    hide TreeList;
    var tree;
    ghost var m;
    tree, files, m := Restart(store, useHints, beyond);
    index := Entries(tree, m);
  }

  /** Any run of sets, deletes, flushes, dropped tombstones and counts, through every rotation,
      followed by a flush and a restart: exactly the live keys come back, each with its flag and
      value, from the data files always, and through the hints if nothing was counted or there were
      at most 256 writes. `full` says that the run used up the bucket numbers: an operation takes at
      most two, and a number is not given up before its bucket has less than `top` bytes left. */
  method RunAndRecover(td: nat, tpos: int, max: nat, top: nat, ops: seq<Op>, useHints: bool, beyond: seq<byte>)
    returns (full: bool, files: Files, index: map<Key, Entry>)
    requires td < HTreePool.MAX_DEPTH && TopOk(top) && max + top < TWO_32 && 9 <= |beyond| && RunOk(td, tpos, top, ops)
    ensures 2 * |ops| < MAX_BUCKET_COUNT ==> !full
    ensures top <= max && Volume(ops, |ops|) < MAX_BUCKET_COUNT * (max - top) ==> !full
    ensures !full && (useHints ==> NoCount(ops) || Sets(ops, |ops|) <= HTreePool.SPLIT_LIMIT * 4) ==>
      Recovered(KvRun(td, tpos, ops), files, index)
  {
    hide TreeIs, Recovered, OpOk, KvStep, Inv, Bounded, InStep, Acceptable, TableOf, TopOk, Spends, Spent;
    hide Stores, KvRun, AllComplete, CurrentKnown, Faithful, TreeList;
    var store := new Store(td, tpos, max, top);
    var i := 0;
    assert ops[..0] == [];
    NoOps(td, tpos);
    full, files, index := false, map[], map[];
    NothingYet(max, top);
    while i < |ops|
      invariant 0 <= i <= |ops| && store.Valid() && fresh(store) && fresh(store.log) && fresh(store.log.wbuf)
      invariant fresh(store.bucketTree) && fresh(store.bucketTree.dc)
      invariant store.td == td && store.tpos == tpos && store.log.max == max && store.log.top == top
      invariant store.log.curr < MAX_BUCKET_COUNT && store.kv == KvRun(td, tpos, ops[..i]) && store.log.curr <= 2 * i
      invariant top <= max ==> Spent(store.log.Now(), max, top) <= Volume(ops, i)
      invariant |store.currTree| <= Sets(ops, i)
      invariant Sets(ops, |ops|) <= HTreePool.SPLIT_LIMIT * 4 ==> store.Unsplit()
      invariant NoCount(ops) || Sets(ops, |ops|) <= HTreePool.SPLIT_LIMIT * 4 ==> store.Counted()
    {
      OpAcceptable(td, tpos, top, ops, i);
      SetsMono(ops, i + 1, |ops|);
      ghost var v := store.log.Now();
      full := Step(store, ops[i], beyond);
      StepSpends(v, store.log.Now(), max, top, OpSize(ops[i]));
      if full {
        VolumeMono(ops, i + 1, |ops|);
        NumbersGone(store.log.Now(), max, top);
        return;
      }
      KvRunStep(td, tpos, ops, i);
      i := i + 1;
    }
    assert ops[..i] == ops;
    full := false;
    files, index := Reopen(store, useHints, beyond);
  }

  lemma NothingYet(max: nat, top: nat)
    ensures Spent(Initial().v, max, top) == 0
  {
  }

  lemma StepSpends(v: View, w: View, max: nat, top: nat, n: nat)
    requires Spends(v, w, max, top, n)
    ensures top <= max ==> Spent(w, max, top) <= Spent(v, max, top) + n
  {
    hide Spent;
  }

  lemma {:induction false} VolumeMono(ops: seq<Op>, n: nat, m: nat)
    requires n <= m <= |ops|
    ensures Volume(ops, n) <= Volume(ops, m)
    decreases m
  {
    if n < m { VolumeMono(ops, n, m - 1); }
  }

  lemma NumbersGone(v: View, max: nat, top: nat)
    requires v.curr >= MAX_BUCKET_COUNT
    ensures top <= max ==> Spent(v, max, top) >= MAX_BUCKET_COUNT * (max - top)
  {
    if top <= max { assert v.curr * (max - top) >= MAX_BUCKET_COUNT * (max - top); }
  }

  function Collected(out: seq<Visited>, n: nat): map<Key, Entry>
    requires n <= |out|
  {
    if n == 0 then map[] else Collected(out, n - 1)[out[n - 1].key := out[n - 1].e]
  }

  lemma {:induction false} CollectedPart(out: seq<Visited>, m: map<Key, Entry>, n: nat)
    requires Enumerates(out, m) && n <= |out|
    ensures forall k :: k in Collected(out, n) ==> k in m && Collected(out, n)[k] == m[k]
    ensures forall i :: 0 <= i < n ==> out[i].key in Collected(out, n)
  {
    if n > 0 { CollectedPart(out, m, n - 1); }
  }

  lemma CollectedAll(out: seq<Visited>, m: map<Key, Entry>)
    requires Enumerates(out, m)
    ensures Collected(out, |out|) == m
  {
    CollectedPart(out, m, |out|);
    forall k | k in m ensures k in Collected(out, |out|) {
      var j :| 0 <= j < |out| && out[j].key == k;
    }
  }

  /** The entries of a tree, as a visit shows them. */
  method Entries(tree: HTree, ghost m: map<Key, Entry>) returns (r: map<Key, Entry>)
    requires TreeIs(tree, m)
    ensures r == m
  {
    hide Enumerates, TreeIs;
    var out := VisitTree(tree, m);
    CollectedAll(out, m);
    r := map[];
    var j := 0;
    while j < |out|
      invariant 0 <= j <= |out| && r == Collected(out, j)
    {
      r := r[out[j].key := out[j].e];
      j := j + 1;
    }
  }

  lemma NoOps(td: nat, tpos: int)
    requires td <= 8
    ensures KvRun(td, tpos, []) == map[]
  {
  }

  lemma OpAcceptable(td: nat, tpos: int, top: nat, ops: seq<Op>, i: nat)
    requires td <= 8 && RunOk(td, tpos, top, ops) && i < |ops|
    ensures ops[i].SetOp? ==>
      Acceptable(ops[i].key, ops[i].w, ops[i].tstamp, VersionOf(CellOf(KvRun(td, tpos, ops[..i]), ops[i].key)), top)
  {
    hide Acceptable;
    assert OpOk(td, tpos, top, ops, i);
  }

  /** The trees behind the hints that a store has when it is closed. */
  ghost function HintTreesOf(store: Store): (cs: seq<Index>)
    reads store, store.log
    ensures |cs| == MAX_BUCKET_COUNT
  {
    TreeList(store.trees, store.currTree, store.log.curr)
  }

  /** No tombstone that is missing from its hint hides an older live hint entry. */
  ghost predicate HintsFaithful(store: Store)
    reads store, store.log, store.log.wbuf, store.bucketTree, store.bucketTree.dc
    requires store.Valid()
  {
    Faithful(store.td, store.tpos, TableOf(store.log.Now()), HintTreesOf(store))
  }

  /** The index has exactly the keys of this store whose latest hint entry is live. */
  ghost predicate LatestLive(td: nat, tpos: int, cs: seq<Index>, m: map<Key, Entry>) {
    td <= 8 && forall k :: InBucket(td, tpos, k) ==> (k in m <==> LiveIn(cs, k))
  }

  /** bc_close: a flush of everything, then the hint of the bucket being written. */
  method Close(store: Store) returns (hints: Files)
    requires store.Valid() && store.log.curr < MAX_BUCKET_COUNT
    modifies store, store.log
    ensures store.Valid() && store.kv == old(store.kv) && store.log.wbufCurr == 0
    ensures store.log.curr <= old(store.log.curr) + 1
    ensures Covered(hints, TableOf(store.log.Now()), HintTreesOf(store))
    ensures TableOf(store.log.Now()) == old(TableOf(store.log.Now())) && HintTreesOf(store) == old(HintTreesOf(store))
    ensures old(store.Counted()) ==> store.Counted()
  {
    hide TreeIs, TopOk, Spends, LivePart;
    hide Inv, Bounded, Mirrors, CellsOk, ReplayTable, TableOk, TableOf, HintsOk, AllComplete, CurrentKnown, Covered;
    hide TreeHint, FileBytes, AllSound, HintReady, Recs, TreeList;
    store.Flush(0, true);
    SizesFit(store.log.Now(), store.log.max, store.log.top);
    hints := store.hints;
    var curr := store.log.curr;
    ghost var v := store.log.Now();
    if curr < MAX_BUCKET_COUNT && curr in store.log.files && |store.log.files[curr]| > 0 {
      CloseReady(store.td, store.tpos, v, store.log.max, hints, store.trees, store.currTree);
      var hint := BuildHint(store.bucketTree, store.currTree, TableOf(v)[curr]);
      hints := hints[curr := hint];
    }
    assert store.log.wbuf[..0] == [];
    NothingAfter(v, store.log.max);
    ClosedCovers(store.td, store.tpos, TableOf(v), curr, store.hints, store.trees, store.currTree, hints);
  }

  /** The bucket being written holds records only if its file does; later ones hold none. */
  lemma NothingAfter(v: View, max: nat)
    requires Inv(v, max) && v.flushing == -1 && v.wbuf == []
    ensures forall b :: v.curr < b < MAX_BUCKET_COUNT ==> TableOf(v)[b] == []
    ensures v.curr < MAX_BUCKET_COUNT && TableOf(v)[v.curr] != [] ==> v.curr in v.files && |v.files[v.curr]| > 0
  {
    hide SizesOk, AllSound, FileBytes;
    TableOfOk(v, max);
    if v.inBuf != [] { SomethingBuffered(v.inBuf); }
    assert FileOk(v, v.curr) && Recs(v, v.curr) == Done(v, v.curr);
    if v.curr < MAX_BUCKET_COUNT && TableOf(v)[v.curr] != [] { SomethingBuffered(TableOf(v)[v.curr]); }
  }

  lemma ClosedCovers(td: nat, tpos: int, t: Table, curr: nat, hints: Files, trees: Trees, currTree: Index, all: Files)
    requires td <= 8 && HintsOk(td, tpos, t, curr, hints, trees, currTree)
    requires forall b :: curr < b < |t| ==> t[b] == []
    requires all == hints || (curr in all && TreeHint(all[curr], currTree) && all == hints[curr := all[curr]])
    requires curr < |t| && t[curr] != [] ==> curr in all && TreeHint(all[curr], currTree)
    ensures |t| == MAX_BUCKET_COUNT && Covered(all, t, TreeList(trees, currTree, curr))
  {
    hide TableOk, TreesOk, TreeHint, Ready;
    var cs := TreeList(trees, currTree, curr);
    forall b: nat | b < |t| && t[b] != [] ensures b in all && TreeHint(all[b], cs[b]) {
      assert b <= curr && cs[b] == TreeAt(trees, currTree, curr, b);
      assert b < curr ==> b in hints && b in trees && TreeHint(hints[b], trees[b]);
    }
  }

  /** A shutdown, then start-up on the files: from the data, exactly the live keys come back; through
      the hints they do, if and only if no tombstone that is missing from its hint hides an older
      live hint entry. */
  method Restart(store: Store, useHints: bool, beyond: seq<byte>)
    returns (tree: HTree, files: Files, ghost m: map<Key, Entry>)
    requires store.Valid() && store.td < HTreePool.MAX_DEPTH && 9 <= |beyond| && store.log.curr < MAX_BUCKET_COUNT
    modifies store, store.log
    ensures store.Valid() && store.kv == old(store.kv)
    ensures fresh(tree) && fresh(tree.dc) && TreeIs(tree, m)
    ensures !useHints ==> Recovered(store.kv, files, m)
    ensures useHints ==> (Recovered(store.kv, files, m) <==> old(HintsFaithful(store)))
    ensures useHints ==> LatestLive(store.td, store.tpos, old(HintTreesOf(store)), m)
    ensures old(store.Counted()) ==> Recovered(store.kv, files, m)
  {
    hide TopOk, Spends;
    hide TreeIs, Recovered, Inv, Bounded, Mirrors, CellsOk, ReplayTable, TableOk, TableOf, Stores, SmallFiles;
    hide LatestLive, Survives, HintsOk, AllComplete, CurrentKnown, Faithful, TreeList, TreesOk, Covered, ScanTrees;
    hide Picked, NonEmpty;
    var hints := Close(store);
    ghost var v := store.log.Now();
    ghost var t, cs := TableOf(v), HintTreesOf(store);
    assert store.log.wbuf[..0] == [];
    SizesFit(store.log.Now(), store.log.max, store.log.top);
    FilesHoldAll(v, store.log.max);
    var hdir, last;
    files, hdir, last := SkipEmptyFiles(store.log.files, hints, t, cs);
    NonEmptySmall(t);
    NonEmptyFull(t);
    if !useHints {
      hdir := map[];
    } else {
      CoveredAll(hdir, NonEmpty(t), Picked(t, cs));
    }
    tree, m := Scan(store.td, store.tpos, files, hdir, beyond, NonEmpty(t), Picked(t, cs));
    TreesBehind(store.td, store.tpos, t, store.log.curr, store.hints, store.trees, store.currTree);
    RestartIndex(store.td, store.tpos, t, store.index, store.kv, cs, files, hdir, m);
    if old(store.Counted()) { CountedFaithful(store.td, store.tpos, t, store.log.curr, store.trees, store.currTree); }
  }

  lemma {:induction false} NonEmptyFull(t: Table)
    ensures forall b :: 0 <= b < |NonEmpty(t)| ==> NonEmpty(t)[b] != []
    decreases |t|
  {
    if t != [] { NonEmptyFull(t[..|t| - 1]); }
  }

  /** With a hint for every file only hints are scanned. */
  lemma CoveredAll(hints: Files, t: Table, cs: seq<Index>)
    requires TableOk(t) && |cs| == |t| && Covered(hints, t, cs) && forall b :: 0 <= b < |t| ==> t[b] != []
    ensures Scanned(hints, t, cs) == cs
    ensures forall b: nat :: b < |t| && b in hints ==> TreeHint(hints[b], cs[b])
  {
    hide TableOk, TreeHint, Latest;
  }

  lemma CountedFaithful(td: nat, tpos: int, t: Table, curr: nat, trees: Trees, currTree: Index)
    requires td <= 8 && |t| == MAX_BUCKET_COUNT && AllComplete(td, tpos, t, curr, trees, currTree)
    ensures Faithful(td, tpos, t, TreeList(trees, currTree, curr))
  {
    hide Faithful, Complete;
    CompleteIsFaithful(td, tpos, t, TreeList(trees, currTree, curr));
  }

  lemma RestartIndex(td: nat, tpos: int, t: Table, index: map<Key, Entry>, kv: map<Key, Cell>, cs: seq<Index>,
                     files: Files, hdir: Files, m: map<Key, Entry>)
    requires td <= 8 && TableOk(t) && CellsOk(td, tpos, t, index, kv) && Mirrors(index, ReplayTable(td, tpos, t))
    requires TreesOk(td, tpos, t, cs) && |cs| == |t|
    requires TableOk(NonEmpty(t)) && Stores(files, NonEmpty(t)) && |NonEmpty(t)| <= MAX_BUCKET_COUNT
    requires m == ScanTrees(td, tpos, Scanned(hdir, NonEmpty(t), Picked(t, cs)))
    ensures hdir == map[] ==> Recovered(kv, files, m)
    ensures Scanned(hdir, NonEmpty(t), Picked(t, cs)) == Picked(t, cs) ==>
      && (Recovered(kv, files, m) <==> Faithful(td, tpos, t, cs))
      && LatestLive(td, tpos, cs, m)
  {
    hide TableOk, TreesOk, CellsOk, Mirrors, ScanTrees, ReplayTable, Faithful, Answers, Stores, PointsTo, Picked;
    hide NonEmpty, LiveIn, InBucket;
    if hdir == map[] {
      ScanIsReplay(td, tpos, NonEmpty(t), Picked(t, cs));
      IndexSurvives(td, tpos, t, index, kv);
      ReplayBacked(td, tpos, NonEmpty(t));
      SurvivesAnswers(kv, NonEmpty(t), files, m);
    }
    if Scanned(hdir, NonEmpty(t), Picked(t, cs)) == Picked(t, cs) {
      ReopenExactly(td, tpos, t, index, kv, cs);
      if Faithful(td, tpos, t, cs) { SurvivesAnswers(kv, NonEmpty(t), files, m); }
      TreesSize(td, tpos, t, cs);
      PickedKeys(td, tpos, t, cs);
      forall k | InBucket(td, tpos, k) ensures k in m <==> LiveIn(cs, k) {
        ScanHas(td, tpos, cs, k);
        assert k in m.Keys <==> k in ScanTrees(td, tpos, cs).Keys;
      }
    }
  }

  lemma {:induction false} NonEmptySmall(t: Table)
    requires TableOk(t) && SmallFiles(t)
    ensures TableOk(NonEmpty(t)) && SmallFiles(NonEmpty(t))
    decreases |t|
  {
    hide AllSound, FileBytes;
    NonEmptyOk(t);
    if t != [] {
      TableFront(t);
      NonEmptySmall(t[..|t| - 1]);
    }
  }
}
