/** Restarting through hints. The hint of a bucket is made of the tree that was kept while the bucket
    was current; that tree knows the live entries of the bucket and normally its tombstones, but a
    count of it may have dropped some of those. */
module HintTrees {
  import opened Bytes
  import opened HTreeLeaf
  import opened HTreePool
  import opened HashTree
  import opened HTreeApi
  import opened Record
  import opened DataFile
  import opened Hint
  import opened Buffers
  import opened Protocol
  import opened Replay
  import opened Lasts
  import Fnv1a

  /** Keys that a tree accepts. */
  predicate Accepts(td: nat, tpos: int, k: Key)
    requires td <= 8
  {
    CheckKey(k) && InBucket(td, tpos, k)
  }

  /** Entry `e` is for record `i`, whatever number and version it carries. */
  ghost predicate EntryFor(recs: seq<Rec>, i: nat, e: Entry)
    requires AllSound(recs) && i < |recs|
  {
    && Position(e) == StartOf(recs, i) && (e.ver > 0 <==> recs[i].version > 0)
    && (e.ver > 0 ==> e.hash == GenHash(Plain(recs[i]).value))
  }

  ghost predicate KnownLast(recs: seq<Rec>, k: Key, e: Entry)
    requires AllSound(recs)
  {
    exists i: nat :: LastIn(recs, k, i) && EntryFor(recs, i, e)
  }

  /** The tree has the last record of every live key of the bucket, and nothing that is not a last record. */
  ghost predicate Knows(td: nat, tpos: int, recs: seq<Rec>, c: Index)
    requires td <= 8 && AllSound(recs)
  {
    && (forall k :: k in c ==> CheckKey(k) && (InBucket(td, tpos, k) ==> KnownLast(recs, k, c[k])))
    && (forall k, i: nat :: LastIn(recs, k, i) && Accepts(td, tpos, k) && recs[i].version > 0 ==> k in c)
  }

  /** It has its tombstones too. */
  ghost predicate Complete(td: nat, tpos: int, recs: seq<Rec>, c: Index)
    requires td <= 8
  {
    forall k, i: nat :: LastIn(recs, k, i) && Accepts(td, tpos, k) ==> k in c
  }

  lemma LastInOnce(recs: seq<Rec>, k: Key, i: nat, j: nat)
    requires LastIn(recs, k, i) && LastIn(recs, k, j)
    ensures i == j
  {
  }

  lemma KnownIs(recs: seq<Rec>, k: Key, e: Entry, i: nat)
    requires AllSound(recs) && KnownLast(recs, k, e) && LastIn(recs, k, i)
    ensures EntryFor(recs, i, e)
  {
    hide AllSound, EntryFor;
    var j: nat :| LastIn(recs, k, j) && EntryFor(recs, j, e);
    LastInOnce(recs, k, i, j);
  }

  /** The tree a scan of the data would make knows everything. */
  lemma LatestKnows(td: nat, tpos: int, recs: seq<Rec>, b: byte)
    requires td <= 8 && AllSound(recs)
    ensures Knows(td, tpos, recs, Latest(recs, b)) && Complete(td, tpos, recs, Latest(recs, b))
  {
    hide HasPlain, RecOk, EmptyTrap, CheckKey, InBucket, Latest, GenHash, Plain, FileBytes;
    var c := Latest(recs, b);
    forall k, i: nat | LastIn(recs, k, i) && Accepts(td, tpos, k) ensures k in c { LatestLast(recs, b, k, i); }
    forall k | k in c && Accepts(td, tpos, k) ensures KnownLast(recs, k, c[k]) {
      var found, i := FindIn(recs, k);
      if !found { LatestNone(recs, b, k); }
      LatestLast(recs, b, k, i);
      EntryOfFor(recs, i, b);
    }
  }

  lemma EntryOfFor(recs: seq<Rec>, i: nat, b: byte)
    requires AllSound(recs) && i < |recs|
    ensures EntryFor(recs, i, EntryOf(recs[i], StartOf(recs, i), b))
  {
    hide HasPlain, RecOk, EmptyTrap, GenHash, Plain, FileBytes;
    Aligned(recs[..i]);
    DivMod(StartOf(recs, i) + b as int, 256, StartOf(recs, i) / 256, b as int);
  }

  // ---- One file ---------------------------------------------------------------------------------

  /** The same live keys at the same positions with the same hashes; versions may have been raised. */
  predicate SameLive(a: Index, b: Index) {
    a.Keys == b.Keys && forall k :: k in a ==> a[k].pos == b[k].pos && a[k].hash == b[k].hash
  }

  predicate SameAt(a: Index, b: Index, k: Key) {
    (k in a <==> k in b) && (k in a ==> a[k].pos == b[k].pos && a[k].hash == b[k].hash)
  }

  lemma SamePointwise(a: Index, b: Index)
    ensures SameLive(a, b) <==> forall k :: SameAt(a, b, k)
  {
    if forall k :: SameAt(a, b, k) {
      forall k ensures k in a <==> k in b { assert SameAt(a, b, k); }
      forall k | k in a ensures a[k].pos == b[k].pos && a[k].hash == b[k].hash { assert SameAt(a, b, k); }
    }
  }

  lemma NumberedPosition(e: Entry, at: nat, b: byte)
    requires Position(e) == at
    ensures Numbered(e, b).pos == at + b as int
  {
  }

  /** What laying `c` over `m` does to one key. */
  lemma OverlayKey(td: nat, tpos: int, m: Index, c: Index, k: Key)
    requires td <= 8
    ensures var x := Overlay(td, tpos, m, c);
      if k in c && InBucket(td, tpos, k) then (k in x <==> c[k].ver > 0) && (k in x ==> x[k] == c[k])
      else (k in x <==> k in m) && (k in x ==> x[k] == m[k])
  {
    hide InBucket;
  }

  /** What either scan of a file does to one key. */
  lemma FileKey(td: nat, tpos: int, m: Index, recs: seq<Rec>, c: Index, b: byte, k: Key)
    requires td <= 8 && AllSound(recs) && Knows(td, tpos, recs, c)
    ensures var x, y := Overlay(td, tpos, m, NumberedAll(c, b)), ReplayFile(td, tpos, m, recs, b);
      SameAt(x, y, k) <==> !(exists i: nat :: LastIn(recs, k, i) && Accepts(td, tpos, k) && k !in c && k in m)
  {
    hide HasPlain, RecOk, EmptyTrap, CheckKey, InBucket, Latest, GenHash, Plain, StartOf, Knows, ReplayFile, Overlay;
    ReplayLatest(td, tpos, m, recs, b);
    OverlayKey(td, tpos, m, NumberedAll(c, b), k);
    OverlayKey(td, tpos, m, Latest(recs, b), k);
    KnowsLive(td, tpos, recs, c, k);
    var found, i := FindIn(recs, k);
    if found {
      LatestLast(recs, b, k, i);
      if k in c && Accepts(td, tpos, k) {
        KnownIs(recs, k, c[k], i);
        NumberedPosition(c[k], StartOf(recs, i), b);
      }
    } else {
      LatestNone(recs, b, k);
    }
  }

  lemma KnowsLive(td: nat, tpos: int, recs: seq<Rec>, c: Index, k: Key)
    requires td <= 8 && AllSound(recs) && Knows(td, tpos, recs, c)
    ensures k in c ==> CheckKey(k)
    ensures k in c && InBucket(td, tpos, k) ==> KnownLast(recs, k, c[k]) && !NoKey(recs, k)
    ensures forall i: nat :: LastIn(recs, k, i) && Accepts(td, tpos, k) && recs[i].version > 0 ==> k in c
  {
    hide Sound, EntryFor, InBucket, CheckKey;
    if k in c && InBucket(td, tpos, k) {
      var i: nat :| LastIn(recs, k, i) && EntryFor(recs, i, c[k]);
    }
  }

  /** From every starting index the hint does what the data file does, if and only if no tombstone of
      the file is missing from it. */
  lemma HintExactly(td: nat, tpos: int, recs: seq<Rec>, c: Index, b: byte)
    requires td <= 8 && AllSound(recs) && Knows(td, tpos, recs, c)
    ensures Complete(td, tpos, recs, c) <==>
      forall m :: SameLive(Overlay(td, tpos, m, NumberedAll(c, b)), ReplayFile(td, tpos, m, recs, b))
  {
    hide AllSound, Accepts, Knows, ReplayFile, Overlay, NumberedAll, SameLive, SameAt, LastIn;
    if Complete(td, tpos, recs, c) {
      forall m ensures SameLive(Overlay(td, tpos, m, NumberedAll(c, b)), ReplayFile(td, tpos, m, recs, b)) {
        var x, y := Overlay(td, tpos, m, NumberedAll(c, b)), ReplayFile(td, tpos, m, recs, b);
        forall k ensures SameAt(x, y, k) { FileKey(td, tpos, m, recs, c, b, k); }
        SamePointwise(x, y);
      }
    } else {
      var k, i: nat :| LastIn(recs, k, i) && Accepts(td, tpos, k) && k !in c;
      var m := map[k := Entry(0, 1, 0)];
      var x, y := Overlay(td, tpos, m, NumberedAll(c, b)), ReplayFile(td, tpos, m, recs, b);
      FileKey(td, tpos, m, recs, c, b, k);
      SamePointwise(x, y);
    }
  }

  // ---- All files --------------------------------------------------------------------------------

  ghost predicate TreesOk(td: nat, tpos: int, t: Table, cs: seq<Index>)
    requires td <= 8 && TableOk(t)
  {
    |cs| == |t| && forall b :: 0 <= b < |t| ==> Knows(td, tpos, t[b], cs[b])
  }

  /** Scanning the hints of all buckets in order. */
  ghost function ScanTrees(td: nat, tpos: int, cs: seq<Index>): Index
    requires td <= 8 && |cs| <= MAX_BUCKET_COUNT
  {
    if cs == [] then map[] else
    var n := |cs| - 1;
    Overlay(td, tpos, ScanTrees(td, tpos, cs[..n]), NumberedAll(cs[n], n))
  }

  /** The latest entry of a key among the hints, if there is one, is live. */
  predicate LiveIn(cs: seq<Index>, k: Key) {
    if cs == [] then false else
    var n := |cs| - 1;
    if k in cs[n] then cs[n][k].ver > 0 else LiveIn(cs[..n], k)
  }

  /** No key whose last record is a tombstone that is missing from its hint has an older live hint entry. */
  ghost predicate Faithful(td: nat, tpos: int, t: Table, cs: seq<Index>)
    requires td <= 8 && |cs| == |t|
  {
    forall k, b: nat, i: nat :: LastAt(t, k, b, i) && Accepts(td, tpos, k) && k !in cs[b] ==> !LiveIn(cs[..b], k)
  }

  lemma {:induction false} ScanHas(td: nat, tpos: int, cs: seq<Index>, k: Key)
    requires td <= 8 && |cs| <= MAX_BUCKET_COUNT && InBucket(td, tpos, k)
    ensures k in ScanTrees(td, tpos, cs) <==> LiveIn(cs, k)
    decreases |cs|
  {
    hide InBucket, Overlay;
    if cs != [] {
      var n := |cs| - 1;
      ScanHas(td, tpos, cs[..n], k);
      OverlayKey(td, tpos, ScanTrees(td, tpos, cs[..n]), NumberedAll(cs[n], n), k);
    }
  }

  lemma {:induction false} ScanForeign(td: nat, tpos: int, cs: seq<Index>, k: Key)
    requires td <= 8 && |cs| <= MAX_BUCKET_COUNT && !InBucket(td, tpos, k)
    ensures k !in ScanTrees(td, tpos, cs)
    decreases |cs|
  {
    hide InBucket, Overlay;
    if cs != [] {
      var n := |cs| - 1;
      ScanForeign(td, tpos, cs[..n], k);
      OverlayKey(td, tpos, ScanTrees(td, tpos, cs[..n]), NumberedAll(cs[n], n), k);
    }
  }

  lemma TreesFront(td: nat, tpos: int, t: Table, cs: seq<Index>)
    requires td <= 8 && TableOk(t) && TreesOk(td, tpos, t, cs) && t != []
    ensures var n := |t| - 1;
      TableOk(t[..n]) && TreesOk(td, tpos, t[..n], cs[..n]) && AllSound(t[n]) && Knows(td, tpos, t[n], cs[n])
  {
    hide AllSound, Knows;
  }

  lemma {:induction false} LiveInNone(td: nat, tpos: int, t: Table, cs: seq<Index>, k: Key)
    requires td <= 8 && TableOk(t) && TreesOk(td, tpos, t, cs) && NoKeyFrom(t, k, 0) && Accepts(td, tpos, k)
    ensures !LiveIn(cs, k)
    decreases |t|
  {
    hide AllSound, Knows, NoKey, Accepts;
    if t != [] {
      var n := |t| - 1;
      TreesFront(td, tpos, t, cs);
      NoFront(t, k, n);
      LiveInNone(td, tpos, t[..n], cs[..n], k);
      NoEntry(td, tpos, t[n], cs[n], k);
    }
  }

  lemma NoFront(t: Table, k: Key, n: nat)
    requires NoKeyFrom(t, k, 0) && n < |t|
    ensures NoKeyFrom(t[..n], k, 0) && NoKey(t[n], k)
  {
    hide NoKey;
  }

  lemma NoEntry(td: nat, tpos: int, recs: seq<Rec>, c: Index, k: Key)
    requires td <= 8 && AllSound(recs) && Knows(td, tpos, recs, c) && NoKey(recs, k) && Accepts(td, tpos, k)
    ensures k !in c
  {
    hide Knows, NoKey, AllSound, CheckKey, InBucket;
    KnowsLive(td, tpos, recs, c, k);
  }

  /** The last record of a key against its latest hint entry. */
  lemma {:induction false} LiveInLast(td: nat, tpos: int, t: Table, cs: seq<Index>, k: Key, b: nat, i: nat)
    requires td <= 8 && TableOk(t) && TreesOk(td, tpos, t, cs) && LastAt(t, k, b, i) && Accepts(td, tpos, k)
    ensures LiveIn(cs, k) <==> (if k in cs[b] then t[b][i].version > 0 else LiveIn(cs[..b], k))
    ensures t[b][i].version > 0 ==> k in cs[b]
    decreases |t|
  {
    hide AllSound, Knows, NoKey, Accepts, EntryFor;
    var n := |t| - 1;
    TreesFront(td, tpos, t, cs);
    if b == n {
      KnownAtLast(td, tpos, t[n], cs[n], k, i);
    } else {
      LastFront(t, k, b, i, n);
      LiveInLast(td, tpos, t[..n], cs[..n], k, b, i);
      NoEntry(td, tpos, t[n], cs[n], k);
      assert cs[..n][..b] == cs[..b];
    }
  }

  lemma LastFront(t: Table, k: Key, b: nat, i: nat, n: nat)
    requires LastAt(t, k, b, i) && n == |t| - 1 && b < n
    ensures LastAt(t[..n], k, b, i) && NoKey(t[n], k)
  {
    hide NoKey, LastIn;
  }

  lemma KnownAtLast(td: nat, tpos: int, recs: seq<Rec>, c: Index, k: Key, i: nat)
    requires td <= 8 && AllSound(recs) && Knows(td, tpos, recs, c) && LastIn(recs, k, i) && Accepts(td, tpos, k)
    ensures recs[i].version > 0 ==> k in c
    ensures k in c ==> EntryFor(recs, i, c[k])
    ensures k in c ==> (c[k].ver > 0 <==> recs[i].version > 0)
  {
    hide Knows, AllSound, CheckKey, InBucket, StartOf, Plain, GenHash;
    KnowsLive(td, tpos, recs, c, k);
    if k in c { KnownIs(recs, k, c[k], i); }
  }

  /** A key that the data would replay is found through the hints, in the same place. */
  lemma {:induction false} ScanPlace(td: nat, tpos: int, t: Table, cs: seq<Index>, k: Key, b: nat, i: nat)
    requires td <= 8 && TableOk(t) && TreesOk(td, tpos, t, cs) && LastAt(t, k, b, i) && Accepts(td, tpos, k)
    requires t[b][i].version > 0
    ensures AllSound(t[b]) && Sound(t[b][i]) && k in ScanTrees(td, tpos, cs)
    ensures ScanTrees(td, tpos, cs)[k].pos == StartOf(t[b], i) + b && ScanTrees(td, tpos, cs)[k].ver > 0
    ensures ScanTrees(td, tpos, cs)[k].hash == GenHash(Plain(t[b][i]).value)
    decreases |t|
  {
    hide HasPlain, RecOk, EmptyTrap, Knows, NoKey, CheckKey, InBucket, StartOf, Plain, GenHash, Overlay;
    var n := |t| - 1;
    TreesFront(td, tpos, t, cs);
    OverlayKey(td, tpos, ScanTrees(td, tpos, cs[..n]), NumberedAll(cs[n], n), k);
    if b == n {
      KnownAtLast(td, tpos, t[n], cs[n], k, i);
      NumberedPosition(cs[n][k], StartOf(t[n], i), n);
    } else {
      LastFront(t, k, b, i, n);
      ScanPlace(td, tpos, t[..n], cs[..n], k, b, i);
      NoEntry(td, tpos, t[n], cs[n], k);
    }
  }

  lemma {:induction false} LiveInChecked(td: nat, tpos: int, t: Table, cs: seq<Index>, k: Key)
    requires td <= 8 && TableOk(t) && TreesOk(td, tpos, t, cs) && !CheckKey(k)
    ensures !LiveIn(cs, k)
    decreases |t|
  {
    hide AllSound, Knows, CheckKey;
    if t != [] {
      TreesFront(td, tpos, t, cs);
      KnowsLive(td, tpos, t[|t| - 1], cs[|t| - 1], k);
      LiveInChecked(td, tpos, t[..|t| - 1], cs[..|t| - 1], k);
    }
  }

  /** A tombstone that is missing from its hint while an older hint has its key live. */
  ghost predicate Revived(t: Table, cs: seq<Index>, k: Key, b: nat, i: nat)
    requires |cs| == |t|
  {
    LastAt(t, k, b, i) && k !in cs[b] && LiveIn(cs[..b], k)
  }

  lemma ScanKey(td: nat, tpos: int, t: Table, cs: seq<Index>, k: Key)
    requires td <= 8 && TableOk(t) && TreesOk(td, tpos, t, cs)
    ensures SameAt(ScanTrees(td, tpos, cs), ReplayTable(td, tpos, t), k) <==>
      !(exists b: nat, i: nat :: Revived(t, cs, k, b, i) && Accepts(td, tpos, k))
  {
    hide TableOk, TreesOk, CheckKey, InBucket, Sound, StartOf, Plain, GenHash, ScanTrees, ReplayTable, LiveIn;
    hide NoKeyFrom;
    TreesSize(td, tpos, t, cs);
    if !InBucket(td, tpos, k) {
      ScanForeign(td, tpos, cs, k);
      ReplayOthers(td, tpos, t, k);
    } else if !CheckKey(k) {
      ScanHas(td, tpos, cs, k);
      LiveInChecked(td, tpos, t, cs, k);
      ReplayOthers(td, tpos, t, k);
    } else {
      ScanHas(td, tpos, cs, k);
      var found, b, i := FindLast(t, k);
      if found {
        LiveInLast(td, tpos, t, cs, k, b, i);
        ReplayLast(td, tpos, t, k, b, i);
        forall c: nat, j: nat | Revived(t, cs, k, c, j) ensures Revived(t, cs, k, b, i) { LastOnce(t, k, b, i, c, j); }
        if t[b][i].version > 0 {
          ScanPlace(td, tpos, t, cs, k, b, i);
          assert !Revived(t, cs, k, b, i);
        } else if k in cs[b] || !LiveIn(cs[..b], k) {
          assert !Revived(t, cs, k, b, i);
        } else {
          assert Revived(t, cs, k, b, i);
        }
      } else {
        LiveInNone(td, tpos, t, cs, k);
        ReplayNone(td, tpos, t, k);
        forall c: nat, j: nat ensures !LastAt(t, k, c, j) { NoneLast(t, k, c, j); }
      }
    }
  }

  lemma NoneLast(t: Table, k: Key, b: nat, i: nat)
    requires NoKeyFrom(t, k, 0)
    ensures !LastAt(t, k, b, i)
  {
    if b < |t| { assert NoKey(t[b], k); }
  }

  lemma LastOnce(t: Table, k: Key, b: nat, i: nat, b': nat, i': nat)
    requires LastAt(t, k, b, i) && LastAt(t, k, b', i')
    ensures b == b' && i == i'
  {
  }

  lemma TreesSize(td: nat, tpos: int, t: Table, cs: seq<Index>)
    requires td <= 8 && TableOk(t) && TreesOk(td, tpos, t, cs)
    ensures |cs| == |t| <= MAX_BUCKET_COUNT
  {
  }

  /** Restarting through hints gives what replaying the data gives, if and only if no key with a
      missing tombstone has an older live hint entry. */
  lemma HintRestartExactly(td: nat, tpos: int, t: Table, cs: seq<Index>)
    requires td <= 8 && TableOk(t) && TreesOk(td, tpos, t, cs)
    ensures |cs| == |t| <= MAX_BUCKET_COUNT
    ensures Faithful(td, tpos, t, cs) <==> SameLive(ScanTrees(td, tpos, cs), ReplayTable(td, tpos, t))
  {
    hide TableOk, TreesOk, Accepts, ScanTrees, ReplayTable, LastIn, NoKeyFrom, LiveIn, SameLive, SameAt;
    TreesSize(td, tpos, t, cs);
    var x, y := ScanTrees(td, tpos, cs), ReplayTable(td, tpos, t);
    forall k ensures SameAt(x, y, k) <==> !(exists b: nat, i: nat :: Revived(t, cs, k, b, i) && Accepts(td, tpos, k)) {
      ScanKey(td, tpos, t, cs, k);
    }
    SamePointwise(x, y);
    if Faithful(td, tpos, t, cs) {
      forall k ensures SameAt(x, y, k) { }
    } else {
      var k, b: nat, i: nat :| LastAt(t, k, b, i) && Accepts(td, tpos, k) && k !in cs[b] && LiveIn(cs[..b], k);
      assert Revived(t, cs, k, b, i);
    }
  }

  /** As long as no tombstone is missing, all is well. */
  lemma CompleteIsFaithful(td: nat, tpos: int, t: Table, cs: seq<Index>)
    requires td <= 8 && |cs| == |t| && forall b :: 0 <= b < |t| ==> Complete(td, tpos, t[b], cs[b])
    ensures Faithful(td, tpos, t, cs)
  {
    hide Accepts, LiveIn;
    forall k, b: nat, i: nat | LastAt(t, k, b, i) && Accepts(td, tpos, k) ensures k in cs[b] {
      assert Complete(td, tpos, t[b], cs[b]) && LastIn(t[b], k, i);
    }
  }

  /** Dropping dead entries leaves a tree that still knows its bucket. */
  lemma KnowsPruned(td: nat, tpos: int, recs: seq<Rec>, c: Index, c': Index)
    requires td <= 8 && AllSound(recs) && Knows(td, tpos, recs, c) && Pruned(c, c')
    requires forall k :: k in c ==> Accepts(td, tpos, k)
    ensures Knows(td, tpos, recs, c')
  {
    hide Sound, EntryFor, CheckKey, InBucket;
    forall k | k in c' ensures CheckKey(k) && (InBucket(td, tpos, k) ==> KnownLast(recs, k, c'[k])) {
      assert k in c && Accepts(td, tpos, k);
    }
    forall k, i: nat | LastIn(recs, k, i) && Accepts(td, tpos, k) && recs[i].version > 0 ensures k in c' {
      KnownAtLast(td, tpos, recs, c, k, i);
    }
  }

  /** A key is set in bucket 0 and its last record in bucket 1 is a tombstone. An update of the tree of
      bucket 1 that merges on the way of the key has dropped the tombstone before the hint was made, and
      the key is back. */
  lemma DroppedTombstone(s: Rec, recs: seq<Rec>, i: nat, pool: Pool)
    requires Sound(s) && AllSound(recs) && CheckKey(s.key) && s.version > 0
    requires LastIn(recs, s.key, i) && recs[i].version < 0 && Merges(pool, 0, 0, Latest(recs, 1), Fnv1a.Hash(s.key))
    ensures var t, cs := [[s], recs], [Latest([s], 0), Updated(pool, 0, 0, Latest(recs, 1))];
      && TableOk(t) && TreesOk(0, 0, t, cs) && !Faithful(0, 0, t, cs)
      && s.key in ScanTrees(0, 0, cs) && s.key !in ReplayTable(0, 0, t)
  {
    hide HasPlain, RecOk, EmptyTrap, CheckKey, Latest, ScanTrees, ReplayTable, Plain, GenHash, FileBytes, Merges;
    var c, c' := Latest(recs, 1), Updated(pool, 0, 0, Latest(recs, 1));
    var t: Table, cs: seq<Index> := [[s], recs], [Latest([s], 0), c'];
    LatestKnows(0, 0, [s], 0);
    LatestKnows(0, 0, recs, 1);
    LatestLast([s], 0, s.key, 0);
    LatestLast(recs, 1, s.key, i);
    UpdatedPrunes(pool, 0, 0, c);
    KnowsPruned(0, 0, recs, c, c');
    assert s.key !in c';
    assert LastIn([s], s.key, 0) && LastAt(t, s.key, 1, i);
    assert cs[..1] == [cs[0]] && cs[..1][..0] == [];
    assert LiveIn(cs[..1], s.key);
    ReplayLast(0, 0, t, s.key, 1, i);
    LiveInLast(0, 0, t, cs, s.key, 1, i);
    ScanHas(0, 0, cs, s.key);
  }
}
