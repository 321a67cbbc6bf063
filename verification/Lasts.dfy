/** A replay keeps, for each key, what its last record in bucket order says. */
module Lasts {
  import opened Bytes
  import opened HTreeLeaf
  import opened HTreeApi
  import opened Record
  import opened DataFile
  import opened Buffers
  import opened Protocol
  import opened Replay

  predicate NoKey(recs: seq<Rec>, k: Key) {
    forall j :: 0 <= j < |recs| ==> recs[j].key != k
  }

  predicate LastIn(recs: seq<Rec>, k: Key, i: nat) {
    i < |recs| && recs[i].key == k && forall j :: i < j < |recs| ==> recs[j].key != k
  }

  predicate NoKeyFrom(t: Table, k: Key, b: nat) {
    forall c :: b <= c < |t| ==> NoKey(t[c], k)
  }

  predicate LastAt(t: Table, k: Key, b: nat, i: nat) {
    b < |t| && LastIn(t[b], k, i) && NoKeyFrom(t, k, b + 1)
  }

  // ---- One file --------------------------------------------------------------------------------

  lemma {:induction false} LatestNone(recs: seq<Rec>, bucket: byte, k: Key)
    requires AllSound(recs) && NoKey(recs, k)
    ensures k !in Latest(recs, bucket)
    decreases |recs|
  {
    hide HasPlain, RecOk, EntryOf, CheckKey, StartOf;
    if recs != [] { LatestNone(recs[..|recs| - 1], bucket, k); }
  }

  lemma {:induction false} LatestLast(recs: seq<Rec>, bucket: byte, k: Key, i: nat)
    requires AllSound(recs) && LastIn(recs, k, i)
    ensures k in Latest(recs, bucket) <==> CheckKey(k)
    ensures CheckKey(k) ==> Latest(recs, bucket)[k] == EntryOf(recs[i], StartOf(recs, i), bucket)
    decreases |recs|
  {
    hide HasPlain, RecOk, EntryOf, CheckKey, StartOf;
    var n := |recs| - 1;
    if i < n {
      LatestLast(recs[..n], bucket, k, i);
      StartOfPrefix(recs[..n], recs, i);
    }
  }

  // ---- All files --------------------------------------------------------------------------------

  lemma {:induction false} ReplayNone(td: nat, tpos: int, t: Table, k: Key)
    requires td <= 8 && TableOk(t) && NoKeyFrom(t, k, 0)
    ensures k !in ReplayTable(td, tpos, t)
    decreases |t|
  {
    hide AllSound, ReplayFile, NoKey, InBucket, Latest;
    if t != [] {
      var n := |t| - 1;
      TableFront(t);
      ReplayNone(td, tpos, t[..n], k);
      ReplayLatest(td, tpos, ReplayTable(td, tpos, t[..n]), t[n], n);
      LatestNone(t[n], n, k);
    }
  }

  /** The last record of a key decides whether the key is replayed, and as what. */
  lemma {:induction false} ReplayLast(td: nat, tpos: int, t: Table, k: Key, b: nat, i: nat)
    requires td <= 8 && TableOk(t) && LastAt(t, k, b, i)
    ensures AllSound(t[b]) && Sound(t[b][i])
    ensures k in ReplayTable(td, tpos, t) ==> ReplayTable(td, tpos, t)[k] == EntryOf(t[b][i], StartOf(t[b], i), b)
    ensures CheckKey(k) && InBucket(td, tpos, k) && t[b][i].version > 0 ==> k in ReplayTable(td, tpos, t)
    ensures CheckKey(k) && InBucket(td, tpos, k) && t[b][i].version <= 0 ==> k !in ReplayTable(td, tpos, t)
    decreases |t|
  {
    hide ReplayFile, NoKey, InBucket, Latest, HasPlain, RecOk, StartOf, CheckKey;
    var n := |t| - 1;
    TableFront(t);
    ReplayLatest(td, tpos, ReplayTable(td, tpos, t[..n]), t[n], n);
    if b == n {
      LatestLast(t[n], n, k, i);
      if !(CheckKey(k) && InBucket(td, tpos, k)) {
        ReplayOthers(td, tpos, t[..n], k);
      }
    } else {
      ReplayLast(td, tpos, t[..n], k, b, i);
      LatestNone(t[n], n, k);
    }
  }

  /** Keys that are malformed or belong to another tree are never replayed. */
  lemma {:induction false} ReplayOthers(td: nat, tpos: int, t: Table, k: Key)
    requires td <= 8 && TableOk(t) && !(CheckKey(k) && InBucket(td, tpos, k))
    ensures k !in ReplayTable(td, tpos, t)
    decreases |t|
  {
    hide AllSound, ReplayFile, InBucket, CheckKey;
    if t != [] {
      var n := |t| - 1;
      TableFront(t);
      ReplayOthers(td, tpos, t[..n], k);
      ReplayLatest(td, tpos, ReplayTable(td, tpos, t[..n]), t[n], n);
    }
  }

  lemma {:induction false} FindIn(recs: seq<Rec>, k: Key) returns (found: bool, i: nat)
    ensures found ==> LastIn(recs, k, i)
    ensures !found ==> NoKey(recs, k)
    decreases |recs|
  {
    found, i := false, 0;
    if recs != [] {
      var n := |recs| - 1;
      if recs[n].key == k {
        found, i := true, n;
      } else {
        found, i := FindIn(recs[..n], k);
      }
    }
  }

  /** A key has a last record or none. */
  lemma {:induction false} FindLast(t: Table, k: Key) returns (found: bool, b: nat, i: nat)
    ensures found ==> LastAt(t, k, b, i)
    ensures !found ==> NoKeyFrom(t, k, 0)
    decreases |t|
  {
    hide NoKey, LastIn;
    found, b, i := false, 0, 0;
    if t != [] {
      var n := |t| - 1;
      found, i := FindIn(t[n], k);
      if found {
        b := n;
      } else {
        found, b, i := FindLast(t[..n], k);
      }
    }
  }

  // ---- The index against the replay -------------------------------------------------------------

  type Index = map<Key, Entry>

  predicate Live(index: Index, k: Key) {
    k in index && index[k].ver > 0
  }

  /** Record `j` of the file is the one its key is live at. */
  ghost predicate Survivor(index: Index, recs: seq<Rec>, b: nat, j: nat)
    requires AllSound(recs) && j < |recs|
  {
    Live(index, recs[j].key) && index[recs[j].key].pos == StartOf(recs, j) + b
  }

  /** The live entries are those a replay would make, except that a version may have been raised
      since its record was written. */
  ghost predicate Mirrors(index: map<Key, Entry>, m: map<Key, Entry>) {
    && (forall k :: k in m ==> k in index && index[k].ver > 0 && index[k].pos == m[k].pos && index[k].hash == m[k].hash)
    && (forall k :: k in index && index[k].ver > 0 ==> k in m)
  }

  /** Index and replay agree about one key. */
  ghost predicate MirrorAt(index: Index, m: map<Key, Entry>, k: Key) {
    (k in m <==> Live(index, k)) && (k in m ==> index[k].pos == m[k].pos && index[k].hash == m[k].hash)
  }

  lemma MirrorsPointwise(index: Index, m: map<Key, Entry>)
    ensures Mirrors(index, m) <==> forall k :: MirrorAt(index, m, k)
  {
    if Mirrors(index, m) {
      forall k ensures MirrorAt(index, m, k) { }
    }
    if forall k :: MirrorAt(index, m, k) {
      forall k | k in m
        ensures k in index && index[k].ver > 0 && index[k].pos == m[k].pos && index[k].hash == m[k].hash
      {
        assert MirrorAt(index, m, k);
      }
      forall k | k in index && index[k].ver > 0 ensures k in m { assert MirrorAt(index, m, k); }
    }
  }

  lemma TableEntry(t: Table, b: nat, i: nat)
    requires TableOk(t) && b < |t| && i < |t[b]|
    ensures AllSound(t[b]) && Sound(t[b][i])
    ensures var e := EntryOf(t[b][i], StartOf(t[b], i), b);
      Bucket(e) == b && Position(e) == StartOf(t[b], i) && e.pos == StartOf(t[b], i) + b
  {
    hide HasPlain, RecOk, FileBytes, GenHash;
    Aligned(t[b][..i]);
    DivMod(StartOf(t[b], i) + b, 256, StartOf(t[b], i) / 256, b);
  }

  /** A live key is live at its last record. */
  lemma LiveAtLast(td: nat, tpos: int, t: Table, index: Index, k: Key) returns (b: nat, i: nat)
    requires td <= 8 && TableOk(t) && Mirrors(index, ReplayTable(td, tpos, t)) && Live(index, k)
    ensures LastAt(t, k, b, i) && AllSound(t[b]) && Survivor(index, t[b], b, i) && Sound(t[b][i]) && t[b][i].version > 0
    ensures CheckKey(k) && InBucket(td, tpos, k) && index[k].hash == GenHash(Plain(t[b][i]).value)
  {
    hide ReplayTable, Sound, StartOf, CheckKey, InBucket, Plain, GenHash, NoKeyFrom, TableOk;
    var m := ReplayTable(td, tpos, t);
    assert k in m;
    if !(CheckKey(k) && InBucket(td, tpos, k)) { ReplayOthers(td, tpos, t, k); }
    var found;
    found, b, i := FindLast(t, k);
    if !found { ReplayNone(td, tpos, t, k); }
    ReplayLast(td, tpos, t, k, b, i);
    TableEntry(t, b, i);
  }

  lemma LiveMirrored(td: nat, tpos: int, t: Table, index: Index, k: Key, b: nat, i: nat)
    requires td <= 8 && TableOk(t) && Live(index, k) && LastAt(t, k, b, i) && AllSound(t[b])
    requires Survivor(index, t[b], b, i)
    requires Sound(t[b][i]) && t[b][i].version > 0 && CheckKey(k) && InBucket(td, tpos, k)
    requires index[k].hash == GenHash(Plain(t[b][i]).value)
    ensures MirrorAt(index, ReplayTable(td, tpos, t), k)
  {
    hide ReplayTable, Sound, StartOf, CheckKey, InBucket, Plain, GenHash, NoKeyFrom, TableOk;
    ReplayLast(td, tpos, t, k, b, i);
    TableEntry(t, b, i);
  }
}
