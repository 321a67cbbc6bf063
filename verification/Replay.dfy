/** All data files of a store in bucket order, and what replaying them gives. */
module Replay {
  import opened Bytes
  import opened HTreeLeaf
  import opened HTreeApi
  import opened Record
  import opened DataFile
  import opened Buffers
  import opened Protocol

  /** The records of every bucket; bucket numbers fit a byte. */
  type Table = seq<seq<Rec>>

  ghost predicate TableOk(t: Table) {
    |t| <= MAX_BUCKET_COUNT && forall b :: 0 <= b < |t| ==> AllSound(t[b])
  }

  ghost function ReplayTable(td: nat, tpos: int, t: Table): map<Key, Entry>
    requires td <= 8 && TableOk(t)
  {
    if t == [] then map[] else
    var n := |t| - 1;
    ReplayFile(td, tpos, ReplayTable(td, tpos, t[..n]), t[n], n)
  }

  lemma ReplayNothing(td: nat, tpos: int, m: map<Key, Entry>, bucket: byte)
    requires td <= 8
    ensures ReplayFile(td, tpos, m, [], bucket) == m
  {
  }

  lemma TableFront(t: Table)
    requires TableOk(t) && t != []
    ensures TableOk(t[..|t| - 1]) && AllSound(t[|t| - 1])
  {
    hide AllSound;
  }

  /** Buckets behind the last record do not matter. */
  lemma {:induction false} ReplayTrim(td: nat, tpos: int, t: Table, n: nat)
    requires td <= 8 && TableOk(t) && n <= |t| && forall b :: n <= b < |t| ==> t[b] == []
    ensures TableOk(t[..n]) && ReplayTable(td, tpos, t) == ReplayTable(td, tpos, t[..n])
    decreases |t|
  {
    hide AllSound, ReplayFile;
    if n == |t| {
      assert t[..n] == t;
    } else {
      TableFront(t);
      var front := t[..|t| - 1];
      assert front[..n] == t[..n];
      ReplayTrim(td, tpos, front, n);
      ReplayNothing(td, tpos, ReplayTable(td, tpos, front), |t| - 1);
    }
  }

  lemma ReplaySnocRecord(td: nat, tpos: int, m: map<Key, Entry>, recs: seq<Rec>, s: Rec, bucket: byte)
    requires td <= 8 && AllSound(recs) && Sound(s)
    ensures AllSound(recs + [s])
    ensures ReplayFile(td, tpos, m, recs + [s], bucket)
      == if CheckKey(s.key)
         then ApplyEntry(td, tpos, ReplayFile(td, tpos, m, recs, bucket), s.key,
                         EntryOf(s, |FileBytes(recs)|, bucket))
         else ReplayFile(td, tpos, m, recs, bucket)
  {
    hide HasPlain, RecOk, CheckKey, ApplyEntry, EntryOf, FileBytes;
    AllSoundConcat(recs, [s]);
    var all := recs + [s];
    assert all[..|all| - 1] == recs && all[|all| - 1] == s;
  }

  /** A record appended to the last bucket in use is the last to be replayed. */
  lemma ReplayAppend(td: nat, tpos: int, t: Table, c: nat, s: Rec)
    requires td <= 8 && TableOk(t) && c < |t| && Sound(s) && forall b :: c < b < |t| ==> t[b] == []
    ensures var t' := t[c := t[c] + [s]];
      && TableOk(t') && AllSound(t[c])
      && ReplayTable(td, tpos, t')
         == if CheckKey(s.key)
            then ApplyEntry(td, tpos, ReplayTable(td, tpos, t), s.key, EntryOf(s, |FileBytes(t[c])|, c))
                                      else ReplayTable(td, tpos, t)
  {
    hide HasPlain, RecOk, CheckKey, ApplyEntry, EntryOf, FileBytes, ReplayFile;
    var t' := t[c := t[c] + [s]];
    AllSoundConcat(t[c], [s]);
    assert TableOk(t');
    ReplayTrim(td, tpos, t, c + 1);
    ReplayTrim(td, tpos, t', c + 1);
    assert t[..c + 1][..c] == t[..c] && t'[..c + 1][..c] == t[..c];
    assert t[..c + 1][c] == t[c] && t'[..c + 1][c] == t'[c];
    ReplaySnocRecord(td, tpos, ReplayTable(td, tpos, t[..c]), t[c], s, c);
  }

  // ---- Tables and positions ---------------------------------------------------------------------

  /** Entry `e` leads to record `s` in the table. */
  ghost predicate At(t: Table, e: Entry, s: Rec) {
    Bucket(e) < |t| && 0 <= Position(e) && IsAt(t[Bucket(e)], Position(e), s)
  }

  /** `t'` has all records of `t` where they were. */
  ghost predicate Extends(t: Table, t': Table) {
    |t| <= |t'| && forall b :: 0 <= b < |t| ==> t[b] <= t'[b]
  }

  lemma AtExtends(t: Table, t': Table, e: Entry, s: Rec)
    requires At(t, e, s) && Extends(t, t') && TableOk(t')
    ensures At(t', e, s)
  {
    hide IsAt, AllSound;
    StaysAt(t[Bucket(e)], t'[Bucket(e)], Position(e), s);
  }

  /** The record an entry leads to is unique. */
  lemma AtOnce(t: Table, e: Entry, s: Rec, s': Rec)
    requires At(t, e, s) && At(t, e, s')
    ensures s == s'
  {
    hide Sound, RecordLength, FileBytes;
    var recs, at := t[Bucket(e)], Position(e);
    var i :| 0 <= i < |recs| && recs[i] == s && StartOf(recs, i) == at;
    var j :| 0 <= j < |recs| && recs[j] == s' && StartOf(recs, j) == at;
    if i < j {
      OffsetGrows(recs, i, j);
      RecordAt(recs, i);
    } else if j < i {
      OffsetGrows(recs, j, i);
      RecordAt(recs, j);
    }
  }

  /** Every replayed entry is live and leads to the record it was made from. */
  ghost predicate Backed(t: Table, m: map<Key, Entry>) {
    forall k :: k in m ==> m[k].ver > 0 && EntryBacked(t, k, m[k])
  }

  ghost predicate EntryBacked(t: Table, k: Key, e: Entry) {
    exists s :: At(t, e, s) && Sound(s) && s.key == k && s.version == e.ver && e.hash == GenHash(Plain(s).value)
  }

  lemma LatestBacked(t: Table, c: nat, recs: seq<Rec>, k: Key)
    requires TableOk(t) && c < |t| && recs <= t[c] && AllSound(recs) && k in Latest(recs, c)
    ensures EntryBacked(t, k, Latest(recs, c)[k])
    decreases |recs|
  {
    hide HasPlain, RecOk, CheckKey, FileBytes, GenHash;
    var n := |recs| - 1;
    if CheckKey(recs[n].key) && recs[n].key == k {
      var e := Latest(recs, c)[k];
      Aligned(recs[..n]);
      DivMod(e.pos, 256, StartOf(recs, n) / 256, c);
      assert t[c][..n] == recs[..n] && t[c][n] == recs[n];
      assert StartOf(t[c], n) == StartOf(recs, n);
      assert IsAt(t[c], Position(e), recs[n]);
      assert At(t, e, recs[n]);
    } else {
      LatestBacked(t, c, recs[..n], k);
    }
  }

  lemma EntryBackedExtends(t: Table, t': Table, k: Key, e: Entry)
    requires EntryBacked(t, k, e) && Extends(t, t') && TableOk(t')
    ensures EntryBacked(t', k, e)
  {
    hide At, Sound, Extends, TableOk, GenHash, Plain;
    var s :| At(t, e, s) && Sound(s) && s.key == k && s.version == e.ver && e.hash == GenHash(Plain(s).value);
    AtExtends(t, t', e, s);
  }

  lemma {:induction false} ReplayBacked(td: nat, tpos: int, t: Table)
    requires td <= 8 && TableOk(t)
    ensures Backed(t, ReplayTable(td, tpos, t))
    decreases |t|
  {
    hide AllSound, EntryBacked, InBucket, Latest, ReplayFile;
    if t != [] {
      var n := |t| - 1;
      TableFront(t);
      ReplayBacked(td, tpos, t[..n]);
      var m := ReplayTable(td, tpos, t[..n]);
      ReplayLatest(td, tpos, m, t[n], n);
      var r := ReplayTable(td, tpos, t);
      forall k | k in r ensures r[k].ver > 0 && EntryBacked(t, k, r[k]) {
        if Covered(td, tpos, Latest(t[n], n), k) {
          LatestBacked(t, n, t[n], k);
        } else {
          EntryBackedExtends(t[..n], t, k, m[k]);
        }
      }
    }
  }
}
