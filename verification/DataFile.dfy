/** Data files as the records appended to them, and scanning one into an index. */
module DataFile {
  import opened Bytes
  import opened HTreeBlocks
  import opened HTreeLeaf
  import opened HTreeApi
  import opened KeyCodec
  import opened QuickLz
  import opened Record

  /** Positions are 32-bit and leave room for one more record. */
  const MAX_DATA := TWO_32 - 512

  // ---- Records that can be read back -------------------------------------------------------

  ghost predicate HasPlain(s: Rec) {
    HasBit(s.flag, COMPRESS_FLAG) ==> exists data :: Image(s.value, data)
  }

  /** A stored record whose value can be unpacked, now and after it has been written again. */
  ghost predicate Sound(s: Rec) {
    RecOk(s) && HasPlain(s) && !EmptyTrap(s)
  }

  /** The record as it was before its value was compressed. */
  ghost function Plain(s: Rec): Rec
    requires Sound(s)
  {
    if HasBit(s.flag, COMPRESS_FLAG) then
      var data :| Image(s.value, data);
      s.(flag := s.flag - COMPRESS_FLAG, value := data)
    else s
  }

  lemma SoundUnpacks(s: Rec, beyond: seq<byte>)
    requires Sound(s) && 9 <= |beyond|
    ensures Unpackable(s, beyond)
    ensures forall out :: Unpacks(s, beyond, out) <==> out == Some(Plain(s))
  {
    hide Image, RecOk, HasBit;
    HeaderBehind(s.value, beyond);
    if HasBit(s.flag, COMPRESS_FLAG) {
      ImageReads(s.value, beyond, Plain(s).value);
      forall out | Unpacks(s, beyond, out) ensures out == Some(Plain(s)) {
        UnpacksOnce(s, beyond, out, Some(Plain(s)));
      }
    }
  }

  /** The records a set may store so that they can be read back. */
  predicate Storable(r: Rec) {
    RecOk(r) && !HasBit(r.flag, COMPRESS_FLAG) && !EmptyTrap(r)
  }

  lemma StoredSound(r: Rec, memory: bool, s: Rec)
    requires Storable(r) && Stored(r, memory, s)
    ensures Sound(s) && Plain(s) == r
  {
    hide Image;
    StoredOk(r, memory, s);
    if s != r {
      FlagBits(r.flag);
      ImageUnique(s.value, r.value, Plain(s).value);
    }
  }

  /** Compression never lengthens a record. */
  lemma StoredLength(r: Rec, memory: bool, s: Rec)
    requires Stored(r, memory, s)
    ensures RecordLength(s) <= RecordLength(r)
  {
    hide Image;
    LengthMonotone(s, r);
  }

  lemma LengthMonotone(a: Rec, b: Rec)
    requires |a.key| == |b.key| && |a.value| <= |b.value|
    ensures RecordLength(a) <= RecordLength(b)
  {
    var x, y := HEADER + |a.key| + |a.value|, HEADER + |b.key| + |b.value|;
    assert RecordLength(a) < x + PADDING && RecordLength(b) >= y;
    assert RecordLength(a) == PADDING * (RecordLength(a) / PADDING);
    assert RecordLength(b) == PADDING * (RecordLength(b) / PADDING);
  }

  /** Exactly these records come back, whatever memory holds: the others are the empty values with
      a key so long that the record exceeds a block. */
  lemma StorableExactly(r: Rec)
    requires RecOk(r) && !HasBit(r.flag, COMPRESS_FLAG)
    ensures Storable(r) <==>
      forall memory, s, beyond :: Stored(r, memory, s) && Reads(s.value, beyond) ==> Unpacks(s, beyond, Some(r))
  {
    hide Stored, Unpacks, Reads, HasBit, EmptyTrap;
    RoundTripExactly(r, true);
    RoundTripExactly(r, false);
  }

  /** In particular the tombstone of a key of more than 232 bytes need not be readable. */
  lemma LongKeyTombstone(key: seq<byte>, ver: int, tstamp: int) returns (beyond: seq<byte>)
    requires 232 < |key| <= MAX_KEY_LEN && -TWO_31 <= ver < 0 && 0 <= tstamp < TWO_32
    ensures var r := Rec(tstamp, 0, ver, key, []);
      && !Storable(r) && Stored(r, true, Flagged(r, []))
      && Reads([], beyond) && Unpacks(Flagged(r, []), beyond, None)
  {
    hide Image;
    FlagBits(0);
    beyond := [0, 1, 0];
    assert [] + beyond == beyond;
  }

  // ---- Files -------------------------------------------------------------------------------

  ghost predicate AllSound(recs: seq<Rec>) {
    forall i :: 0 <= i < |recs| ==> Sound(recs[i])
  }

  ghost function FileBytes(recs: seq<Rec>): (bs: seq<byte>)
    requires AllSound(recs)
  {
    if recs == [] then [] else FileBytes(recs[..|recs| - 1]) + Wire(recs[|recs| - 1])
  }

  ghost function StartOf(recs: seq<Rec>, i: nat): (at: nat)
    requires AllSound(recs) && i <= |recs|
  {
    |FileBytes(recs[..i])|
  }

  lemma {:induction false} Aligned(recs: seq<Rec>)
    requires AllSound(recs)
    ensures |FileBytes(recs)| % PADDING == 0
    decreases |recs|
  {
    hide HasPlain, RecOk, Wire;
    if recs != [] {
      Aligned(recs[..|recs| - 1]);
      SumAligned(|FileBytes(recs[..|recs| - 1])|, RecordLength(recs[|recs| - 1]));
    }
  }

  lemma SumAligned(a: nat, b: nat)
    requires a % PADDING == 0 && b % PADDING == 0
    ensures (a + b) % PADDING == 0
  {
  }

  /** Up to and from record `i` on. */
  lemma {:induction false} FileSplits(recs: seq<Rec>, i: nat)
    requires AllSound(recs) && i < |recs|
    ensures StartOf(recs, i + 1) == StartOf(recs, i) + RecordLength(recs[i]) <= |FileBytes(recs)|
    ensures FileBytes(recs)[..StartOf(recs, i)] == FileBytes(recs[..i])
    ensures exists rest :: FileBytes(recs)[StartOf(recs, i)..] == Wire(recs[i]) + rest
    decreases |recs|
  {
    hide Wire, HasPlain, RecOk, RecordLength;
    var front, n := recs[..|recs| - 1], |recs| - 1;
    assert recs[..i + 1][..i] == recs[..i];
    if i == n {
      assert recs[..i + 1] == recs;
      assert FileBytes(recs)[StartOf(recs, i)..] == Wire(recs[i]) + [];
    } else {
      FileSplits(front, i);
      assert front[..i] == recs[..i] && front[..i + 1] == recs[..i + 1];
      var rest :| FileBytes(front)[StartOf(front, i)..] == Wire(front[i]) + rest;
      assert FileBytes(recs)[StartOf(recs, i)..] == Wire(recs[i]) + (rest + Wire(recs[n]));
    }
  }

  /** Whoever looks at the position of a record finds it, stored in the same way. */
  lemma RecordAt(recs: seq<Rec>, i: nat)
    requires AllSound(recs) && i < |recs|
    ensures StartOf(recs, i) + PADDING <= StartOf(recs, i) + RecordLength(recs[i]) == StartOf(recs, i + 1)
    ensures StartOf(recs, i + 1) <= |FileBytes(recs)|
    ensures DecodeBytes(FileBytes(recs)[StartOf(recs, i)..]) == Good(recs[i])
  {
    hide DecodeBytes, Wire, FileBytes;
    FileSplits(recs, i);
    var rest :| FileBytes(recs)[StartOf(recs, i)..] == Wire(recs[i]) + rest;
    assert Sound(recs[i]);
    DecodeWire(recs[i], rest);
  }

  lemma {:induction false} OffsetGrows(recs: seq<Rec>, i: nat, j: nat)
    requires AllSound(recs) && i < j <= |recs|
    ensures StartOf(recs, i) + RecordLength(recs[i]) <= StartOf(recs, j) <= |FileBytes(recs)|
    decreases j
  {
    hide HasPlain, RecOk, RecordLength, FileBytes;
    FileSplits(recs, j - 1);
    if i < j - 1 { OffsetGrows(recs, i, j - 1); }
  }

  // ---- check_key -------------------------------------------------------------------------------

  predicate SpaceOrControl(c: byte) {
    c <= 32 || c == 127
  }

  /** The first character is printable ASCII; bytes from 128 on are neither space nor control. */
  predicate CheckKey(key: seq<byte>) {
    0 < |key| <= MAX_KEY_LEN && 32 < key[0] < 128 && forall i :: 0 <= i < |key| ==> !SpaceOrControl(key[i])
  }

  lemma CheckedKeyOk(key: seq<byte>)
    requires CheckKey(key)
    ensures KeyOk(key)
  {
  }

  // ---- Scanning ---------------------------------------------------------------------------------

  /** What one record, or one hint, does to the index. */
  function ApplyEntry(td: nat, tpos: int, m: map<Key, Entry>, k: Key, e: Entry): map<Key, Entry>
    requires td <= 8
  {
    if !InBucket(td, tpos, k) then m else if e.ver > 0 then m[k := e] else m - {k}
  }

  /** The index entry for a record at `at` in data file `bucket`. */
  ghost function EntryOf(s: Rec, at: nat, bucket: byte): (e: Entry)
    requires Sound(s)
  {
    Entry(at + bucket as int, s.version, GenHash(Plain(s).value))
  }

  ghost function ReplayFile(td: nat, tpos: int, m: map<Key, Entry>, recs: seq<Rec>, bucket: byte): map<Key, Entry>
    requires td <= 8 && AllSound(recs)
  {
    if recs == [] then m else
    var n := |recs| - 1;
    var before := ReplayFile(td, tpos, m, recs[..n], bucket);
    if CheckKey(recs[n].key) then ApplyEntry(td, tpos, before, recs[n].key, EntryOf(recs[n], StartOf(recs, n), bucket))
    else before
  }

  /** The latest entry of every key of a file, tombstones included. */
  ghost function Latest(recs: seq<Rec>, bucket: byte): (m: map<Key, Entry>)
    requires AllSound(recs)
    ensures forall k :: k in m ==> CheckKey(k)
  {
    if recs == [] then map[] else
    var n := |recs| - 1;
    var before := Latest(recs[..n], bucket);
    if CheckKey(recs[n].key) then before[recs[n].key := EntryOf(recs[n], StartOf(recs, n), bucket)] else before
  }

  lemma ReplaySnoc(td: nat, tpos: int, m: map<Key, Entry>, recs: seq<Rec>, i: nat, bucket: byte)
    requires td <= 8 && AllSound(recs) && i < |recs|
    ensures var key, e := recs[i].key, EntryOf(recs[i], StartOf(recs, i), bucket);
      && ReplayFile(td, tpos, m, recs[..i + 1], bucket)
         == (if CheckKey(key) then ApplyEntry(td, tpos, ReplayFile(td, tpos, m, recs[..i], bucket), key, e)
             else ReplayFile(td, tpos, m, recs[..i], bucket))
      && Latest(recs[..i + 1], bucket)
         == (if CheckKey(key) then Latest(recs[..i], bucket)[key := e] else Latest(recs[..i], bucket))
  {
    hide CheckKey, ApplyEntry, FileBytes, Sound, EntryOf;
    assert recs[..i + 1][..i] == recs[..i];
    assert StartOf(recs[..i + 1], i) == StartOf(recs, i);
  }

  predicate Covered(td: nat, tpos: int, c: map<Key, Entry>, k: Key)
    requires td <= 8
  {
    k in c && InBucket(td, tpos, k)
  }

  /** Entries of `c` win over those of `m`; a dead one removes its key. */
  function Overlay(td: nat, tpos: int, m: map<Key, Entry>, c: map<Key, Entry>): map<Key, Entry>
    requires td <= 8
  {
    map k | k in m.Keys + c.Keys && (if Covered(td, tpos, c, k) then c[k].ver > 0 else k in m) ::
      if Covered(td, tpos, c, k) then c[k] else m[k]
  }

  lemma OverlaySet(td: nat, tpos: int, m: map<Key, Entry>, c: map<Key, Entry>, k: Key, e: Entry)
    requires td <= 8
    ensures Overlay(td, tpos, m, c[k := e]) == ApplyEntry(td, tpos, Overlay(td, tpos, m, c), k, e)
  {
    hide InBucket;
  }

  /** Replaying a file record by record leaves, for each key, what its last record says. */
  lemma {:induction false} ReplayLatest(td: nat, tpos: int, m: map<Key, Entry>, recs: seq<Rec>, bucket: byte)
    requires td <= 8 && AllSound(recs)
    ensures ReplayFile(td, tpos, m, recs, bucket) == Overlay(td, tpos, m, Latest(recs, bucket))
    decreases |recs|
  {
    hide InBucket, HasPlain, RecOk, CheckKey, EntryOf, StartOf;
    if recs == [] {
      assert Overlay(td, tpos, m, map[]) == m;
    } else {
      hide Overlay;
      var n := |recs| - 1;
      ReplayLatest(td, tpos, m, recs[..n], bucket);
      if CheckKey(recs[n].key) {
        OverlaySet(td, tpos, m, Latest(recs[..n], bucket), recs[n].key, EntryOf(recs[n], StartOf(recs, n), bucket));
      }
    }
  }

  // ---- Records that cannot be unpacked ----------------------------------------------------------

  /** What a scan makes of records of which `outs` is what unpacking them gave: one that did not
      unpack is passed over. */
  ghost function ScanOutcome(td: nat, tpos: int, m: map<Key, Entry>, recs: seq<Rec>, outs: seq<Option<Rec>>,
                             at: nat, bucket: byte): map<Key, Entry>
    requires td <= 8 && |outs| == |recs|
    decreases |recs|
  {
    if recs == [] then m else
    var m' :=
      if outs[0] == None || !CheckKey(recs[0].key) then m
      else ApplyEntry(td, tpos, m, recs[0].key,
                      Entry(at + bucket as int, recs[0].version, GenHash(outs[0].value.value)));
    ScanOutcome(td, tpos, m', recs[1..], outs[1..], at + RecordLength(recs[0]), bucket)
  }

  ghost function PlainAll(recs: seq<Rec>): (outs: seq<Option<Rec>>)
    requires AllSound(recs)
    ensures |outs| == |recs|
  {
    seq(|recs|, i requires 0 <= i < |recs| => Some(Plain(recs[i])))
  }

  lemma ScanHead(td: nat, tpos: int, m: map<Key, Entry>, recs: seq<Rec>, i: nat, bucket: byte)
    requires td <= 8 && AllSound(recs) && i < |recs|
    ensures var m' := if CheckKey(recs[i].key)
                      then ApplyEntry(td, tpos, m, recs[i].key, EntryOf(recs[i], StartOf(recs, i), bucket)) else m;
      ScanOutcome(td, tpos, m, recs[i..], PlainAll(recs)[i..], StartOf(recs, i), bucket)
      == ScanOutcome(td, tpos, m', recs[i + 1..], PlainAll(recs)[i + 1..], StartOf(recs, i + 1), bucket)
  {
    hide HasPlain, RecOk, EmptyTrap, Plain, CheckKey, ApplyEntry, RecordLength, GenHash, FileBytes;
    assert recs[i..][1..] == recs[i + 1..] && PlainAll(recs)[i..][1..] == PlainAll(recs)[i + 1..];
    FileSplits(recs, i);
  }

  /** On sound records it is the replay. */
  lemma {:induction false} ScanSound(td: nat, tpos: int, m: map<Key, Entry>, recs: seq<Rec>, i: nat, bucket: byte)
    requires td <= 8 && AllSound(recs) && i <= |recs|
    ensures ScanOutcome(td, tpos, ReplayFile(td, tpos, m, recs[..i], bucket), recs[i..], PlainAll(recs)[i..],
                        StartOf(recs, i), bucket)
      == ReplayFile(td, tpos, m, recs, bucket)
    decreases |recs| - i
  {
    hide Sound, CheckKey, ApplyEntry, StartOf, EntryOf, ReplayFile, PlainAll;
    if i == |recs| {
      assert recs[..i] == recs && recs[i..] == [];
    } else {
      hide ScanOutcome;
      ReplaySnoc(td, tpos, m, recs, i, bucket);
      ScanHead(td, tpos, ReplayFile(td, tpos, m, recs[..i], bucket), recs, i, bucket);
      ScanSound(td, tpos, m, recs, i + 1, bucket);
    }
  }

  lemma SkippedTombstone(s: Rec, tomb: Rec, r: Rec, bucket: byte)
    requires CheckKey(s.key) && s.version > 0
    ensures ScanOutcome(0, 0, map[], [s, tomb], [Some(r), None], 0, bucket)
      == map[s.key := Entry(bucket as int, s.version, GenHash(r.value))]
  {
    hide CheckKey, GenHash, RecordLength;
    var m := map[s.key := Entry(bucket as int, s.version, GenHash(r.value))];
    var outs: seq<Option<Rec>> := [Some(r), None];
    assert [s, tomb][1..] == [tomb] && outs[1..] == [None] && [tomb][1..] == [] && outs[1..][1..] == [];
    assert ScanOutcome(0, 0, m, [tomb], [None], 0 + RecordLength(s), bucket) == m;
    assert ApplyEntry(0, 0, map[], s.key, Entry(0 + bucket as int, s.version, GenHash(r.value))) == m;
  }

  /** A key of more than 232 bytes is set and deleted, and there is memory in which a scan of the two
      records, stored as the code stores them, brings the key back. */
  lemma DeletedKeyReturns(r: Rec, s: Rec, ver: int, tstamp: int, bucket: byte) returns (beyond: seq<byte>)
    requires Storable(r) && Stored(r, true, s) && r.version > 0 && 232 < |r.key| && CheckKey(r.key)
    requires -TWO_31 <= ver < 0 && 0 <= tstamp < TWO_32
    ensures var dead := Rec(tstamp, 0, ver, r.key, []); var tomb := Flagged(dead, []);
      && Stored(dead, true, tomb) && Reads(s.value, beyond) && Unpacks(s, beyond, Some(r))
      && Reads(tomb.value, beyond) && Unpacks(tomb, beyond, None)
      && ScanOutcome(0, 0, map[], [s, tomb], [Some(r), None], 0, bucket)
         == map[r.key := Entry(bucket as int, r.version, GenHash(r.value))]
  {
    hide Image, GenHash, RecordLength;
    var tomb := Flagged(Rec(tstamp, 0, ver, r.key, []), []);
    var short := LongKeyTombstone(r.key, ver, tstamp);
    beyond := [0, 1, 0, 0, 0, 0, 0, 0, 0];
    assert [] + beyond == beyond;
    FlagBits(0);
    HeaderBehind(s.value, beyond);
    StoredUnpacks(r, true, s, beyond, Some(r));
    StoredOk(r, true, s);
    SkippedTombstone(s, tomb, r, bucket);
  }
}
