/** Hint files: the index entries of one data file, so that it need not be read at startup.
    Scanning the hint of a data file does to any index what scanning the file itself does. */
module Hint {
  import opened Bytes
  import opened HTreeLeaf
  import opened HashTree
  import opened HTreeApi
  import opened KeyCodec
  import opened QuickLz
  import opened Record
  import opened DataFile

  const HINT_HEADER := 10

  // ---- The hint record ---------------------------------------------------------------------

  /** What fits the fields of a hint record. */
  predicate Fits(v: Visited) {
    |v.key| <= MAX_KEY_LEN && InRange(v.e)
  }

  /** Key size in the low byte, the position in blocks above it, version, hash, key and NUL. */
  function HintRecord(v: Visited): (bs: seq<byte>)
    requires Fits(v)
    ensures |bs| == HINT_HEADER + |v.key| + 1
  {
    Le32(|v.key| + 256 * (v.e.pos / 256)) + Le32(ToWord(v.e.ver)) + Le16(v.e.hash) + v.key + [0]
  }

  function HintLength(buf: seq<byte>): nat
    requires buf != []
  {
    HINT_HEADER + buf[0] as int + 1
  }

  /** The entry of the hint record at the head of `buf`, for data file `bucket`. */
  function HintAt(buf: seq<byte>, bucket: byte): (v: Visited)
    requires buf != [] && HintLength(buf) <= |buf|
  {
    var pos := Word(buf, 0) / 256 * 256 + bucket as int;
    Visited(buf[HINT_HEADER..HINT_HEADER + buf[0] as int],
            Entry(pos, FromWord(Word(buf, 4)), FromLe16(buf[8..10])))
  }

  /** The entry with its position in data file `bucket`; hints do not record the number. */
  function Numbered(e: Entry, bucket: byte): Entry {
    e.(pos := e.pos / 256 * 256 + bucket as int)
  }

  function NumberedAll(c: map<Key, Entry>, bucket: byte): map<Key, Entry> {
    map k | k in c :: Numbered(c[k], bucket)
  }

  lemma HintRoundTrip(v: Visited, tail: seq<byte>, bucket: byte)
    requires Fits(v)
    ensures var buf := HintRecord(v) + tail;
      HintLength(buf) == |HintRecord(v)| && HintAt(buf, bucket) == v.(e := Numbered(v.e, bucket))
  {
    hide Le32, FromLe32, Le16, FromLe16, ToWord, FromWord;
    var buf := HintRecord(v) + tail;
    var w := |v.key| + 256 * (v.e.pos / 256);
    assert buf[0..4] == Le32(w) && buf[4..8] == Le32(ToWord(v.e.ver)) && buf[8..10] == Le16(v.e.hash);
    LowByte(w, buf);
    DivMod(w, 256, v.e.pos / 256, |v.key|);
    assert buf[HINT_HEADER..HINT_HEADER + |v.key|] == v.key;
  }

  lemma LowByte(w: int, buf: seq<byte>)
    requires 0 <= w < TWO_32 && 4 <= |buf| && buf[0..4] == Le32(w)
    ensures buf[0] as int == w % 256
  {
    assert buf[0] == buf[0..4][0];
  }

  ghost predicate AllFit(out: seq<Visited>) {
    forall i :: 0 <= i < |out| ==> Fits(out[i]) && CheckKey(out[i].key)
  }

  ghost function HintBytes(out: seq<Visited>): (bs: seq<byte>)
    requires AllFit(out)
  {
    if out == [] then [] else HintRecord(out[0]) + HintBytes(out[1..])
  }

  lemma {:induction false} HintBytesSnoc(out: seq<Visited>, v: Visited)
    requires AllFit(out) && Fits(v) && CheckKey(v.key)
    ensures AllFit(out + [v]) && HintBytes(out + [v]) == HintBytes(out) + HintRecord(v)
  {
    hide HintRecord, Fits, CheckKey;
    assert AllFit(out + [v]);
    if out == [] {
      assert out + [v] == [v];
      assert HintBytes([v]) == HintRecord(v) + [];
    } else {
      assert (out + [v])[1..] == out[1..] + [v];
      HintBytesSnoc(out[1..], v);
    }
  }

  // ---- Collecting and scanning hints as functions -----------------------------------------------

  /** Scanning any bytes as a hint: a record that would run over the end stops the scan. */
  function HintReplay(td: nat, tpos: int, m: map<Key, Entry>, buf: seq<byte>, bucket: byte): map<Key, Entry>
    requires td <= 8
    decreases |buf|
  {
    if buf == [] || HintLength(buf) > |buf| then m else
    var v := HintAt(buf, bucket);
    var m' := if CheckKey(v.key) then ApplyEntry(td, tpos, m, v.key, v.e) else m;
    HintReplay(td, tpos, m', buf[HintLength(buf)..], bucket)
  }

  lemma OverlayHead(td: nat, tpos: int, m: map<Key, Entry>, c: map<Key, Entry>, k: Key)
    requires td <= 8 && k in c
    ensures Overlay(td, tpos, ApplyEntry(td, tpos, m, k, c[k]), c - {k}) == Overlay(td, tpos, m, c)
  {
    hide InBucket;
  }

  lemma EnumeratesTail(out: seq<Visited>, c: map<Key, Entry>)
    requires Enumerates(out, c) && out != []
    ensures out[0].key in c && c[out[0].key] == out[0].e && Enumerates(out[1..], c - {out[0].key})
  {
    var rest := out[1..];
    forall k | k in c - {out[0].key} ensures exists j :: 0 <= j < |rest| && rest[j].key == k {
      var j :| 0 <= j < |out| && out[j].key == k;
      assert rest[j - 1].key == k;
    }
  }

  lemma NumberedTail(c: map<Key, Entry>, k: Key, bucket: byte)
    ensures NumberedAll(c - {k}, bucket) == NumberedAll(c, bucket) - {k}
  {
    hide Numbered;
  }

  /** The order in which the entries were collected does not matter. */
  lemma {:induction false} HintReplayOverlay(td: nat, tpos: int, m: map<Key, Entry>, out: seq<Visited>,
                                             c: map<Key, Entry>, bucket: byte)
    requires td <= 8 && AllFit(out) && Enumerates(out, c)
    ensures HintReplay(td, tpos, m, HintBytes(out), bucket) == Overlay(td, tpos, m, NumberedAll(c, bucket))
    decreases |out|
  {
    hide InBucket, Fits, CheckKey, Enumerates, HintRecord, HintAt, HintLength, ApplyEntry, Numbered;
    if out == [] {
      EnumeratesNone(c);
      assert Overlay(td, tpos, m, NumberedAll(c, bucket)) == m;
    } else {
      hide Overlay;
      var k, rest, n := out[0].key, out[1..], NumberedAll(c, bucket);
      EnumeratesTail(out, c);
      HintRoundTrip(out[0], HintBytes(rest), bucket);
      OverlayHead(td, tpos, m, n, k);
      NumberedTail(c, k, bucket);
      HintReplayOverlay(td, tpos, ApplyEntry(td, tpos, m, k, n[k]), rest, c - {k}, bucket);
      var buf := HintBytes(out);
      assert buf[|HintRecord(out[0])|..] == HintBytes(rest);
    }
  }

  lemma EnumeratesNone(c: map<Key, Entry>)
    requires Enumerates([], c)
    ensures c == map[]
  {
    if k :| k in c { assert false; }
  }

  /** `buf` lists the entries of `c`, in some order. */
  ghost predicate HintOf(buf: seq<byte>, c: map<Key, Entry>) {
    exists out :: Enumerates(out, c) && AllFit(out) && buf == HintBytes(out)
  }

  /** Scanning a hint lays its entries over the index, whatever number the file has by now. */
  lemma HintScan(td: nat, tpos: int, m: map<Key, Entry>, c: map<Key, Entry>, bucket: byte, buf: seq<byte>)
    requires td <= 8 && HintOf(buf, c)
    ensures HintReplay(td, tpos, m, buf, bucket) == Overlay(td, tpos, m, NumberedAll(c, bucket))
  {
    hide Enumerates, HintReplay, Overlay, AllFit, HintBytes;
    var out :| Enumerates(out, c) && AllFit(out) && buf == HintBytes(out);
    HintReplayOverlay(td, tpos, m, out, c, bucket);
  }

  lemma {:induction false} LatestNumbered(recs: seq<Rec>, b: byte, bucket: byte)
    requires AllSound(recs)
    ensures NumberedAll(Latest(recs, b), bucket) == Latest(recs, bucket)
    decreases |recs|
  {
    hide HasPlain, RecOk, EmptyTrap, CheckKey, FileBytes, GenHash, Plain;
    if recs != [] {
      var n := |recs| - 1;
      LatestNumbered(recs[..n], b, bucket);
      Aligned(recs[..n]);
      DivMod(StartOf(recs, n) + b as int, 256, StartOf(recs, n) / 256, b as int);
    }
  }

  /** From any starting index, the hint made of a data file, under whatever number, and the file itself
      lead to the same index. */
  lemma HintScanIsDataScan(td: nat, tpos: int, m: map<Key, Entry>, recs: seq<Rec>, b: byte, bucket: byte,
                           buf: seq<byte>)
    requires td <= 8 && AllSound(recs) && HintOf(buf, Latest(recs, b))
    ensures HintReplay(td, tpos, m, buf, bucket) == ReplayFile(td, tpos, m, recs, bucket)
  {
    hide HintReplay, ReplayFile, Overlay, Sound, HintOf, Latest, NumberedAll;
    HintScan(td, tpos, m, Latest(recs, b), bucket, buf);
    LatestNumbered(recs, b, bucket);
    ReplayLatest(td, tpos, m, recs, bucket);
  }

  // ---- The hint buffer --------------------------------------------------------------------------

  const FIRST_SIZE := 1024 * 1024

  /** The growing buffer that collect_items appends to. */
  class HintBuffer {
    var size: nat
    var curr: nat
    var buf: array<byte>

    ghost predicate Valid()
      reads this
    {
      curr <= size == buf.Length && FIRST_SIZE <= size
    }

    ghost function Contents(): seq<byte>
      reads this, buf
      requires Valid()
    {
      buf[..curr]
    }

    constructor ()
      ensures Valid() && fresh(buf) && Contents() == []
    {
      size, curr := FIRST_SIZE, 0;
      buf := new byte[FIRST_SIZE];
    }

    /** One doubling always makes enough room. */
    method Collect(v: Visited)
      requires Valid() && Fits(v)
      modifies this, buf
      ensures Valid() && (buf == old(buf) || fresh(buf))
      ensures Contents() == old(Contents()) + HintRecord(v)
    {
      hide HintRecord, Fits;
      FitsShort(v);
      var length := HINT_HEADER + |v.key| + 1;
      if size - curr < length {
        Grow();
      }
      Append(HintRecord(v));
    }

    method Grow()
      requires Valid()
      modifies this
      ensures Valid() && fresh(buf) && size == 2 * old(size) && curr == old(curr) && Contents() == old(Contents())
    {
      var grown := new byte[size * 2];
      CopyBytes(buf[..], 0, curr, grown, 0);
      size, buf := size * 2, grown;
    }

    method Append(bs: seq<byte>)
      requires Valid() && |bs| <= size - curr
      modifies this`curr, buf
      ensures Valid() && Contents() == old(Contents()) + bs
    {
      CopyBytes(bs, 0, |bs|, buf, curr);
      Extended(old(buf[..]), buf[..], curr, bs);
      curr := curr + |bs|;
    }
  }

  lemma Extended(a: seq<byte>, b: seq<byte>, p: nat, bs: seq<byte>)
    requires |a| == |b| && p + |bs| <= |b| && b[p..p + |bs|] == bs[0..0 + |bs|] && b[..p] == a[..p]
    ensures b[..p + |bs|] == a[..p] + bs
  {
    assert b[..p + |bs|] == b[..p] + b[p..p + |bs|];
  }

  lemma FitsShort(v: Visited)
    requires Fits(v)
    ensures |v.key| <= 250
  {
  }

  // ---- Scanning a data file ---------------------------------------------------------------------

  ghost predicate HasKey(recs: seq<Rec>, k: Key) {
    exists i :: 0 <= i < |recs| && recs[i].key == k
  }

  /** The records' entries fit a hint record. */
  lemma {:induction false} LatestFits(recs: seq<Rec>, bucket: byte, k: Key)
    requires AllSound(recs) && |FileBytes(recs)| <= MAX_DATA && k in Latest(recs, bucket)
    ensures InRange(Latest(recs, bucket)[k]) && CheckKey(k)
    ensures HasKey(recs, k)
    decreases |recs|
  {
    hide HasPlain, FileBytes, CheckKey, RecordLength, InRange, EntryOf, RecOk;
    var n := |recs| - 1;
    FileSplits(recs, n);
    assert |FileBytes(recs[..n])| <= |FileBytes(recs)|;
    if CheckKey(recs[n].key) && recs[n].key == k {
      EntryFits(recs, n, bucket);
    } else {
      LatestFits(recs[..n], bucket, k);
      var i :| 0 <= i < n && recs[..n][i].key == k;
      assert recs[i].key == k;
    }
  }

  lemma EntryFits(recs: seq<Rec>, n: nat, bucket: byte)
    requires AllSound(recs) && n < |recs| && StartOf(recs, n) <= MAX_DATA
    ensures InRange(EntryOf(recs[n], StartOf(recs, n), bucket))
  {
    hide HasPlain, FileBytes;
  }

  /** The index part of a scan step. */
  method IndexRecord(tree: HTree, cur: HTree, tpos: int, key: Key, e: Entry, ghost m: map<Key, Entry>,
                     ghost c: map<Key, Entry>)
    returns (ghost m': map<Key, Entry>, ghost c': map<Key, Entry>)
    requires TreeIs(tree, m) && TreeIs(cur, c) && cur.depth == 0 && tree != cur && tree.dc != cur.dc && tree.depth <= 8
    modifies tree, tree.dc, cur, cur.dc
    ensures TreeIs(tree, m') && TreeIs(cur, c')
    ensures m' == if CheckKey(key) then ApplyEntry(tree.depth, tpos, m, key, e) else m
    ensures c' == if CheckKey(key) then c[key := e] else c
  {
    hide TreeIs, KeyOk, CheckKey;
    m', c' := m, c;
    if CheckKey(key) {
      CheckedKeyOk(key);
      if e.ver > 0 {
        m' := Add(tree, tpos, key, e, m);
      } else {
        m' := Remove(tree, tpos, key, m);
      }
      c' := Add(cur, 0, key, e, c);
    }
  }

  /** scanDataFile on a file of sound records; `beyond` is the memory behind a decoded value. */
  method ScanDataFile(tree: HTree, tpos: int, bucket: byte, file: seq<byte>, beyond: seq<byte>,
                      ghost recs: seq<Rec>, ghost m: map<Key, Entry>)
    returns (hint: seq<byte>, ghost m': map<Key, Entry>)
    requires TreeIs(tree, m) && tree.depth <= 8 && 9 <= |beyond|
    requires AllSound(recs) && file == FileBytes(recs) && |file| <= MAX_DATA
    modifies tree, tree.dc
    ensures TreeIs(tree, m') && m' == ReplayFile(tree.depth, tpos, m, recs, bucket)
    ensures TreeHint(hint, Latest(recs, bucket))
  {
    hide TreeIs, ReplayFile, Latest, Sound, FileBytes, DecodeBytes, Unpacks, Unpackable, TreeHint, ApplyEntry;
    hide CheckKey, GenHash, RecordLength;
    var cur := NewTree(0, true);
    ghost var c: map<Key, Entry> := map[];
    m' := m;
    var p := 0;
    ghost var i := 0;
    ScanStart(tree.depth, tpos, m, recs, bucket);
    ScanInside(recs, 0);
    while p < |file|
      invariant 0 <= i <= |recs| && p == StartOf(recs, i) && (p >= |file| ==> i == |recs|)
      invariant TreeIs(tree, m') && m' == ReplayFile(tree.depth, tpos, m, recs[..i], bucket)
      invariant TreeIs(cur, c) && c == Latest(recs[..i], bucket) && cur.depth == 0 && fresh(cur) && fresh(cur.dc)
      decreases |file| - p
    {
      ScanInside(recs, i);
      RecordAt(recs, i);
      var d := DecodeRecord(file[p..]);
      var s := d.rec;
      assert Sound(s) && s == recs[i];
      SoundUnpacks(s, beyond);
      var r := DecompressRecord(s, beyond);
      var e := Entry(p + bucket as int, s.version, GenHash(r.value.value));
      assert e == EntryOf(s, p, bucket);
      m', c := IndexRecord(tree, cur, tpos, s.key, e, m', c);
      ReplaySnoc(tree.depth, tpos, m, recs, i, bucket);
      p := p + RecordLength(s);
      i := i + 1;
      ScanInside(recs, i);
    }
    assert recs[..i] == recs;
    LatestReady(recs, bucket);
    hint := BuildHint(cur, Latest(recs, bucket), recs);
  }

  lemma ScanStart(td: nat, tpos: int, m: map<Key, Entry>, recs: seq<Rec>, bucket: byte)
    requires td <= 8 && AllSound(recs)
    ensures StartOf(recs, 0) == 0 && ReplayFile(td, tpos, m, recs[..0], bucket) == m
    ensures Latest(recs[..0], bucket) == map[]
  {
    hide Sound, CheckKey, EntryOf, ApplyEntry;
  }

  lemma ScanInside(recs: seq<Rec>, i: nat)
    requires AllSound(recs) && i <= |recs|
    ensures StartOf(recs, i) < |FileBytes(recs)| <==> i < |recs|
  {
    hide Sound, RecordLength, FileBytes;
    if i < |recs| { RecordAt(recs, i); } else { assert recs[..i] == recs; }
  }

  // ---- Hint files -------------------------------------------------------------------------------

  /** A hint file holds the compressed hint, or nothing when there is no entry. */
  ghost predicate Holds(file: seq<byte>, buf: seq<byte>) {
    if buf == [] then file == [] else Image(file, buf)
  }

  /** The file is a hint made of the entries of `c`. */
  ghost predicate TreeHint(file: seq<byte>, c: map<Key, Entry>) {
    exists buf :: HintOf(buf, c) && Holds(file, buf)
  }

  function HintSize(out: seq<Visited>): nat {
    if out == [] then 0 else HINT_HEADER + |out[0].key| + 1 + HintSize(out[1..])
  }

  lemma {:induction false} HintBytesSize(out: seq<Visited>)
    requires AllFit(out)
    ensures |HintBytes(out)| == HintSize(out)
  {
    hide HintRecord, Fits, CheckKey;
    if out != [] { HintBytesSize(out[1..]); }
  }

  lemma {:induction false} HintSizeRemove(out: seq<Visited>, j: nat)
    requires j < |out|
    ensures HintSize(out) == HintSize(out[..j] + out[j + 1..]) + HINT_HEADER + |out[j].key| + 1
    decreases j
  {
    if j == 0 {
      assert out[..0] + out[1..] == out[1..];
    } else {
      HintSizeRemove(out[1..], j - 1);
      assert out[1..][..j - 1] + out[1..][j..] == (out[..j] + out[j + 1..])[1..];
    }
  }

  /** Distinct keys, each of some record. */
  ghost predicate KeysFrom(out: seq<Visited>, recs: seq<Rec>) {
    && (forall j, l :: 0 <= j < l < |out| ==> out[j].key != out[l].key)
    && (forall j :: 0 <= j < |out| ==> HasKey(recs, out[j].key))
  }

  lemma KeysFromFront(out: seq<Visited>, recs: seq<Rec>)
    requires KeysFrom(out, recs) && recs != [] && forall j :: 0 <= j < |out| ==> out[j].key != recs[|recs| - 1].key
    ensures KeysFrom(out, recs[..|recs| - 1])
  {
    var front := recs[..|recs| - 1];
    forall j | 0 <= j < |out| ensures HasKey(front, out[j].key) {
      var i :| 0 <= i < |recs| && recs[i].key == out[j].key;
      assert front[i].key == out[j].key;
    }
  }

  /** A hint is never longer than its data file, because every hint record is shorter than the
      blocks its record takes. */
  lemma {:induction false} HintIsShort(out: seq<Visited>, recs: seq<Rec>)
    requires AllSound(recs) && KeysFrom(out, recs)
    ensures HintSize(out) <= |FileBytes(recs)|
    decreases |recs|
  {
    hide Sound, KeysFrom, RecordLength, Wire;
    if out != [] {
      SomeRecord(out, recs);
    }
    if recs != [] {
      var last := recs[|recs| - 1];
      assert Sound(last);
      if j :| 0 <= j < |out| && out[j].key == last.key {
        var rest := out[..j] + out[j + 1..];
        HintSizeRemove(out, j);
        KeysFromWithout(out, recs, j);
        KeysFromFront(rest, recs);
        HintIsShort(rest, recs[..|recs| - 1]);
        HintRecordShort(last);
      } else {
        KeysFromFront(out, recs);
        HintIsShort(out, recs[..|recs| - 1]);
      }
    }
  }

  lemma SomeRecord(out: seq<Visited>, recs: seq<Rec>)
    requires KeysFrom(out, recs) && out != []
    ensures recs != []
  {
    assert HasKey(recs, out[0].key);
  }

  lemma HintRecordShort(s: Rec)
    requires Sound(s)
    ensures HINT_HEADER + |s.key| + 1 <= RecordLength(s)
  {
    assert RecordLength(s) == 256 * (RecordLength(s) / 256);
  }

  lemma KeysFromWithout(out: seq<Visited>, recs: seq<Rec>, j: nat)
    requires KeysFrom(out, recs) && j < |out|
    ensures var rest := out[..j] + out[j + 1..];
      KeysFrom(rest, recs) && forall l :: 0 <= l < |rest| ==> rest[l].key != out[j].key
  {
    var rest := out[..j] + out[j + 1..];
    forall l | 0 <= l < |rest| ensures rest[l].key != out[j].key {
      if l >= j { assert rest[l] == out[l + 1]; }
    }
    forall a, b | 0 <= a < b < |rest| ensures rest[a].key != rest[b].key {
      assert rest[a] == out[if a < j then a else a + 1];
      assert rest[b] == out[if b < j then b else b + 1];
    }
    forall l | 0 <= l < |rest| ensures HasKey(recs, rest[l].key) {
      assert rest[l] == out[if l < j then l else l + 1];
    }
  }

  /** The entries of `c` are for keys of the file, and fit a hint. */
  ghost predicate HintReady(c: map<Key, Entry>, recs: seq<Rec>) {
    forall k :: k in c ==> CheckKey(k) && InRange(c[k]) && HasKey(recs, k)
  }

  lemma ListedFits(out: seq<Visited>, c: map<Key, Entry>, recs: seq<Rec>)
    requires AllSound(recs) && HintReady(c, recs) && Enumerates(out, c)
    ensures AllFit(out) && |HintBytes(out)| <= |FileBytes(recs)|
  {
    hide Sound, FileBytes, CheckKey, InRange, HasKey;
    forall j | 0 <= j < |out| ensures Fits(out[j]) && CheckKey(out[j].key) && HasKey(recs, out[j].key) {
      KeyLength(out[j].key);
    }
    HintBytesSize(out);
    assert KeysFrom(out, recs);
    HintIsShort(out, recs);
  }

  lemma KeyLength(k: Key)
    requires CheckKey(k)
    ensures |k| <= MAX_KEY_LEN
  {
  }

  lemma LatestReady(recs: seq<Rec>, bucket: byte)
    requires AllSound(recs) && |FileBytes(recs)| <= MAX_DATA
    ensures HintReady(Latest(recs, bucket), recs)
  {
    hide Sound, FileBytes, CheckKey, InRange, HasKey, Latest;
    forall k | k in Latest(recs, bucket)
      ensures CheckKey(k) && InRange(Latest(recs, bucket)[k]) && HasKey(recs, k)
    {
      LatestFits(recs, bucket, k);
    }
  }

  /** collect_items for every visited entry, then write_hint_file. */
  method WriteEntries(out: seq<Visited>, ghost c: map<Key, Entry>, ghost recs: seq<Rec>) returns (file: seq<byte>)
    requires AllSound(recs) && |FileBytes(recs)| <= MAX_DATA && HintReady(c, recs) && Enumerates(out, c)
    ensures TreeHint(file, c)
  {
    hide Sound, FileBytes, Fits, CheckKey, Enumerates, Image, HintRecord, HintBytes, HintReady;
    ListedFits(out, c, recs);
    var p := new HintBuffer();
    var j := 0;
    HintBytesNone();
    while j < |out|
      invariant 0 <= j <= |out| && p.Valid() && fresh(p) && fresh(p.buf)
      invariant AllFit(out[..j]) && p.Contents() == HintBytes(out[..j])
    {
      HintBytesSnoc(out[..j], out[j]);
      assert out[..j + 1] == out[..j] + [out[j]];
      p.Collect(out[j]);
      j := j + 1;
    }
    assert out[..j] == out;
    file := WriteHintFile(p.buf[..p.curr]);
    assert HintOf(p.Contents(), c);
  }

  lemma HintBytesNone()
    ensures HintBytes([]) == []
  {
  }

  /** build_hint of a tree: of a scanned file, or of the current bucket when it is rotated out. */
  method BuildHint(cur: HTree, ghost c: map<Key, Entry>, ghost recs: seq<Rec>) returns (file: seq<byte>)
    requires AllSound(recs) && |FileBytes(recs)| <= MAX_DATA && HintReady(c, recs) && TreeIs(cur, c)
    ensures TreeHint(file, c)
  {
    hide TreeIs, Enumerates, HintReady, AllSound, FileBytes;
    var out := VisitTree(cur, c);
    file := WriteEntries(out, c, recs);
  }

  method WriteHintFile(buf: seq<byte>) returns (file: seq<byte>)
    requires |buf| <= MAX_SIZE
    ensures Holds(file, buf)
  {
    hide Image;
    file := CompressPart(buf);
  }

  /** open_hint: an empty file is an empty hint, any other is decompressed. */
  method OpenHint(file: seq<byte>, ghost buf: seq<byte>) returns (r: seq<byte>)
    requires Holds(file, buf)
    ensures r == buf
  {
    if |file| > 0 {
      r := Unpack(file, buf);
    } else {
      r := file;
    }
  }

  /** The loop of scanHintFile, on any bytes. */
  method ScanHint(tree: HTree, tpos: int, bucket: byte, buf: seq<byte>, ghost m: map<Key, Entry>)
    returns (ghost m': map<Key, Entry>)
    requires TreeIs(tree, m) && tree.depth <= 8
    modifies tree, tree.dc
    ensures TreeIs(tree, m') && m' == HintReplay(tree.depth, tpos, m, buf, bucket)
  {
    hide TreeIs, KeyOk, CheckKey, ApplyEntry, HintAt;
    m' := m;
    var p := 0;
    assert buf[0..] == buf;
    while p < |buf|
      invariant 0 <= p <= |buf| && TreeIs(tree, m')
      invariant HintReplay(tree.depth, tpos, m', buf[p..], bucket) == HintReplay(tree.depth, tpos, m, buf, bucket)
    {
      var rest := buf[p..];
      if HintLength(rest) > |rest| {
        break;
      }
      var v := HintAt(rest, bucket);
      assert buf[p + HintLength(rest)..] == rest[HintLength(rest)..];
      p := p + HintLength(rest);
      if CheckKey(v.key) {
        CheckedKeyOk(v.key);
        m' := ApplyToTree(tree, tpos, v, m');
      }
    }
  }

  method ApplyToTree(tree: HTree, tpos: int, v: Visited, ghost m: map<Key, Entry>) returns (ghost m': map<Key, Entry>)
    requires TreeIs(tree, m) && tree.depth <= 8 && KeyOk(v.key)
    modifies tree, tree.dc
    ensures TreeIs(tree, m') && m' == ApplyEntry(tree.depth, tpos, m, v.key, v.e)
  {
    hide TreeIs, KeyOk;
    if v.e.ver > 0 {
      m' := Add(tree, tpos, v.key, v.e, m);
    } else {
      m' := Remove(tree, tpos, v.key, m);
    }
  }

  /** scanHintFile of a hint made of `c`. */
  method ScanHintFile(tree: HTree, tpos: int, bucket: byte, file: seq<byte>, ghost c: map<Key, Entry>,
                      ghost m: map<Key, Entry>)
    returns (ghost m': map<Key, Entry>)
    requires TreeIs(tree, m) && tree.depth <= 8 && TreeHint(file, c)
    modifies tree, tree.dc
    ensures TreeIs(tree, m') && m' == Overlay(tree.depth, tpos, m, NumberedAll(c, bucket))
  {
    hide TreeIs, HintOf, Holds, Overlay, HintReplay, NumberedAll;
    ghost var buf :| HintOf(buf, c) && Holds(file, buf);
    var hint := OpenHint(file, buf);
    m' := ScanHint(tree, tpos, bucket, hint, m);
    HintScan(tree.depth, tpos, m, c, bucket, buf);
  }
}
