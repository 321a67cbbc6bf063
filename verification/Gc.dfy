/** Garbage collection: optimizeDataFile copies the live records of one file behind those of a
    target file and moves their index entries; bc_optimize does so for every file below the
    current one and then gives the current one the next number. */
module Gc {
  import opened Bytes
  import opened HTreeLeaf
  import opened HashTree
  import opened HTreeApi
  import opened KeyCodec
  import opened QuickLz
  import opened Record
  import opened DataFile
  import opened Hint
  import opened Buffers
  import opened Protocol
  import opened Lasts
  import opened GcTables

  // ---- Writing a record again -------------------------------------------------------------------

  /** Encoding a stored record again, with the version of the index, keeps what it holds; it may
      be compressed now where it was not before, and never gets longer. */
  lemma RewriteKeeps(s: Rec, ver: int, memory: bool, s': Rec)
    requires Sound(s) && -TWO_31 <= ver < TWO_31 && Stored(s.(version := ver), memory, s')
    ensures Rewrites(s, ver, s') && RecordLength(s') <= RecordLength(s)
  {
    hide Image, GenHash;
    var r := s.(version := ver);
    if HasBit(s.flag, COMPRESS_FLAG) {
      assert s' == r && Sound(s');
      ImageUnique(s.value, Plain(s).value, Plain(s').value);
    } else {
      StoredSound(r, memory, s');
      StoredKey(r, memory, s');
    }
    LengthMonotone(s', s);
  }

  // ---- update_items -----------------------------------------------------------------------------

  /** What update_items does for one entry of the scratch tree. */
  function UpdateItem(index: Index, v: Visited): Index {
    if v.key !in index then index[v.key := v.e] else
    var p := index[v.key];
    if v.e.pos != p.pos && v.e.ver == p.ver then
      if v.e.ver > 0 then index[v.key := p.(pos := v.e.pos)] else index - {v.key}
    else index
  }

  function UpdateItems(index: Index, out: seq<Visited>): Index {
    if out == [] then index else UpdateItem(UpdateItems(index, out[..|out| - 1]), out[|out| - 1])
  }

  predicate SameFor(a: Index, b: Index, k: Key) {
    (k in a <==> k in b) && (k in a ==> a[k] == b[k])
  }

  /** Distinct entries are updated independently of one another. */
  lemma {:induction false} UpdatedAlone(index: Index, out: seq<Visited>, c: map<Key, Entry>, k: Key)
    requires forall j, l :: 0 <= j < l < |out| ==> out[j].key != out[l].key
    requires forall j :: 0 <= j < |out| ==> out[j].key in c && c[out[j].key] == out[j].e
    ensures (exists j :: 0 <= j < |out| && out[j].key == k) ==>
      SameFor(UpdateItems(index, out), UpdateItem(index, Visited(k, c[k])), k)
    ensures (forall j :: 0 <= j < |out| ==> out[j].key != k) ==> SameFor(UpdateItems(index, out), index, k)
    decreases |out|
  {
    if out != [] {
      var n := |out| - 1;
      UpdatedAlone(index, out[..n], c, k);
      if j :| 0 <= j < |out| && out[j].key == k {
        if j < n { assert out[..n][j].key == k; }
      }
    }
  }

  ghost predicate Noted(index: Index, k: Key, pos: int, c: map<Key, Entry>) {
    Live(index, k) && k in c && c[k] == index[k].(pos := pos)
  }

  /** The scratch tree of a collection: new positions for survivors, zero for tombstones. */
  ghost predicate Scratch(index: Index, dest: seq<Rec>, added: seq<Rec>, d: nat, c: map<Key, Entry>)
    requires AllSound(dest) && AllSound(added)
  {
    && (forall x :: 0 <= x < |added| ==> Noted(index, added[x].key, NewStart(dest, added, x) + d, c))
    && (forall k :: k in c && !Within(added, k) ==> k in index && index[k].ver < 0 && c[k] == index[k].(pos := 0))
  }

  lemma UpdateRelocates(index: Index, dest: seq<Rec>, added: seq<Rec>, d: nat, c: map<Key, Entry>, out: seq<Visited>)
    requires AllSound(dest) && AllSound(added) && Scratch(index, dest, added, d, c) && Enumerates(out, c)
    ensures Relocated(index, UpdateItems(index, out), dest, added, d)
  {
    hide AllSound, NewStart, UpdateItems;
    var index' := UpdateItems(index, out);
    forall k
      ensures if k in c then SameFor(index', UpdateItem(index, Visited(k, c[k])), k) else SameFor(index', index, k)
    {
      UpdatedAlone(index, out, c, k);
    }
    forall k | Within(added, k) ensures Live(index, k) && k in c && c[k].ver == index[k].ver {
      var x :| 0 <= x < |added| && added[x].key == k;
      assert Noted(index, k, NewStart(dest, added, x) + d, c);
    }
    forall x | 0 <= x < |added| ensures Noted(index, added[x].key, NewStart(dest, added, x) + d, c) { }
  }

  /** A tombstone that is noted with position zero takes its key out of the index, unless zero is its own
      position: the first block of bucket 0. */
  lemma DeadDropped(index: Index, c: map<Key, Entry>, out: seq<Visited>, k: Key)
    requires Enumerates(out, c) && k in index && index[k].ver <= 0 && k in c && c[k] == index[k].(pos := 0)
    ensures k !in UpdateItems(index, out) <==> index[k].pos != 0
  {
    hide UpdateItems;
    UpdatedAlone(index, out, c, k);
  }

  // ---- optimizeDataFile -------------------------------------------------------------------------

  /** What the store guarantees of its index entries. */
  predicate IndexOk(index: Index) {
    forall k :: k in index ==> CheckKey(k) && -TWO_31 <= index[k].ver < TWO_31
  }

  /** The state of the copy loop after `n` records. */
  ghost predicate Copying(index: Index, recs: seq<Rec>, b: nat, n: nat, dest: seq<Rec>, d: nat,
                          from: seq<nat>, added: seq<Rec>, out: seq<byte>, c: map<Key, Entry>)
    requires AllSound(recs) && AllSound(dest) && n <= |recs|
  {
    && PicksTo(index, recs, b, from, n) && Copied(index, recs, from, added) && AllSound(added)
    && Scratch(index, dest, added, d, c)
    && AllSound(dest + added) && out == FileBytes(dest + added) && |out| <= |FileBytes(dest)| + StartOf(recs, n)
  }

  lemma CopyingStart(index: Index, recs: seq<Rec>, b: nat, dest: seq<Rec>, d: nat)
    requires AllSound(recs) && AllSound(dest)
    ensures Copying(index, recs, b, 0, dest, d, [], [], FileBytes(dest), map[])
  {
    hide Sound, FileBytes;
    assert dest + [] == dest;
  }

  lemma PicksMore(index: Index, recs: seq<Rec>, b: nat, from: seq<nat>, n: nat)
    requires AllSound(recs) && n < |recs| && PicksTo(index, recs, b, from, n)
    ensures Survivor(index, recs, b, n) ==> PicksTo(index, recs, b, from + [n], n + 1)
    ensures !Survivor(index, recs, b, n) ==> PicksTo(index, recs, b, from, n + 1)
  {
    hide AllSound, Survivor;
    var more := from + [n];
    forall j: nat | j < n + 1 && Survivor(index, recs, b, j) && j < n ensures j in from && j in more {
      assert more[..|from|] == from;
    }
    if Survivor(index, recs, b, n) {
      assert more[|from|] == n;
    }
  }

  lemma CopiedMore(index: Index, recs: seq<Rec>, from: seq<nat>, added: seq<Rec>, n: nat, s: Rec)
    requires Copied(index, recs, from, added) && CopiedAt(index, recs, n, s)
    ensures Copied(index, recs, from + [n], added + [s])
  {
    hide CopiedAt;
  }

  lemma NewStartStable(dest: seq<Rec>, added: seq<Rec>, s: Rec, x: nat)
    requires AllSound(dest) && AllSound(added) && Sound(s) && x <= |added|
    ensures AllSound(added + [s]) && AllSound(dest + added)
    ensures NewStart(dest, added + [s], x)
      == if x < |added| then NewStart(dest, added, x) else |FileBytes(dest + added)|
  {
    hide Sound, FileBytes;
    AllSoundConcat(added, [s]);
    AllSoundConcat(dest, added);
    AllSoundConcat(dest, added + [s]);
    var a, b := dest + added, dest + (added + [s]);
    assert a <= b;
    assert b[..|dest| + x] == a[..|dest| + x];
    if x == |added| { assert a[..|dest| + x] == a; }
  }

  /** The scratch tree when a survivor has been noted. */
  lemma ScratchSurvivor(index: Index, dest: seq<Rec>, added: seq<Rec>, d: nat, c: map<Key, Entry>, s: Rec)
    requires AllSound(dest) && AllSound(added) && Sound(s) && Scratch(index, dest, added, d, c) && Live(index, s.key)
    requires !Within(added, s.key)
    ensures AllSound(dest + added) && AllSound(added + [s])
    ensures Scratch(index, dest, added + [s], d, c[s.key := index[s.key].(pos := |FileBytes(dest + added)| + d)])
  {
    hide Sound, FileBytes, NewStart;
    AllSoundConcat(added, [s]);
    AllSoundConcat(dest, added);
    var added', c' := added + [s], c[s.key := index[s.key].(pos := |FileBytes(dest + added)| + d)];
    forall x | 0 <= x < |added'| ensures Noted(index, added'[x].key, NewStart(dest, added', x) + d, c') {
      NewStartStable(dest, added, s, x);
      if x < |added| {
        assert Noted(index, added[x].key, NewStart(dest, added, x) + d, c);
        assert added'[x] == added[x];
      } else {
        assert added'[x] == s;
      }
    }
    forall k | k in c' && !Within(added', k) ensures k in index && index[k].ver < 0 && c'[k] == index[k].(pos := 0) {
      assert added'[|added|].key == s.key;
      WithinMore(added, s, k);
    }
  }

  lemma WithinMore(added: seq<Rec>, s: Rec, k: Key)
    ensures Within(added + [s], k) <==> Within(added, k) || s.key == k
  {
    if Within(added, k) {
      var x :| 0 <= x < |added| && added[x].key == k;
      assert (added + [s])[x].key == k;
    }
    if s.key == k { assert (added + [s])[|added|].key == k; }
  }

  lemma ScratchTombstone(index: Index, dest: seq<Rec>, added: seq<Rec>, d: nat, c: map<Key, Entry>, k: Key)
    requires AllSound(dest) && AllSound(added) && Scratch(index, dest, added, d, c) && k in index && index[k].ver < 0
    ensures Scratch(index, dest, added, d, c[k := index[k].(pos := 0)])
  {
    hide AllSound, NewStart;
    forall x | 0 <= x < |added|
      ensures Noted(index, added[x].key, NewStart(dest, added, x) + d, c[k := index[k].(pos := 0)])
    {
      assert Noted(index, added[x].key, NewStart(dest, added, x) + d, c);
    }
  }

  lemma NotYetAdded(index: Index, recs: seq<Rec>, b: nat, n: nat, from: seq<nat>, added: seq<Rec>)
    requires AllSound(recs) && n < |recs| && PicksTo(index, recs, b, from, n) && Copied(index, recs, from, added)
    requires Survivor(index, recs, b, n)
    ensures !Within(added, recs[n].key)
  {
    hide Sound, StartOf, Plain;
    forall x | 0 <= x < |added| ensures added[x].key != recs[n].key {
      assert CopiedAt(index, recs, from[x], added[x]);
      SurvivorsDiffer(index, recs, b, from[x], n);
    }
  }

  lemma CopySurvivor(index: Index, recs: seq<Rec>, b: nat, n: nat, dest: seq<Rec>, d: nat,
                     from: seq<nat>, added: seq<Rec>, out: seq<byte>, c: map<Key, Entry>, s: Rec)
    requires AllSound(recs) && AllSound(dest) && n < |recs| && Copying(index, recs, b, n, dest, d, from, added, out, c)
    requires Survivor(index, recs, b, n) && Rewrites(recs[n], index[recs[n].key].ver, s)
    requires RecordLength(s) <= RecordLength(recs[n])
    ensures Copying(index, recs, b, n + 1, dest, d, from + [n], added + [s], out + Wire(s),
                    c[s.key := index[s.key].(pos := |out| + d)])
  {
    hide HasPlain, RecOk, FileBytes, StartOf, Plain, RecordLength, Wire, Survivor, Scratch, PicksTo, Copied;
    SurvivorLive(index, recs, b, n);
    PicksMore(index, recs, b, from, n);
    CopiedMore(index, recs, from, added, n, s);
    NotYetAdded(index, recs, b, n, from, added);
    ScratchSurvivor(index, dest, added, d, c, s);
    FileSplits(recs, n);
    assert dest + (added + [s]) == (dest + added) + [s];
    FileBytesOne(s);
    FileBytesConcat(dest + added, [s]);
  }

  lemma SurvivorLive(index: Index, recs: seq<Rec>, b: nat, n: nat)
    requires AllSound(recs) && n < |recs| && Survivor(index, recs, b, n)
    ensures Live(index, recs[n].key)
  {
  }

  /** A record that is not copied; `note` says that it is a tombstone its key is dead at. */
  lemma CopySkip(index: Index, recs: seq<Rec>, b: nat, n: nat, dest: seq<Rec>, d: nat,
                 from: seq<nat>, added: seq<Rec>, out: seq<byte>, c: map<Key, Entry>, note: bool)
    requires AllSound(recs) && AllSound(dest) && n < |recs| && Copying(index, recs, b, n, dest, d, from, added, out, c)
    requires !Survivor(index, recs, b, n) && (note ==> recs[n].key in index && index[recs[n].key].ver < 0)
    ensures Copying(index, recs, b, n + 1, dest, d, from, added, out,
                    if note then c[recs[n].key := index[recs[n].key].(pos := 0)] else c)
  {
    hide HasPlain, RecOk, FileBytes, StartOf, Survivor, Scratch, PicksTo, Copied, RecordLength;
    PicksMore(index, recs, b, from, n);
    FileSplits(recs, n);
    if note { ScratchTombstone(index, dest, added, d, c, recs[n].key); }
  }

  method UpdateIndex(index: Index, out: seq<Visited>) returns (r: Index)
    ensures r == UpdateItems(index, out)
  {
    r := index;
    var j := 0;
    while j < |out|
      invariant 0 <= j <= |out| && r == UpdateItems(index, out[..j])
    {
      assert out[..j + 1][..j] == out[..j];
      var v := out[j];
      if v.key in r {
        var p := r[v.key];
        if v.e.pos != p.pos && v.e.ver == p.ver {
          if v.e.ver > 0 {
            r := r[v.key := Entry(v.e.pos, p.ver, p.hash)];
          } else {
            r := r - {v.key};
          }
        }
      } else {
        r := r[v.key := v.e];
      }
      j := j + 1;
    }
    assert out[..j] == out;
  }

  // ---- The hint of the target -------------------------------------------------------------------

  /** What a collection of whole stores guarantees of the survivors of a file: the index has the hash
      of their value, and the target has no record of their keys. */
  ghost predicate Collectable(index: Index, recs: seq<Rec>, b: nat, dest: seq<Rec>)
    requires AllSound(recs)
  {
    forall j: nat :: j < |recs| && Survivor(index, recs, b, j) ==>
      Sound(recs[j]) && index[recs[j].key].hash == GenHash(Plain(recs[j]).value) && NoKey(dest, recs[j].key)
  }

  lemma EnumeratesMore(out: seq<Visited>, c: map<Key, Entry>, v: Visited)
    requires Enumerates(out, c) && v.key !in c
    ensures Enumerates(out + [v], c[v.key := v.e])
  {
    var more, c' := out + [v], c[v.key := v.e];
    forall k | k in c' ensures exists j :: 0 <= j < |more| && more[j].key == k {
      if k == v.key {
        assert more[|out|].key == k;
      } else {
        var j :| 0 <= j < |out| && out[j].key == k;
        assert more[j].key == k;
      }
    }
  }

  /** A record with a new key, appended to the file and to its hint. */
  lemma HintMore(buf: seq<byte>, recs: seq<Rec>, d: byte, s: Rec, v: Visited)
    requires AllSound(recs) && Sound(s) && HintOf(buf, Latest(recs, d)) && NoKey(recs, s.key) && CheckKey(s.key)
    requires v == Visited(s.key, EntryOf(s, |FileBytes(recs)|, d)) && Fits(v)
    ensures AllSound(recs + [s]) && HintOf(buf + HintRecord(v), Latest(recs + [s], d))
  {
    hide Sound, FileBytes, EntryOf, HintRecord, HintBytes, Fits, CheckKey, Enumerates;
    AllSoundConcat(recs, [s]);
    LatestNone(recs, d, s.key);
    var all := recs + [s];
    assert all[..|recs|] == recs;
    var out :| Enumerates(out, Latest(recs, d)) && AllFit(out) && buf == HintBytes(out);
    EnumeratesMore(out, Latest(recs, d), v);
    HintBytesSnoc(out, v);
  }

  lemma HintFits(buf: seq<byte>, recs: seq<Rec>, d: byte)
    requires AllSound(recs) && |FileBytes(recs)| <= MAX_DATA && HintOf(buf, Latest(recs, d))
    ensures |buf| <= |FileBytes(recs)|
  {
    hide Sound, FileBytes, HintBytes, Enumerates, Latest, AllFit;
    LatestReady(recs, d);
    var out :| Enumerates(out, Latest(recs, d)) && AllFit(out) && buf == HintBytes(out);
    ListedFits(out, Latest(recs, d), recs);
  }

  lemma NoHint(d: byte)
    ensures HintOf([], Latest([], d))
  {
    var none: seq<Visited> := [];
    assert Enumerates(none, map[]) && AllFit(none) && HintBytes(none) == [];
  }

  /** The hint entry of a survivor, ready to be appended. */
  lemma SurvivorHint(index: Index, recs: seq<Rec>, b: nat, n: nat, dest: seq<Rec>, d: byte,
                     from: seq<nat>, added: seq<Rec>, out: seq<byte>, c: map<Key, Entry>, s: Rec, buf: seq<byte>)
    requires AllSound(recs) && AllSound(dest) && n < |recs| && Copying(index, recs, b, n, dest, d, from, added, out, c)
    requires Survivor(index, recs, b, n) && Rewrites(recs[n], index[recs[n].key].ver, s)
    requires Collectable(index, recs, b, dest)
    requires IndexOk(index) && |out| + 256 < TWO_32 && AllSound(dest + added) && HintOf(buf, Latest(dest + added, d))
    ensures var v := Visited(s.key, index[s.key].(pos := |out| + d as int));
      Fits(v) && AllSound(dest + (added + [s])) && HintOf(buf + HintRecord(v), Latest(dest + (added + [s]), d))
  {
    hide HasPlain, RecOk, FileBytes, StartOf, Plain, Scratch, PicksTo, Copied, HintOf, Latest, CheckKey, GenHash;
    hide HintRecord;
    SurvivorLive(index, recs, b, n);
    NotYetAdded(index, recs, b, n, from, added);
    IndexEntryOk(index, s.key);
    KeyLength(s.key);
    var v := Visited(s.key, index[s.key].(pos := |out| + d as int));
    assert v.e == EntryOf(s, |FileBytes(dest + added)|, d);
    NoKeyConcat(dest, added, s.key);
    HintMore(buf, dest + added, d, s, v);
    assert dest + (added + [s]) == (dest + added) + [s];
  }

  lemma NoKeyConcat(a: seq<Rec>, b: seq<Rec>, k: Key)
    requires NoKey(a, k) && !Within(b, k)
    ensures NoKey(a + b, k)
  {
  }

  ghost predicate NoSurvivor(index: Index, recs: seq<Rec>, b: nat)
    requires AllSound(recs)
  {
    forall j: nat :: j < |recs| ==> !Survivor(index, recs, b, j)
  }

  /** A survivor: noted in the scratch tree and in the hint, and written again. */
  method CopyRecord(cur: HTree, index: Index, r: Rec, b: byte, d: byte, out: seq<byte>, buf: seq<byte>, memory: bool,
                    ghost recs: seq<Rec>, ghost n: nat, ghost base: seq<Rec>, ghost from: seq<nat>,
                    ghost added: seq<Rec>, ghost c: map<Key, Entry>)
    returns (out': seq<byte>, buf': seq<byte>, ghost s: Rec, ghost c': map<Key, Entry>)
    requires TreeIs(cur, c) && cur.depth == 0 && IndexOk(index) && AllSound(recs) && AllSound(base) && n < |recs|
    requires r == recs[n] && Sound(r) && Survivor(index, recs, b, n) && r.key in index && |out| + 256 < TWO_32
    requires Copying(index, recs, b, n, base, d, from, added, out, c) && Collectable(index, recs, b, base)
    requires AllSound(base + added) && HintOf(buf, Latest(base + added, d))
    modifies cur, cur.dc
    ensures TreeIs(cur, c') && |out'| <= |out| + RecordLength(r)
    ensures Copying(index, recs, b, n + 1, base, d, from + [n], added + [s], out', c')
    ensures AllSound(base + (added + [s])) && HintOf(buf', Latest(base + (added + [s]), d))
  {
    hide TreeIs, HasPlain, RecOk, FileBytes, StartOf, Plain, Wire, Survivor, Copying, CheckKey, IndexOk, Rewrites;
    hide RecordLength, Collectable, HintOf, Latest, HintRecord, Fits, AllSound;
    var e := index[r.key].(pos := |out| + d);
    IndexEntryOk(index, r.key);
    c' := NoteInTree(cur, r.key, e, c);
    var bs;
    bs, s := EncodeAgain(r, e.ver, memory);
    SurvivorHint(index, recs, b, n, base, d, from, added, out, c, s, buf);
    CopySurvivor(index, recs, b, n, base, d, from, added, out, c, s);
    out', buf' := out + bs, buf + HintRecord(Visited(r.key, e));
  }

  /** The hint that the new one starts with: the target's, or an empty one. */
  method StartHint(destHint: seq<byte>, d: byte, empty: bool, ghost recs: seq<Rec>) returns (buf: seq<byte>)
    requires AllSound(recs) && (if empty then FileBytes(recs) == [] else TreeHint(destHint, Latest(recs, d)))
    ensures HintOf(buf, Latest(recs, d))
  {
    hide HintOf, Latest, Holds, FileBytes, AllSound;
    if empty {
      buf := [];
      EmptyFile(recs);
      NoHint(d);
    } else {
      ghost var was :| HintOf(was, Latest(recs, d)) && Holds(destHint, was);
      buf := OpenHint(destHint, was);
    }
  }

  method FinishHint(buf: seq<byte>, d: byte, ghost recs: seq<Rec>) returns (hint: seq<byte>)
    requires AllSound(recs) && |FileBytes(recs)| <= MAX_DATA && HintOf(buf, Latest(recs, d))
    ensures TreeHint(hint, Latest(recs, d))
  {
    hide HintOf, Latest, Holds, FileBytes, AllSound;
    HintFits(buf, recs, d);
    hint := WriteHintFile(buf);
  }

  /** optimizeDataFile without tombstone retention. `dest` is the target's present content and
      `destHint` its hint, which are appended to unless a temporary file takes their place; `hinted`
      says whether the hint can be opened. On 1 nothing has changed. */
  method OptimizeDataFile(index: Index, b: byte, d: byte, src: seq<byte>, dest: seq<byte>, destHint: seq<byte>,
                          useTmp: bool, hinted: bool, max: nat, memory: nat -> bool,
                          ghost recs: seq<Rec>, ghost destRecs: seq<Rec>)
    returns (ret: int, out: seq<byte>, hint: seq<byte>, index': Index, ghost from: seq<nat>, ghost added: seq<Rec>)
    requires AllSound(recs) && AllSound(destRecs) && src == FileBytes(recs) && dest == FileBytes(destRecs)
    requires IndexOk(index) && |dest| <= max <= MAX_DATA
    requires Collectable(index, recs, b, if useTmp then [] else destRecs)
    requires !useTmp && |dest| > 0 && hinted ==> TreeHint(destHint, Latest(destRecs, d))
    ensures ret == 0 || ret == 1
    ensures ret == 1 ==> out == dest && hint == destHint && index' == index
    ensures ret == 0 ==>
      var base := if useTmp then [] else destRecs;
      && Picks(index, recs, b, from) && Copied(index, recs, from, added) && AllSound(added)
      && AllSound(base + added) && out == FileBytes(base + added) && |out| <= |FileBytes(base)| + |src| && |out| <= max
      && Relocated(index, index', base, added, d) && TreeHint(hint, Latest(base + added, d))
    ensures useTmp && |src| <= max ==> ret == 0
    ensures (hinted || |dest| == 0) && |dest| + |src| <= max ==> ret == 0
    ensures (useTmp || hinted || |dest| == 0) && NoSurvivor(index, recs, b) ==> ret == 0
  {
    hide TreeIs, HasPlain, RecOk, FileBytes, DecodeBytes, StartOf, Plain, Wire, Survivor, Copying, CheckKey, IndexOk;
    hide Stored, Rewrites, RecordLength, Collectable, HintOf, Latest, TreeHint, HintRecord, Fits, Relocated, Picks;
    hide Copied;
    ghost var base := if useTmp then [] else destRecs;
    from, added, index' := [], [], index;
    NoRecords();
    out, hint := dest, destHint;
    if !useTmp && |dest| > 0 && !hinted {
      return 1, out, hint, index', from, added;
    }
    var buf := StartHint(destHint, d, useTmp || |dest| == 0, base);
    out := if useTmp then [] else dest;
    var cur := NewTree(0, true);
    ghost var c: map<Key, Entry> := map[];
    var p := 0;
    ghost var n := 0;
    CopyingStart(index, recs, b, base, d);
    assert base + added == base;
    ScanEnds(recs, 0);
    while p < |src|
      invariant 0 <= n <= |recs| && p == StartOf(recs, n) && (p < |src| <==> n < |recs|) && StartOf(recs, n) <= |src|
      invariant TreeIs(cur, c) && cur.depth == 0 && fresh(cur) && fresh(cur.dc)
      invariant Copying(index, recs, b, n, base, d, from, added, out, c) && |out| <= max
      invariant AllSound(base + added) && HintOf(buf, Latest(base + added, d))
      decreases |src| - p
    {
      RecordAt(recs, n);
      var dec := DecodeRecord(src[p..]);
      var r := dec.rec;
      assert r == recs[n] && Sound(r);
      SurvivorIs(index, recs, b, n);
      if r.key in index && index[r.key].pos == p + b as int && index[r.key].ver > 0 {
        var newPos := |out|;
        if newPos + RecordLength(r) > max {
          CopyingSize(index, recs, b, n, base, d, from, added, out, c);
          return 1, dest, hint, index, from, added;
        }
        ghost var s;
        out, buf, s, c := CopyRecord(cur, index, r, b, d, out, buf, memory(p), recs, n, base, from, added, c);
        from, added := from + [n], added + [s];
      } else {
        var note := r.key in index && index[r.key].pos == p + b as int && index[r.key].ver < 0;
        CopySkip(index, recs, b, n, base, d, from, added, out, c, note);
        if note {
          IndexEntryOk(index, r.key);
          c := NoteInTree(cur, r.key, index[r.key].(pos := 0), c);
        }
      }
      p := p + RecordLength(r);
      n := n + 1;
      ScanEnds(recs, n);
    }
    var visited := VisitTree(cur, c);
    index' := UpdateIndex(index, visited);
    CopyingDone(index, recs, b, base, d, from, added, out, c, visited);
    hint := FinishHint(buf, d, base + added);
    ret := 0;
  }

  lemma EmptyFile(recs: seq<Rec>)
    requires AllSound(recs) && FileBytes(recs) == []
    ensures recs == []
  {
    hide Sound, FileBytes;
    if recs != [] { SomethingBuffered(recs); }
  }

  lemma CopyingDone(index: Index, recs: seq<Rec>, b: nat, dest: seq<Rec>, d: nat,
                    from: seq<nat>, added: seq<Rec>, out: seq<byte>, c: map<Key, Entry>, visited: seq<Visited>)
    requires AllSound(recs) && AllSound(dest) && Copying(index, recs, b, |recs|, dest, d, from, added, out, c)
    requires Enumerates(visited, c)
    ensures Picks(index, recs, b, from) && Copied(index, recs, from, added) && AllSound(added)
    ensures AllSound(dest + added) && out == FileBytes(dest + added) && |out| <= |FileBytes(dest)| + |FileBytes(recs)|
    ensures Relocated(index, UpdateItems(index, visited), dest, added, d)
  {
    hide Sound, FileBytes, Scratch, PicksTo, Copied, Enumerates, Relocated;
    assert recs[..|recs|] == recs;
    UpdateRelocates(index, dest, added, d, c, visited);
  }

  lemma CopyingSize(index: Index, recs: seq<Rec>, b: nat, n: nat, dest: seq<Rec>, d: nat,
                    from: seq<nat>, added: seq<Rec>, out: seq<byte>, c: map<Key, Entry>)
    requires AllSound(recs) && AllSound(dest) && n <= |recs| && Copying(index, recs, b, n, dest, d, from, added, out, c)
    ensures |out| <= |FileBytes(dest)| + StartOf(recs, n)
  {
  }

  lemma ScanEnds(recs: seq<Rec>, n: nat)
    requires AllSound(recs) && n <= |recs|
    ensures StartOf(recs, n) <= |FileBytes(recs)| && (StartOf(recs, n) < |FileBytes(recs)| <==> n < |recs|)
    ensures StartOf(recs, 0) == 0
  {
    hide Sound, RecordLength, DecodeBytes;
    if n < |recs| { RecordAt(recs, n); } else { assert recs[..n] == recs; }
  }

  lemma SurvivorIs(index: Index, recs: seq<Rec>, b: nat, n: nat)
    requires AllSound(recs) && n < |recs|
    ensures Survivor(index, recs, b, n) <==>
      recs[n].key in index && index[recs[n].key].ver > 0 && index[recs[n].key].pos == StartOf(recs, n) + b
  {
    hide Sound, StartOf;
  }

  lemma IndexEntryOk(index: Index, k: Key)
    requires IndexOk(index) && k in index
    ensures CheckKey(k) && KeyOk(k) && -TWO_31 <= index[k].ver < TWO_31
  {
    CheckedKeyOk(k);
  }

  method NoteInTree(cur: HTree, key: Key, e: Entry, ghost c: map<Key, Entry>) returns (ghost c': map<Key, Entry>)
    requires TreeIs(cur, c) && cur.depth == 0 && KeyOk(key)
    modifies cur, cur.dc
    ensures TreeIs(cur, c') && c' == c[key := e]
  {
    hide TreeIs, KeyOk;
    c' := Add(cur, 0, key, e, c);
  }

  method EncodeAgain(r: Rec, ver: int, memory: bool) returns (bs: seq<byte>, ghost s: Rec)
    requires Sound(r) && -TWO_31 <= ver < TWO_31
    ensures Rewrites(r, ver, s) && RecordLength(s) <= RecordLength(r) && bs == Wire(s) && s.key == r.key
  {
    hide Stored, Wire, RecordLength;
    bs, s := EncodeRecord(r.(version := ver), memory);
    RewriteKeeps(r, ver, memory, s);
  }
}
