/** The byte formats and hashes, field by field and with known values: what another program that reads the
    files, or a replica that compares hashes, relies on. */
module Formats {
  import opened Bytes
  import opened KeyCodec
  import opened HTreeLeaf
  import opened HTreePool
  import opened SyncHash
  import opened HTreeApi
  import Tokens = QuickLzTokens
  import opened QuickLzCompress
  import opened Crc32
  import opened Record
  import opened Hint
  import Fnv1a
  import opened CodecDump
  import opened DataFile
  import Snapshot

  // ---- Numbers ------------------------------------------------------------------------------------

  /** The lowest byte comes first. */
  lemma LittleEndian(x: int)
    requires 0 <= x < TWO_32
    ensures var bs := Le32(x);
      bs[0] as int + 0x100 * bs[1] as int + 0x1_0000 * bs[2] as int + 0x100_0000 * bs[3] as int == x
  {
  }

  lemma LowByteFirst()
    ensures Le32(0x0102_0304) == [4, 3, 2, 1] && Le16(0x0102) == [2, 1]
  {
  }

  // ---- Hashes of keys and values ------------------------------------------------------------------

  lemma MixLetter(s: seq<byte>)
    requires s == [97]
    ensures Fnv1a.Mix(0x811c_9dc5, s) == 0xe40c_292c
  {
    assert s[0] == 97 && s[1..] == [];
    assert Fnv1a.Widen(97) == 97;
  }

  lemma MixNegative(s: seq<byte>)
    requires s == [200]
    ensures Fnv1a.Mix(0x811c_9dc5, s) == 0xccf3_5a77
  {
    assert s[0] == 200 && s[1..] == [];
    assert Fnv1a.Widen(200) == 0xffff_ffc8;
  }

  /** Published values of 32-bit FNV-1a, and a byte that a signed char makes negative. */
  lemma FnvValues()
    ensures Fnv1a.Hash([]) == 0x811c_9dc5 && Fnv1a.Hash([97]) == 0xe40c_292c && Fnv1a.Hash([200]) == 0xccf3_5a77
  {
    hide Fnv1a.Mix;
    MixNone(0x811c_9dc5);
    MixLetter([97]);
    MixNegative([200]);
  }

  lemma MixNone(h: bv32)
    ensures Fnv1a.Mix(h, []) == h
  {
  }

  /** The hash of a value of one byte. */
  lemma ValueHash()
    ensures GenHash([97]) == 10637
  {
    hide Fnv1a.Hash;
    FnvValues();
  }

  /** Long values differ in their hashes by their lengths, their first and their last 512 bytes alone. */
  lemma LongValueHash(u: seq<byte>, v: seq<byte>)
    requires |u| > 1024 && |v| > 1024
    ensures (GenHash(u) - GenHash(v)) % TWO_16
      == (9409 * (|u| - |v|) + 97 * (Fnv1a.Hash(u[..512]) - Fnv1a.Hash(v[..512]))
          + (Fnv1a.Hash(u[|u| - 512..]) - Fnv1a.Hash(v[|v| - 512..]))) % TWO_16
  {
    hide Fnv1a.Hash;
    var x := (|u| * 97 + Fnv1a.Hash(u[..512])) * 97 + Fnv1a.Hash(u[|u| - 512..]);
    var y := (|v| * 97 + Fnv1a.Hash(v[..512])) * 97 + Fnv1a.Hash(v[|v| - 512..]);
    CutDifference(x, y);
  }

  lemma CutDifference(x: int, y: int)
    ensures (x % TWO_16 - y % TWO_16) % TWO_16 == (x - y) % TWO_16
  {
    var a, b, d := x / TWO_16, y / TWO_16, x % TWO_16 - y % TWO_16;
    DivMod(d + TWO_16 * (a - b), TWO_16, d / TWO_16 + (a - b), d % TWO_16);
  }

  // ---- Digits of a key hash -----------------------------------------------------------------------

  /** The number that the first `n` digits make. */
  function Leading(h: int, n: nat): nat
    requires 0 <= h
  {
    if n == 0 then 0 else 16 * Leading(h, n - 1) + Nibble(0, h, n - 1)
  }

  lemma {:induction false} LeadingIs(h: int, n: nat)
    requires 0 <= h < TWO_32 && n <= 8
    ensures Leading(h, n) == h / Pow16(8 - n)
    decreases n
  {
    if n > 0 {
      LeadingIs(h, n - 1);
      DivDiv(h, Pow16(8 - n));
    } else {
      Sixteenth8();
    }
  }

  lemma Sixteenth8()
    ensures Pow16(8) == TWO_32
  {
    assert Pow16(4) == 65536;
  }

  lemma DivDiv(h: nat, p: nat)
    requires p > 0
    ensures h / p == 16 * (h / (16 * p)) + h / p % 16
  {
    var y, t := h / p, h % p;
    var q, r := y / 16, y % 16;
    assert h == p * y + t;
    Regroup(p, q, r, t);
    DivMod(h, 16 * p, q, p * r + t);
  }

  lemma Regroup(p: nat, q: nat, r: nat, t: nat)
    requires r < 16 && t < p
    ensures p * (16 * q + r) + t == 16 * p * q + (p * r + t) && 0 <= p * r + t < 16 * p
  {
    assert p * r <= p * 15;
  }

  /** The eight digits are the hash, highest first; a tree `td` digits down goes on from there. */
  lemma DigitsAreHash(h: int, td: nat, d: nat)
    requires 0 <= h < TWO_32
    ensures Leading(h, 8) == h && Nibble(td, h, d) == Nibble(0, h, td + d)
  {
    LeadingIs(h, 8);
    assert Pow16(0) == 1;
  }

  /** A tree serves the keys whose hashes begin with its number. */
  lemma BucketIsPrefix(td: nat, pos: int, key: Key)
    requires td <= 8
    ensures InBucket(td, pos, key) <==> td == 0 || Leading(Fnv1a.Hash(key), td) == pos
  {
    hide Fnv1a.Hash;
    LeadingIs(Fnv1a.Hash(key), td);
  }

  // ---- The synchronisation hash -------------------------------------------------------------------

  function Power97(n: nat): nat {
    if n == 0 then 1 else 97 * Power97(n - 1)
  }

  /** The first `k` of `n` digit classes, the first with the highest power of 97. */
  ghost function Terms(td: nat, live: map<Key, Entry>, d: nat, n: nat, k: nat): int
    requires td + d <= 7 && k <= n
  {
    if k == 0 then 0
    else Terms(td, live, d, n, k - 1) + Power97(n - k) * Sync(td, Digit(td, live, d, k - 1), d + 1)
  }

  lemma {:induction false} TermsShift(td: nat, live: map<Key, Entry>, d: nat, n: nat, k: nat)
    requires td + d <= 7 && k <= n
    ensures Terms(td, live, d, n + 1, k) == 97 * Terms(td, live, d, n, k)
    decreases k
  {
    hide Sync, Digit;
    if k > 0 {
      TermsShift(td, live, d, n, k - 1);
      Distribute(Terms(td, live, d, n, k - 1), Power97(n - k), Sync(td, Digit(td, live, d, k - 1), d + 1));
    }
  }

  lemma Distribute(a: int, p: int, x: int)
    ensures 97 * a + 97 * p * x == 97 * (a + p * x)
  {
  }

  lemma {:induction false} FoldIsSum(td: nat, live: map<Key, Entry>, d: nat, n: nat)
    requires td + d <= 7
    ensures SyncFold(td, live, d, n) == U16(Terms(td, live, d, n, n))
    decreases n
  {
    hide Sync, Digit, U16;
    if n == 0 {
      assert U16(0) == 0 by { CutNothing(); }
    } else {
      FoldIsSum(td, live, d, n - 1);
      TermsShift(td, live, d, n - 1, n - 1);
      CutScaled(Terms(td, live, d, n - 1, n - 1), Sync(td, Digit(td, live, d, n - 1), d + 1));
    }
  }

  lemma CutNothing()
    ensures U16(0) == 0
  {
  }

  lemma CutScaled(x: int, y: int)
    ensures U16(U16(x) * 97 + y) == U16(97 * x + y)
  {
    var q, r := x / TWO_16, x % TWO_16;
    var z := r * 97 + y;
    DivMod(z + TWO_16 * (97 * q), TWO_16, z / TWO_16 + 97 * q, z % TWO_16);
  }

  /** The hash of more than 256 live entries: the hashes of the sixteen digit classes as digits to the
      base 97, cut to 16 bits. */
  lemma ManyEntries(td: nat, live: map<Key, Entry>, d: nat)
    requires td + d <= 7 && |live| > 256
    ensures Sync(td, live, d) == Terms(td, live, d, 16, 16) % 65536
  {
    hide Digit, Terms;
    FoldIsSum(td, live, d, 16);
  }

  /** The hash of one live entry. */
  lemma OneEntry(td: nat, k: Key, e: Entry, d: nat)
    requires e.ver > 0
    ensures Sync(td, map[k := e], d) == Fnv1a.Hash(k) * e.hash % 65536
  {
    hide Fnv1a.Hash;
    HashSumAt(map[k := e], k);
    assert map[k := e] - {k} == map[];
  }

  // ---- Records and hints --------------------------------------------------------------------------

  /** Where a reader finds the fields of a record. */
  lemma RecordFields(r: Rec)
    requires RecOk(r)
    ensures var bs, k, n := Wire(r), 24 + |r.key|, 24 + |r.key| + |r.value|;
      && |bs| % 256 == 0 && n <= |bs| < n + 256
      && Word(bs, 0) == Crc(0, bs[4..n]) as int
      && Word(bs, 4) == r.tstamp && Word(bs, 8) == r.flag
      && Word(bs, 12) == (if r.version < 0 then r.version + TWO_32 else r.version)
      && Word(bs, 16) == |r.key| && Word(bs, 20) == |r.value|
      && bs[24..k] == r.key && bs[k..n] == r.value && forall i :: n <= i < |bs| ==> bs[i] == 0
  {
    hide Crc, Le32, FromLe32;
    var bs, k, n := Wire(r), 24 + |r.key|, 24 + |r.key| + |r.value|;
    var body := Header(r) + r.key + r.value;
    assert bs[4..n] == body && bs[0..4] == Le32(Checksum(body));
    assert bs[4..8] == Le32(r.tstamp) && bs[8..12] == Le32(r.flag) && bs[12..16] == Le32(ToWord(r.version));
    assert bs[16..20] == Le32(|r.key|) && bs[20..24] == Le32(|r.value|);
    assert bs[24..k] == r.key && bs[k..n] == r.value;
  }

  /** Where a reader finds the fields of a hint record: the position counts blocks of 256 bytes. */
  lemma HintFields(v: Visited)
    requires Fits(v)
    ensures var bs := HintRecord(v);
      && |bs| == 11 + |v.key| && Word(bs, 0) % 256 == |v.key| && Word(bs, 0) / 256 == v.e.pos / 256
      && Word(bs, 4) == (if v.e.ver < 0 then v.e.ver + TWO_32 else v.e.ver) && FromLe16(bs[8..10]) == v.e.hash
      && bs[10..10 + |v.key|] == v.key && bs[10 + |v.key|] == 0
  {
    hide Le32, FromLe32, Le16, FromLe16;
    var bs := HintRecord(v);
    assert bs[0..4] == Le32(|v.key| + 256 * (v.e.pos / 256)) && bs[4..8] == Le32(ToWord(v.e.ver));
    assert bs[8..10] == Le16(v.e.hash) && bs[10..10 + |v.key|] == v.key;
    DivMod(|v.key| + 256 * (v.e.pos / 256), 256, v.e.pos / 256, |v.key|);
  }

  /** The keys that are accepted: up to 250 bytes without space or control, starting in ASCII. */
  lemma CheckedKeys(key: seq<byte>)
    ensures CheckKey(key) <==>
      0 < |key| <= 250 && 33 <= key[0] <= 126 && forall b :: b in key ==> 33 <= b <= 126 || 128 <= b
  {
    assert forall i :: 0 <= i < |key| ==> key[i] in key;
  }

  // ---- The saved tree -----------------------------------------------------------------------------

  /** Where a reader finds the fields of an item of a leaf. */
  lemma ItemFields(it: Item)
    requires Snapshot.ItemFits(it)
    ensures var bs := Snapshot.ItemBytes(it);
      && |bs| == 11 + |it.key| && Word(bs, 0) == it.e.pos
      && Word(bs, 4) == (if it.e.ver < 0 then it.e.ver + TWO_32 else it.e.ver) && FromLe16(bs[8..10]) == it.e.hash
      && bs[10] == |it.key| && bs[11..] == it.key
  {
    hide Le32, FromLe32, Le16, FromLe16;
    var bs := Snapshot.ItemBytes(it);
    assert bs[0..4] == Le32(it.e.pos) && bs[4..8] == Le32(ToWord(it.e.ver)) && bs[8..10] == Le16(it.e.hash);
  }

  lemma {:induction false} NodeSlice(pool: Pool, pointers: seq<seq<byte>>, from: nat, i: nat)
    requires Snapshot.PoolFits(pool) && Snapshot.Pointers(pointers, |pool|) && from <= i < |pool|
    ensures var bs, at := Snapshot.NodesFrom(pool, pointers, from), 16 * (i - from);
      at + 16 <= |bs| && bs[at..at + 16] == Snapshot.NodeBytes(pool[i], pointers[i])
    decreases i - from
  {
    hide Snapshot.NodeFits, Snapshot.NodeBytes;
    var rest := Snapshot.NodesFrom(pool, pointers, from + 1);
    var bs := Snapshot.NodesFrom(pool, pointers, from);
    assert bs == Snapshot.NodeBytes(pool[from], pointers[from]) + rest;
    if from < i {
      NodeSlice(pool, pointers, from + 1, i);
      var at := 16 * (i - from);
      assert bs[at..at + 16] == rest[at - 16..at];
    }
  }

  lemma NodeFields(n: Node, pointer: seq<byte>)
    requires Snapshot.NodeFits(n) && |pointer| == 8
    ensures var bs := Snapshot.NodeBytes(n, pointer);
      && FromLe16(bs[0..2]) == (if n.isNode then 1 else 0) + (if n.valid then 2 else 0) + 4 * n.depth
      && FromLe16(bs[2..4]) == n.hash && FromLe32(bs[4..8]) == n.count && bs[8..16] == pointer
  {
    hide Le32, FromLe32, Le16, FromLe16;
    var bs := Snapshot.NodeBytes(n, pointer);
    assert bs[0..2] == Le16(Snapshot.Flags(n)) && bs[2..4] == Le16(n.hash) && bs[4..8] == Le32(n.count);
  }

  /** The head of a saved tree: its version, its own length, the height and then the nodes. */
  lemma SavedHead(height: nat, pool: Pool, pointers: seq<seq<byte>>, dict: Dict)
    requires Snapshot.Fits(height, pool, pointers, dict)
    ensures var bs := Snapshot.File(height, pool, pointers, dict);
      && 21 <= |bs| && bs[..9] == [72, 84, 82, 69, 69, 48, 48, 49, 0]
      && Word(bs, 9) + TWO_32 * Word(bs, 13) == |bs| && Word(bs, 17) == height
      && Snapshot.NodesFrom(pool, pointers, 0) <= bs[21..] && Dump(dict) <= bs[|bs| - |Dump(dict)|..]
  {
    hide Le32, FromLe32, Dump, Snapshot.NodesFrom, Snapshot.DatasFrom, Snapshot.PoolFits, DictOk;
    var bs, body := Snapshot.File(height, pool, pointers, dict), Snapshot.Body(height, pool, pointers, dict);
    var size := 17 + |body|;
    assert bs[9..13] == Le32(size % TWO_32) && bs[13..17] == Le32(size / TWO_32) && bs[17..21] == Le32(height);
    assert bs[17..] == body;
    assert bs[21..] == body[4..];
  }

  /** The fields of node `i` of a saved tree. */
  lemma SavedNode(height: nat, pool: Pool, pointers: seq<seq<byte>>, dict: Dict, i: nat)
    requires Snapshot.Fits(height, pool, pointers, dict) && i < |pool|
    ensures var bs, at := Snapshot.File(height, pool, pointers, dict), 21 + 16 * i;
      && at + 16 <= |bs| && FromLe16(bs[at..at + 2])
        == (if pool[i].isNode then 1 else 0) + (if pool[i].valid then 2 else 0) + 4 * pool[i].depth
      && FromLe16(bs[at + 2..at + 4]) == pool[i].hash && Word(bs, at + 4) == pool[i].count
  {
    hide FromLe32, FromLe16, Snapshot.NodesFrom, Snapshot.DatasFrom, Snapshot.NodeBytes, Snapshot.File, DictOk;
    hide Snapshot.NodeFits;
    SavedHead(height, pool, pointers, dict);
    NodeSlice(pool, pointers, 0, i);
    assert pool[i] in pool && Snapshot.NodeFits(pool[i]);
    NodeFields(pool[i], pointers[i]);
    PartOfSlice(Snapshot.File(height, pool, pointers, dict), 21, Snapshot.NodesFrom(pool, pointers, 0), 16 * i);
  }

  lemma PartOfSlice(bs: seq<byte>, from: nat, part: seq<byte>, at: nat)
    requires from <= |bs| && part <= bs[from..] && at + 16 <= |part|
    ensures var node, p := part[at..at + 16], from + at;
      && p + 16 <= |bs|
      && node[0..2] == bs[p..p + 2] && node[2..4] == bs[p + 2..p + 4] && node[4..8] == bs[p + 4..p + 8]
  {
    var p := from + at;
    assert part[at..at + 16] == bs[from..][at..at + 16] == bs[p..p + 16];
    SubSlice(bs, p, 0, 2);
    SubSlice(bs, p, 2, 4);
    SubSlice(bs, p, 4, 8);
  }

  lemma SubSlice(bs: seq<byte>, p: nat, i: nat, j: nat)
    requires i <= j <= 16 && p + 16 <= |bs|
    ensures bs[p..p + 16][i..j] == bs[p + i..p + j]
  {
    var a, b := bs[p..p + 16][i..j], bs[p + i..p + j];
    assert |a| == |b| && forall k :: 0 <= k < |a| ==> a[k] == bs[p..p + 16][i + k] == b[k];
  }

  predicate FmtAt(bs: seq<byte>, at: nat, f: Fmt) {
    && at + |f.fmt| + 3 <= |bs| && bs[at] == |f.fmt| + 2 && bs[at + 1] == f.nargs
    && bs[at + 2..at + 2 + |f.fmt|] == f.fmt && bs[at + 2 + |f.fmt|] == 0
  }

  /** From `at` to the end, one after the other. */
  predicate FmtsAt(bs: seq<byte>, at: nat, fmts: seq<Fmt>)
    decreases |fmts|
  {
    if fmts == [] then at == |bs|
    else FmtAt(bs, at, fmts[0]) && FmtsAt(bs, at + |fmts[0].fmt| + 3, fmts[1..])
  }

  lemma {:induction false} DumpedFmts(dict: Dict, i: nat, head: seq<byte>)
    requires Dumpable(dict) && 1 <= i <= |dict|
    ensures FmtsAt(head + DumpFrom(dict, i), |head|, dict[i..])
    decreases |dict| - i
  {
    hide FmtAt;
    if i < |dict| {
      var f, rest := DumpFmt(dict[i]), DumpFrom(dict, i + 1);
      assert head + DumpFrom(dict, i) == head + f + rest;
      assert dict[i..][1..] == dict[i + 1..];
      OneFmt(dict[i], head, rest);
      DumpedFmts(dict, i + 1, head + f);
    } else {
      assert head + [] == head;
    }
  }

  lemma OneFmt(f: Fmt, head: seq<byte>, rest: seq<byte>)
    requires f.nargs < 256 && |f.fmt| < 254
    ensures FmtAt(head + DumpFmt(f) + rest, |head|, f)
  {
    var bs, at := head + DumpFmt(f) + rest, |head|;
    assert bs[at..at + |f.fmt| + 3] == DumpFmt(f);
    assert bs[at + 2..at + 2 + |f.fmt|] == DumpFmt(f)[2..2 + |f.fmt|] == f.fmt;
  }

  /** The dictionary after the tree: how many formats, then the size, arguments and text of each. */
  lemma DictFields(dict: Dict)
    requires Dumpable(dict)
    ensures var bs := Dump(dict); 4 <= |bs| && Word(bs, 0) == |dict| && FmtsAt(bs, 4, dict[1..])
  {
    hide Le32, FromLe32, FmtsAt;
    assert Dump(dict)[0..4] == Le32(|dict|);
    DumpedFmts(dict, 1, Le32(|dict|));
  }

  // ---- Compressed data ----------------------------------------------------------------------------

  /** The bucket of three bytes: the upper half of their bits against the lower. */
  lemma BucketOfBytes()
    ensures HashFunc(0x12_3456) == 0x575
  {
    assert 0x12_3456 / 4096 == 0x123 && 0x12_3456 % 4096 == 0x456;
    assert (0x123 as bv12) ^ (0x456 as bv12) == 0x575;
  }

  /** The five encodings of a match, the shortest that fits. */
  lemma MatchBytes()
    ensures Tokens.TokenBytes(Tokens.Match(63, 3)) == [252]
    ensures Tokens.TokenBytes(Tokens.Match(64, 3)) == [1, 1]
    ensures Tokens.TokenBytes(Tokens.Match(1023, 18)) == [254, 255]
  {
  }

  lemma LongMatchBytes()
    ensures Tokens.TokenBytes(Tokens.Match(1024, 33)) == [127, 0, 2]
    ensures Tokens.TokenBytes(Tokens.Match(3, 255)) == [3, 254, 1, 0]
  {
  }

  lemma NextFlag(t: Tokens.Token, rest: seq<Tokens.Token>, room: nat)
    ensures Tokens.Word([t] + rest, room + 1) == (if t.Match? then 1 else 0) + 2 * Tokens.Word(rest, room)
  {
    assert ([t] + rest)[1..] == rest;
  }

  lemma {:induction false} EmptyWord(room: nat)
    ensures Tokens.Word([], room) == Pow2(room)
  {
    if room > 0 { EmptyWord(room - 1); }
  }

  /** The flags of the tokens of a group come lowest first, below a marker bit. */
  lemma ControlBytes()
    ensures Tokens.ControlWord([Tokens.Match(3, 4), Tokens.Lit(7), Tokens.Match(9, 5)]) == [5, 0, 0, 128]
  {
    var third := [Tokens.Match(9, 5)];
    var second := [Tokens.Lit(7)] + third;
    var all := [Tokens.Match(3, 4)] + second;
    assert all == [Tokens.Match(3, 4), Tokens.Lit(7), Tokens.Match(9, 5)];
    NextFlag(Tokens.Match(3, 4), second, 30);
    NextFlag(Tokens.Lit(7), third, 29);
    assert third == third + [];
    NextFlag(Tokens.Match(9, 5), [], 28);
    EmptyWord(28);
    Tokens.Pow2Group();
  }

  // ---- Indices of formats -------------------------------------------------------------------------

  /** Negative bytes: one for small indices, two for the others. */
  lemma IndexBytes()
    ensures EncodeIndex(1) == [255] && EncodeIndex(63) == [193]
    ensures EncodeIndex(64) == [192, 1] && EncodeIndex(16383) == [129, 255]
  {
  }
}
