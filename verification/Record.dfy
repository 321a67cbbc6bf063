/** Data records: the stored header, the checksum, optional compression of the value, and
    the two ways a record is read back. */
module Record {
  import opened Bytes
  import opened HTreeBlocks
  import opened QuickLz
  import opened QuickLzCompress
  import opened Crc32
  import CrcTable
  import Fnv1a

  const PADDING := 256
  const HEADER := 24
  const MAX_VALUE_LEN := 100 * 1024 * 1024
  const COMPRESS_FLAG := 0x10000
  const CLIENT_COMPRESS_FLAG := 0x10
  const TRY_COMPRESS_SIZE := 10240

  /** Flags and time stamps are kept as 32-bit words; versions are signed. */
  datatype Rec = Rec(tstamp: int, flag: int, version: int, key: seq<byte>, value: seq<byte>)

  predicate BadKvSize(ksz: nat, vsz: nat) {
    ksz == 0 || ksz > MAX_KEY_LEN || vsz > MAX_VALUE_LEN
  }

  predicate RecOk(r: Rec) {
    && 0 <= r.tstamp < TWO_32 && 0 <= r.flag < TWO_32 && -TWO_31 <= r.version < TWO_31
    && !BadKvSize(|r.key|, |r.value|)
  }

  predicate HasBit(flag: int, bit: int)
    requires bit > 0
  {
    flag / bit % 2 == 1
  }

  function GenHash(value: seq<byte>): (h: int)
    ensures 0 <= h < TWO_16
  {
    var base := |value| * 97;
    if |value| <= 1024 then (base + Fnv1a.Hash(value)) % TWO_16
    else ((base + Fnv1a.Hash(value[..512])) * 97 + Fnv1a.Hash(value[|value| - 512..])) % TWO_16
  }

  function RecordLength(r: Rec): (n: nat)
    ensures n % PADDING == 0 && HEADER + |r.key| + |r.value| <= n < HEADER + |r.key| + |r.value| + PADDING
  {
    var n := HEADER + |r.key| + |r.value|;
    (n / PADDING + (if n % PADDING == 0 then 0 else 1)) * PADDING
  }

  // ---- The stored form ----------------------------------------------------------------------

  function Header(r: Rec): (bs: seq<byte>)
    requires RecOk(r)
    ensures |bs| == HEADER - 4
  {
    Le32(r.tstamp) + Le32(r.flag) + Le32(ToWord(r.version)) + Le32(|r.key|) + Le32(|r.value|)
  }

  function Zeros(n: nat): (bs: seq<byte>)
    ensures |bs| == n
  {
    seq(n, i => 0)
  }

  function Checksum(bs: seq<byte>): (c: int)
    ensures 0 <= c < TWO_32
  {
    Crc(0, bs) as int
  }

  /** The stored form without its padding. */
  function Packet(r: Rec): (bs: seq<byte>)
    requires RecOk(r)
    ensures |bs| == HEADER + |r.key| + |r.value|
  {
    var body := Header(r) + r.key + r.value;
    Le32(Checksum(body)) + body
  }

  function Wire(r: Rec): (bs: seq<byte>)
    requires RecOk(r)
    ensures |bs| == RecordLength(r)
  {
    Packet(r) + Zeros(RecordLength(r) - |Packet(r)|)
  }

  datatype Reason = BadSize | BadEnd | BadCrc
  datatype Decoded = Bad(reason: Reason) | Good(rec: Rec)

  function Word(bs: seq<byte>, at: nat): (w: int)
    requires at + 4 <= |bs|
    ensures 0 <= w < TWO_32
  {
    FromLe32(bs[at..at + 4])
  }

  function RecAt(bs: seq<byte>, ksz: nat, vsz: nat): (r: Rec)
    requires HEADER + ksz + vsz <= |bs|
  {
    Rec(Word(bs, 4), Word(bs, 8), FromWord(Word(bs, 12)),
        bs[HEADER..HEADER + ksz], bs[HEADER + ksz..HEADER + ksz + vsz])
  }

  /** What the bytes from a record position on hold. */
  function DecodeBytes(bs: seq<byte>): (d: Decoded)
    requires HEADER <= |bs|
  {
    var ksz, vsz := Word(bs, 16), Word(bs, 20);
    if BadKvSize(ksz, vsz) then Bad(BadSize)
    else if |bs| < HEADER + ksz + vsz then Bad(BadEnd)
    else if Checksum(bs[4..HEADER + ksz + vsz]) != Word(bs, 0) then Bad(BadCrc)
    else Good(RecAt(bs, ksz, vsz))
  }

  lemma PacketWords(r: Rec, tail: seq<byte>)
    requires RecOk(r)
    ensures var bs := Packet(r) + tail;
      && Word(bs, 0) == Checksum(Header(r) + r.key + r.value)
      && Word(bs, 4) == r.tstamp && Word(bs, 8) == r.flag && Word(bs, 12) == ToWord(r.version)
      && Word(bs, 16) == |r.key| && Word(bs, 20) == |r.value|
  {
    hide Le32, FromLe32, Checksum, ToWord;
    var bs := Packet(r) + tail;
    assert bs[0..4] == Le32(Checksum(Header(r) + r.key + r.value));
    assert bs[4..8] == Le32(r.tstamp) && bs[8..12] == Le32(r.flag) && bs[12..16] == Le32(ToWord(r.version));
    assert bs[16..20] == Le32(|r.key|) && bs[20..24] == Le32(|r.value|);
  }

  /** Decoding undoes the stored form, whatever follows it. */
  lemma DecodePacket(r: Rec, tail: seq<byte>)
    requires RecOk(r)
    ensures DecodeBytes(Packet(r) + tail) == Good(r)
  {
    hide Checksum, ToWord, FromWord, Word;
    PacketWords(r, tail);
    PacketParts(r, tail);
  }

  lemma PacketParts(r: Rec, tail: seq<byte>)
    requires RecOk(r)
    ensures var bs, n := Packet(r) + tail, HEADER + |r.key| + |r.value|;
      && bs[4..n] == Header(r) + r.key + r.value
      && bs[HEADER..HEADER + |r.key|] == r.key && bs[HEADER + |r.key|..n] == r.value
  {
    hide Checksum, Header;
  }

  /** And nothing else decodes to a record: the bytes are exactly its stored form. */
  lemma DecodeOnly(bs: seq<byte>, r: Rec)
    requires HEADER <= |bs| && DecodeBytes(bs) == Good(r)
    ensures RecOk(r) && |Packet(r)| <= |bs| && bs[..|Packet(r)|] == Packet(r)
  {
    hide Checksum;
    var n := HEADER + |r.key| + |r.value|;
    forall at | at in {0, 4, 8, 12, 16, 20} ensures Le32(Word(bs, at)) == bs[at..at + 4] {
      Le32Unique(bs[at..at + 4]);
    }
    assert ToWord(r.version) == Word(bs, 12);
    assert bs[4..n] == bs[4..8] + bs[8..12] + bs[12..16] + bs[16..20] + bs[20..24]
                       + bs[HEADER..HEADER + |r.key|] + bs[HEADER + |r.key|..n];
    assert bs[4..n] == Header(r) + r.key + r.value;
    assert bs[..n] == bs[0..4] + bs[4..n];
  }

  // ---- Compression of the value ----------------------------------------------------------------

  predicate MayCompress(r: Rec) {
    && HEADER + |r.key| + |r.value| > PADDING
    && !HasBit(r.flag, COMPRESS_FLAG) && !HasBit(r.flag, CLIENT_COMPRESS_FLAG)
  }

  function Flagged(r: Rec, value: seq<byte>): Rec {
    r.(flag := r.flag + COMPRESS_FLAG, value := value)
  }

  /** The records that compressing `r` may store: `r` itself, or `r` with its value replaced by
      a compressed form that is at least three tenths shorter. An empty value is special. */
  ghost predicate Stored(r: Rec, memory: bool, s: Rec) {
    if !MayCompress(r) || !memory then s == r
    else if r.value == [] then s == Flagged(r, [])
    else s == r || (s == Flagged(r, s.value) && Image(s.value, r.value) && 10 * |s.value| <= 7 * |r.value|)
  }

  lemma FlagBits(flag: int)
    requires 0 <= flag < TWO_32 && !HasBit(flag, COMPRESS_FLAG)
    ensures 0 <= flag + COMPRESS_FLAG < TWO_32 && HasBit(flag + COMPRESS_FLAG, COMPRESS_FLAG)
  {
    var q, m := flag / COMPRESS_FLAG, flag % COMPRESS_FLAG;
    DivMod(flag + COMPRESS_FLAG, COMPRESS_FLAG, q + 1, m);
  }

  lemma StoredOk(r: Rec, memory: bool, s: Rec)
    requires RecOk(r) && Stored(r, memory, s)
    ensures RecOk(s) && s.key == r.key && s.version == r.version && s.tstamp == r.tstamp
    ensures s != r ==> HasBit(s.flag, COMPRESS_FLAG)
  {
    hide Image;
    if s != r { FlagBits(r.flag); }
  }

  /** A fresh work area and output, with whatever they happen to contain. */
  method CompressPart(data: seq<byte>) returns (v: seq<byte>)
    requires |data| <= MAX_SIZE
    ensures v == [] <==> data == []
    ensures data != [] ==> Image(v, data)
    ensures Uniform(data) && 256 <= |data| ==> |v| <= 8 * (|data| / 255) + 38
  {
    hide Uniform;
    var dst := new byte[|data| + 400];
    var table, counter := new int[QLZ_HASH_VALUES, QLZ_POINTERS], new byte[QLZ_HASH_VALUES];
    var n := Compress(data, dst, table, counter);
    v := dst[..n];
  }

  /** A long value of equal bytes that nobody has compressed yet. */
  predicate Worthwhile(r: Rec) {
    Uniform(r.value) && |r.value| >= 256 && r.flag / 0x10000 % 2 == 0 && r.flag / 0x10 % 2 == 0
  }

  lemma WorthBits(r: Rec)
    ensures Worthwhile(r) ==> !HasBit(r.flag, COMPRESS_FLAG) && !HasBit(r.flag, CLIENT_COMPRESS_FLAG)
  {
  }

  lemma UniformHead(value: seq<byte>, n: nat)
    requires Uniform(value) && n <= |value|
    ensures Uniform(value[..n])
  {
  }

  /** compress_record: a long value is first tried on its head; `memory` says whether the work
      areas could be allocated. */
  method CompressRecord(r: Rec, memory: bool) returns (s: Rec)
    requires RecOk(r)
    ensures Stored(r, memory, s)
    ensures Worthwhile(r) && memory ==> HasBit(s.flag, COMPRESS_FLAG)
  {
    hide Image, HasBit, Uniform;
    WorthBits(r);
    s := r;
    if HasBit(r.flag, COMPRESS_FLAG) {
      return;
    }
    var vsz := |r.value|;
    if HEADER + |r.key| + vsz > PADDING && !HasBit(r.flag, CLIENT_COMPRESS_FLAG) {
      if !memory {
        return;
      }
      var trySize := if vsz > TRY_COMPRESS_SIZE then TRY_COMPRESS_SIZE else vsz;
      if Uniform(r.value) { UniformHead(r.value, trySize); }
      var v := CompressPart(r.value[..trySize]);
      if trySize < vsz && 10 * |v| < 7 * trySize {
        trySize := vsz;
        v := CompressPart(r.value[..trySize]);
      }
      assert trySize == vsz ==> r.value[..trySize] == r.value;
      if 10 * |v| > 7 * trySize || trySize < vsz {
        return;
      }
      FlagBits(r.flag);
      s := Flagged(r, v);
    }
  }

  /** The value's bytes and whatever lies behind them in memory. */
  predicate Reads(value: seq<byte>, beyond: seq<byte>) {
    HasHeader(value + beyond)
  }

  /** What decompress_record makes of a decoded record: a compressed value whose recorded size
      differs from the stored one is rejected. */
  ghost predicate Unpacks(s: Rec, beyond: seq<byte>, r: Option<Rec>)
    requires Reads(s.value, beyond)
  {
    if !HasBit(s.flag, COMPRESS_FLAG) then r == Some(s)
    else if SizeCompressed(s.value + beyond) != |s.value| then r == None
    else
      && r.Some? && r.value == s.(flag := s.flag - COMPRESS_FLAG, value := r.value.value)
      && Image(s.value, r.value.value)
  }

  /** The bytes behind the value do not matter when there is a compressed form in it. */
  lemma ImageReads(value: seq<byte>, beyond: seq<byte>, data: seq<byte>)
    requires Image(value, data)
    ensures Reads(value, beyond) && SizeCompressed(value + beyond) == |value|
  {
    hide Payload, FromLe32;
    var bs := value + beyond;
    if LongHeader(value[0]) { assert bs[1..5] == value[1..5]; }
  }

  ghost predicate Unpackable(s: Rec, beyond: seq<byte>) {
    && Reads(s.value, beyond)
    && (HasBit(s.flag, COMPRESS_FLAG) && SizeCompressed(s.value + beyond) == |s.value| ==>
          exists data :: Image(s.value, data))
  }

  method DecompressRecord(s: Rec, beyond: seq<byte>) returns (r: Option<Rec>)
    requires Unpackable(s, beyond)
    ensures Unpacks(s, beyond, r)
  {
    hide Image;
    if HasBit(s.flag, COMPRESS_FLAG) {
      if SizeCompressed(s.value + beyond) != |s.value| {
        return None;
      }
      ghost var data :| Image(s.value, data);
      var v := Unpack(s.value, data);
      r := Some(s.(flag := s.flag - COMPRESS_FLAG, value := v));
    } else {
      r := Some(s);
    }
  }

  method Unpack(value: seq<byte>, ghost data: seq<byte>) returns (v: seq<byte>)
    requires Image(value, data)
    ensures v == data
  {
    hide Payload;
    var dst := new byte[SizeDecompressed(value)];
    var n := Decompress(value, dst, data);
    v := dst[..n];
  }

  /** Unpacking has one outcome. */
  lemma UnpacksOnce(s: Rec, beyond: seq<byte>, a: Option<Rec>, b: Option<Rec>)
    requires Reads(s.value, beyond) && Unpacks(s, beyond, a) && Unpacks(s, beyond, b)
    ensures a == b
  {
    hide Image;
    if a.Some? && HasBit(s.flag, COMPRESS_FLAG) {
      ImageUnique(s.value, a.value.value, b.value.value);
    }
  }

  // ---- The record round trip --------------------------------------------------------------------

  /** An empty value behind a key so long that compression is considered: the empty value is
      then marked as compressed although it has no compressed form. */
  predicate EmptyTrap(r: Rec) {
    MayCompress(r) && r.value == []
  }

  lemma StoredUnpacks(r: Rec, memory: bool, s: Rec, beyond: seq<byte>, out: Option<Rec>)
    requires RecOk(r) && !HasBit(r.flag, COMPRESS_FLAG) && !(EmptyTrap(r) && memory) && Stored(r, memory, s)
    requires Reads(s.value, beyond)
    ensures Unpackable(s, beyond)
    ensures Unpacks(s, beyond, out) <==> out == Some(r)
  {
    hide Image;
    if s != r {
      FlagBits(r.flag);
      ImageReads(s.value, beyond, r.value);
      assert s.(flag := s.flag - COMPRESS_FLAG, value := r.value) == r;
      if Unpacks(s, beyond, out) {
        UnpacksOnce(s, beyond, out, Some(r));
      }
    }
  }

  /** Whatever compress_record makes of `r` and whatever follows in memory, reading the stored
      form gives `r` back, and this holds exactly outside the empty-value case. */
  lemma RoundTripExactly(r: Rec, memory: bool)
    requires RecOk(r) && !HasBit(r.flag, COMPRESS_FLAG)
    ensures !(EmptyTrap(r) && memory) <==>
      forall s, beyond :: Stored(r, memory, s) && Reads(s.value, beyond) ==> Unpacks(s, beyond, Some(r))
  {
    hide Image;
    if EmptyTrap(r) && memory {
      var s, beyond := Flagged(r, []), [0, 1, 0];
      FlagBits(r.flag);
      assert s.value + beyond == beyond;
      assert Stored(r, memory, s) && Reads(s.value, beyond) && !Unpacks(s, beyond, Some(r));
    } else {
      forall s, beyond | Stored(r, memory, s) && Reads(s.value, beyond) ensures Unpacks(s, beyond, Some(r)) {
        StoredUnpacks(r, memory, s, beyond, Some(r));
      }
    }
  }

  // ---- Encoding and the two readers -------------------------------------------------------------

  /** Writing `more` right behind `done` extends what has been laid out. */
  lemma Extend(a: seq<byte>, b: seq<byte>, p: nat, q: nat, e: nat, done: seq<byte>, more: seq<byte>)
    requires |a| == |b| && p <= q <= e <= |a|
    requires a[p..q] == done && b[..q] == a[..q] && b[q..e] == more
    ensures b[p..e] == done + more
  {
    assert b[p..q] == b[..q][p..];
    assert a[p..q] == a[..q][p..];
    assert b[p..e] == b[p..q] + b[q..e];
  }

  lemma WireParts(buf: seq<byte>, r: Rec, n: nat, body: seq<byte>)
    requires RecOk(r) && n == HEADER + |r.key| + |r.value| && |buf| == RecordLength(r)
    requires body == Header(r) + r.key + r.value && buf[4..] == body + Zeros(|buf| - n)
    requires buf[..4] == Le32(Checksum(body))
    ensures buf == Wire(r)
  {
    hide Header, Checksum, Le32, RecordLength;
    assert buf == buf[..4] + buf[4..];
    assert Packet(r) == buf[..4] + body;
  }

  /** encode_record: compresses, lays the record out in a fresh buffer and checksums it there. */
  method EncodeRecord(r: Rec, memory: bool) returns (bs: seq<byte>, ghost s: Rec)
    requires RecOk(r)
    ensures Stored(r, memory, s) && RecOk(s) && bs == Wire(s)
    ensures Worthwhile(r) && memory ==> HasBit(s.flag, COMPRESS_FLAG)
  {
    hide Image, Stored, Checksum, Crc, Header, Le32, RecordLength, Worthwhile, HasBit;
    var rec := CompressRecord(r, memory);
    s := rec;
    StoredOk(r, memory, s);
    var buf := Layout(rec);
    ghost var body := Header(rec) + rec.key + rec.value;
    var n := HEADER + |rec.key| + |rec.value|;
    assert buf[4..n] == buf[4..][..n - 4] == body;
    var crc := CrcTable.ComputeCrc(0, buf[4..n]);
    CopyBytes(Le32(crc as int), 0, 4, buf, 0);
    CrcIsChecksum(body, crc);
    assert buf[0..4] == Le32(crc as int)[0..4] == Le32(crc as int);
    assert buf[..4] == buf[0..4];
    WireParts(buf[..], rec, n, body);
    bs := buf[..];
  }

  lemma CrcIsChecksum(bs: seq<byte>, crc: bv32)
    requires crc == Crc(0, bs)
    ensures Checksum(bs) == crc as int
  {
  }

  /** Everything but the checksum, which is left as it comes. */
  method Layout(r: Rec) returns (buf: array<byte>)
    requires RecOk(r)
    ensures fresh(buf) && buf.Length == RecordLength(r)
    ensures buf[4..] == Header(r) + r.key + r.value + Zeros(buf.Length - (HEADER + |r.key| + |r.value|))
  {
    hide Header, RecordLength, Zeros;
    var k, n := HEADER + |r.key|, HEADER + |r.key| + |r.value|;
    buf := new byte[RecordLength(r)];
    CopyBytes(Header(r), 0, HEADER - 4, buf, 4);
    assert Header(r)[0..HEADER - 4] == Header(r) && r.key[0..|r.key|] == r.key && r.value[0..|r.value|] == r.value;
    ghost var a := buf[..];
    CopyBytes(r.key, 0, |r.key|, buf, HEADER);
    Extend(a, buf[..], 4, HEADER, k, Header(r), r.key);
    a := buf[..];
    CopyBytes(r.value, 0, |r.value|, buf, k);
    Extend(a, buf[..], 4, k, n, Header(r) + r.key, r.value);
    a := buf[..];
    var padding := Zeros(buf.Length - n);
    CopyBytes(padding, 0, |padding|, buf, n);
    assert padding[0..|padding|] == padding;
    Extend(a, buf[..], 4, n, buf.Length, Header(r) + r.key + r.value, padding);
    assert buf[4..] == buf[..][4..buf.Length];
  }

  /** decode_record without decompression: the checksum runs over the buffer in one go. */
  method DecodeRecord(buf: seq<byte>) returns (d: Decoded)
    requires HEADER <= |buf|
    ensures d == DecodeBytes(buf)
  {
    hide Crc;
    var ksz, vsz := Word(buf, 16), Word(buf, 20);
    if BadKvSize(ksz, vsz) {
      return Bad(BadSize);
    }
    var need := HEADER + ksz + vsz;
    if |buf| < need {
      return Bad(BadEnd);
    }
    var crc := CrcTable.ComputeCrc(0, buf[4..need]);
    if crc as int != Word(buf, 0) {
      return Bad(BadCrc);
    }
    return Good(RecAt(buf, ksz, vsz));
  }

  function Found(d: Decoded): Option<Rec> {
    if d.Good? then Some(d.rec) else None
  }

  const READ_BUFFER := HEADER + MAX_KEY_LEN + 1

  /** The part of fast_read_record behind the first block: nothing is left to read, or the
      value spills over, or even the key does. */
  method FetchRest(file: seq<byte>, offset: nat, r: array<byte>, ksz: nat, vsz: nat)
    returns (ok: bool, value: seq<byte>)
    requires !BadKvSize(ksz, vsz) && r.Length == READ_BUFFER && offset + PADDING <= |file|
    requires r[..PADDING] == file[offset..offset + PADDING]
    modifies r
    ensures ok == (offset + HEADER + ksz + vsz <= |file|)
    ensures ok ==> r[..HEADER + ksz] == file[offset..offset + HEADER + ksz]
    ensures ok ==> value == file[offset + HEADER + ksz..offset + HEADER + ksz + vsz]
  {
    var k := HEADER + ksz;
    var readMore := k + vsz - PADDING;
    value := [];
    if readMore <= 0 {
      value := r[k..k + vsz];
      ok := true;
      SliceOfBlock(r[..], file, offset, k, k + vsz);
      SliceOfBlock(r[..], file, offset, 0, k);
    } else if offset + PADDING + readMore > |file| {
      ok := false;
    } else if readMore > vsz {
      value := FetchKeySpill(file, offset, r, k, vsz, readMore);
      ok := true;
    } else {
      value := FetchValueSpill(file, offset, r, k, vsz, readMore);
      ok := true;
    }
  }

  /** The key ends behind the first block: what is read behind it is the rest of the key and
      the whole value. */
  method FetchKeySpill(file: seq<byte>, offset: nat, r: array<byte>, k: nat, vsz: nat, readMore: nat)
    returns (value: seq<byte>)
    requires k <= r.Length == READ_BUFFER && offset + k + vsz <= |file| && readMore == k + vsz - PADDING > vsz
    requires r[..PADDING] == file[offset..offset + PADDING]
    modifies r
    ensures r[..k] == file[offset..offset + k] && value == file[offset + k..offset + k + vsz]
  {
    var keyMore := readMore - vsz;
    var spill := new byte[readMore];
    CopyBytes(file, offset + PADDING, readMore, spill, 0);
    ghost var more := file[offset + PADDING..offset + PADDING + readMore];
    assert spill[..] == spill[0..0 + readMore] == more;
    ghost var a := r[..];
    CopyBytes(spill[..], 0, keyMore, r, PADDING);
    assert spill[..][0..keyMore] == more[..keyMore] == file[offset + PADDING..offset + k];
    assert a[0..PADDING] == a[..PADDING];
    Extend(a, r[..], 0, PADDING, k, file[offset..offset + PADDING], file[offset + PADDING..offset + k]);
    assert r[..][0..k] == r[..k];
    assert file[offset..offset + PADDING] + file[offset + PADDING..offset + k] == file[offset..offset + k];
    value := spill[keyMore..];
    assert value == more[keyMore..] == file[offset + k..offset + k + vsz];
  }

  method FetchValueSpill(file: seq<byte>, offset: nat, r: array<byte>, k: nat, vsz: nat, readMore: nat)
    returns (value: seq<byte>)
    requires k <= PADDING && r.Length == READ_BUFFER && offset + k + vsz <= |file|
    requires 0 < readMore == k + vsz - PADDING && r[..PADDING] == file[offset..offset + PADDING]
    ensures r[..k] == file[offset..offset + k] && value == file[offset + k..offset + k + vsz]
  {
    var inBlock := vsz - readMore;
    var v := new byte[vsz];
    CopyBytes(r[..], k, inBlock, v, 0);
    SliceOfBlock(r[..], file, offset, k, k + inBlock);
    SliceOfBlock(r[..], file, offset, 0, k);
    assert r[..][0..k] == r[..k];
    ghost var a := v[..];
    CopyBytes(file, offset + PADDING, readMore, v, inBlock);
    assert a[0..inBlock] == a[0..0 + inBlock] && v[..inBlock] == a[..inBlock];
    Extend(a, v[..], 0, inBlock, vsz, file[offset + k..offset + PADDING],
           file[offset + PADDING..offset + PADDING + readMore]);
    value := v[..];
    assert v[..][0..vsz] == v[..];
    JoinSlices(file, offset + k, offset + PADDING, offset + k + vsz);
  }

  lemma JoinSlices(bs: seq<byte>, i: nat, j: nat, l: nat)
    requires i <= j <= l <= |bs|
    ensures bs[i..j] + bs[j..l] == bs[i..l]
  {
  }

  lemma SliceOfBlock(r: seq<byte>, file: seq<byte>, offset: nat, i: nat, j: nat)
    requires i <= j <= PADDING <= |r| && offset + PADDING <= |file| && r[..PADDING] == file[offset..offset + PADDING]
    ensures r[i..j] == file[offset + i..offset + j]
  {
    var a, b, block := r[i..j], file[offset + i..offset + j], r[..PADDING];
    assert |a| == |b| && forall x :: 0 <= x < |a| ==> a[x] == block[i + x] == b[x];
  }

  lemma BlockWord(r: seq<byte>, file: seq<byte>, offset: nat, at: nat)
    requires at + 4 <= PADDING <= |r| && offset + PADDING <= |file| && r[..PADDING] == file[offset..offset + PADDING]
    ensures Word(r, at) == Word(file[offset..], at)
  {
    SliceOfBlock(r, file, offset, at, at + 4);
    var lo, hi := offset + at, offset + at + 4;
    assert file[offset..][at..at + 4] == file[lo..hi];
    assert r[at..at + 4] == file[lo..hi];
  }

  /** fast_read_record without decompression reads one block and then only what is missing, and
      checksums in two parts. It agrees with decode_record on the rest of the file, except that
      it wants a whole block. */
  method FastReadRecord(file: seq<byte>, offset: nat) returns (r: Option<Rec>)
    ensures r == if offset + PADDING <= |file| then Found(DecodeBytes(file[offset..])) else None
  {
    hide Crc, FromLe32;
    if offset + PADDING > |file| {
      return None;
    }
    var buf := new byte[READ_BUFFER];
    CopyBytes(file, offset, PADDING, buf, 0);
    ghost var rest := file[offset..];
    BlockWord(buf[..], file, offset, 0);
    BlockWord(buf[..], file, offset, 16);
    BlockWord(buf[..], file, offset, 20);
    var ksz, vsz := Word(buf[..], 16), Word(buf[..], 20);
    var crcOld := Word(buf[..], 0);
    if BadKvSize(ksz, vsz) {
      return None;
    }
    var ok, value := FetchRest(file, offset, buf, ksz, vsz);
    if !ok {
      return None;
    }
    var k := HEADER + ksz;
    var crc := CrcTable.ComputeCrc(0, buf[4..k]);
    crc := CrcTable.ComputeCrc(crc, value);
    CrcChained(0, buf[4..k], value);
    RestParts(rest, file, offset, buf[..], value, k, vsz);
    if crc as int != crcOld {
      return None;
    }
    return Some(RecAt(buf[..k] + value, ksz, vsz));
  }

  lemma PrefixWord(a: seq<byte>, b: seq<byte>, at: nat)
    requires at + 4 <= |a| && a <= b
    ensures Word(a, at) == Word(b, at)
  {
    assert a[at..at + 4] == b[at..at + 4];
  }

  lemma RestParts(rest: seq<byte>, file: seq<byte>, offset: nat, buf: seq<byte>, value: seq<byte>, k: nat, vsz: nat)
    requires offset <= |file| && rest == file[offset..] && HEADER <= k <= |buf| && offset + k + vsz <= |file|
    requires buf[..k] == file[offset..offset + k] && value == file[offset + k..offset + k + vsz]
    ensures buf[4..k] + value == rest[4..k + vsz]
    ensures RecAt(buf[..k] + value, k - HEADER, vsz) == RecAt(rest, k - HEADER, vsz)
  {
    hide FromLe32;
    var bs := buf[..k] + value;
    assert bs == rest[..k + vsz];
    PrefixWord(bs, rest, 4);
    PrefixWord(bs, rest, 8);
    PrefixWord(bs, rest, 12);
    assert bs[HEADER..k] == rest[HEADER..k] && bs[k..k + vsz] == rest[k..k + vsz];
    assert buf[4..k] + value == bs[4..k + vsz];
  }

  /** Encoding and reading back by either reader, in memory or at any place of a file. */
  method RecordRoundTrip(r: Rec, memory: bool, before: seq<byte>, after: seq<byte>, beyond: seq<byte>)
    returns (a: Option<Rec>, b: Option<Rec>)
    requires RecOk(r) && !HasBit(r.flag, COMPRESS_FLAG) && 9 <= |beyond|
    requires !(EmptyTrap(r) && memory)
    ensures a == Some(r) && b == Some(r)
  {
    hide Stored, Image, HasBit, DecodeBytes, Wire, RecOk, Unpacks, EmptyTrap, Reads, Unpackable;
    var bs, s := EncodeRecord(r, memory);
    DecodeWire(s, after);
    var d := DecodeRecord(bs + after);
    HeaderBehind(s.value, beyond);
    StoredUnpacks(r, memory, s, beyond, Some(r));
    a := DecompressRecord(d.rec, beyond);
    StoredUnpacks(r, memory, s, beyond, a);
    var file := before + (bs + after);
    assert file[|before|..] == bs + after;
    var f := FastReadRecord(file, |before|);
    b := DecompressRecord(f.value, beyond);
    StoredUnpacks(r, memory, s, beyond, b);
  }

  lemma DecodeWire(s: Rec, after: seq<byte>)
    requires RecOk(s)
    ensures PADDING <= |Wire(s)| && DecodeBytes(Wire(s) + after) == Good(s)
  {
    hide DecodeBytes, Packet;
    var pad := Zeros(RecordLength(s) - |Packet(s)|);
    DecodePacket(s, pad + after);
    assert Wire(s) + after == Packet(s) + (pad + after);
  }

  lemma HeaderBehind(value: seq<byte>, beyond: seq<byte>)
    requires 9 <= |beyond|
    ensures Reads(value, beyond)
  {
  }
}
