/** qlz_compress and qlz_decompress: the header, the choice between compressed and
    stored data, and the round trip. */
module QuickLz {
  import opened Bytes
  import opened QuickLzTokens
  import opened QuickLzCompress
  import opened QuickLzDecompress

  const MAX_SIZE := 0xffff_ffff - 400

  /** The second header bit selects four-byte size fields. */
  function LongHeader(b: byte): bool {
    b / 2 % 2 == 1
  }

  function HeaderLen(b: byte): (n: nat)
    ensures n == 3 || n == 9
  {
    if LongHeader(b) then 9 else 3
  }

  predicate HasHeader(bs: seq<byte>) {
    bs != [] && HeaderLen(bs[0]) <= |bs|
  }

  function SizeCompressed(bs: seq<byte>): (r: int)
    requires HasHeader(bs)
  {
    if LongHeader(bs[0]) then FromLe32(bs[1..5]) else bs[1]
  }

  function SizeDecompressed(bs: seq<byte>): (r: int)
    requires HasHeader(bs)
  {
    if LongHeader(bs[0]) then FromLe32(bs[5..9]) else bs[2]
  }

  /** The payload `body` is a token stream for `data`, long enough to be read in words. */
  ghost predicate Packed(body: seq<byte>, toks: seq<Token>, data: seq<byte>) {
    9 <= |body| && StreamAt(body, 0, toks, 0) && Continues(toks, [], data)
  }

  ghost predicate Payload(body: seq<byte>, compressed: bool, data: seq<byte>) {
    if compressed then exists toks :: Packed(body, toks, data) else body == data
  }

  /** `bs` is a compressed form of `data`. */
  ghost predicate Image(bs: seq<byte>, data: seq<byte>) {
    && 0 < |data| <= MAX_SIZE && HasHeader(bs)
    && SizeCompressed(bs) == |bs| && SizeDecompressed(bs) == |data|
    && Payload(bs[HeaderLen(bs[0])..], bs[0] % 2 == 1, data)
  }

  method ResetState(counter: array<byte>)
    modifies counter
    ensures forall i :: 0 <= i < counter.Length ==> counter[i] == 0
  {
    var i := 0;
    while i < counter.Length
      invariant 0 <= i <= counter.Length && forall j :: 0 <= j < i ==> counter[j] == 0
    {
      counter[i] := 0;
      i := i + 1;
    }
  }

  lemma EmptyTable(table: array2<int>, counter: array<byte>, data: seq<byte>)
    requires table.Length0 == QLZ_HASH_VALUES && table.Length1 == QLZ_POINTERS && counter.Length == QLZ_HASH_VALUES
    requires forall i :: 0 <= i < counter.Length ==> counter[i] == 0
    ensures TableIs(table, counter, data, 0)
  {
  }

  method WriteHeader(dst: array<byte>, base: nat, compressed: bool, r: int, size: int)
    requires base in {3, 9} && base <= dst.Length
    requires 0 <= r < TWO_32 && 0 <= size < TWO_32 && (base == 3 ==> r < 256 && size < 256)
    modifies dst
    ensures dst[base..] == old(dst[base..])
    ensures LongHeader(dst[0]) == (base == 9) && (dst[0] % 2 == 1) == compressed
    ensures base == 3 ==> dst[1] == r && dst[2] == size
    ensures base == 9 ==> FromLe32(dst[1..5]) == r && FromLe32(dst[5..9]) == size
  {
    var flag: byte := 12 + 64 + (if base == 9 then 2 else 0) + (if compressed then 1 else 0);
    dst[0] := flag;
    if base == 3 {
      dst[1], dst[2] := r, size;
    } else {
      var a, b := Le32(r), Le32(size);
      dst[1], dst[2], dst[3], dst[4] := a[0], a[1], a[2], a[3];
      dst[5], dst[6], dst[7], dst[8] := b[0], b[1], b[2], b[3];
      assert dst[1..5] == a && dst[5..9] == b;
    }
  }

  lemma PackedFromCore(body: seq<byte>, toks: seq<Token>, data: seq<byte>)
    requires 9 <= |body| && AllEncodable(toks) && |Stream(toks, 0)| <= |body|
    requires body[..|Stream(toks, 0)|] == Stream(toks, 0)
    requires Covers(toks, data, |data|)
    ensures Payload(body, true, data)
  {
    assert data[..|data|] == data;
    assert body[0..0 + |Stream(toks, 0)|] == body[..|Stream(toks, 0)|];
    assert Packed(body, toks, data);
  }

  /** Returns the compressed size, or 0 for data that is empty or too long. The scratch
      table is used as it comes; only its counters are reset. Data are stored as they are only if
      compression was given up on, and equal bytes take eight bytes for 255 and 38 more at most. */
  method Compress(data: seq<byte>, dst: array<byte>, table: array2<int>, counter: array<byte>)
    returns (r: nat)
    requires dst.Length >= |data| + 400 && dst != counter
    requires table.Length0 == QLZ_HASH_VALUES && table.Length1 == QLZ_POINTERS && counter.Length == QLZ_HASH_VALUES
    modifies dst, table, counter
    ensures r == 0 <==> |data| == 0 || |data| > MAX_SIZE
    ensures r > 0 ==> r <= |data| + 159 && Image(dst[..r], data)
    ensures 0 < |data| < 216 ==> r <= 255
    ensures r > 0 && dst[0] % 2 == 0 ==> exists toks :: GaveUp(data, toks)
    ensures r > 0 && Uniform(data) && 256 <= |data| ==> r <= 8 * (|data| / 255) + 38 < |data|
  {
    hide Payload, Image, FromLe32, GaveUp, Uniform;
    if |data| == 0 || |data| > MAX_SIZE {
      return 0;
    }
    var base := if |data| < 216 then 3 else 9;
    var compressed;
    r, compressed := Pack(data, dst, base, table, counter);
    ghost var body := dst[base..r];
    WriteHeader(dst, base, compressed, r, |data|);
    assert dst[base..r] == dst[base..][..r - base] == body;
    HeaderImage(dst[..], base, r, compressed, data);
  }

  /** What follows the header: the compressed data, or the data themselves if they did not get smaller. */
  method Pack(data: seq<byte>, dst: array<byte>, base: nat, table: array2<int>, counter: array<byte>)
    returns (r: nat, compressed: bool)
    requires 0 < |data| <= MAX_SIZE && base in {3, 9} && dst.Length >= |data| + 400 && dst != counter
    requires table.Length0 == QLZ_HASH_VALUES && table.Length1 == QLZ_POINTERS && counter.Length == QLZ_HASH_VALUES
    modifies dst, table, counter
    ensures base <= r <= |data| + base + 150 && r <= dst.Length && Payload(dst[base..r], compressed, data)
    ensures |data| < 216 && base == 3 ==> r <= 255
    ensures !compressed ==> r == |data| + base && exists toks :: GaveUp(data, toks)
    ensures Uniform(data) && 256 <= |data| ==> r <= 8 * (|data| / 255) + base + 29
  {
    hide Stream, Covers, Payload, TableIs, GaveUp, Uniform;
    ResetState(counter);
    EmptyTable(table, counter, data);
    ghost var toks;
    r, toks := CompressCore(data, dst, base, table, counter);
    compressed := r > 0;
    if compressed {
      ghost var body, n := dst[base..base + r], |Stream(toks, 0)|;
      assert body[..n] == dst[base..base + n];
      PackedFromCore(body, toks, data);
      r := r + base;
    } else {
      CopyBytes(data, 0, |data|, dst, base);
      r := |data| + base;
      StoredPayload(dst[base..r], data);
    }
  }

  lemma HeaderImage(dst: seq<byte>, base: nat, r: nat, compressed: bool, data: seq<byte>)
    requires 0 < |data| <= MAX_SIZE && base in {3, 9} && base <= r <= |dst|
    requires LongHeader(dst[0]) == (base == 9) && (dst[0] % 2 == 1) == compressed
    requires base == 3 ==> dst[1] == r && dst[2] == |data|
    requires base == 9 ==> FromLe32(dst[1..5]) == r && FromLe32(dst[5..9]) == |data|
    requires Payload(dst[base..r], compressed, data)
    ensures Image(dst[..r], data)
  {
    hide Payload, FromLe32;
    assert dst[..r][base..] == dst[base..r];
    assert base == 9 ==> dst[..r][1..5] == dst[1..5] && dst[..r][5..9] == dst[5..9];
  }

  lemma StoredPayload(body: seq<byte>, data: seq<byte>)
    requires body == data[0..0 + |data|]
    ensures Payload(body, false, data)
  {
  }

  /** Undoes Compress; the caller allocates what SizeDecompressed says. */
  method Decompress(bs: seq<byte>, dst: array<byte>, ghost data: seq<byte>) returns (n: nat)
    requires Image(bs, data) && |data| <= dst.Length
    modifies dst
    ensures n == |data| && dst[..n] == data
  {
    var headerlen := HeaderLen(bs[0]);
    n := SizeDecompressed(bs);
    ghost var body := bs[headerlen..];
    if bs[0] % 2 == 1 {
      ghost var toks :| Packed(body, toks, data);
      DecompressCore(bs[headerlen..], dst, n, toks, data);
    } else {
      CopyBytes(bs, headerlen, n, dst, 0);
    }
  }

  /** Compressing and decompressing gives the data back, whatever the freshly
      allocated scratch table happens to contain. */
  method RoundTrip(data: seq<byte>) returns (packed: seq<byte>, back: seq<byte>)
    requires 0 < |data| <= MAX_SIZE
    ensures back == data
    ensures SizeIsRecorded(packed, data) && |packed| <= |data| + 159
  {
    var v := new byte[|data| + 400];
    var table, counter := new int[QLZ_HASH_VALUES, QLZ_POINTERS], new byte[QLZ_HASH_VALUES];
    var r := Compress(data, v, table, counter);
    packed := v[..r];
    var dst := new byte[SizeDecompressed(packed)];
    var n := Decompress(packed, dst, data);
    back := dst[..n];
  }

  predicate SizeIsRecorded(packed: seq<byte>, data: seq<byte>) {
    HasHeader(packed) && SizeCompressed(packed) == |packed| && SizeDecompressed(packed) == |data|
  }

  // ---- A compressed form determines its data -----------------------------------------

  lemma {:induction false} SameTokens(src: seq<byte>, s: nat, a: seq<Token>, b: seq<Token>, room: nat,
                                      out: seq<byte>, da: seq<byte>, db: seq<byte>)
    requires StreamAt(src, s, a, room) && StreamAt(src, s, b, room)
    requires Continues(a, out, da) && Continues(b, out, db) && |da| == |db|
    requires Word(a, room) == Word(b, room)
    ensures da == db
    decreases |a|, room == 0
  {
    hide Stream, TokenBytes;
    if |out| == |da| {
      assert da == out && db == out;
    } else if room == 0 {
      PeelControl(src, s, a);
      PeelControl(src, s, b);
      SameTokens(src, s + 4, a, b, GROUP, out, da, db);
    } else {
      SameHead(src, s, a, b, room, out, da, db);
      PeelToken(src, s, a, room);
      PeelToken(src, s, b, room);
      HalveWord(a, room);
      HalveWord(b, room);
      SameTokens(src, s + |TokenBytes(a[0])|, a[1..], b[1..], room - 1, Apply(a[0], out), da, db);
    }
  }

  lemma {:induction false} SameHead(src: seq<byte>, s: nat, a: seq<Token>, b: seq<Token>, room: nat,
                                    out: seq<byte>, da: seq<byte>, db: seq<byte>)
    requires StreamAt(src, s, a, room) && StreamAt(src, s, b, room) && 0 < room
    requires Continues(a, out, da) && Continues(b, out, db) && |out| < |da| == |db|
    requires Word(a, room) == Word(b, room)
    ensures a != [] && b != [] && a[0] == b[0]
  {
    hide Stream, TokenBytes;
    assert a != [] && b != [];
    HalveWord(a, room);
    HalveWord(b, room);
    if a[0].Match? {
      TokensLeft(a, out, |da|);
      assert s + 4 <= |src| by { StreamLength(src, s, a, room); }
      MatchStep(src, s, a, room);
      MatchStep(src, s, b, room);
    } else {
      PeelToken(src, s, a, room);
      PeelToken(src, s, b, room);
      LiteralByte(a[0], src[s..s + 1]);
      LiteralByte(b[0], src[s..s + 1]);
    }
  }

  lemma LiteralByte(t: Token, bs: seq<byte>)
    requires t.Lit? && bs == TokenBytes(t)
    ensures t == Lit(bs[0])
  {
  }

  lemma StreamLength(src: seq<byte>, s: nat, rest: seq<Token>, room: nat)
    requires StreamAt(src, s, rest, room)
    ensures s + |rest| <= |src|
  {
  }

  lemma ImageUnique(bs: seq<byte>, da: seq<byte>, db: seq<byte>)
    requires Image(bs, da) && Image(bs, db)
    ensures da == db
  {
    var body := bs[HeaderLen(bs[0])..];
    if bs[0] % 2 == 1 {
      var a :| Packed(body, a, da);
      var b :| Packed(body, b, db);
      WordEnds(a, 0);
      WordEnds(b, 0);
      SameTokens(body, 0, a, b, 0, [], da, db);
    }
  }
}
