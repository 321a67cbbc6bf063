/** What a QuickLZ level-3 stream means, independently of the code that writes or
    reads it: a list of literals and back references, packed behind control words. */
module QuickLzTokens {
  import opened Bytes

  const UNCONDITIONAL_MATCHLEN := 6
  const UNCOMPRESSED_END := 4
  const MINOFFSET := 2
  const CWORD_LEN := 4
  const GROUP := 31

  datatype Token = Lit(b: byte) | Match(off: nat, len: nat)

  /** One byte at a time, so that a reference may overlap the bytes it produces. */
  function Copy(out: seq<byte>, off: nat, len: nat): (r: seq<byte>)
    requires 0 < off <= |out|
    ensures |r| == |out| + len && out <= r
    decreases len
  {
    if len == 0 then out else Copy(out + [out[|out| - off]], off, len - 1)
  }

  lemma {:induction false} CopyAt(out: seq<byte>, off: nat, len: nat, i: nat)
    requires 0 < off <= |out| <= i < |out| + len
    ensures Copy(out, off, len)[i] == Copy(out, off, len)[i - off]
    decreases len
  {
    var out1 := out + [out[|out| - off]];
    if i > |out| {
      CopyAt(out1, off, len - 1, i);
    } else {
      var r := Copy(out1, off, len - 1);
      assert r[i] == out1[i] && r[i - off] == out1[i - off];
    }
  }

  /** A reference is legal after `out` when it stays inside it and leaves room, in a
      text of `n` bytes, for the literal-only tail. */
  predicate Legal(t: Token, out: seq<byte>, n: nat) {
    t.Match? ==>
      && MINOFFSET < t.off <= |out| && t.off < 131071
      && 3 <= t.len <= 255
      && |out| + UNCONDITIONAL_MATCHLEN + UNCOMPRESSED_END < n
      && |out| + t.len + UNCOMPRESSED_END <= n
  }

  function Apply(t: Token, out: seq<byte>): (r: seq<byte>)
    ensures out <= r
  {
    match t
    case Lit(b) => out + [b]
    case Match(off, len) => if 0 < off <= |out| then Copy(out, off, len) else out
  }

  predicate AllLegal(toks: seq<Token>, out: seq<byte>, n: nat) {
    toks == [] || (Legal(toks[0], out, n) && AllLegal(toks[1..], Apply(toks[0], out), n))
  }

  /** The text a token list stands for, started after `out`. */
  function Expand(toks: seq<Token>, out: seq<byte>): (r: seq<byte>)
    ensures out <= r
  {
    if toks == [] then out else Expand(toks[1..], Apply(toks[0], out))
  }

  // ---- Packing -----------------------------------------------------------------

  function MatchWord(off: nat, len: nat): (f: int)
    requires MINOFFSET < off < 131071 && 3 <= len <= 255
    ensures 0 <= f < TWO_32
  {
    if len == 3 && off <= 63 then 4 * off
    else if len == 3 && off <= 16383 then 4 * off + 1
    else if len <= 18 && off <= 1023 then 4 * (len - 3) + 64 * off + 2
    else if len <= 33 then 4 * (len - 2) + 128 * off + 3
    else 128 * (len - 3) + 32768 * off + 3
  }

  function MatchSize(off: nat, len: nat): (k: nat)
    ensures 1 <= k <= 4
  {
    if len == 3 && off <= 63 then 1
    else if len == 3 && off <= 16383 then 2
    else if len <= 18 && off <= 1023 then 2
    else if len <= 33 then 3
    else 4
  }

  predicate Encodable(t: Token) {
    t.Match? ==> MINOFFSET < t.off < 131071 && 3 <= t.len <= 255
  }

  function TokenBytes(t: Token): (bs: seq<byte>)
    requires Encodable(t)
    ensures 1 <= |bs| <= 4
    ensures t.Match? ==> |bs| <= t.len
    ensures t.Lit? ==> |bs| == 1
  {
    match t
    case Lit(b) => [b]
    case Match(off, len) => Le32(MatchWord(off, len))[..MatchSize(off, len)]
  }

  predicate AllEncodable(toks: seq<Token>) {
    forall i :: 0 <= i < |toks| ==> Encodable(toks[i])
  }

  /** The control word seen with `room` flags left: a set bit is a reference, and a
      final 1 marks the end of the word. */
  function Word(toks: seq<Token>, room: nat): (w: nat)
    ensures w > 0
  {
    if room == 0 then 1
    else if toks == [] then 2 * Word([], room - 1)
    else (if toks[0].Match? then 1 else 0) + 2 * Word(toks[1..], room - 1)
  }

  lemma {:induction false} WordRange(toks: seq<Token>, room: nat)
    ensures Pow2(room) <= Word(toks, room) < 2 * Pow2(room)
  {
    if room > 0 {
      WordRange(if toks == [] then [] else toks[1..], room - 1);
    }
  }

  lemma Pow2Group()
    ensures Pow2(GROUP) == TWO_31
  {
    assert Pow2(8) == 256;
    assert Pow2(16) == 65536 by { assert Pow2(12) == 4096; }
    assert Pow2(20) == 0x10_0000;
    assert Pow2(24) == 0x100_0000;
    assert Pow2(28) == 0x1000_0000;
  }

  function ControlWord(toks: seq<Token>): (bs: seq<byte>)
    ensures |bs| == 4 && FromLe32(bs) == Word(toks, GROUP)
  {
    Pow2Group();
    WordRange(toks, GROUP);
    Le32(Word(toks, GROUP))
  }

  /** The bytes of a stream, `room` tokens before the next control word. */
  function Stream(toks: seq<Token>, room: nat): (bs: seq<byte>)
    requires AllEncodable(toks)
    ensures |bs| >= |toks|
    decreases |toks|, room == 0
  {
    if toks == [] then []
    else if room == 0 then ControlWord(toks) + Stream(toks, GROUP)
    else TokenBytes(toks[0]) + Stream(toks[1..], room - 1)
  }

  function Plain(toks: seq<Token>): (bs: seq<byte>)
    requires AllEncodable(toks)
  {
    if toks == [] then [] else TokenBytes(toks[0]) + Plain(toks[1..])
  }

  // ---- Appending at the end, as the compressor does -------------------------------

  lemma {:induction false} ExpandSnoc(toks: seq<Token>, t: Token, out: seq<byte>, n: nat)
    requires AllLegal(toks, out, n) && Legal(t, Expand(toks, out), n)
    ensures AllLegal(toks + [t], out, n)
    ensures Expand(toks + [t], out) == Apply(t, Expand(toks, out))
  {
    if toks == [] {
      assert toks + [t] == [t];
      assert [t][1..] == [];
    } else {
      assert (toks + [t])[1..] == toks[1..] + [t];
      ExpandSnoc(toks[1..], t, Apply(toks[0], out), n);
    }
  }

  lemma {:induction false} PlainSnoc(toks: seq<Token>, t: Token)
    requires AllEncodable(toks) && Encodable(t)
    ensures AllEncodable(toks + [t])
    ensures Plain(toks + [t]) == Plain(toks) + TokenBytes(t)
  {
    hide TokenBytes;
    if toks == [] {
      assert toks + [t] == [t];
      assert [t][1..] == [];
    } else {
      assert (toks + [t])[1..] == toks[1..] + [t];
      PlainSnoc(toks[1..], t);
    }
  }

  lemma {:induction false} StreamOfOneGroup(toks: seq<Token>, room: nat)
    requires AllEncodable(toks) && |toks| <= room
    ensures Stream(toks, room) == Plain(toks)
  {
    if toks != [] {
      StreamOfOneGroup(toks[1..], room - 1);
    }
  }

  lemma {:induction false} WordOfPrefix(a: seq<Token>, b: seq<Token>, room: nat)
    requires room <= |a|
    ensures Word(a + b, room) == Word(a, room)
  {
    if room > 0 {
      assert (a + b)[1..] == a[1..] + b;
      WordOfPrefix(a[1..], b, room - 1);
    }
  }

  /** Groups that are full can be written out for good. */
  lemma {:induction false} StreamConcat(a: seq<Token>, b: seq<Token>, room: nat, groups: nat)
    requires AllEncodable(a) && AllEncodable(b)
    requires |a| == room + GROUP * groups
    ensures AllEncodable(a + b)
    ensures Stream(a + b, room) == Stream(a, room) + Stream(b, 0)
    decreases |a|, room == 0
  {
    hide TokenBytes;
    if a == [] {
      assert a + b == b;
    } else if room == 0 {
      WordOfPrefix(a, b, GROUP);
      StreamConcat(a, b, GROUP, groups - 1);
    } else {
      assert (a + b)[1..] == a[1..] + b;
      StreamConcat(a[1..], b, room - 1, groups);
    }
  }

  // ---- Reading one reference back ---------------------------------------------

  /** Offset, length and size of the reference whose first four bytes are `fetch`
      (src/quicklz.c tests the two low bits, then the low seven). */
  function ParseMatch(fetch: int): (r: (int, int, int))
    requires 0 <= fetch < TWO_32
  {
    if fetch % 4 == 0 then (fetch % 256 / 4, 3, 1)
    else if fetch / 2 % 2 == 0 then (fetch % TWO_16 / 4, 3, 2)
    else if fetch % 2 == 0 then (fetch % TWO_16 / 64, fetch / 4 % 16 + 3, 2)
    else if fetch % 128 != 3 then (fetch / 128 % 0x2_0000, fetch / 4 % 32 + 2, 3)
    else (fetch / 32768, fetch / 128 % 256 + 3, 4)
  }

  function Horner(bs: seq<byte>, k: nat): int
    requires |bs| == 4 && 1 <= k <= 2
  {
    var b: int := bs[2] as int + 256 * bs[3] as int;
    if k == 2 then b else bs[1] as int + 256 * b
  }

  function Low24(bs: seq<byte>): int
    requires |bs| == 4
  {
    bs[0] as int + 256 * bs[1] as int + TWO_16 * bs[2] as int
  }

  /** Low-order fields survive whatever bytes follow them. */
  lemma FetchOfPrefix(f: int, bs: seq<byte>, k: nat)
    requires 0 <= f < TWO_32 && |bs| == 4 && 1 <= k <= 4
    requires bs[..k] == Le32(f)[..k]
    ensures k == 1 ==> FromLe32(bs) % 256 == f % 256
    ensures k == 2 ==> FromLe32(bs) % TWO_16 == f % TWO_16
    ensures k == 3 ==> FromLe32(bs) % TWO_24 == f % TWO_24
    ensures k == 4 ==> FromLe32(bs) == f
  {
    var cs := Le32(f);
    var x := FromLe32(bs);
    assert forall i :: 0 <= i < k ==> bs[i] == bs[..k][i] == cs[..k][i] == cs[i];
    if k == 1 {
      DivMod(x, 256, Horner(bs, 1), bs[0]);
      DivMod(f, 256, Horner(cs, 1), bs[0]);
    } else if k == 2 {
      DivMod(x, TWO_16, Horner(bs, 2), bs[0] as int + 256 * bs[1] as int);
      DivMod(f, TWO_16, Horner(cs, 2), bs[0] as int + 256 * bs[1] as int);
    } else if k == 3 {
      DivMod(x, TWO_24, bs[3], Low24(bs));
      DivMod(f, TWO_24, cs[3], Low24(bs));
    } else {
      assert bs == cs;
    }
  }

  lemma ParseMatchWord(off: nat, len: nat, bs: seq<byte>)
    requires MINOFFSET < off < 131071 && 3 <= len <= 255
    requires |bs| == 4 && bs[..MatchSize(off, len)] == TokenBytes(Match(off, len))
    ensures ParseMatch(FromLe32(bs)) == (off, len, MatchSize(off, len))
  {
    var f := MatchWord(off, len);
    var k := MatchSize(off, len);
    var x := FromLe32(bs);
    FetchOfPrefix(f, bs, k);
    if len == 3 && off <= 63 {
      ParseShort(off, x);
    } else if len == 3 && off <= 16383 {
      ParseMedium(off, x);
    } else if len <= 18 && off <= 1023 {
      ParseNear(off, len, x);
    } else if len <= 33 {
      ParseFar(off, len, x);
    } else {
      ParseLong(off, len, x);
    }
  }

  lemma ParseShort(off: nat, x: int)
    requires 0 <= x < TWO_32 && off <= 63 && x % 256 == 4 * off
    ensures ParseMatch(x) == (off, 3, 1)
  {
    DivMod(x, 4, 64 * (x / 256) + off, 0);
    DivMod(x % 256, 4, off, 0);
  }

  lemma ParseMedium(off: nat, x: int)
    requires 0 <= x < TWO_32 && off <= 16383 && x % TWO_16 == 4 * off + 1
    ensures ParseMatch(x) == (off, 3, 2)
  {
    var q := 16384 * (x / TWO_16) + off;
    DivMod(x, 4, q, 1);
    DivMod(x, 2, 2 * q, 1);
    DivMod(2 * q, 2, q, 0);
    DivMod(x % TWO_16, 4, off, 1);
  }

  lemma ParseNear(off: nat, len: nat, x: int)
    requires 0 <= x < TWO_32 && 3 <= len <= 18 && off <= 1023
    requires x % TWO_16 == 4 * (len - 3) + 64 * off + 2
    ensures ParseMatch(x) == (off, len, 2)
  {
    var p := 1024 * (x / TWO_16) + off;
    var q := 16 * p + (len - 3);
    DivMod(x, 4, q, 2);
    DivMod(x, 2, 2 * q + 1, 0);
    DivMod(2 * q + 1, 2, q, 1);
    DivMod(q, 16, p, len - 3);
    DivMod(x % TWO_16, 64, off, 4 * (len - 3) + 2);
  }

  lemma ParseFar(off: nat, len: nat, x: int)
    requires 0 <= x < TWO_32 && 3 <= len <= 33 && off < 131071
    requires x % TWO_24 == 4 * (len - 2) + 128 * off + 3
    ensures ParseMatch(x) == (off, len, 3)
  {
    var p := 131072 * (x / TWO_24) + off;
    var q := 32 * p + (len - 2);
    DivMod(x, 4, q, 3);
    DivMod(x, 2, 2 * q + 1, 1);
    DivMod(2 * q + 1, 2, q, 1);
    DivMod(q, 32, p, len - 2);
    DivMod(x, 128, p, 4 * (len - 2) + 3);
    DivMod(p, 131072, x / TWO_24, off);
  }

  lemma ParseLong(off: nat, len: nat, x: int)
    requires 33 < len <= 255 && off < 131071
    requires x == 128 * (len - 3) + 32768 * off + 3 && x < TWO_32
    ensures ParseMatch(x) == (off, len, 4)
  {
    var p := 256 * off + (len - 3);
    DivMod(x, 128, p, 3);
    DivMod(p, 256, off, len - 3);
    DivMod(x, 32768, off, 128 * (len - 3) + 3);
    DivMod(x, 4, 32 * p, 3);
    DivMod(x, 2, 64 * p + 1, 1);
    DivMod(64 * p + 1, 2, 32 * p, 1);
  }
}
