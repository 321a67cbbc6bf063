/** qlz_decompress_core: the loops of src/quicklz.c over a destination array, proved
    to rebuild the text that the token list of the stream stands for. */
module QuickLzDecompress {
  import opened Bytes
  import opened QuickLzTokens

  function FastRead4(s: seq<byte>, i: nat): (x: int)
    requires i + 4 <= |s|
    ensures 0 <= x < TWO_32
  {
    FromLe32(s[i..i + 4])
  }

  lemma CopyUnique(out: seq<byte>, off: nat, len: nat, r: seq<byte>)
    requires 0 < off <= |out| && |r| == |out| + len && out <= r
    requires forall i :: |out| <= i < |r| ==> r[i] == r[i - off]
    ensures r == Copy(out, off, len)
  {
    var c := Copy(out, off, len);
    var i := |out|;
    while i < |r|
      invariant |out| <= i <= |r|
      invariant forall j :: 0 <= j < i ==> r[j] == c[j]
    {
      CopyAt(out, off, len, i);
      assert r[i - off] == c[i - off];
      i := i + 1;
    }
  }

  method MoveWord(dst: array<byte>, d: nat, o: nat)
    requires o + 3 <= d && d + 4 <= dst.Length
    modifies dst
    ensures forall i :: 0 <= i < d ==> dst[i] == old(dst[i])
    ensures forall i :: d <= i < d + 3 ==> dst[i] == dst[i - (d - o)]
  {
    var w0, w1, w2, w3 := dst[o], dst[o + 1], dst[o + 2], dst[o + 3];
    dst[d], dst[d + 1], dst[d + 2], dst[d + 3] := w0, w1, w2, w3;
  }

  /** Four-byte moves three bytes apart: every move after the first repairs the
      fourth byte of the one before, so an overlap of three bytes is harmless. */
  method MemcpyUp(dst: array<byte>, d: nat, o: nat, n: nat)
    requires o + MINOFFSET < d && 0 < n
    requires d + n + MINOFFSET < dst.Length
    modifies dst
    ensures dst[..d + n] == Copy(old(dst[..d]), d - o, n)
  {
    var f := 0;
    while f == 0 || f < n
      invariant 0 <= f < n + 3
      invariant forall i :: 0 <= i < d ==> dst[i] == old(dst[i])
      invariant forall i :: d <= i < d + f ==> dst[i] == dst[i - (d - o)]
      decreases n + 3 - f
    {
      MoveWord(dst, d + f, o + f);
      f := f + MINOFFSET + 1;
    }
    CopyUnique(old(dst[..d]), d - o, n, dst[..d + n]);
  }

  predicate LowZeros(w: nat, k: nat) {
    k == 0 || (w % 2 == 0 && LowZeros(w / 2, k - 1))
  }

  function Shr(w: nat, k: nat): (r: nat) {
    if k == 0 then w else Shr(w / 2, k - 1)
  }

  /** Number of zero flags at the bottom of a control word, at most four. */
  function Bitlut(w: nat): (k: nat)
    ensures k <= 4 && LowZeros(w, k)
    ensures w % 2 == 0 ==> 0 < k
  {
    LowNibble(w);
    [4, 0, 1, 0, 2, 0, 1, 0, 3, 0, 1, 0, 2, 0, 1, 0][w % 16]
  }

  lemma {:induction false} LowNibble(w: nat)
    ensures w % 2 == 0 ==> LowZeros(w, 1)
    ensures w % 16 in {4, 12} ==> LowZeros(w, 2)
    ensures w % 16 == 8 ==> LowZeros(w, 3)
    ensures w % 16 == 0 ==> LowZeros(w, 4)
  {
    var w1 := w / 2;
    var w2 := w1 / 2;
    var w3 := w2 / 2;
    var w4 := w3 / 2;
    assert w == 16 * w4 + (w % 2 + 2 * (w1 % 2) + 4 * (w2 % 2) + 8 * (w3 % 2));
    assert w % 16 == w % 2 + 2 * (w1 % 2) + 4 * (w2 % 2) + 8 * (w3 % 2);
    assert LowZeros(w4, 0);
    assert LowZeros(w3, 1) <==> w3 % 2 == 0;
    assert LowZeros(w2, 1) <==> w2 % 2 == 0;
    assert LowZeros(w1, 2) <==> w1 % 2 == 0 && LowZeros(w2, 1);
    assert LowZeros(w2, 2) <==> w2 % 2 == 0 && LowZeros(w3, 1);
    assert LowZeros(w1, 3) <==> w1 % 2 == 0 && LowZeros(w2, 2);
  }

  /** Every text ends in literals, so a stream never runs dry under the reader. */
  lemma {:induction false} TokensLeft(rest: seq<Token>, out: seq<byte>, n: nat)
    requires AllLegal(rest, out, n) && |Expand(rest, out)| == n
    ensures |rest| >= if n - |out| < 4 then n - |out| else 4
  {
    if rest != [] {
      TokensLeft(rest[1..], Apply(rest[0], out), n);
    }
  }

  /** `source`, from `s` on, holds the stream of `rest`. */
  predicate StreamAt(source: seq<byte>, s: nat, rest: seq<Token>, room: nat) {
    && AllEncodable(rest)
    && s + |Stream(rest, room)| <= |source|
    && source[s..s + |Stream(rest, room)|] == Stream(rest, room)
  }

  lemma PeelPrefix(source: seq<byte>, s: nat, bs: seq<byte>, tail: seq<byte>)
    requires s + |bs| + |tail| <= |source| && source[s..s + |bs| + |tail|] == bs + tail
    ensures source[s..s + |bs|] == bs
    ensures source[s + |bs|..s + |bs| + |tail|] == tail
  {
    var both := source[s..s + |bs| + |tail|];
    assert source[s..s + |bs|] == both[..|bs|] == bs;
    assert source[s + |bs|..s + |bs| + |tail|] == both[|bs|..] == tail;
  }

  lemma {:induction false} PeelToken(source: seq<byte>, s: nat, rest: seq<Token>, room: nat)
    requires StreamAt(source, s, rest, room) && rest != [] && 0 < room
    ensures var k := |TokenBytes(rest[0])|;
            && s + k <= |source| && source[s..s + k] == TokenBytes(rest[0])
            && StreamAt(source, s + k, rest[1..], room - 1)
  {
    PeelPrefix(source, s, TokenBytes(rest[0]), Stream(rest[1..], room - 1));
  }

  lemma {:induction false} PeelControl(source: seq<byte>, s: nat, rest: seq<Token>)
    requires StreamAt(source, s, rest, 0) && rest != []
    ensures s + 4 <= |source| && FastRead4(source, s) == Word(rest, GROUP)
    ensures StreamAt(source, s + 4, rest, GROUP)
  {
    PeelPrefix(source, s, ControlWord(rest), Stream(rest, GROUP));
  }

  lemma {:induction false} HalveWord(rest: seq<Token>, room: nat)
    requires rest != [] && 0 < room
    ensures Word(rest, room) % 2 == (if rest[0].Match? then 1 else 0)
    ensures Word(rest, room) / 2 == Word(rest[1..], room - 1)
  {
  }

  lemma WordEnds(rest: seq<Token>, room: nat)
    ensures Word(rest, room) == 1 <==> room == 0
  {
  }

  /** The next `k` tokens are the next `k` bytes. */
  predicate LiteralsNext(source: seq<byte>, s: nat, rest: seq<Token>, k: nat) {
    k <= |rest| && s + k <= |source| && forall i :: 0 <= i < k ==> rest[i] == Lit(source[s + i])
  }

  lemma {:induction false} LiteralRun(source: seq<byte>, s: nat, rest: seq<Token>, room: nat, k: nat)
    requires StreamAt(source, s, rest, room) && k <= |rest| && LowZeros(Word(rest, room), k)
    ensures k <= room && LiteralsNext(source, s, rest, k)
    ensures Word(rest[k..], room - k) == Shr(Word(rest, room), k)
    ensures StreamAt(source, s + k, rest[k..], room - k)
    decreases k
  {
    hide Stream;
    if k == 0 {
      assert rest[0..] == rest;
    } else {
      WordEnds(rest, room);
      HalveWord(rest, room);
      PeelToken(source, s, rest, room);
      assert source[s] == source[s..s + 1][0] == rest[0].b;
      LiteralRun(source, s + 1, rest[1..], room - 1, k - 1);
      assert rest[1..][k - 1..] == rest[k..];
      forall i | 0 <= i < k ensures rest[i] == Lit(source[s + i]) {
        if i > 0 { assert rest[1..][i - 1] == Lit(source[s + 1 + (i - 1)]); }
      }
    }
  }

  lemma Regroup(out: seq<byte>, bs: seq<byte>)
    requires bs != []
    ensures out + [bs[0]] + bs[1..] == out + bs
  {
  }

  lemma {:induction false} LiteralText(rest: seq<Token>, out: seq<byte>, n: nat, bs: seq<byte>)
    requires AllLegal(rest, out, n) && LiteralsNext(bs, 0, rest, |bs|)
    ensures AllLegal(rest[|bs|..], out + bs, n)
    ensures Expand(rest[|bs|..], out + bs) == Expand(rest, out)
    decreases |bs|
  {
    hide Copy;
    if bs == [] {
      assert rest[0..] == rest && out + bs == out;
    } else {
      assert rest[0] == Lit(bs[0 + 0]);
      assert forall i :: 0 <= i < |bs| - 1 ==> rest[1..][i] == rest[i + 1] == Lit(bs[0 + (i + 1)]);
      LiteralText(rest[1..], out + [bs[0]], n, bs[1..]);
      assert rest[1..][|bs[1..]|..] == rest[|bs|..];
      Regroup(out, bs);
    }
  }

  /** What is still to be read continues the text `out` into `data`. */
  ghost predicate Continues(rest: seq<Token>, out: seq<byte>, data: seq<byte>) {
    AllLegal(rest, out, |data|) && Expand(rest, out) == data
  }

  predicate AllLiteral(rest: seq<Token>) {
    forall i :: 0 <= i < |rest| ==> rest[i].Lit?
  }

  /** After a literal at the last place where a reference may start, all is literal. */
  lemma {:induction false} TailIsLiteral(rest: seq<Token>, out: seq<byte>, n: nat)
    requires AllLegal(rest, out, n) && (rest == [] || rest[0].Lit?)
    requires n <= |out| + UNCONDITIONAL_MATCHLEN + UNCOMPRESSED_END + 1
    ensures AllLiteral(rest)
  {
    if rest != [] {
      TailIsLiteral(rest[1..], out + [rest[0].b], n);
      assert forall i :: 1 <= i < |rest| ==> rest[i] == rest[1..][i - 1];
    }
  }

  lemma {:induction false} WordOfLiterals(rest: seq<Token>, room: nat)
    requires AllLiteral(rest)
    ensures Word(rest, room) == Pow2(room)
  {
    if room > 0 {
      WordOfLiterals(if rest == [] then [] else rest[1..], room - 1);
    }
  }

  lemma {:induction false} LiteralStep(source: seq<byte>, s: nat, rest: seq<Token>, room: nat,
                                       out: seq<byte>, data: seq<byte>)
    requires StreamAt(source, s, rest, room) && Continues(rest, out, data)
    requires AllLiteral(rest) && rest != [] && 0 < room
    ensures s < |source| && StreamAt(source, s + 1, rest[1..], room - 1)
    ensures Continues(rest[1..], out + [source[s]], data) && AllLiteral(rest[1..])
  {
    PeelToken(source, s, rest, room);
    assert source[s] == source[s..s + 1][0] == rest[0].b;
  }

  /** The literal-only tail: control words are skipped, not read. */
  method CopyTail(source: seq<byte>, dst: array<byte>, size: nat, s0: nat, d0: nat, cword0: nat,
                  ghost rest0: seq<Token>, ghost room0: nat, ghost data: seq<byte>)
    requires d0 <= size == |data| && size <= dst.Length && s0 <= |source|
    requires StreamAt(source, s0, rest0, room0) && Continues(rest0, dst[..d0], data)
    requires AllLiteral(rest0) && cword0 == Pow2(room0)
    modifies dst
    ensures dst[..size] == data
  {
    hide Stream, AllLegal, TokenBytes, AllLiteral;
    var s, d, cword := s0, d0, cword0;
    ghost var rest, room: nat := rest0, room0;
    while d < size
      invariant d0 <= d <= size && 0 <= s <= |source|
      invariant StreamAt(source, s, rest, room) && Continues(rest, dst[..d], data)
      invariant AllLiteral(rest) && cword == Pow2(room)
      decreases size - d
    {
      if cword == 1 {
        PeelControl(source, s, rest);
        s := s + CWORD_LEN;
        cword := TWO_31;
        room := GROUP;
        Pow2Group();
      }
      LiteralStep(source, s, rest, room, dst[..d], data);
      ghost var out := dst[..d];
      dst[d] := source[s];
      assert dst[..d + 1] == out + [source[s]];
      d, s, cword := d + 1, s + 1, cword / 2;
      rest, room := rest[1..], room - 1;
    }
    assert dst[..d] <= data;
  }

  lemma {:induction false} MatchStep(source: seq<byte>, s: nat, rest: seq<Token>, room: nat)
    requires StreamAt(source, s, rest, room) && rest != [] && 0 < room && rest[0].Match?
    requires s + 4 <= |source|
    ensures ParseMatch(FastRead4(source, s)) == (rest[0].off, rest[0].len, |TokenBytes(rest[0])|)
  {
    PeelToken(source, s, rest, room);
    var t, k := rest[0], |TokenBytes(rest[0])|;
    assert source[s..s + 4][..k] == source[s..s + k];
    ParseMatchWord(t.off, t.len, source[s..s + 4]);
  }

  /** One reference: parse its one to four bytes and copy. */
  method CopyMatch(source: seq<byte>, dst: array<byte>, s: nat, d: nat,
                   ghost rest: seq<Token>, ghost room: nat, ghost data: seq<byte>)
    returns (s': nat, d': nat)
    requires d < |data| <= dst.Length && s + 4 <= |source| && 0 < room
    requires StreamAt(source, s, rest, room) && Continues(rest, dst[..d], data)
    requires Word(rest, room) % 2 == 1
    modifies dst
    ensures s' <= |source| && d < d' && d' + UNCOMPRESSED_END <= |data|
    ensures rest != [] && StreamAt(source, s', rest[1..], room - 1)
    ensures Continues(rest[1..], dst[..d'], data)
    ensures Word(rest[1..], room - 1) == Word(rest, room) / 2
  {
    hide Stream, TokenBytes, Copy;
    assert rest != [];
    HalveWord(rest, room);
    PeelToken(source, s, rest, room);
    MatchStep(source, s, rest, room);
    var (offset, matchlen, k) := ParseMatch(FastRead4(source, s));
    MemcpyUp(dst, d, d - offset, matchlen);
    s', d' := s + k, d + matchlen;
  }

  method CopyWord(source: seq<byte>, dst: array<byte>, s: nat, d: nat, ghost k: nat)
    requires d + 4 <= dst.Length && s + 4 <= |source| && k <= 4
    modifies dst
    ensures dst[..d + k] == old(dst[..d]) + source[s..s + k]
  {
    dst[d], dst[d + 1], dst[d + 2], dst[d + 3] := source[s], source[s + 1], source[s + 2], source[s + 3];
  }

  /** Up to four literals, moved as one word. */
  method CopyLiterals(source: seq<byte>, dst: array<byte>, s: nat, d: nat, cword: nat,
                      ghost rest: seq<Token>, ghost room: nat, ghost data: seq<byte>)
    returns (k: nat)
    requires d + UNCONDITIONAL_MATCHLEN + UNCOMPRESSED_END + 1 < |data| <= dst.Length && s + 4 <= |source|
    requires StreamAt(source, s, rest, room) && Continues(rest, dst[..d], data)
    requires cword == Word(rest, room) && cword % 2 == 0
    modifies dst
    ensures 0 < k <= 4 && k <= room && k <= |rest|
    ensures StreamAt(source, s + k, rest[k..], room - k)
    ensures Continues(rest[k..], dst[..d + k], data)
    ensures Word(rest[k..], room - k) == Shr(cword, k)
  {
    hide Stream, Word, AllLegal, Expand, TokenBytes, LowZeros, Shr;
    ghost var out := dst[..d];
    k := Bitlut(cword);
    TokensLeft(rest, out, |data|);
    LiteralRun(source, s, rest, room, k);
    LiteralText(rest, out, |data|, source[s..s + k]);
    CopyWord(source, dst, s, d, k);
  }

  /** Rebuilds `data` from its stream; every read stays inside `source` and every
      write inside the first `size` bytes of `dst`. */
  method DecompressCore(source: seq<byte>, dst: array<byte>, size: nat,
                        ghost toks: seq<Token>, ghost data: seq<byte>)
    requires 0 < size == |data| && size <= dst.Length && 9 <= |source|
    requires StreamAt(source, 0, toks, 0) && Continues(toks, [], data)
    modifies dst
    ensures dst[..size] == data
  {
    hide Stream, Word, AllLegal, Expand, TokenBytes;
    var s, d, cword := 0, 0, 1;
    ghost var rest, room: nat := toks, 0;
    assert dst[..0] == [];
    WordEnds(toks, 0);
    while true
      invariant 0 <= s <= |source| && 0 <= d < size
      invariant d == 0 ==> s == 0 && room == 0
      invariant d == 0 || d + UNCOMPRESSED_END <= size
      invariant StreamAt(source, s, rest, room) && Continues(rest, dst[..d], data)
      invariant cword == Word(rest, room)
      decreases size - d
    {
      TokensLeft(rest, dst[..d], size);
      WordEnds(rest, room);
      if cword == 1 {
        PeelControl(source, s, rest);
        cword := FastRead4(source, s);
        s := s + CWORD_LEN;
        room := GROUP;
      }
      if cword % 2 == 1 {
        s, d := CopyMatch(source, dst, s, d, rest, room, data);
        cword := cword / 2;
        rest, room := rest[1..], room - 1;
      } else if d < size - 1 - UNCONDITIONAL_MATCHLEN - UNCOMPRESSED_END {
        var k := CopyLiterals(source, dst, s, d, cword, rest, room, data);
        d, s, cword := d + k, s + k, Shr(cword, k);
        rest, room := rest[k..], room - k;
      } else {
        HalveWord(rest, room);
        TailIsLiteral(rest, dst[..d], size);
        WordOfLiterals(rest, room);
        CopyTail(source, dst, size, s, d, cword, rest, room, data);
        return;
      }
    }
  }
}
