/** qlz_compress_core: a greedy match search over a lossy 16-way hash table whose
    slots start out uninitialised, writing tokens behind control words in place. */
module QuickLzCompress {
  import opened Bytes
  import opened QuickLzTokens

  const QLZ_HASH_VALUES := 4096
  const QLZ_POINTERS := 16

  function Fetch3(data: seq<byte>, i: nat): (x: int)
    requires i + 3 <= |data|
    ensures 0 <= x < TWO_24
  {
    data[i] as int + 256 * (data[i + 1] as int + 256 * data[i + 2] as int)
  }

  function HashFunc(fetch: int): (h: nat)
    requires 0 <= fetch < TWO_24
    ensures h < QLZ_HASH_VALUES
  {
    ((fetch / 4096) as bv12 ^ (fetch % 4096) as bv12) as nat
  }

  /** The bucket of position `i`. */
  function HashAt(data: seq<byte>, i: nat): (h: nat)
    requires i + 3 <= |data|
    ensures h < QLZ_HASH_VALUES
  {
    HashFunc(Fetch3(data, i))
  }

  // ---- The hash table -----------------------------------------------------------------

  /** The positions before `n` whose next three bytes have hash `h`. */
  ghost function Filed(data: seq<byte>, n: nat, h: nat): (ps: seq<nat>)
    ensures forall i :: 0 <= i < |ps| ==> ps[i] < n
  {
    if n == 0 then [] else
    var ps := Filed(data, n - 1, h);
    if n + 2 <= |data| && HashAt(data, n - 1) == h then ps + [n - 1] else ps
  }

  /** Of `n` positions that went into sixteen slots in turn, the last one that went into slot `k`. */
  function LastIn(n: nat, k: nat): (i: nat)
    requires k < n && k < QLZ_POINTERS
    ensures i < n && i % QLZ_POINTERS == k && n <= i + QLZ_POINTERS
  {
    n - 1 - (n - 1 - k) % QLZ_POINTERS
  }

  ghost function Slot(ps: seq<nat>, k: nat): nat
    requires k < |ps| && k < QLZ_POINTERS
  {
    ps[LastIn(|ps|, k)]
  }

  /** The counter of a bucket is a byte and wraps; its slots hold the last sixteen positions. The slots of a
      bucket with fewer may hold anything, since the table is never cleared. */
  ghost predicate BucketIs(table: array2<int>, counter: array<byte>, h: nat, ps: seq<nat>)
    reads table, counter
    requires table.Length0 == QLZ_HASH_VALUES && table.Length1 == QLZ_POINTERS && counter.Length == QLZ_HASH_VALUES
    requires h < QLZ_HASH_VALUES
  {
    && counter[h] as int == |ps| % 256
    && forall k: nat :: k < QLZ_POINTERS && k < |ps| ==> table[h, k] == Slot(ps, k)
  }

  /** Every position before `src` has been filed under its hash. */
  ghost predicate TableIs(table: array2<int>, counter: array<byte>, data: seq<byte>, src: nat)
    reads table, counter
  {
    && table.Length0 == QLZ_HASH_VALUES && table.Length1 == QLZ_POINTERS && counter.Length == QLZ_HASH_VALUES
    && forall h: nat :: h < QLZ_HASH_VALUES ==> BucketIs(table, counter, h, Filed(data, src, h))
  }

  ghost predicate IsMatch(data: seq<byte>, o: int, src: int, len: int) {
    && 0 <= o < src && 0 <= len && src + len <= |data|
    && forall i :: src <= i < src + len ==> data[i] == data[i - (src - o)]
  }

  lemma FetchEqual(data: seq<byte>, o: nat, src: nat)
    requires o < src && src + 3 <= |data| && Fetch3(data, o) == Fetch3(data, src)
    ensures IsMatch(data, o, src, 3)
  {
    var a, b := data[o + 1] as int + 256 * data[o + 2] as int, data[src + 1] as int + 256 * data[src + 2] as int;
    DivMod(Fetch3(data, o), 256, a, data[o]);
    DivMod(Fetch3(data, src), 256, b, data[src]);
    DivMod(a, 256, data[o + 2], data[o + 1]);
    DivMod(b, 256, data[src + 2], data[src + 1]);
  }

  method ExtendMatch(data: seq<byte>, o: nat, src: nat, len0: nat, remaining: nat) returns (len: nat)
    requires src + remaining < |data| && len0 <= remaining && IsMatch(data, o, src, len0)
    ensures len0 <= len <= remaining && IsMatch(data, o, src, len)
    ensures len == remaining || data[o + len] != data[src + len]
  {
    len := len0;
    while data[o + len] == data[src + len] && len < remaining
      invariant len0 <= len <= remaining && IsMatch(data, o, src, len)
      decreases remaining - len
    {
      len := len + 1;
    }
  }

  /** How long a match at `src` may be. */
  function Remaining(n: nat, src: nat): nat
    requires src + UNCOMPRESSED_END <= n
  {
    if n - UNCOMPRESSED_END - src > 255 then 255 else n - UNCOMPRESSED_END - src
  }

  /** Slot `k` of the bucket is in use and names a position far enough back. */
  ghost predicate Candidate(table: array2<int>, counter: array<byte>, h: nat, k: nat, src: nat)
    reads table, counter
    requires table.Length0 == QLZ_HASH_VALUES && table.Length1 == QLZ_POINTERS && counter.Length == QLZ_HASH_VALUES
    requires h < QLZ_HASH_VALUES
  {
    k < QLZ_POINTERS && k < counter[h] as int && table[h, k] + MINOFFSET < src
  }

  lemma SlotValid(table: array2<int>, counter: array<byte>, data: seq<byte>, src: nat, h: nat, k: nat)
    requires TableIs(table, counter, data, src) && h < QLZ_HASH_VALUES && k < QLZ_POINTERS && k < counter[h] as int
    ensures 0 <= table[h, k] < src && k < |Filed(data, src, h)|
    ensures table[h, k] == Filed(data, src, h)[LastIn(|Filed(data, src, h)|, k)]
  {
    hide Filed, LastIn;
    assert BucketIs(table, counter, h, Filed(data, src, h));
  }

  lemma MatchAt(data: seq<byte>, p: nat, src: nat, len: nat, i: nat)
    requires IsMatch(data, p, src, len)
    ensures i < len ==> src + i < |data| && data[p + i] == data[src + i]
  {
    if i < len { assert data[src + i] == data[src + i - (src - p)]; }
  }

  /** The length of the match is the longest there is. */
  lemma Longest(data: seq<byte>, p: nat, src: nat, m: nat, remaining: nat, len: nat)
    requires p < src && src + remaining < |data| && m <= remaining && len <= remaining && IsMatch(data, p, src, len)
    requires m == remaining || data[p + m] != data[src + m]
    ensures len <= m
  {
    hide IsMatch;
    MatchAt(data, p, src, len, m);
  }

  lemma MatchFetches(data: seq<byte>, p: nat, src: nat, len: nat)
    requires 3 <= len && IsMatch(data, p, src, len) && src + 3 <= |data|
    ensures Fetch3(data, p) == Fetch3(data, src)
  {
    assert data[src] == data[src - (src - p)];
    assert data[src + 1] == data[src + 1 - (src - p)];
    assert data[src + 2] == data[src + 2 - (src - p)];
  }

  /** No match with position `p` is longer than `m`. */
  ghost predicate AtMost(data: seq<byte>, p: int, src: nat, remaining: nat, m: nat) {
    forall len: nat :: 3 <= len <= remaining && IsMatch(data, p, src, len) ==> len <= m
  }

  /** The match that one slot offers, zero if there is none. */
  method TrySlot(data: seq<byte>, p: nat, src: nat, fetch: int, remaining: nat) returns (m: nat)
    requires p < src && src + 3 <= |data| && src + remaining < |data| && 3 <= remaining && fetch == Fetch3(data, src)
    ensures m == 0 || 3 <= m <= remaining
    ensures m > 0 ==> p + MINOFFSET < src && IsMatch(data, p, src, m)
    ensures p + MINOFFSET < src ==> AtMost(data, p, src, remaining, m)
  {
    m := 0;
    if Fetch3(data, p) == fetch && p < src - MINOFFSET {
      FetchEqual(data, p, src);
      m := ExtendMatch(data, p, src, 3, remaining);
    }
    forall len: nat | 3 <= len <= remaining && IsMatch(data, p, src, len) && p + MINOFFSET < src ensures len <= m {
      MatchFetches(data, p, src, len);
      Longest(data, p, src, m, remaining, len);
    }
  }

  /** `o` is one of the candidates of the bucket. */
  ghost predicate Offered(table: array2<int>, counter: array<byte>, h: nat, src: nat, o: int)
    reads table, counter
    requires table.Length0 == QLZ_HASH_VALUES && table.Length1 == QLZ_POINTERS && counter.Length == QLZ_HASH_VALUES
    requires h < QLZ_HASH_VALUES
  {
    exists k: nat :: Candidate(table, counter, h, k, src) && o == table[h, k]
  }

  /** None of the first `n` slots offers a match longer than `m`. */
  ghost predicate NoneLonger(data: seq<byte>, table: array2<int>, counter: array<byte>, h: nat, src: nat,
                             remaining: nat, n: nat, m: nat)
    reads table, counter
    requires table.Length0 == QLZ_HASH_VALUES && table.Length1 == QLZ_POINTERS && counter.Length == QLZ_HASH_VALUES
    requires h < QLZ_HASH_VALUES
  {
    forall k: nat :: k < n && Candidate(table, counter, h, k, src) ==> AtMost(data, table[h, k], src, remaining, m)
  }

  /** The longest match that the bucket of `src` offers, or length zero when there is none. */
  method FindMatch(data: seq<byte>, table: array2<int>, counter: array<byte>, src: nat, hash: nat)
    returns (matchlen: nat, o: int)
    requires src + UNCONDITIONAL_MATCHLEN + UNCOMPRESSED_END < |data| && hash < QLZ_HASH_VALUES
    requires TableIs(table, counter, data, src)
    ensures matchlen == 0 || 3 <= matchlen <= Remaining(|data|, src)
    ensures matchlen > 0 ==> o + MINOFFSET < src && IsMatch(data, o, src, matchlen)
    ensures matchlen > 0 ==> Offered(table, counter, hash, src, o)
    ensures NoneLonger(data, table, counter, hash, src, Remaining(|data|, src), QLZ_POINTERS, matchlen)
  {
    hide IsMatch, AtMost, TableIs, Offered, NoneLonger, Fetch3;
    TableShape(table, counter, data, src);
    var remaining := Remaining(|data|, src);
    var fetch := Fetch3(data, src);
    var c := counter[hash];
    o := table[hash, 0];
    matchlen := 0;
    NoneYet(data, table, counter, hash, src, remaining);
    var k := 0;
    while k < QLZ_POINTERS && c as int > k
      invariant 0 <= k <= QLZ_POINTERS && k <= c as int
      invariant matchlen == 0 || 3 <= matchlen <= remaining
      invariant matchlen > 0 ==> o + MINOFFSET < src && IsMatch(data, o, src, matchlen)
      invariant matchlen > 0 ==> Offered(table, counter, hash, src, o)
      invariant NoneLonger(data, table, counter, hash, src, remaining, k, matchlen)
    {
      SlotValid(table, counter, data, src, hash, k);
      var p := table[hash, k];
      var m := TrySlot(data, p, src, fetch, remaining);
      NoneMore(data, table, counter, hash, src, remaining, k, matchlen, m);
      if m > 0 && (m > matchlen || (m == matchlen && p > o)) {
        OfferedAt(table, counter, hash, src, k);
        o, matchlen := p, m;
      }
      k := k + 1;
    }
    NoneLeft(data, table, counter, hash, src, remaining, k, matchlen);
  }

  lemma OfferedAt(table: array2<int>, counter: array<byte>, h: nat, src: nat, k: nat)
    requires table.Length0 == QLZ_HASH_VALUES && table.Length1 == QLZ_POINTERS && counter.Length == QLZ_HASH_VALUES
    requires h < QLZ_HASH_VALUES && Candidate(table, counter, h, k, src)
    ensures Offered(table, counter, h, src, table[h, k])
  {
  }

  lemma NoneYet(data: seq<byte>, table: array2<int>, counter: array<byte>, h: nat, src: nat, remaining: nat)
    requires table.Length0 == QLZ_HASH_VALUES && table.Length1 == QLZ_POINTERS && counter.Length == QLZ_HASH_VALUES
    requires h < QLZ_HASH_VALUES
    ensures NoneLonger(data, table, counter, h, src, remaining, 0, 0)
  {
  }

  lemma NoneMore(data: seq<byte>, table: array2<int>, counter: array<byte>, h: nat, src: nat, remaining: nat, k: nat,
                 matchlen: nat, m: nat)
    requires table.Length0 == QLZ_HASH_VALUES && table.Length1 == QLZ_POINTERS && counter.Length == QLZ_HASH_VALUES
    requires h < QLZ_HASH_VALUES && k < QLZ_POINTERS
    requires NoneLonger(data, table, counter, h, src, remaining, k, matchlen)
    requires table[h, k] + MINOFFSET < src ==> AtMost(data, table[h, k], src, remaining, m)
    ensures NoneLonger(data, table, counter, h, src, remaining, k + 1, if m > matchlen then m else matchlen)
  {
    hide AtMost;
    var best := if m > matchlen then m else matchlen;
    forall j: nat | j < k + 1 && Candidate(table, counter, h, j, src)
      ensures AtMost(data, table[h, j], src, remaining, best)
    {
      AtMostMore(data, table[h, j], src, remaining, if j < k then matchlen else m, best);
    }
  }

  lemma NoneLeft(data: seq<byte>, table: array2<int>, counter: array<byte>, h: nat, src: nat, remaining: nat, k: nat,
                 m: nat)
    requires table.Length0 == QLZ_HASH_VALUES && table.Length1 == QLZ_POINTERS && counter.Length == QLZ_HASH_VALUES
    requires h < QLZ_HASH_VALUES && (k >= QLZ_POINTERS || k >= counter[h] as int)
    requires NoneLonger(data, table, counter, h, src, remaining, k, m)
    ensures NoneLonger(data, table, counter, h, src, remaining, QLZ_POINTERS, m)
  {
    hide AtMost;
  }

  lemma AtMostMore(data: seq<byte>, p: int, src: nat, remaining: nat, m: nat, m': nat)
    requires AtMost(data, p, src, remaining, m) && m <= m'
    ensures AtMost(data, p, src, remaining, m')
  {
    hide IsMatch;
  }

  lemma TableShape(table: array2<int>, counter: array<byte>, data: seq<byte>, src: nat)
    requires TableIs(table, counter, data, src)
    ensures table.Length0 == QLZ_HASH_VALUES && table.Length1 == QLZ_POINTERS && counter.Length == QLZ_HASH_VALUES
  {
    hide BucketIs;
  }

  lemma NextSlot(n: nat, k: nat)
    requires k < QLZ_POINTERS && k < n + 1
    ensures k == n % QLZ_POINTERS ==> LastIn(n + 1, k) == n
    ensures k != n % QLZ_POINTERS ==> k < n && LastIn(n + 1, k) == LastIn(n, k)
  {
  }

  /** One more position changes one slot. */
  ghost predicate SlotStays(ps: seq<nat>, pos: nat, k: nat) {
    k < QLZ_POINTERS && k < |ps| + 1 ==>
      Slot(ps + [pos], k) == if k == |ps| % QLZ_POINTERS then pos else if k < |ps| then Slot(ps, k) else 0
  }

  lemma NextSlots(ps: seq<nat>, pos: nat)
    ensures forall k: nat :: SlotStays(ps, pos, k)
  {
    forall k: nat ensures SlotStays(ps, pos, k) {
      if k < QLZ_POINTERS && k < |ps| + 1 { NextSlot(|ps|, k); }
    }
  }

  lemma SlotOf(n: nat)
    ensures (n % 256) % QLZ_POINTERS == n % QLZ_POINTERS && (n % 256 + 1) % 256 == (n + 1) % 256
  {
  }

  lemma FiledNext(data: seq<byte>, pos: nat)
    requires pos + 3 <= |data|
    ensures forall h: nat ::
      Filed(data, pos + 1, h) == if h == HashAt(data, pos) then Filed(data, pos, h) + [pos] else Filed(data, pos, h)
  {
    hide HashAt;
  }

  /** Files position `pos` under its hash; the counter is a byte and wraps. */
  method Insert(data: seq<byte>, table: array2<int>, counter: array<byte>, pos: nat)
    requires pos + 3 <= |data| && TableIs(table, counter, data, pos)
    modifies table, counter
    ensures TableIs(table, counter, data, pos + 1)
  {
    hide LastIn, HashAt, Filed;
    var hash := HashAt(data, pos);
    var c := counter[hash];
    ghost var ps := Filed(data, pos, hash);
    assert BucketIs(table, counter, hash, ps);
    SlotOf(|ps|);
    table[hash, c % QLZ_POINTERS] := pos;
    counter[hash] := (c + 1) as int % 256;
    FiledNext(data, pos);
    NextSlots(ps, pos);
    ghost var next := pos + 1;
    forall h: nat | h < QLZ_HASH_VALUES ensures BucketIs(table, counter, h, Filed(data, next, h)) {
      assert old(BucketIs(table, counter, h, Filed(data, pos, h)));
      if h == hash {
        forall k: nat | k < QLZ_POINTERS && k < |ps| + 1 ensures table[h, k] == Slot(ps + [pos], k) {
          assert SlotStays(ps, pos, k) && (k != |ps| % QLZ_POINTERS ==> k < |ps|);
        }
      }
    }
  }

  method InsertRange(data: seq<byte>, table: array2<int>, counter: array<byte>, src: nat, matchlen: nat)
    requires 0 < matchlen && src + matchlen + 2 <= |data| && TableIs(table, counter, data, src + 1)
    modifies table, counter
    ensures TableIs(table, counter, data, src + matchlen)
  {
    hide TableIs;
    var u := 1;
    while u < matchlen
      invariant 1 <= u <= matchlen && TableIs(table, counter, data, src + u)
    {
      Insert(data, table, counter, src + u);
      u := u + 1;
    }
  }

  /** Looks for a match at `src` and files every position the token will cover. */
  method SearchAndFile(data: seq<byte>, table: array2<int>, counter: array<byte>, src: nat)
    returns (matchlen: nat, o: int)
    requires src + UNCONDITIONAL_MATCHLEN + UNCOMPRESSED_END < |data|
    requires TableIs(table, counter, data, src)
    modifies table, counter
    ensures matchlen > 0 ==> 0 <= o < src && Legal(Match(src - o, matchlen), data[..src], |data|)
    ensures matchlen > 0 ==> IsMatch(data, o, src, matchlen)
    ensures TableIs(table, counter, data, if matchlen > 0 then src + matchlen else src + 1)
    ensures Uniform(data) ==> matchlen == 0 || matchlen == Remaining(|data|, src)
    ensures Uniform(data) && src % 256 >= 3 ==> matchlen > 0
  {
    hide TableIs, AtMost, IsMatch, Offered, NoneLonger, HashAt;
    var hash := HashAt(data, src);
    matchlen, o := FindMatch(data, table, counter, src, hash);
    if Uniform(data) { UniformMatch(data, table, counter, src, hash, matchlen, o); }
    IsMatchInside(data, o, src, matchlen);
    Insert(data, table, counter, src);
    if matchlen > 2 && src - o < 131071 {
      InsertRange(data, table, counter, src, matchlen);
    } else {
      matchlen := 0;
    }
  }

  lemma IsMatchInside(data: seq<byte>, o: int, src: nat, matchlen: nat)
    ensures IsMatch(data, o, src, matchlen) ==> 0 <= o < src && src + matchlen <= |data|
  {
  }

  // ---- One byte all over --------------------------------------------------------------------

  predicate Uniform(data: seq<byte>) {
    forall i :: 0 <= i < |data| ==> data[i] == data[0]
  }

  lemma UniformIsMatch(data: seq<byte>, p: nat, src: nat, len: nat)
    requires Uniform(data) && p < src && src + len <= |data|
    ensures IsMatch(data, p, src, len)
  {
  }

  lemma UniformFetch(data: seq<byte>, p: nat, src: nat)
    requires Uniform(data) && p + 3 <= |data| && src + 3 <= |data|
    ensures Fetch3(data, p) == Fetch3(data, src)
  {
  }

  /** All positions go into one bucket. */
  lemma {:induction false} UniformFiled(data: seq<byte>, n: nat, src: nat)
    requires Uniform(data) && n <= src && src + 3 <= |data|
    ensures var ps := Filed(data, n, HashAt(data, src)); |ps| == n && forall i :: 0 <= i < n ==> ps[i] == i
    decreases n
  {
    hide HashFunc, Fetch3;
    if n > 0 {
      UniformFiled(data, n - 1, src);
      UniformFetch(data, n - 1, src);
    }
  }

  /** A match is as long as it may be and close by; there is one unless the counter has just wrapped. */
  lemma UniformMatch(data: seq<byte>, table: array2<int>, counter: array<byte>, src: nat, h: nat, matchlen: nat, o: int)
    requires src + UNCONDITIONAL_MATCHLEN + UNCOMPRESSED_END < |data| && Uniform(data) && h == HashAt(data, src)
    requires TableIs(table, counter, data, src) && matchlen <= Remaining(|data|, src)
    requires matchlen > 0 ==> Offered(table, counter, h, src, o)
    requires NoneLonger(data, table, counter, h, src, Remaining(|data|, src), QLZ_POINTERS, matchlen)
    ensures matchlen > 0 ==> matchlen == Remaining(|data|, src) && src - o <= QLZ_POINTERS
    ensures src % 256 >= 3 ==> matchlen > 0
  {
    hide TableIs, IsMatch, Filed, HashAt, Uniform, LastIn;
    TableShape(table, counter, data, src);
    UniformFiled(data, src, src);
    if matchlen > 0 {
      var k: nat :| Candidate(table, counter, h, k, src) && o == table[h, k];
      UniformSlot(data, table, counter, src, h, k, matchlen);
    }
    if src % 256 >= 3 {
      ThreeBack(src);
      CounterIs(table, counter, data, src, h);
      UniformSlot(data, table, counter, src, h, (src - 3) % QLZ_POINTERS, matchlen);
    }
  }

  lemma UniformSlot(data: seq<byte>, table: array2<int>, counter: array<byte>, src: nat, h: nat, k: nat, matchlen: nat)
    requires src + UNCONDITIONAL_MATCHLEN + UNCOMPRESSED_END < |data| && Uniform(data) && h == HashAt(data, src)
    requires TableIs(table, counter, data, src) && k < QLZ_POINTERS && k < counter[h] as int
    requires NoneLonger(data, table, counter, h, src, Remaining(|data|, src), QLZ_POINTERS, matchlen)
    ensures k < src && table[h, k] == LastIn(src, k)
    ensures table[h, k] + MINOFFSET < src ==> Remaining(|data|, src) <= matchlen
  {
    hide TableIs, IsMatch, Filed, HashAt, Uniform, LastIn;
    TableShape(table, counter, data, src);
    UniformFiled(data, src, src);
    SlotValid(table, counter, data, src, h, k);
    UniformIsMatch(data, table[h, k], src, Remaining(|data|, src));
    if table[h, k] + MINOFFSET < src {
      assert Candidate(table, counter, h, k, src);
    }
  }

  lemma CounterIs(table: array2<int>, counter: array<byte>, data: seq<byte>, src: nat, h: nat)
    requires TableIs(table, counter, data, src) && h < QLZ_HASH_VALUES
    ensures counter[h] as int == |Filed(data, src, h)| % 256
  {
    hide Filed, LastIn;
    assert BucketIs(table, counter, h, Filed(data, src, h));
  }

  lemma ThreeBack(src: nat)
    requires src % 256 >= 3
    ensures var k := (src - 3) % QLZ_POINTERS; k < src % 256 && k < src && LastIn(src, k) == src - 3
  {
    hide LastIn;
    SlotOf(src);
    SlotOf(src - 3);
    var k := (src - 3) % QLZ_POINTERS;
    assert k <= src - 3;
    SameResidue(LastIn(src, k), src - 3);
  }

  lemma SameResidue(a: nat, b: nat)
    requires a % QLZ_POINTERS == b % QLZ_POINTERS && a < b + QLZ_POINTERS && b < a + QLZ_POINTERS
    ensures a == b
  {
  }

  /** A match in the text is what the decompressor's copy produces. */
  lemma {:induction false} MatchIsCopy(data: seq<byte>, o: nat, src: nat, len: nat)
    requires IsMatch(data, o, src, len)
    ensures Copy(data[..src], src - o, len) == data[..src + len]
    decreases len
  {
    if len > 0 {
      assert data[..src] + [data[..src][o]] == data[..src + 1];
      MatchIsCopy(data, o + 1, src + 1, len - 1);
    }
  }

  // ---- The control word under construction ---------------------------------------

  function Flag(t: Token): int {
    if t.Match? then 1 else 0
  }

  function Flags(toks: seq<Token>): (b: nat) {
    if toks == [] then 0 else Flag(toks[0]) + 2 * Flags(toks[1..])
  }

  function Shl(x: nat, k: nat): (r: nat) {
    if k == 0 then x else 2 * Shl(x, k - 1)
  }

  /** cword_val after the tokens `cur`: flags above a moving 1, zeros below it. */
  function Cword(cur: seq<Token>): (w: nat)
    requires |cur| <= GROUP
  {
    Shl(1 + 2 * Flags(cur), GROUP - |cur|)
  }

  lemma {:induction false} FlagsSnoc(toks: seq<Token>, t: Token)
    ensures Flags(toks + [t]) == Flags(toks) + (if t.Match? then Pow2(|toks|) else 0)
  {
    if toks == [] {
      assert toks + [t] == [t] && [t][1..] == [];
    } else {
      assert (toks + [t])[1..] == toks[1..] + [t];
      FlagsSnoc(toks[1..], t);
    }
  }

  lemma {:induction false} ShlAdd(x: nat, e: nat, k: nat)
    ensures Shl(x + Pow2(e), k) == Shl(x, k) + Pow2(e + k)
    decreases k
  {
    if k > 0 {
      ShlAdd(x, e, k - 1);
    }
  }

  lemma {:induction false} WordOfFlags(toks: seq<Token>, room: nat)
    requires |toks| <= room
    ensures Word(toks, room) == Flags(toks) + Pow2(room)
  {
    if room > 0 {
      WordOfFlags(if toks == [] then [] else toks[1..], room - 1);
    }
  }

  lemma {:induction false} CwordStep(cur: seq<Token>, t: Token)
    requires |cur| < GROUP
    ensures Cword(cur + [t]) == Cword(cur) / 2 + (if t.Match? then TWO_31 else 0)
    ensures Cword(cur) % 2 == 0
  {
    FlagsSnoc(cur, t);
    Pow2Group();
    if t.Match? {
      ShlAdd(1 + 2 * Flags(cur), |cur| + 1, GROUP - 1 - |cur|);
    }
  }

  lemma {:induction false} CwordFull(cur: seq<Token>)
    requires |cur| == GROUP
    ensures Cword(cur) % 2 == 1 && Cword(cur) / 2 + TWO_31 == Word(cur, GROUP)
  {
    WordOfFlags(cur, GROUP);
    Pow2Group();
  }

  lemma {:induction false} CwordParity(cur: seq<Token>)
    requires |cur| <= GROUP
    ensures Cword(cur) % 2 == 1 <==> |cur| == GROUP
    ensures Cword([]) == TWO_31
    ensures |cur| == GROUP ==> Cword(cur) / 2 + TWO_31 == Word(cur, GROUP) < TWO_32
  {
    Pow2Group();
    ShlAdd(0, 0, GROUP);
    ShlZero(GROUP);
    if |cur| == GROUP {
      CwordFull(cur);
      WordRange(cur, GROUP);
    }
  }

  lemma {:induction false} ShlZero(k: nat)
    ensures Shl(0, k) == 0
  {
    if k > 0 { ShlZero(k - 1); }
  }

  /** The loop that runs the flags of the last word down to its marker. */
  method Drain(cword0: nat, ghost cur: seq<Token>) returns (cword: nat)
    requires |cur| <= GROUP && cword0 == Cword(cur)
    ensures cword / 2 + TWO_31 == Word(cur, GROUP) < TWO_32
  {
    cword := cword0;
    ghost var k: nat := GROUP - |cur|;
    while cword % 2 != 1
      invariant 0 <= k <= GROUP && cword == Shl(1 + 2 * Flags(cur), k)
      decreases k
    {
      cword := cword / 2;
      k := k - 1;
    }
    assert k == 0;
    DrainedWord(cur);
  }

  lemma {:induction false} DrainedWord(cur: seq<Token>)
    requires |cur| <= GROUP
    ensures Flags(cur) + TWO_31 == Word(cur, GROUP) < TWO_32
  {
    WordRange(cur, GROUP);
    WordOfFlags(cur, GROUP);
    Pow2Group();
  }

  // ---- The destination buffer ------------------------------------------------------

  /** Little-endian store; on x86 a three-byte store writes a fourth byte too. */
  method FastWrite(f: int, dst: array<byte>, p: nat, bytes: nat)
    requires 0 <= f < TWO_32 && 1 <= bytes <= 4 && p + 4 <= dst.Length
    modifies dst
    ensures dst[..p + bytes] == old(dst[..p]) + Le32(f)[..bytes]
    ensures forall i :: p + 4 <= i < dst.Length ==> dst[i] == old(dst[i])
  {
    var bs := Le32(f);
    if bytes >= 3 {
      dst[p], dst[p + 1], dst[p + 2], dst[p + 3] := bs[0], bs[1], bs[2], bs[3];
    } else if bytes == 2 {
      dst[p], dst[p + 1] := bs[0], bs[1];
    } else {
      dst[p] := bs[0];
    }
  }

  /** `bs` holds the finished groups of `done`, a reserved control word at `cwp` and
      the tokens `cur` of the group being filled. */
  ghost predicate Emitted(bs: seq<byte>, cwp: nat, done: seq<Token>, groups: nat, cur: seq<Token>) {
    && AllEncodable(done) && AllEncodable(cur)
    && |done| == GROUP * groups && |cur| <= GROUP
    && cwp + CWORD_LEN <= |bs|
    && bs[..cwp] == Stream(done, 0)
    && bs[cwp + CWORD_LEN..] == Plain(cur)
  }

  /** The tokens so far stand for the text up to `src`. */
  ghost predicate Covers(toks: seq<Token>, data: seq<byte>, src: nat) {
    src <= |data| && AllLegal(toks, [], |data|) && Expand(toks, []) == data[..src]
  }

  lemma {:induction false} EmitToken(bs: seq<byte>, cwp: nat, done: seq<Token>, groups: nat, cur: seq<Token>, t: Token)
    requires Emitted(bs, cwp, done, groups, cur) && |cur| < GROUP && Encodable(t)
    ensures Emitted(bs + TokenBytes(t), cwp, done, groups, cur + [t])
  {
    hide Stream, TokenBytes;
    PlainSnoc(cur, t);
    var bs' := bs + TokenBytes(t);
    assert bs'[..cwp] == bs[..cwp];
    assert bs'[cwp + CWORD_LEN..] == bs[cwp + CWORD_LEN..] + TokenBytes(t);
  }

  lemma {:induction false} CoverToken(toks: seq<Token>, data: seq<byte>, src: nat, t: Token, src': nat)
    requires Covers(toks, data, src) && Legal(t, data[..src], |data|)
    requires src' <= |data| && Apply(t, data[..src]) == data[..src']
    ensures Covers(toks + [t], data, src')
  {
    ExpandSnoc(toks, t, [], |data|);
  }

  /** Filling in the reserved word closes the group. */
  lemma {:induction false} CloseGroup(bs: seq<byte>, cwp: nat, done: seq<Token>, groups: nat, cur: seq<Token>,
                                      bs': seq<byte>)
    requires Emitted(bs, cwp, done, groups, cur) && cur != []
    requires |bs'| == |bs| && bs'[..cwp + CWORD_LEN] == bs[..cwp] + ControlWord(cur)
    requires bs'[cwp + CWORD_LEN..] == bs[cwp + CWORD_LEN..]
    ensures AllEncodable(done + cur) && bs' == Stream(done + cur, 0)
  {
    hide ControlWord, TokenBytes;
    StreamConcat(done, cur, 0, groups);
    StreamOfOneGroup(cur, GROUP);
    assert Stream(cur, 0) == ControlWord(cur) + Plain(cur);
    assert bs' == bs'[..cwp + CWORD_LEN] + bs'[cwp + CWORD_LEN..];
  }

  /** Reserving the next control word. */
  lemma {:induction false} OpenGroup(done: seq<Token>, groups: nat, bs: seq<byte>)
    requires AllEncodable(done) && |done| == GROUP * groups
    requires |bs| == |Stream(done, 0)| + CWORD_LEN && Stream(done, 0) <= bs
    ensures Emitted(bs, |Stream(done, 0)|, done, groups, [])
  {
  }

  /** What bounds the output: positions are relative to the destination, `srcR` is
      where the open control word was reserved. */
  predicate Budget(size: nat, src: nat, d: nat, cwp: nat, srcR: nat, groups: nat, n: nat) {
    && srcR <= src && GROUP * groups <= srcR && n <= GROUP && n <= src - srcR
    && cwp <= srcR + CWORD_LEN * groups
    && (cwp <= srcR || srcR <= 3 * (size / 4))
    && d <= cwp + CWORD_LEN + (src - srcR) && d <= cwp + CWORD_LEN + 4 * n
  }

  lemma BudgetBound(size: nat, src: nat, d: nat, cwp: nat, srcR: nat, groups: nat, n: nat)
    requires Budget(size, src, d, cwp, srcR, groups, n) && src <= size
    ensures d <= size + 132 && d <= src + CWORD_LEN * (groups + 1) && GROUP * groups + n <= src
  {
  }

  lemma BudgetReload(size: nat, src: nat, d: nat, cwp: nat, srcR: nat, groups: nat)
    requires Budget(size, src, d, cwp, srcR, groups, GROUP)
    requires src <= 3 * (size / 4) || d <= src - src / 32
    ensures Budget(size, src, d + CWORD_LEN, d, src, groups + 1, 0)
  {
  }

  lemma BudgetToken(size: nat, src: nat, d: nat, cwp: nat, srcR: nat, groups: nat, n: nat, len: nat, k: nat)
    requires Budget(size, src, d, cwp, srcR, groups, n) && n < GROUP
    requires 1 <= k <= 4 && k <= len
    ensures Budget(size, src + len, d + k, cwp, srcR, groups, n + 1)
  {
  }

  /** Stores the control word of `cur` in its reserved place. */
  method StoreWord(dst: array<byte>, base: nat, cwp: nat, d: nat, w: int,
                   ghost done: seq<Token>, ghost groups: nat, ghost cur: seq<Token>)
    requires base + cwp + CWORD_LEN <= base + d <= dst.Length
    requires Emitted(dst[base..base + d], cwp, done, groups, cur) && cur != []
    requires 0 <= w < TWO_32 && w == Word(cur, GROUP)
    modifies dst
    ensures AllEncodable(done + cur) && dst[base..base + d] == Stream(done + cur, 0)
    ensures dst[..base] == old(dst[..base])
  {
    hide Stream, Plain, Word;
    ghost var bs := dst[base..base + d];
    ghost var low := dst[..base + cwp];
    FastWrite(w, dst, base + cwp, CWORD_LEN);
    ghost var bs' := dst[base..base + d];
    assert Le32(w)[..4] == Le32(w) == ControlWord(cur);
    assert dst[..base + cwp + CWORD_LEN] == low + ControlWord(cur);
    assert bs'[..cwp + CWORD_LEN] == dst[..base + cwp + CWORD_LEN][base..] == bs[..cwp] + ControlWord(cur);
    assert bs'[cwp + CWORD_LEN..] == bs[cwp + CWORD_LEN..];
    assert dst[..base] == dst[..base + cwp + CWORD_LEN][..base] == low[..base];
    CloseGroup(bs, cwp, done, groups, cur, bs');
  }

  method EmitLiteral(dst: array<byte>, base: nat, cwp: nat, d: nat, b: byte,
                     ghost done: seq<Token>, ghost groups: nat, ghost cur: seq<Token>)
    requires base + d < dst.Length && |cur| < GROUP
    requires Emitted(dst[base..base + d], cwp, done, groups, cur)
    modifies dst
    ensures Emitted(dst[base..base + d + 1], cwp, done, groups, cur + [Lit(b)])
    ensures dst[..base] == old(dst[..base])
  {
    hide Emitted;
    EmitToken(dst[base..base + d], cwp, done, groups, cur, Lit(b));
    ghost var bs := dst[base..base + d];
    dst[base + d] := b;
    assert dst[base..base + d + 1] == bs + [b];
  }

  /** One of the five encodings, chosen by length and distance. */
  method WriteMatch(dst: array<byte>, p: nat, off: nat, len: nat) returns (k: nat)
    requires p + 4 <= dst.Length && Encodable(Match(off, len))
    modifies dst
    ensures k == |TokenBytes(Match(off, len))| && p + k <= dst.Length
    ensures dst[..p + k] == old(dst[..p]) + TokenBytes(Match(off, len))
  {
    hide Le32;
    if len == 3 && off <= 63 {
      FastWrite(4 * off, dst, p, 1);
      k := 1;
    } else if len == 3 && off <= 16383 {
      FastWrite(4 * off + 1, dst, p, 2);
      k := 2;
    } else if len <= 18 && off <= 1023 {
      FastWrite(4 * (len - 3) + 64 * off + 2, dst, p, 2);
      k := 2;
    } else if len <= 33 {
      FastWrite(4 * (len - 2) + 128 * off + 3, dst, p, 3);
      k := 3;
    } else {
      FastWrite(128 * (len - 3) + 32768 * off + 3, dst, p, 4);
      k := 4;
    }
  }

  method EmitMatch(dst: array<byte>, base: nat, cwp: nat, d: nat, off: nat, len: nat,
                   ghost done: seq<Token>, ghost groups: nat, ghost cur: seq<Token>)
    returns (k: nat)
    requires base + d + 4 <= dst.Length && |cur| < GROUP && Encodable(Match(off, len))
    requires Emitted(dst[base..base + d], cwp, done, groups, cur)
    modifies dst
    ensures 1 <= k <= 4 && k <= len
    ensures Emitted(dst[base..base + d + k], cwp, done, groups, cur + [Match(off, len)])
    ensures dst[..base] == old(dst[..base])
  {
    hide Emitted;
    ghost var t := Match(off, len);
    ghost var bs, low := dst[base..base + d], dst[..base + d];
    EmitToken(bs, cwp, done, groups, cur, t);
    k := WriteMatch(dst, base + d, off, len);
    assert dst[base..base + d + k] == dst[..base + d + k][base..] == bs + TokenBytes(t) by { hide TokenBytes; }
    assert dst[..base] == dst[..base + d + k][..base] == low[..base] by { hide TokenBytes; }
  }

  /** Closes the full group and reserves the next control word. */
  method NextGroup(dst: array<byte>, base: nat, cwp: nat, d: nat, cword: nat,
                   ghost done: seq<Token>, ghost groups: nat, ghost cur: seq<Token>)
    requires base + cwp + CWORD_LEN <= base + d && base + d + CWORD_LEN <= dst.Length
    requires Emitted(dst[base..base + d], cwp, done, groups, cur)
    requires |cur| == GROUP && cword == Cword(cur)
    modifies dst
    ensures Emitted(dst[base..base + d + CWORD_LEN], d, done + cur, groups + 1, [])
    ensures dst[..base] == old(dst[..base])
  {
    CwordParity(cur);
    hide Stream, Word, Cword, Plain;
    StoreWord(dst, base, cwp, d, cword / 2 + TWO_31, done, groups, cur);
    assert dst[base..base + d + CWORD_LEN][..d] == dst[base..base + d];
    OpenGroup(done + cur, groups + 1, dst[base..base + d + CWORD_LEN]);
  }

  lemma CoverLiteral(toks: seq<Token>, data: seq<byte>, src: nat)
    requires Covers(toks, data, src) && src < |data|
    ensures Covers(toks + [Lit(data[src])], data, src + 1)
  {
    assert data[..src] + [data[src]] == data[..src + 1];
    CoverToken(toks, data, src, Lit(data[src]), src + 1);
  }

  lemma CoverMatch(toks: seq<Token>, data: seq<byte>, src: nat, o: nat, len: nat)
    requires Covers(toks, data, src) && IsMatch(data, o, src, len)
    requires Legal(Match(src - o, len), data[..src], |data|)
    ensures Covers(toks + [Match(src - o, len)], data, src + len)
  {
    MatchIsCopy(data, o, src, len);
    CoverToken(toks, data, src, Match(src - o, len), src + len);
  }

  lemma Snoc(done: seq<Token>, cur: seq<Token>, t: Token)
    ensures done + (cur + [t]) == done + cur + [t]
    ensures done + cur + [] == done + cur
  {
  }

  /** The last bytes are literals; here no ratio is checked. */
  method CompressTail(data: seq<byte>, dst: array<byte>, base: nat, src0: nat, cwp0: nat, d0: nat, cword0: nat,
                      ghost done0: seq<Token>, ghost groups0: nat, ghost cur0: seq<Token>)
    returns (d: nat, ghost toks: seq<Token>, ghost groups: nat)
    requires 0 < |data| <= src0 + UNCONDITIONAL_MATCHLEN + UNCOMPRESSED_END && src0 <= |data|
    requires src0 == |data| ==> cur0 != []
    requires base + d0 + 18 <= dst.Length && cwp0 + CWORD_LEN <= d0
    requires |cur0| <= GROUP && cword0 == Cword(cur0) && GROUP * groups0 + |cur0| <= src0
    requires d0 <= src0 + CWORD_LEN * (groups0 + 1)
    requires Emitted(dst[base..base + d0], cwp0, done0, groups0, cur0)
    requires Covers(done0 + cur0, data, src0)
    modifies dst
    ensures dst[..base] == old(dst[..base])
    ensures d <= d0 + 14 && d <= |data| + CWORD_LEN * (groups + 1) && GROUP * groups < |data|
    ensures base + d <= dst.Length && AllEncodable(toks) && dst[base..base + d] == Stream(toks, 0)
    ensures Covers(toks, data, |data|)
  {
    hide Emitted, Covers, Cword, Stream, TokenBytes, Word, Plain;
    var src, cwp, cword := src0, cwp0, cword0;
    d := d0;
    groups := groups0;
    ghost var done, cur, reloaded := done0, cur0, false;
    while src < |data|
      invariant src0 <= src <= |data|
      invariant src == |data| ==> cur != []
      invariant dst[..base] == old(dst[..base])
      invariant |cur| <= GROUP && cword == Cword(cur) && 0 <= cwp <= cwp + CWORD_LEN <= d
      invariant d <= d0 + (src - src0) + (if reloaded then CWORD_LEN else 0)
      invariant reloaded ==> |cur| <= src - src0
      invariant GROUP * groups + |cur| <= src && d <= src + CWORD_LEN * (groups + 1)
      invariant Emitted(dst[base..base + d], cwp, done, groups, cur)
      invariant Covers(done + cur, data, src)
    {
      CwordParity(cur);
      if cword % 2 == 1 {
        NextGroup(dst, base, cwp, d, cword, done, groups, cur);
        Snoc(done, cur, Lit(data[src]));
        done, groups, cur, reloaded := done + cur, groups + 1, [], true;
        cwp := d;
        d := d + CWORD_LEN;
        cword := TWO_31;
      }
      EmitLiteral(dst, base, cwp, d, data[src], done, groups, cur);
      CwordStep(cur, Lit(data[src]));
      CoverLiteral(done + cur, data, src);
      Snoc(done, cur, Lit(data[src]));
      cword := cword / 2;
      cur := cur + [Lit(data[src])];
      src, d := src + 1, d + 1;
    }
    var w := Drain(cword, cur);
    StoreWord(dst, base, cwp, d, w / 2 + TWO_31, done, groups, cur);
    toks := done + cur;
  }

  /** The main loop's invariant, over the destination bytes written so far. */
  ghost predicate Open(bs: seq<byte>, data: seq<byte>, src: nat, cwp: nat, cword: nat,
                       done: seq<Token>, groups: nat, cur: seq<Token>, srcR: nat) {
    && src <= |data| && |cur| <= GROUP && cword == Cword(cur)
    && Emitted(bs, cwp, done, groups, cur)
    && Covers(done + cur, data, src)
    && Budget(|data|, src, |bs|, cwp, srcR, groups, |cur|)
  }

  lemma OpenFacts(bs: seq<byte>, data: seq<byte>, src: nat, cwp: nat, cword: nat,
                  done: seq<Token>, groups: nat, cur: seq<Token>, srcR: nat)
    requires Open(bs, data, src, cwp, cword, done, groups, cur, srcR)
    ensures cwp + CWORD_LEN <= |bs| <= |data| + 132
    ensures |bs| <= src + CWORD_LEN * (groups + 1) && GROUP * groups + |cur| <= src
    ensures cword % 2 == 1 <==> |cur| == GROUP
    ensures |cur| <= GROUP && cword == Cword(cur)
    ensures Emitted(bs, cwp, done, groups, cur) && Covers(done + cur, data, src)
  {
    BudgetBound(|data|, src, |bs|, cwp, srcR, groups, |cur|);
    CwordParity(cur);
  }

  lemma OpenGroups(bs: seq<byte>, data: seq<byte>, src: nat, cwp: nat, cword: nat,
                   done: seq<Token>, groups: nat, cur: seq<Token>, srcR: nat)
    requires Open(bs, data, src, cwp, cword, done, groups, cur, srcR)
    ensures |done| == GROUP * groups
  {
    hide Covers, Cword, Budget, Stream, Plain;
  }

  lemma StartOpen(bs: seq<byte>, data: seq<byte>)
    requires |bs| == CWORD_LEN
    ensures Open(bs, data, 0, 0, TWO_31, [], 0, [], 0)
  {
    OpenGroup([], 0, bs);
    CwordParity([]);
    Snoc([], [], Lit(0));
  }

  method Reload(data: seq<byte>, dst: array<byte>, base: nat, src: nat, cwp: nat, d: nat, cword: nat,
                ghost done: seq<Token>, ghost groups: nat, ghost cur: seq<Token>, ghost srcR: nat)
    requires base + d + CWORD_LEN <= dst.Length && |cur| == GROUP
    requires Open(dst[base..base + d], data, src, cwp, cword, done, groups, cur, srcR)
    requires src <= 3 * (|data| / 4) || d <= src - src / 32
    modifies dst
    ensures Open(dst[base..base + d + CWORD_LEN], data, src, d, TWO_31, done + cur, groups + 1, [], src)
    ensures dst[..base] == old(dst[..base])
  {
    OpenFacts(dst[base..base + d], data, src, cwp, cword, done, groups, cur, srcR);
    CwordParity(cur);
    hide Emitted, Covers, Cword, Budget;
    NextGroup(dst, base, cwp, d, cword, done, groups, cur);
    Snoc(done, cur, Lit(0));
    BudgetReload(|data|, src, d, cwp, srcR, groups);
  }

  /** The tokens of some full control words reach beyond three quarters of the data and save less than a
      thirty-second part of it. */
  ghost predicate GaveUp(data: seq<byte>, toks: seq<Token>) {
    AllEncodable(toks) && exists src: nat ::
      src > 3 * (|data| / 4) && Covers(toks, data, src) && |Stream(toks, 0)| > src - src / 32
  }

  lemma GivenUp(bs: seq<byte>, data: seq<byte>, src: nat, cwp: nat, cword: nat, done: seq<Token>, groups: nat,
                cur: seq<Token>, srcR: nat)
    requires Open(bs, data, src, cwp, cword, done, groups, cur, srcR) && |cur| == GROUP
    requires src > 3 * (|data| / 4) && |bs| > src - src / 32
    ensures GaveUp(data, done + cur)
  {
    hide Covers, Cword, Budget, Stream, Plain, ControlWord;
    var bs' := bs[..cwp] + ControlWord(cur) + bs[cwp + CWORD_LEN..];
    WordSize(cur);
    CloseGroup(bs, cwp, done, groups, cur, bs');
  }

  lemma WordSize(cur: seq<Token>)
    requires |cur| <= GROUP
    ensures |ControlWord(cur)| == CWORD_LEN
  {
  }

  /** The head of the main loop: gives up, or makes room for one more token. */
  method EnsureGroup(data: seq<byte>, dst: array<byte>, base: nat, src: nat, cwp: nat, d: nat, cword: nat,
                     ghost done: seq<Token>, ghost groups: nat, ghost cur: seq<Token>, ghost srcR: nat)
    returns (stored: bool, cwp': nat, d': nat, cword': nat,
             ghost done': seq<Token>, ghost groups': nat, ghost cur': seq<Token>, ghost srcR': nat)
    requires base <= 9 && base + d <= dst.Length && dst.Length >= |data| + 400
    requires Open(dst[base..base + d], data, src, cwp, cword, done, groups, cur, srcR)
    modifies dst
    ensures stored <==> |cur| == GROUP && src > 3 * (|data| / 4) && d > src - src / 32
    ensures stored ==> GaveUp(data, done' + cur')
    ensures !stored ==> |done'| + |cur'| == |done| + |cur| && d' - CWORD_LEN * groups' == d - CWORD_LEN * groups
    ensures !stored ==> |cur'| < GROUP && base + d' + 4 <= dst.Length
    ensures !stored ==> Open(dst[base..base + d'], data, src, cwp', cword', done', groups', cur', srcR')
    ensures dst[..base] == old(dst[..base])
  {
    hide Open;
    OpenFacts(dst[base..base + d], data, src, cwp, cword, done, groups, cur, srcR);
    stored, cwp', d', cword', done', groups', cur', srcR' := false, cwp, d, cword, done, groups, cur, srcR;
    if cword % 2 == 1 {
      if src > 3 * (|data| / 4) && d > src - src / 32 {
        GivenUp(dst[base..base + d], data, src, cwp, cword, done, groups, cur, srcR);
        stored := true;
      } else {
        Reload(data, dst, base, src, cwp, d, cword, done, groups, cur, srcR);
        done', groups', cur', srcR' := done + cur, groups + 1, [], src;
        cwp', d', cword' := d, d + CWORD_LEN, TWO_31;
        OpenFacts(dst[base..base + d'], data, src, cwp', cword', done', groups', cur', srcR');
      }
    }
  }

  method TokenStep(data: seq<byte>, dst: array<byte>, base: nat, src: nat, cwp: nat, d: nat, cword: nat,
                   matchlen: nat, o: int,
                   ghost done: seq<Token>, ghost groups: nat, ghost cur: seq<Token>, ghost srcR: nat)
    returns (d': nat, cword': nat, ghost t: Token)
    requires src < |data| && base + d + 4 <= dst.Length && |cur| < GROUP
    requires Open(dst[base..base + d], data, src, cwp, cword, done, groups, cur, srcR)
    requires matchlen > 0 ==>
      0 <= o < src && Legal(Match(src - o, matchlen), data[..src], |data|) && IsMatch(data, o, src, matchlen)
    modifies dst
    ensures var src' := if matchlen > 0 then src + matchlen else src + 1;
            && base + d' <= dst.Length
            && Open(dst[base..base + d'], data, src', cwp, cword', done, groups, cur + [t], srcR)
    ensures d' <= d + 4 && (matchlen == 0 ==> d' == d + 1)
    ensures dst[..base] == old(dst[..base])
  {
    hide Emitted, Covers, Cword, Budget, IsMatch;
    if matchlen > 0 {
      t := Match(src - o, matchlen);
      var k := EmitMatch(dst, base, cwp, d, src - o, matchlen, done, groups, cur);
      BudgetToken(|data|, src, d, cwp, srcR, groups, |cur|, matchlen, k);
      CoverMatch(done + cur, data, src, o, matchlen);
      d', cword' := d + k, cword / 2 + TWO_31;
    } else {
      t := Lit(data[src]);
      EmitLiteral(dst, base, cwp, d, data[src], done, groups, cur);
      BudgetToken(|data|, src, d, cwp, srcR, groups, |cur|, 1, 1);
      CoverLiteral(done + cur, data, src);
      d', cword' := d + 1, cword / 2;
    }
    CwordStep(cur, t);
    Snoc(done, cur, t);
  }

  // ---- How much room equal bytes take -----------------------------------------------------------

  /** A turn on equal bytes: a literal, at most three times in a row, or a match as long as it may be. */
  predicate Paced(n: nat, src: nat, e: int, src': nat, e': int) {
    src + UNCOMPRESSED_END <= n
    && (|| (src % 256 < 3 && src' == src + 1 && e' == e + 1)
        || (src' == src + Remaining(n, src) && e' <= e + 4))
  }

  /** Where equal bytes are after `t` tokens, `matches` of them matches, the last `lits` of them literals:
      `e` bytes without control words. */
  predicate Frugal(n: nat, src: nat, e: int, t: nat, matches: nat, lits: nat) {
    && t <= 4 * matches + lits && lits <= 3 && (lits > 0 ==> lits <= src % 256 <= 3) && e <= t + 3 * matches + CWORD_LEN
    && (src >= 255 * matches || src + UNCONDITIONAL_MATCHLEN + UNCOMPRESSED_END >= n)
    && (if matches == 0 then src == lits else src >= 255 * (matches - 1))
  }

  lemma FrugalStart(n: nat)
    ensures Frugal(n, 0, CWORD_LEN, 0, 0, 0)
  {
  }

  lemma FrugalStep(n: nat, src: nat, e: int, t: nat, matches: nat, lits: nat, src': nat, e': int)
    returns (matches': nat, lits': nat)
    requires Frugal(n, src, e, t, matches, lits) && Paced(n, src, e, src', e')
    requires src + UNCONDITIONAL_MATCHLEN + UNCOMPRESSED_END < n
    ensures Frugal(n, src', e', t + 1, matches', lits')
  {
    if src' == src + 1 {
      matches', lits' := matches, lits + 1;
    } else {
      matches', lits' := matches + 1, 0;
    }
  }

  lemma FrugalGoesOn(uniform: bool, n: nat, src: nat, d: nat, groups: nat, matches: nat, lits: nat)
    requires uniform ==> Frugal(n, src, d - CWORD_LEN * groups, GROUP * groups + GROUP, matches, lits)
    requires src + UNCONDITIONAL_MATCHLEN + UNCOMPRESSED_END < n && d > src - src / 32
    ensures !uniform
  {
  }

  lemma FrugalEnd(n: nat, src: nat, d: nat, groups: nat, cur: nat, matches: nat, lits: nat)
    requires Frugal(n, src, d - CWORD_LEN * groups, GROUP * groups + cur, matches, lits)
    requires 256 <= n && src <= n <= src + UNCONDITIONAL_MATCHLEN + UNCOMPRESSED_END
    ensures d + 14 <= 8 * (n / 255) + 29
  {
    assert matches - 1 <= n / 255;
  }

  /** One turn of the main loop. */
  method Turn(data: seq<byte>, dst: array<byte>, base: nat, table: array2<int>, counter: array<byte>,
              src: nat, cwp: nat, d: nat, cword: nat,
              ghost done: seq<Token>, ghost groups: nat, ghost cur: seq<Token>, ghost srcR: nat)
    returns (stored: bool, src': nat, cwp': nat, d': nat, cword': nat,
             ghost done': seq<Token>, ghost groups': nat, ghost cur': seq<Token>, ghost srcR': nat)
    requires src + UNCONDITIONAL_MATCHLEN + UNCOMPRESSED_END < |data|
    requires base <= 9 && base + d <= dst.Length && dst.Length >= |data| + 400 && dst != counter
    requires Open(dst[base..base + d], data, src, cwp, cword, done, groups, cur, srcR)
    requires TableIs(table, counter, data, src)
    modifies dst, table, counter
    ensures dst[..base] == old(dst[..base])
    ensures stored || (src < src' && src' + UNCOMPRESSED_END <= |data| && cur' != [])
    ensures !stored ==> base + d' <= dst.Length
    ensures !stored ==> Open(dst[base..base + d'], data, src', cwp', cword', done', groups', cur', srcR')
    ensures !stored ==> TableIs(table, counter, data, src')
    ensures stored ==> GaveUp(data, done' + cur') && |cur| == GROUP && d > src - src / 32
    ensures !stored ==> |done'| + |cur'| == |done| + |cur| + 1
    ensures !stored && Uniform(data) ==>
      Paced(|data|, src, d - CWORD_LEN * groups, src', d' - CWORD_LEN * groups')
  {
    hide Open, IsMatch, TableIs, GaveUp, Uniform;
    ghost var open;
    stored, cwp', d', cword', done', groups', open, srcR' :=
      EnsureGroup(data, dst, base, src, cwp, d, cword, done, groups, cur, srcR);
    src', cur' := src, open;
    if !stored {
      ghost var bs := dst[base..base + d'];
      var matchlen, o := SearchAndFile(data, table, counter, src);
      assert dst[base..base + d'] == bs;
      ghost var t;
      d', cword', t := TokenStep(data, dst, base, src, cwp', d', cword', matchlen, o, done', groups', open, srcR');
      src' := if matchlen > 0 then src + matchlen else src + 1;
      cur' := open + [t];
    }
  }

  /** The main loop: tokens up to the last bytes, unless it gives up. */
  method CompressHead(data: seq<byte>, dst: array<byte>, base: nat, table: array2<int>, counter: array<byte>)
    returns (stored: bool, src: nat, cwp: nat, d: nat, cword: nat,
             ghost done: seq<Token>, ghost groups: nat, ghost cur: seq<Token>, ghost srcR: nat)
    requires 0 < |data| && base <= 9 && dst.Length >= |data| + 400
    requires TableIs(table, counter, data, 0) && dst != counter
    modifies dst, table, counter
    ensures dst[..base] == old(dst[..base])
    ensures stored ==> GaveUp(data, done + cur) && !(Uniform(data) && 256 <= |data|)
    ensures !stored ==> src <= |data| <= src + UNCONDITIONAL_MATCHLEN + UNCOMPRESSED_END
    ensures !stored && src > 0 ==> src + UNCOMPRESSED_END <= |data| && cur != []
    ensures !stored ==>
      base + d <= dst.Length && Open(dst[base..base + d], data, src, cwp, cword, done, groups, cur, srcR)
    ensures !stored && Uniform(data) && 256 <= |data| ==> d + 14 <= 8 * (|data| / 255) + 29
  {
    hide Open, Stream, Covers, Emitted, Cword, TableIs, GaveUp, Uniform, Frugal, Paced;
    stored, src, cwp, d, cword, done, groups, cur, srcR := false, 0, 0, CWORD_LEN, TWO_31, [], 0, [], 0;
    ghost var matches: nat, lits: nat := 0, 0;
    FrugalStart(|data|);
    StartOpen(dst[base..base + d], data);
    while src <= |data| - 1 - UNCONDITIONAL_MATCHLEN - UNCOMPRESSED_END
      invariant 0 <= src <= |data| && 0 <= cwp && 0 <= d && 0 <= cword && !stored
      invariant src > 0 ==> src + UNCOMPRESSED_END <= |data| && cur != []
      invariant dst[..base] == old(dst[..base])
      invariant base + d <= dst.Length && Open(dst[base..base + d], data, src, cwp, cword, done, groups, cur, srcR)
      invariant TableIs(table, counter, data, src)
      invariant Uniform(data) ==> Frugal(|data|, src, d - CWORD_LEN * groups, |done| + |cur|, matches, lits)
      decreases |data| - src
    {
      ghost var was, e, t := src, d - CWORD_LEN * groups, |done| + |cur|;
      if |cur| == GROUP && d > src - src / 32 {
        OpenGroups(dst[base..base + d], data, src, cwp, cword, done, groups, cur, srcR);
        FrugalGoesOn(Uniform(data), |data|, src, d, groups, matches, lits);
      }
      stored, src, cwp, d, cword, done, groups, cur, srcR :=
        Turn(data, dst, base, table, counter, src, cwp, d, cword, done, groups, cur, srcR);
      if stored {
        return;
      }
      if Uniform(data) {
        matches, lits := FrugalStep(|data|, was, e, t, matches, lits, src, d - CWORD_LEN * groups);
      }
    }
    if Uniform(data) && 256 <= |data| {
      OpenGroups(dst[base..base + d], data, src, cwp, cword, done, groups, cur, srcR);
      FrugalEnd(|data|, src, d, groups, |cur|, matches, lits);
    }
  }

  /** Compresses `data` to `dst` from `base` on. Returns 0 when the data should rather
      be stored as it is, with the tokens that say why; otherwise the size, never below 9 and
      never above the allocation made by the callers. */
  method CompressCore(data: seq<byte>, dst: array<byte>, base: nat, table: array2<int>, counter: array<byte>)
    returns (r: nat, ghost toks: seq<Token>)
    requires 0 < |data| && base <= 9 && dst.Length >= |data| + 400
    requires TableIs(table, counter, data, 0) && dst != counter
    modifies dst, table, counter
    ensures dst[..base] == old(dst[..base])
    ensures r == 0 || 9 <= r <= |data| + 150
    ensures |data| < 216 ==> r + base <= 255
    ensures r > 0 ==>
      && AllEncodable(toks) && |Stream(toks, 0)| <= r
      && dst[base..base + |Stream(toks, 0)|] == Stream(toks, 0)
      && Covers(toks, data, |data|)
    ensures r == 0 ==> GaveUp(data, toks)
    ensures Uniform(data) && 256 <= |data| ==> 0 < r <= 8 * (|data| / 255) + 29
  {
    hide Open, Stream, Covers, Emitted, Cword, TableIs, GaveUp, Uniform;
    var stored, src, cwp, d, cword;
    ghost var done, groups, cur, srcR;
    stored, src, cwp, d, cword, done, groups, cur, srcR := CompressHead(data, dst, base, table, counter);
    if stored {
      return 0, done + cur;
    }
    OpenFacts(dst[base..base + d], data, src, cwp, cword, done, groups, cur, srcR);
    d, toks, groups := CompressTail(data, dst, base, src, cwp, d, cword, done, groups, cur);
    r := if d < 9 then 9 else d;
  }
}
