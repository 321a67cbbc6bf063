/** ht_save2 and ht_open: a tree written to a file and read back. Chains of blocks come back as
    single blocks and the reverse dictionary is rebuilt, and the tree is the same map with
    the same counts, hashes and encodings. */
module Snapshot {
  import opened Bytes
  import opened KeyCodec
  import opened CodecTable
  import opened CodecDump
  import opened HTreeLeaf
  import opened HTreeBlocks
  import opened HTreePool
  import opened HashTree
  import opened HTreeApi
  import Fnv1a

  const VERSION: seq<byte> := [72, 84, 82, 69, 69, 48, 48, 49, 0]
  const FILE_HEAD := 12
  const MAX_CODEC := 10485760

  // ---- Items -------------------------------------------------------------------------------

  predicate ItemFits(it: Item) {
    InRange(it.e) && |it.key| < 256
  }

  function ItemBytes(it: Item): (bs: seq<byte>)
    requires ItemFits(it)
    ensures |bs| == ItemLength(it)
  {
    Le32(it.e.pos) + Le32(ToWord(it.e.ver)) + Le16(it.e.hash) + [|it.key|] + it.key
  }

  function ParseItem(bs: seq<byte>): (it: Item)
    requires ITEM_HEAD <= |bs| && ITEM_HEAD + bs[10] as int <= |bs|
  {
    Item(bs[11..11 + bs[10] as int],
         Entry(FromLe32(bs[0..4]), FromWord(FromLe32(bs[4..8])), FromLe16(bs[8..10])))
  }

  lemma ItemRoundTrip(it: Item, tail: seq<byte>)
    requires ItemFits(it)
    ensures var bs := ItemBytes(it) + tail;
      && ITEM_HEAD <= |bs| && bs[10] as int == |it.key| && ITEM_HEAD + bs[10] as int <= |bs|
      && ParseItem(bs) == it && bs[ItemLength(it)..] == tail
  {
    hide Le32, FromLe32, ToWord, FromWord, Le16, FromLe16;
    var bs := ItemBytes(it) + tail;
    assert bs[0..4] == Le32(it.e.pos) && bs[4..8] == Le32(ToWord(it.e.ver));
    assert bs[8..10] == Le16(it.e.hash) && bs[10] == |it.key|;
    assert bs[11..11 + |it.key|] == it.key;
  }

  predicate ItemsFit(items: seq<Item>) {
    forall i :: 0 <= i < |items| ==> ItemFits(items[i])
  }

  function ItemsBytes(items: seq<Item>): (bs: seq<byte>)
    requires ItemsFit(items)
  {
    if items == [] then [] else ItemBytes(items[0]) + ItemsBytes(items[1..])
  }

  lemma {:induction false} TotalLengthCons(items: seq<Item>)
    requires items != []
    ensures TotalLength(items) == ItemLength(items[0]) + TotalLength(items[1..])
    decreases |items|
  {
    var n := |items| - 1;
    if n > 0 {
      TotalLengthCons(items[..n]);
      assert items[..n][1..] == items[1..][..n - 1];
    }
  }

  lemma {:induction false} ItemsSize(items: seq<Item>)
    requires ItemsFit(items)
    ensures |ItemsBytes(items)| == TotalLength(items) && |items| <= TotalLength(items)
    decreases |items|
  {
    hide ItemFits, ItemBytes;
    if items != [] {
      ItemsSize(items[1..]);
      TotalLengthCons(items);
    }
  }

  lemma {:induction false} ItemsConcat(a: seq<Item>, b: seq<Item>)
    requires ItemsFit(a) && ItemsFit(b)
    ensures ItemsFit(a + b) && ItemsBytes(a + b) == ItemsBytes(a) + ItemsBytes(b)
    decreases |a|
  {
    hide ItemFits, ItemBytes;
    if a == [] {
      assert a + b == b;
    } else {
      assert (a + b)[1..] == a[1..] + b;
      ItemsConcat(a[1..], b);
    }
  }

  /** Reads `n` packed items, which must fill the bytes. */
  method ReadItems(bs: seq<byte>, n: nat, ghost items: seq<Item>) returns (ok: bool, r: seq<Item>)
    requires ItemsFit(items)
    ensures bs == ItemsBytes(items) && n == |items| ==> ok && r == items
  {
    hide ItemFits, ItemBytes, ParseItem;
    ghost var good := bs == ItemsBytes(items) && n == |items|;
    r := [];
    var rest := bs;
    assert items[0..] == items;
    while |r| < n
      invariant |r| <= n
      invariant good ==> r == items[..|r|] && rest == ItemsBytes(items[|r|..])
    {
      if good {
        var i := |r|;
        assert items[i..][1..] == items[i + 1..] && items[..i + 1] == items[..i] + [items[i]];
        assert ItemFits(items[i]);
        ItemRoundTrip(items[i], ItemsBytes(items[i + 1..]));
      }
      if |rest| < ITEM_HEAD || |rest| < ITEM_HEAD + rest[10] as int {
        return false, r;
      }
      var it := ParseItem(rest);
      rest := rest[ITEM_HEAD + rest[10] as int..];
      r := r + [it];
    }
    ok := rest == [];
    assert good ==> items[n..] == [];
  }

  // ---- Chains of blocks -------------------------------------------------------------------------

  /** What a loaded chain looks like: one block that is exactly full. */
  function Flattened(chain: Chain): Chain {
    if chain == [] then [] else
    var size := DATA_HEAD_SIZE + TotalLength(Flat(chain));
    [Block(size, size, Flat(chain))]
  }

  predicate ChainFits(chain: Chain) {
    ItemsFit(Flat(chain)) && FILE_HEAD + TotalLength(Flat(chain)) < TWO_31
  }

  /** The size twice, once for the reader and once in the header of the block, whose own size
      field is not used. */
  function DataBytes(chain: Chain): (bs: seq<byte>)
    requires ChainFits(chain)
  {
    if chain == [] then Le32(0) else
    var used := FILE_HEAD + TotalLength(Flat(chain));
    assert |Flat(chain)| < TWO_32 by { ItemsSize(Flat(chain)); }
    Le32(used) + Le32(0) + Le32(used) + Le32(|Flat(chain)|) + ItemsBytes(Flat(chain))
  }

  /** Sums over the chain as ht_save2 computes them. */
  lemma {:induction false} ChainTotals(chain: Chain, b: nat)
    requires ChainOk(chain) && b < |chain|
    ensures Flat(chain[..b + 1]) == Flat(chain[..b]) + chain[b].items
    ensures TotalLength(Flat(chain[..b + 1])) == TotalLength(Flat(chain[..b])) + (chain[b].used - DATA_HEAD_SIZE)
  {
    hide Flat, TotalLength;
    assert chain[..b + 1] == chain[..b] + [chain[b]];
    FlatConcat(chain[..b], [chain[b]]);
    FlatOneBlock(chain[b]);
    TotalConcat(Flat(chain[..b]), chain[b].items);
    assert BlockOk(chain[b]);
  }

  lemma FlatOneBlock(b: Block)
    ensures Flat([b]) == b.items
  {
    assert [b][1..] == [];
  }

  lemma {:induction false} TotalConcat(a: seq<Item>, b: seq<Item>)
    ensures TotalLength(a + b) == TotalLength(a) + TotalLength(b)
    decreases |b|
  {
    if b == [] {
      assert a + b == a;
    } else {
      var n := |b| - 1;
      assert (a + b)[..|a + b| - 1] == a + b[..n];
      TotalConcat(a, b[..n]);
    }
  }

  lemma FitsPrefix(chain: Chain, b: nat)
    requires ItemsFit(Flat(chain)) && b < |chain|
    ensures ItemsFit(Flat(chain[..b])) && ItemsFit(chain[b].items)
  {
    hide ItemFits;
    FlatSplit(chain, b);
    var all, x, y := Flat(chain), Flat(chain[..b]), chain[b].items;
    forall i | 0 <= i < |x| ensures ItemFits(x[i]) { assert all[i] == x[i]; }
    forall i | 0 <= i < |y| ensures ItemFits(y[i]) { assert all[|x| + i] == y[i]; }
  }

  /** Counts and sizes are added up over the chain, then the blocks are written one after another. */
  method SaveChain(chain: Chain) returns (bs: seq<byte>)
    requires ChainFits(chain) && ChainOk(chain)
    ensures bs == DataBytes(chain)
  {
    hide ItemsFit, ItemsBytes, TotalLength, Flat;
    if chain == [] {
      return Le32(0);
    }
    var count, used := 0, DATA_HEAD_SIZE;
    var b := 0;
    assert chain[..0] == [];
    NoItems();
    while b < |chain|
      invariant 0 <= b <= |chain| && count == |Flat(chain[..b])|
      invariant used == DATA_HEAD_SIZE + TotalLength(Flat(chain[..b]))
    {
      ChainTotals(chain, b);
      count, used := count + |chain[b].items|, used + (chain[b].used - DATA_HEAD_SIZE);
      b := b + 1;
    }
    assert chain[..b] == chain;
    used := used - 8;
    ItemsSize(Flat(chain));
    bs := Le32(used) + Le32(0) + Le32(used) + Le32(count);
    ghost var head := bs;
    b := 0;
    assert head + [] == head;
    while b < |chain|
      invariant 0 <= b <= |chain| && ItemsFit(Flat(chain[..b])) && bs == head + ItemsBytes(Flat(chain[..b]))
    {
      ChainTotals(chain, b);
      FitsPrefix(chain, b);
      ItemsConcat(Flat(chain[..b]), chain[b].items);
      if |chain[b].items| > 0 {
        bs := bs + ItemsBytes(chain[b].items);
      } else {
        assert Flat(chain[..b]) + chain[b].items == Flat(chain[..b]);
      }
      b := b + 1;
    }
    assert chain[..b] == chain;
  }

  lemma NoItems()
    ensures Flat([]) == [] && TotalLength([]) == 0 && ItemsFit([]) && ItemsBytes([]) == []
  {
  }

  predicate StartsWith(buf: seq<byte>, p: nat, bs: seq<byte>) {
    p + |bs| <= |buf| && buf[p..p + |bs|] == bs
  }

  lemma StartsPart(buf: seq<byte>, p: nat, a: seq<byte>, b: seq<byte>)
    requires StartsWith(buf, p, a + b)
    ensures StartsWith(buf, p, a) && StartsWith(buf, p + |a|, b)
  {
    var ab := buf[p..p + |a + b|];
    assert buf[p..p + |a|] == ab[..|a|] && buf[p + |a|..p + |a| + |b|] == ab[|a|..];
  }

  /** A little-endian word of the file, or failure at its end. */
  method ReadWord(buf: seq<byte>, p: nat) returns (ok: bool, w: int)
    ensures ok <==> p + 4 <= |buf|
    ensures ok ==> 0 <= w < TWO_32 && w == FromLe32(buf[p..p + 4])
  {
    ok := p + 4 <= |buf|;
    w := if ok then FromLe32(buf[p..p + 4]) else 0;
  }

  lemma WordAt(buf: seq<byte>, p: nat, x: int)
    requires 0 <= x < TWO_32 && StartsWith(buf, p, Le32(x))
    ensures p + 4 <= |buf| && FromLe32(buf[p..p + 4]) == x
  {
    hide Le32, FromLe32;
  }

  lemma DataParts(buf: seq<byte>, p: nat, chain: Chain)
    requires ChainFits(chain) && StartsWith(buf, p, DataBytes(chain))
    ensures p + 4 <= |buf|
    ensures chain == [] ==> FromLe32(buf[p..p + 4]) == 0 && |DataBytes(chain)| == 4
    ensures chain != [] ==>
      var used := FILE_HEAD + TotalLength(Flat(chain));
      && |DataBytes(chain)| == 4 + used && p + 4 + used <= |buf| && FromLe32(buf[p..p + 4]) == used
      && FromLe32(buf[p + 8..p + 12]) == used && FromLe32(buf[p + 12..p + 16]) == |Flat(chain)|
      && buf[p + 16..p + 4 + used] == ItemsBytes(Flat(chain))
  {
    hide Le32, FromLe32, ItemsBytes, TotalLength, ItemsFit;
    if chain == [] {
      WordAt(buf, p, 0);
    } else {
      var items := Flat(chain);
      var used := FILE_HEAD + TotalLength(items);
      ItemsSize(items);
      var a, b, c, d := Le32(used), Le32(0), Le32(used), Le32(|items|);
      StartsPart(buf, p, a + b + c + d, ItemsBytes(items));
      StartsPart(buf, p, a + b + c, d);
      StartsPart(buf, p, a + b, c);
      StartsPart(buf, p, a, b);
      WordAt(buf, p, used);
      WordAt(buf, p + 8, used);
      WordAt(buf, p + 12, |items|);
    }
  }

  /** Reads the data of one node; the recorded sizes must agree. */
  method ReadChain(buf: seq<byte>, p: nat, ghost chain: Chain) returns (ok: bool, r: Chain, q: nat)
    requires ChainFits(chain)
    ensures StartsWith(buf, p, DataBytes(chain)) ==> ok && r == Flattened(chain) && q == p + |DataBytes(chain)|
  {
    hide FromLe32, ItemsBytes, TotalLength, ItemsFit, Flat, DataBytes, StartsWith;
    ghost var good := StartsWith(buf, p, DataBytes(chain));
    if good { DataParts(buf, p, chain); }
    r, q := [], p + 4;
    var size;
    ok, size := ReadWord(buf, p);
    if !ok || size >= TWO_31 {
      return false, r, q;
    }
    if size > 0 {
      if size < FILE_HEAD || p + 4 + size > |buf| || FromLe32(buf[p + 8..p + 12]) != size {
        return false, r, q;
      }
      var items;
      ok, items := ReadItems(buf[p + 16..p + 4 + size], FromLe32(buf[p + 12..p + 16]), Flat(chain));
      r, q := [Block(size + 8, size + 8, items)], p + 4 + size;
    }
  }

  // ---- Nodes ------------------------------------------------------------------------------------

  predicate NodeFits(n: Node) {
    0 <= n.hash < TWO_16 && n.count < TWO_32 && n.depth < 16 && ChainFits(n.data) && ChainOk(n.data)
  }

  function Flags(n: Node): (f: int)
    requires n.depth < 16
    ensures 0 <= f < 64
  {
    (if n.isNode then 1 else 0) + (if n.valid then 2 else 0) + 4 * n.depth
  }

  /** Flags, hash, count and the pointer to the data, which is written but means nothing. */
  function NodeBytes(n: Node, pointer: seq<byte>): (bs: seq<byte>)
    requires NodeFits(n) && |pointer| == 8
    ensures |bs| == 16
  {
    Le16(Flags(n)) + Le16(n.hash) + Le32(n.count) + pointer
  }

  function ParseNode(bs: seq<byte>): (n: Node)
    requires |bs| == 16
  {
    var f := FromLe16(bs[0..2]);
    Node(f % 2 == 1, f / 2 % 2 == 1, f / 4 % 16, FromLe16(bs[2..4]), FromLe32(bs[4..8]), [])
  }

  lemma FlagsParse(n: Node)
    requires n.depth < 16
    ensures var f := Flags(n); (f % 2 == 1) == n.isNode && (f / 2 % 2 == 1) == n.valid && f / 4 % 16 == n.depth
  {
    var f, low := Flags(n), (if n.isNode then 1 else 0) + (if n.valid then 2 else 0);
    DivMod(f, 4, n.depth, low);
    DivMod(f, 2, 2 * n.depth + (if n.valid then 1 else 0), if n.isNode then 1 else 0);
    DivMod(2 * n.depth + (if n.valid then 1 else 0), 2, n.depth, if n.valid then 1 else 0);
  }

  lemma NodeRoundTrip(n: Node, pointer: seq<byte>)
    requires NodeFits(n) && |pointer| == 8
    ensures ParseNode(NodeBytes(n, pointer)) == n.(data := [])
  {
    hide Le32, FromLe32, Le16, FromLe16, Flags;
    FlagsParse(n);
    var bs := NodeBytes(n, pointer);
    assert bs[0..2] == Le16(Flags(n)) && bs[2..4] == Le16(n.hash);
    assert bs[4..8] == Le32(n.count);
  }

  predicate PoolFits(pool: Pool) {
    forall i :: 0 <= i < |pool| ==> NodeFits(pool[i])
  }

  function NodesFrom(pool: Pool, pointers: seq<seq<byte>>, i: nat): seq<byte>
    requires PoolFits(pool) && i <= |pool| == |pointers| && forall j :: 0 <= j < |pointers| ==> |pointers[j]| == 8
    decreases |pool| - i
  {
    if i == |pool| then [] else NodeBytes(pool[i], pointers[i]) + NodesFrom(pool, pointers, i + 1)
  }

  function DatasFrom(pool: Pool, i: nat): seq<byte>
    requires PoolFits(pool) && i <= |pool|
    decreases |pool| - i
  {
    if i == |pool| then [] else DataBytes(pool[i].data) + DatasFrom(pool, i + 1)
  }

  function LoadedPool(pool: Pool): Pool {
    seq(|pool|, i requires 0 <= i < |pool| => pool[i].(data := Flattened(pool[i].data)))
  }

  predicate Pointers(pointers: seq<seq<byte>>, n: nat) {
    |pointers| == n && forall j :: 0 <= j < |pointers| ==> |pointers[j]| == 8
  }

  method ReadNodes(buf: seq<byte>, p: nat, n: nat, ghost pool: Pool, ghost pointers: seq<seq<byte>>)
    returns (ok: bool, r: Pool)
    requires PoolFits(pool) && Pointers(pointers, |pool|)
    ensures ok ==> |r| == n && p + 16 * n <= |buf|
    ensures n == |pool| && StartsWith(buf, p, NodesFrom(pool, pointers, 0)) ==> ok && Bare(r, pool)
  {
    hide NodeFits, NodeBytes, ParseNode, StartsWith;
    ghost var good := n == |pool| && StartsWith(buf, p, NodesFrom(pool, pointers, 0));
    r := [];
    if p + 16 * n > |buf| {
      if good {
        NodesSize(pool, pointers, 0);
        StartsInside(buf, p, NodesFrom(pool, pointers, 0));
      }
      return false, r;
    }
    while |r| < n
      invariant |r| <= n
      invariant good ==> StartsWith(buf, p + 16 * |r|, NodesFrom(pool, pointers, |r|))
      invariant good ==> forall i :: 0 <= i < |r| ==> r[i] == pool[i].(data := [])
    {
      var i := |r|;
      if good {
        StartsPart(buf, p + 16 * i, NodeBytes(pool[i], pointers[i]), NodesFrom(pool, pointers, i + 1));
        NodeRoundTrip(pool[i], pointers[i]);
        StartsSlice(buf, p + 16 * i, NodeBytes(pool[i], pointers[i]));
      }
      r := r + [ParseNode(buf[p + 16 * i..p + 16 * i + 16])];
    }
    ok := true;
  }

  lemma StartsInside(buf: seq<byte>, p: nat, bs: seq<byte>)
    requires StartsWith(buf, p, bs)
    ensures p + |bs| <= |buf|
  {
  }

  lemma StartsSlice(buf: seq<byte>, p: nat, bs: seq<byte>)
    requires StartsWith(buf, p, bs)
    ensures p + |bs| <= |buf| && buf[p..p + |bs|] == bs
  {
  }

  lemma {:induction false} NodesSize(pool: Pool, pointers: seq<seq<byte>>, i: nat)
    requires PoolFits(pool) && Pointers(pointers, |pool|) && i <= |pool|
    ensures |NodesFrom(pool, pointers, i)| == 16 * (|pool| - i)
    decreases |pool| - i
  {
    hide NodeFits, NodeBytes;
    if i < |pool| { NodesSize(pool, pointers, i + 1); }
  }

  lemma DatasStep(buf: seq<byte>, q: nat, pool: Pool, i: nat)
    requires PoolFits(pool) && i < |pool| && StartsWith(buf, q, DatasFrom(pool, i))
    ensures StartsWith(buf, q, DataBytes(pool[i].data))
    ensures StartsWith(buf, q + |DataBytes(pool[i].data)|, DatasFrom(pool, i + 1))
    ensures |DatasFrom(pool, i)| == |DataBytes(pool[i].data)| + |DatasFrom(pool, i + 1)|
  {
    hide StartsWith, DataBytes;
    StartsPart(buf, q, DataBytes(pool[i].data), DatasFrom(pool, i + 1));
  }

  /** Any chain will do for a node that was not written by a save. */
  function ChainAt(pool: Pool, i: nat): (c: Chain)
    requires PoolFits(pool)
    ensures ChainFits(c)
  {
    if i < |pool| then pool[i].data else NoItems(); []
  }

  predicate Bare(nodes: Pool, pool: Pool) {
    |nodes| == |pool| && forall i :: 0 <= i < |pool| ==> nodes[i] == pool[i].(data := [])
  }

  lemma BareAt(nodes: Pool, pool: Pool, i: nat)
    requires Bare(nodes, pool) && i < |pool|
    ensures i < |nodes| && nodes[i].(data := Flattened(pool[i].data)) == LoadedPool(pool)[i]
  {
  }

  method ReadDatas(buf: seq<byte>, p: nat, nodes: Pool, ghost pool: Pool) returns (ok: bool, r: Pool, q: nat)
    requires PoolFits(pool)
    ensures ok ==> |r| == |nodes|
    ensures Bare(nodes, pool) && StartsWith(buf, p, DatasFrom(pool, 0)) ==>
      ok && r == LoadedPool(pool) && q == p + |DatasFrom(pool, 0)|
  {
    hide StartsWith, DataBytes, Flattened, PoolFits, ChainFits, DatasFrom, LoadedPool;
    ghost var all := p + |DatasFrom(pool, 0)|;
    ghost var good := Bare(nodes, pool) && StartsWith(buf, p, DatasFrom(pool, 0));
    ghost var goal := LoadedPool(pool);
    LoadedSize(pool);
    hide Bare;
    if good { BareSize(nodes, pool); }
    r, q := [], p;
    assert goal[..0] == [];
    while |r| < |nodes|
      invariant |r| <= |nodes|
      invariant good ==>
        StartsWith(buf, q, DatasFrom(pool, |r|)) && q + |DatasFrom(pool, |r|)| == all && r == goal[..|r|]
    {
      var i := |r|;
      if good {
        DatasStep(buf, q, pool, i);
        BareAt(nodes, pool, i);
        assert goal[..i + 1] == goal[..i] + [goal[i]];
      }
      var data;
      ok, data, q := ReadChain(buf, q, ChainAt(pool, i));
      if !ok {
        return false, r, q;
      }
      r := r + [nodes[i].(data := data)];
    }
    ok := true;
    assert good ==> goal[..|goal|] == goal;
    if good { DatasEnd(pool); }
  }

  lemma DatasEnd(pool: Pool)
    requires PoolFits(pool)
    ensures DatasFrom(pool, |pool|) == []
  {
  }

  lemma LoadedSize(pool: Pool)
    ensures |LoadedPool(pool)| == |pool|
  {
  }

  lemma BareSize(nodes: Pool, pool: Pool)
    requires Bare(nodes, pool)
    ensures |nodes| == |pool|
  {
  }

  // ---- The loaded tree is the same map ----------------------------------------------------------

  lemma FlattenedSame(dict: Dict, chain: Chain)
    ensures Flat(Flattened(chain)) == Flat(chain)
    ensures chain != [] ==> ChainOk(Flattened(chain)) && Contents(dict, Flattened(chain)) == Contents(dict, chain)
  {
    hide TotalLength;
    if chain != [] { FlatOneBlock(Flattened(chain)[0]); }
  }

  lemma {:induction false} LoadedReach(pool: Pool, r: nat, i: nat)
    ensures Reach(LoadedPool(pool), r, i) <==> Reach(pool, r, i)
    decreases i
  {
    hide Flattened;
    if i != r && i > r { LoadedReach(pool, r, Parent(i)); }
  }

  lemma {:induction false} LoadedWalk(pool: Pool, td: nat, r: nat, h: int)
    requires 0 <= h
    ensures Walk(LoadedPool(pool), td, r, h) == Walk(pool, td, r, h)
    decreases |pool| - r
  {
    hide Flattened, Nibble;
    if r < |pool| && pool[r].isNode { LoadedWalk(pool, td, Child(r, Nibble(td, h, Depth(r))), h); }
  }

  lemma {:induction false} LoadedSums(pool: Pool, i: nat, count: nat, n: nat)
    requires n <= BUCKET_SIZE && Child(i, 15) < |pool|
    ensures SumCounts(LoadedPool(pool), i, n) == SumCounts(pool, i, n)
    ensures FoldHashes(LoadedPool(pool), i, count, n) == FoldHashes(pool, i, count, n)
    decreases n
  {
    hide Flattened;
    if n > 0 { LoadedSums(pool, i, count, n - 1); }
  }

  lemma LoadedNode(pool: Pool, dict: Dict, i: nat)
    requires NodeOk(pool, dict, i)
    ensures NodeOk(LoadedPool(pool), dict, i)
  {
    hide SumCounts, FoldHashes, ItemsOk, TotalLength, LiveCount, HashSum;
    FlattenedSame(dict, pool[i].data);
    if pool[i].isNode { LoadedSums(pool, i, pool[i].count, BUCKET_SIZE); }
  }

  lemma LoadedIs(pool: Pool, dict: Dict, td: nat, r: nat, m: map<Key, Entry>)
    requires SubOk(pool, dict, r) && Holds(pool, dict, td, r, m)
    ensures SubOk(LoadedPool(pool), dict, r) && Holds(LoadedPool(pool), dict, td, r, m)
  {
    hide NodeOk, Reach, Walk, Own, Contents, Flattened;
    var pool' := LoadedPool(pool);
    forall i: nat ensures Reach(pool', r, i) ==> i < |pool'| { ReachInPool(pool', r, i); }
    forall i: nat | Reach(pool', r, i) ensures NodeOk(pool', dict, i) {
      LoadedReach(pool, r, i);
      LoadedNode(pool, dict, i);
    }
    forall i: nat | Reach(pool', r, i) && !pool'[i].isNode ensures LeafHolds(pool', dict, td, i, m) {
      LoadedReach(pool, r, i);
      assert NodeOk(pool, dict, i);
      LeafData(pool, dict, i);
      FlattenedSame(dict, pool[i].data);
      assert LeafHolds(pool, dict, td, i, m);
    }
    forall k | k in m ensures Placed(pool', dict, td, r, k) {
      assert Placed(pool, dict, td, r, k);
      LoadedWalk(pool, td, r, Fnv1a.Hash(k));
      PlacedData(pool, dict, td, r, k);
      FlattenedSame(dict, pool[Walk(pool, td, r, Fnv1a.Hash(k))].data);
    }
  }

  lemma ReachInPool(pool: Pool, r: nat, i: nat)
    ensures Reach(pool, r, i) ==> i < |pool|
  {
  }

  lemma LeafData(pool: Pool, dict: Dict, i: nat)
    requires NodeOk(pool, dict, i) && !pool[i].isNode
    ensures pool[i].data != []
  {
  }

  lemma PlacedData(pool: Pool, dict: Dict, td: nat, r: nat, k: Key)
    requires Placed(pool, dict, td, r, k)
    ensures pool[Walk(pool, td, r, Fnv1a.Hash(k))].data != []
  {
  }

  // ---- The file ---------------------------------------------------------------------------------

  function Le64(x: nat): (bs: seq<byte>)
    requires x < TWO_32 * TWO_32
    ensures |bs| == 8
  {
    Le32(x % TWO_32) + Le32(x / TWO_32)
  }

  lemma {:induction false} DumpFromSize(dict: Dict, i: nat)
    requires Dumpable(dict) && 1 <= i <= |dict|
    ensures |DumpFrom(dict, i)| <= 256 * (|dict| - i)
    decreases |dict| - i
  {
    if i < |dict| { DumpFromSize(dict, i + 1); }
  }

  /** No dictionary is too large for ht_open. */
  lemma DumpSize(dict: Dict)
    requires Dumpable(dict)
    ensures |Dump(dict)| <= MAX_CODEC
  {
    DumpFromSize(dict, 1);
  }

  function Body(height: nat, pool: Pool, pointers: seq<seq<byte>>, dict: Dict): seq<byte>
    requires height < TWO_31 && PoolFits(pool) && Pointers(pointers, |pool|) && Dumpable(dict)
  {
    DumpSize(dict);
    Le32(height) + (NodesFrom(pool, pointers, 0) + (DatasFrom(pool, 0) + (Le32(|Dump(dict)|) + Dump(dict))))
  }

  const HEAD := 17

  ghost predicate Fits(height: nat, pool: Pool, pointers: seq<seq<byte>>, dict: Dict) {
    && height < 10 && |pool| == GIndex(height) && PoolFits(pool) && Pointers(pointers, |pool|)
    && DictOk(dict) && Dumpable(dict)
    && HEAD + |Body(height, pool, pointers, dict)| < TWO_32 * TWO_31
  }

  function File(height: nat, pool: Pool, pointers: seq<seq<byte>>, dict: Dict): seq<byte>
    requires Fits(height, pool, pointers, dict)
  {
    var body := Body(height, pool, pointers, dict);
    VERSION + Le64(HEAD + |body|) + body
  }

  method SaveNodes(pool: Pool, pointers: seq<seq<byte>>) returns (bs: seq<byte>)
    requires PoolFits(pool) && Pointers(pointers, |pool|)
    ensures bs == NodesFrom(pool, pointers, 0)
  {
    hide NodeFits, NodeBytes;
    bs := [];
    var i := 0;
    assert bs + NodesFrom(pool, pointers, 0) == NodesFrom(pool, pointers, 0);
    while i < |pool|
      invariant 0 <= i <= |pool| && bs + NodesFrom(pool, pointers, i) == NodesFrom(pool, pointers, 0)
    {
      assert bs + NodesFrom(pool, pointers, i)
        == bs + NodeBytes(pool[i], pointers[i]) + NodesFrom(pool, pointers, i + 1);
      bs := bs + NodeBytes(pool[i], pointers[i]);
      i := i + 1;
    }
    assert bs + [] == bs;
  }

  method SaveDatas(pool: Pool) returns (bs: seq<byte>)
    requires PoolFits(pool)
    ensures bs == DatasFrom(pool, 0)
  {
    hide ChainFits, ChainOk, DataBytes;
    bs := [];
    var i := 0;
    assert bs + DatasFrom(pool, 0) == DatasFrom(pool, 0);
    while i < |pool|
      invariant 0 <= i <= |pool| && bs + DatasFrom(pool, i) == DatasFrom(pool, 0)
    {
      assert NodeFits(pool[i]);
      var data := SaveChain(pool[i].data);
      assert bs + DatasFrom(pool, i) == bs + data + DatasFrom(pool, i + 1);
      bs := bs + data;
      i := i + 1;
    }
    assert bs + [] == bs;
  }

  /** ht_save2: the size is filled in at the end. */
  method Save(tree: HTree, pointers: seq<seq<byte>>) returns (file: seq<byte>)
    requires Fits(tree.height, tree.pool, pointers, tree.dc.dict)
    ensures file == File(tree.height, tree.pool, pointers, tree.dc.dict)
  {
    hide PoolFits, NodesFrom, DatasFrom, Dump, DictOk;
    var nodes := SaveNodes(tree.pool, pointers);
    var datas := SaveDatas(tree.pool);
    var dump := DumpCodec(tree.dc);
    DumpSize(tree.dc.dict);
    file := VERSION + Le64(0) + Le32(tree.height) + nodes + datas + Le32(|dump|) + dump;
    var body := Le32(tree.height) + (nodes + (datas + (Le32(|dump|) + dump)));
    assert file == VERSION + Le64(0) + body;
    file := file[..9] + Le64(|file|) + file[HEAD..];
    assert file[HEAD..] == body;
  }

  /** Where the parts of a saved file lie. */
  lemma FileParts(height: nat, pool: Pool, pointers: seq<seq<byte>>, dict: Dict)
    requires Fits(height, pool, pointers, dict)
    ensures |Dump(dict)| <= MAX_CODEC
    ensures var f := File(height, pool, pointers, dict);
      var n, d := |NodesFrom(pool, pointers, 0)|, |DatasFrom(pool, 0)|;
      && HEAD + 4 <= |f| && f[..9] == VERSION && f[9..HEAD] == Le64(|f|) && StartsWith(f, HEAD, Le32(height))
      && StartsWith(f, HEAD + 4, NodesFrom(pool, pointers, 0)) && StartsWith(f, HEAD + 4 + n, DatasFrom(pool, 0))
      && StartsWith(f, HEAD + 4 + n + d, Le32(|Dump(dict)|)) && f[HEAD + 8 + n + d..] == Dump(dict)
  {
    hide NodesFrom, DatasFrom, Dump, Le64, Le32, PoolFits, DictOk, StartsWith, Dumpable, GIndex;
    DumpSize(dict);
    var f, body := File(height, pool, pointers, dict), Body(height, pool, pointers, dict);
    var a, b, c, d, e := Le32(height), NodesFrom(pool, pointers, 0), DatasFrom(pool, 0), Le32(|Dump(dict)|), Dump(dict);
    assert f[..9] == VERSION && f[9..HEAD] == Le64(|f|);
    WholeStarts(f, HEAD, body);
    StartsPart(f, HEAD, a, b + (c + (d + e)));
    StartsPart(f, HEAD + 4, b, c + (d + e));
    StartsPart(f, HEAD + 4 + |b|, c, d + e);
    StartsPart(f, HEAD + 4 + |b| + |c|, d, e);
    StartsSlice(f, HEAD + 8 + |b| + |c|, e);
  }

  lemma WholeStarts(f: seq<byte>, p: nat, body: seq<byte>)
    requires p <= |f| && f[p..] == body
    ensures StartsWith(f, p, body)
  {
  }

  lemma Le64Parts(f: seq<byte>, x: nat)
    requires HEAD <= |f| && x < TWO_32 * TWO_32 && f[9..HEAD] == Le64(x)
    ensures FromLe32(f[9..13]) + TWO_32 * FromLe32(f[13..17]) == x
  {
    hide Le32, FromLe32;
    assert f[9..13] == f[9..HEAD][..4] && f[13..17] == f[9..HEAD][4..];
  }

  /** Version, recorded size and height. */
  method OpenHead(depth: nat, file: seq<byte>, ghost height: nat, ghost pool: Pool, ghost pointers: seq<seq<byte>>,
                  ghost dict: Dict)
    returns (ok: bool, h: nat)
    requires depth < MAX_DEPTH && Fits(height, pool, pointers, dict)
    ensures file == File(height, pool, pointers, dict) && height + depth <= 9 ==> ok && h == height
    ensures |file| < HEAD || file[..9] != VERSION ==> !ok
    ensures HEAD <= |file| && FromLe32(file[9..13]) + TWO_32 * FromLe32(file[13..17]) != |file| ==> !ok
    ensures ok ==> h + depth <= 9
  {
    hide Fits, File, Le64, Le32, FromLe32, NodesFrom, DatasFrom, Dump, StartsWith;
    ghost var good := file == File(height, pool, pointers, dict) && height + depth <= 9;
    h := 0;
    if good { FileHead(height, pool, pointers, dict); }
    if |file| < HEAD || file[..9] != VERSION || FromLe32(file[9..13]) + TWO_32 * FromLe32(file[13..17]) != |file| {
      return false, h;
    }
    var w;
    ok, w := ReadWord(file, HEAD);
    if !ok || w + depth > 9 {
      return false, h;
    }
    h := w;
  }

  lemma FileHead(height: nat, pool: Pool, pointers: seq<seq<byte>>, dict: Dict)
    requires Fits(height, pool, pointers, dict)
    ensures var f := File(height, pool, pointers, dict);
      && HEAD + 4 <= |f| && f[..9] == VERSION && FromLe32(f[9..13]) + TWO_32 * FromLe32(f[13..17]) == |f|
      && FromLe32(f[HEAD..HEAD + 4]) == height
  {
    hide Le64, Le32, FromLe32, NodesFrom, DatasFrom, Dump, StartsWith, DictOk, PoolFits, Body;
    FileParts(height, pool, pointers, dict);
    var f := File(height, pool, pointers, dict);
    Le64Parts(f, |f|);
    WordAt(f, HEAD, height);
  }

  /** Nodes, data and dictionary. */
  method OpenBody(dc: Codec, file: seq<byte>, h: nat, ghost height: nat, ghost pool: Pool,
                  ghost pointers: seq<seq<byte>>, ghost dict: Dict)
    returns (ok: bool, loaded: Pool)
    requires dc.Valid() && Fits(height, pool, pointers, dict)
    modifies dc
    ensures file == File(height, pool, pointers, dict) && h == height ==>
      ok && loaded == LoadedPool(pool) && dc.dict == dict && dc.Valid()
  {
    hide NodesFrom, DatasFrom, Dump, Le32, FromLe32, PoolFits, LoadedPool, StartsWith, DictOk, Bare, File;
    ghost var good := file == File(height, pool, pointers, dict) && h == height;
    if good {
      FileParts(height, pool, pointers, dict);
      NodesSize(pool, pointers, 0);
    }
    loaded := [];
    var nodes, q;
    ok, nodes := ReadNodes(file, HEAD + 4, GIndex(h), pool, pointers);
    if !ok {
      return;
    }
    ok, loaded, q := ReadDatas(file, HEAD + 4 + 16 * GIndex(h), nodes, pool);
    if !ok {
      return;
    }
    if good { WordAt(file, q, |Dump(dict)|); }
    var size;
    ok, size := ReadWord(file, q);
    if !ok || size > MAX_CODEC || q + 4 + size > |file| {
      return false, loaded;
    }
    ok := LoadCodec(dc, file[q + 4..q + 4 + size], dict);
  }

  /** ht_open. The ghost arguments name a tree the file may be the save of. */
  method Open(depth: nat, file: seq<byte>, ghost height: nat, ghost pool: Pool, ghost pointers: seq<seq<byte>>,
              ghost dict: Dict)
    returns (ok: bool, tree: HTree)
    requires depth < MAX_DEPTH && Fits(height, pool, pointers, dict)
    ensures fresh(tree) && fresh(tree.dc) && tree.depth == depth
    ensures file == File(height, pool, pointers, dict) && height + depth <= 9 ==>
      ok && tree.height == height && tree.pool == LoadedPool(pool) && tree.dc.dict == dict && tree.dc.Valid()
    ensures |file| < HEAD || file[..9] != VERSION ==> !ok
    ensures HEAD <= |file| && FromLe32(file[9..13]) + TWO_32 * FromLe32(file[13..17]) != |file| ==> !ok
  {
    hide Fits, File, FromLe32, LoadedPool;
    var dc := new Codec();
    tree := new HTree(depth, false, dc);
    var h, loaded;
    ok, h := OpenHead(depth, file, height, pool, pointers, dict);
    if !ok {
      return;
    }
    ok, loaded := OpenBody(dc, file, h, height, pool, pointers, dict);
    if ok {
      tree.height, tree.pool := h, loaded;
    }
  }

  /** A snapshot round trip: the same map, the same counts and hashes of every node, the same
      encodings, whatever the saved pointers were. */
  method SaveAndOpen(tree: HTree, pointers: seq<seq<byte>>, ghost m: map<Key, Entry>) returns (ok: bool, copy: HTree)
    requires TreeIs(tree, m) && Fits(tree.height, tree.pool, pointers, tree.dc.dict)
    ensures ok && fresh(copy) && fresh(copy.dc) && TreeIs(copy, m) && copy.depth == tree.depth
    ensures copy.dc.dict == tree.dc.dict && |copy.pool| == |tree.pool|
    ensures forall i :: 0 <= i < |copy.pool| ==>
      copy.pool[i].hash == tree.pool[i].hash && copy.pool[i].count == tree.pool[i].count
      && copy.pool[i].valid == tree.pool[i].valid && copy.pool[i].isNode == tree.pool[i].isNode
  {
    hide SubOk, Holds, File, PoolFits, DictOk;
    var file := Save(tree, pointers);
    ok, copy := Open(tree.depth, file, tree.height, tree.pool, pointers, tree.dc.dict);
    LoadedIs(tree.pool, tree.dc.dict, tree.depth, 0, m);
  }
}
