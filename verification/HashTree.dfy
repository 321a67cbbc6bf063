/** The hash tree object: add, remove and get with lazy invalidation, leaf splitting, pool
    enlargement, and the update that recomputes counts and hashes and merges small nodes. */
module HashTree {
  import opened Bytes
  import opened KeyCodec
  import opened CodecTable
  import opened HTreeLeaf
  import opened HTreeBlocks
  import opened HTreePool
  import Fnv1a

  const EMPTY_LEAF_BLOCK := Block(FIRST_BLOCK, DATA_HEAD_SIZE, [])

  function ClearNode(n: Node): Node {
    n.(isNode := false, valid := true, count := 0, hash := 0, data := [EMPTY_LEAF_BLOCK])
  }

  lemma ClearedLeaf(dict: Dict, n: Node)
    ensures LeafNodeOk(dict, ClearNode(n)) && Contents(dict, ClearNode(n).data) == map[]
  {
    assert Flat([EMPTY_LEAF_BLOCK]) == [];
    assert LiveKeys(map[]) == {};
  }

  /** Marking an inner node invalid disturbs nothing once its parent is invalid. */
  lemma Invalidate(pool: Pool, dict: Dict, td: nat, r: nat, n: nat, m: map<Key, Entry>, node: Node)
    requires Reach(pool, r, n) && pool[n].isNode && (n == r || !pool[Parent(n)].valid)
    requires SubOk(pool, dict, r) && Holds(pool, dict, td, r, m)
    requires node.isNode && !node.valid && node.data == []
    ensures SubOk(pool[n := node], dict, r) && Holds(pool[n := node], dict, td, r, m)
    ensures SameOutside(pool, pool[n := node], r)
  {
    hide NodeOk, Contents, Own, Walk;
    var pool' := pool[n := node];
    ReachIsDesc(pool, r, n);
    assert NodeOk(pool, dict, n);
    InnerBounds(pool, dict, n);
    InvalidInner(pool', dict, n);
    forall i: nat ensures Reach(pool', r, i) <==> Reach(pool, r, i) {
      ReachFlags(pool, pool', r, i);
    }
    forall i: nat | Reach(pool', r, i) ensures NodeOk(pool', dict, i) {
      if i != n {
        forall b | pool[i].valid && 0 <= b < BUCKET_SIZE && Child(i, b) < |pool|
          ensures pool'[Child(i, b)] == pool[Child(i, b)]
        {
          ParentOfChild(i, b);
          ReachIsDesc(pool, r, i);
          DescLe(r, i);
        }
        NodeSame(pool, pool', dict, i);
      }
    }
    forall i: nat | Reach(pool', r, i) && !pool'[i].isNode ensures LeafHolds(pool', dict, td, i, m) {
      assert LeafHolds(pool, dict, td, i, m);
    }
    forall k | k in m ensures Placed(pool', dict, td, r, k) {
      assert Placed(pool, dict, td, r, k);
      WalkFlags(pool, pool', td, r, Fnv1a.Hash(k));
      WalkReach(pool, dict, td, r, r, Fnv1a.Hash(k));
    }
  }

  lemma InvalidInner(pool: Pool, dict: Dict, n: nat)
    requires n < |pool| && Child(n, 15) < |pool|
    requires pool[n].isNode && !pool[n].valid && pool[n].data == []
    ensures NodeOk(pool, dict, n) && InnerNodeOk(pool, n)
  {
  }

  ghost predicate SameKinds(pool: Pool, pool': Pool) {
    |pool'| == |pool| && forall i :: 0 <= i < |pool| ==> pool'[i].isNode == pool[i].isNode
  }

  lemma {:induction false} ReachFlags(pool: Pool, pool': Pool, r: nat, i: nat)
    requires SameKinds(pool, pool')
    ensures Reach(pool', r, i) <==> Reach(pool, r, i)
    decreases i
  {
    if i > r { ReachFlags(pool, pool', r, Parent(i)); }
  }

  lemma {:induction false} WalkFlags(pool: Pool, pool': Pool, td: nat, r: nat, h: int)
    requires 0 <= h && SameKinds(pool, pool')
    ensures Walk(pool', td, r, h) == Walk(pool, td, r, h)
    decreases |pool| - r
  {
    if r < |pool| && pool[r].isNode {
      WalkFlags(pool, pool', td, Child(r, Nibble(td, h, Depth(r))), h);
    }
  }

  /** A changed leaf below an invalid parent changes the map by what it holds. */
  lemma ChangeLeaf(pool: Pool, dict: Dict, td: nat, r: nat, n: nat, m: map<Key, Entry>, node: Node)
    requires Reach(pool, r, n) && !pool[n].isNode && (n == r || !pool[Parent(n)].valid)
    requires SubOk(pool, dict, r) && Holds(pool, dict, td, r, m)
    requires !node.isNode && LeafNodeOk(dict, node)
    requires forall k :: k in Contents(dict, node.data) ==> Own(td, n, Fnv1a.Hash(k))
    ensures var pool' := pool[n := node];
            && SameOutside(pool, pool', r) && Reach(pool', r, n)
            && SubOk(pool', dict, r)
            && Holds(pool', dict, td, r, OffPath(td, n, m) + Contents(dict, node.data))
  {
    hide NodeOk, Contents, Own, Walk, LeafNodeOk;
    var pool' := pool[n := node];
    ReachIsDesc(pool, r, n);
    OneLeaf(pool', dict, td, n);
    GraftOk(pool, pool', dict, r, n);
    GraftHolds(pool, pool', dict, td, r, n, m, Contents(dict, node.data));
    ReachRoot(pool, pool', r, n);
  }

  /** node->count and node->hash after one key of a leaf changed. */
  lemma LeafTotals(m: map<Key, Entry>, k: Key, e: Entry)
    ensures var was := if k in m then m[k] else Entry(0, 0, 0);
            && LiveCount(m[k := e]) == LiveCount(m) + LiveBit(e) - LiveBit(was)
            && U16(HashSum(m[k := e])) ==
                 U16(U16(HashSum(m)) + Weight(Fnv1a.Hash(k), e) - Weight(Fnv1a.Hash(k), was))
  {
    hide HashSum, Fnv1a.Hash, LiveCount;
    LiveCountSet(m, k, e);
    HashSumSet(m, k, e);
    var was := if k in m then m[k] else Entry(0, 0, 0);
    U16Add(HashSum(m), Weight(Fnv1a.Hash(k), e) - Weight(Fnv1a.Hash(k), was));
  }

  lemma LeafTotalsRemove(m: map<Key, Entry>, k: Key)
    requires k in m
    ensures LiveCount(m - {k}) == LiveCount(m) - LiveBit(m[k])
    ensures U16(HashSum(m - {k})) == U16(U16(HashSum(m)) - Weight(Fnv1a.Hash(k), m[k]))
  {
    hide HashSum, Fnv1a.Hash, LiveCount;
    LiveCountSet(m - {k}, k, m[k]);
    assert (m - {k})[k := m[k]] == m;
    HashSumAt(m, k);
    U16Add(HashSum(m), -Weight(Fnv1a.Hash(k), m[k]));
  }

  class HTree {
    const depth: nat
    const blockSize: int
    const dc: Codec
    var height: nat
    var pool: Pool

    ghost predicate Shape()
      reads this
    {
      && 1 <= height && depth + height <= MAX_DEPTH && |pool| == GIndex(height)
      && forall i :: 0 <= i < |pool| ==> pool[i].depth == Depth(i)
    }

    /** The tree at `r` is in order and stands for the map `m`. */
    ghost predicate Is(r: nat, m: map<Key, Entry>)
      reads this, dc
    {
      r < |pool| && SubOk(pool, dc.dict, r) && Holds(pool, dc.dict, depth, r, m)
    }

    constructor (depth: nat, tmp: bool, dc: Codec)
      requires depth < MAX_DEPTH
      ensures Shape() && Is(0, map[]) && this.depth == depth && this.dc == dc && height == 1 && !pool[0].isNode
    {
      this.depth, this.dc, this.height := depth, dc, 1;
      this.blockSize := if tmp then 1024 else 256;
      this.pool := [ClearNode(Node(false, false, 0, 0, 0, []))];
      new;
      assert GIndex(1) == 1;
      ClearedLeaf(dc.dict, pool[0]);
      OneLeaf(pool, dc.dict, this.depth, 0);
    }

    /** The leaf of `keyhash`, every inner node on the way marked invalid. */
    method Descend(r: nat, keyhash: int, ghost m: map<Key, Entry>) returns (node: nat)
      requires Shape() && Is(r, m) && 0 <= keyhash && Own(depth, r, keyhash)
      modifies this`pool
      ensures Shape() && Is(r, m) && SameOutside(old(pool), pool, r)
      ensures Reach(pool, r, node) && !pool[node].isNode && Own(depth, node, keyhash)
      ensures node == r || !pool[Parent(node)].valid
      ensures !old(pool[r].isNode) ==> node == r && pool == old(pool)
      ensures old(pool[r].isNode) ==> node != r && pool[r].isNode && !pool[r].valid
      ensures node == Walk(old(pool), depth, r, keyhash) && Marked(old(pool), pool)
    {
      hide SubOk, Holds, Own, Nibble, Walk, Marked, SameOutside;
      node := r;
      OutsideSelf(pool, r);
      MarkedSelf(pool);
      WalkEnds(old(pool), depth, keyhash);
      while pool[node].isNode
        invariant Walk(old(pool), depth, node, keyhash) == Walk(old(pool), depth, r, keyhash) && Marked(old(pool), pool)
        invariant Shape() && Is(r, m) && SameOutside(old(pool), pool, r)
        invariant Reach(pool, r, node) && Own(depth, node, keyhash)
        invariant node == r || !pool[Parent(node)].valid
        invariant !old(pool[r].isNode) ==> node == r && pool == old(pool)
        invariant old(pool[r].isNode) ==> pool[r].isNode && (node != r ==> !pool[r].valid)
        decreases |pool| - node
      {
        ghost var before := pool;
        ChildInPool(pool, dc.dict, r, node);
        Invalidate(pool, dc.dict, depth, r, node, m, pool[node].(valid := false));
        pool := pool[node := pool[node].(valid := false)];
        ReachFlags(before, pool, r, node);
        DepthIndex(node);
        var b := Nibble(depth, keyhash, pool[node].depth);
        MarkedMore(old(pool), before, node);
        OutsideCompose(old(pool), before, pool, r);
        OwnChild(depth, node, keyhash, b);
        ParentOfChild(node, b);
        ReachIsDesc(pool, r, node);
        DescLe(r, node);
        node := GetChild(node, pool[node].depth, b);
      }
      MarkedKind(old(pool), pool, node);
    }

    /** The leaf part of add_item; tells whether a new item was appended. */
    method PutInLeaf(r: nat, node: nat, it: Item, keyhash: int, ghost m: map<Key, Entry>) returns (appended: bool)
      requires Shape() && Is(r, m) && ItemOk(dc.dict, it) && keyhash == KeyHash(dc.dict, it)
      requires Reach(pool, r, node) && !pool[node].isNode && Own(depth, node, keyhash)
      requires node == r || !pool[Parent(node)].valid
      modifies this`pool
      ensures Shape() && Is(r, m[K(dc.dict, it) := it.e]) && SameOutside(old(pool), pool, r)
      ensures Reach(pool, r, node) && !pool[node].isNode && (node == r || !pool[Parent(node)].valid)
      ensures pool[node].count <= old(pool[node].count) + 1 && pool == old(pool)[node := pool[node]]
      ensures appended <==> K(dc.dict, it) !in m
    {
      hide SubOk, Holds, Own, Contents, HashSum, LiveCount, LeafOk, ItemOk;
      var n := pool[node];
      LeafFacts(pool, dc.dict, depth, r, node, m);
      var data, was := LeafAdd(dc.dict, n.data, it, blockSize);
      var old_e := if was.Some? then was.value else Entry(0, 0, 0);
      ghost var k := K(dc.dict, it);
      LeafTotals(Contents(dc.dict, n.data), k, it.e);
      CountAfterPut(Contents(dc.dict, n.data), k, it.e);
      n := n.(data := data,
              hash := U16(n.hash + Weight(keyhash, it.e) - Weight(keyhash, old_e)),
              count := n.count + LiveBit(it.e) - LiveBit(old_e));
      PathSet(depth, node, m, k, it.e);
      ChangeLeaf(pool, dc.dict, depth, r, node, m, n);
      pool := pool[node := n];
      appended := was.None?;
    }

    /** add_item: stores the item under its key, splitting the leaf if it grew too large. */
    method AddItem(r: nat, it: Item, keyhash: int, enlarge: bool, ghost m: map<Key, Entry>)
      requires Shape() && Is(r, m) && ItemOk(dc.dict, it) && keyhash == KeyHash(dc.dict, it)
      requires Own(depth, r, keyhash) && (enlarge ==> r == 0)
      modifies this
      ensures Shape() && Is(r, m[K(dc.dict, it) := it.e])
      ensures !enlarge ==> height == old(height) && SameOutside(old(pool), pool, r)
      ensures !enlarge && old(!pool[r].isNode && pool[r].count < SPLIT_LIMIT) ==>
                !pool[r].isNode && pool == old(pool)[r := pool[r]]
      ensures old(pool[r].isNode) ==> pool[r].isNode && !pool[r].valid
      ensures enlarge && K(dc.dict, it) !in m && depth + 1 < MAX_DEPTH ==>
                pool[0].isNode || |LivePart(m[K(dc.dict, it) := it.e])| <= SPLIT_LIMIT * 4
      ensures enlarge && old(!pool[0].isNode && height == 1) ==>
                |LivePart(m[K(dc.dict, it) := it.e])| <= SPLIT_LIMIT * 4 ==> !pool[0].isNode && height == 1
      ensures SplitRule(depth, old(height), enlarge, Walk(old(pool), depth, r, keyhash), K(dc.dict, it) !in m,
                        m[K(dc.dict, it) := it.e], pool)
      ensures LeavesFrom(old(pool), pool, r, Walk(old(pool), depth, r, keyhash))
      decreases enlarge, |pool| - r, 3
    {
      hide SubOk, Holds, Own, Contents, SameOutside, Reach, Depth, ItemOk, K, GIndex, Decode, Splits, LeavesFrom, Desc;
      ghost var was := pool;
      var node := Descend(r, keyhash, m);
      ghost var found := pool;
      var appended := PutInLeaf(r, node, it, keyhash, m);
      OutsideCompose(was, found, pool, r);
      SameSize(was, pool, r);
      ghost var m', put := m[K(dc.dict, it) := it.e], pool;
      InTree(pool, r, node);
      LeavesMarked(was, found, put, r, node);
      CountOnPath(pool, dc.dict, depth, r, node, m');
      if node == r { LeafCounts(pool, dc.dict, depth, r, m'); }
      SplitIfFull(r, node, appended, enlarge, m');
      LeavesThrough(was, put, pool, r, node);
      if !enlarge { OutsideCompose(was, put, pool, r); }
      SplitCases(depth, old(height), enlarge, node, put[node].count);
    }

    /** The end of add_item: the leaf is split if it grew too large. */
    method SplitIfFull(r: nat, node: nat, appended: bool, enlarge: bool, ghost m: map<Key, Entry>)
      requires Shape() && Is(r, m) && Reach(pool, r, node) && !pool[node].isNode && (enlarge ==> r == 0)
      requires node == r || !pool[Parent(node)].valid
      modifies this
      ensures Shape() && Is(r, m) && node < |pool| && LeavesFrom(old(pool), pool, r, node)
      ensures pool[node].isNode <==> appended && Splits(depth, old(height), enlarge, node, old(pool[node].count))
      ensures pool[node].isNode ==> !pool[node].valid && r < |pool| && (node != r ==> pool[r] == old(pool[r]))
      ensures !pool[node].isNode ==> pool == old(pool) && height == old(height)
      ensures !enlarge ==> height == old(height) && SameOutside(old(pool), pool, r)
      decreases enlarge, |pool| - r, 2
    {
      hide SubOk, Holds, SameOutside, Reach, GIndex, LeavesFrom, Depth, Desc;
      ghost var put := pool;
      InTree(pool, r, node);
      OutsideSelf(put, r);
      LeavesSelf(put, r, node);
      DepthIndex(node);
      DepthInPool(node, height);
      if appended && pool[node].count > SPLIT_LIMIT {
        if pool[node].depth == height - 1 {
          if enlarge && height + depth < MAX_DEPTH && pool[node].count > SPLIT_LIMIT * 4 {
            EnlargeAndSplit(node, m);
          }
        } else {
          DepthInPool(node, height - 1);
          SplitInTree(r, node, m);
          LeavesSplit(put, pool, r, node);
          if node != r { RootApart(put, pool, node); }
        }
      }
    }

    /** A leaf at the bottom is split after the pool has grown by a level. */
    method EnlargeAndSplit(node: nat, ghost m: map<Key, Entry>)
      requires Shape() && Is(0, m) && Reach(pool, 0, node) && !pool[node].isNode
      requires height + depth < MAX_DEPTH && (node == 0 || !pool[Parent(node)].valid)
      modifies this
      ensures Shape() && Is(0, m) && |pool| > |old(pool)|
      ensures pool[node].isNode && !pool[node].valid && (node != 0 ==> pool[0] == old(pool[0]))
      ensures LeavesFrom(old(pool), pool, 0, node)
      decreases true, 0, 1
    {
      hide SubOk, Holds;
      ghost var before := pool;
      EnlargePool(m);
      assert pool == before + pool[|before|..];
      ReachGrown(before, dc.dict, pool[|before|..], 0, node);
      ghost var grown := pool;
      SplitInTree(0, node, m);
      LeavesGrown(before, dc.dict, pool, grown, node);
      if node != 0 { RootApart(grown, pool, node); }
    }

    /** enlarge_pool: one more level of blank nodes. */
    method EnlargePool(ghost m: map<Key, Entry>)
      requires Shape() && height + depth < MAX_DEPTH && Is(0, m)
      modifies this
      ensures Shape() && Is(0, m) && height == old(height) + 1
      ensures |old(pool)| <= |pool| && pool[..|old(pool)|] == old(pool)
    {
      hide SubOk, Holds;
      var blank := Node(false, false, height, 0, 0, []);
      var extra := seq(GIndex(height + 1) - GIndex(height), _ => blank);
      GrownOk(pool, dc.dict, depth, extra, 0, m);
      forall i | |pool| <= i < |pool| + |extra| ensures Depth(i) == height {
        DepthInPool(i, height);
        DepthInPool(i, height + 1);
      }
      pool := pool + extra;
      height := height + 1;
    }

    /** split_node inside the tree at `r`. */
    method SplitInTree(r: nat, node: nat, ghost m: map<Key, Entry>)
      requires Shape() && Is(r, m) && Reach(pool, r, node) && !pool[node].isNode
      requires node < GIndex(height - 1) && (node == r || !pool[Parent(node)].valid)
      modifies this
      ensures Shape() && height == old(height) && Is(r, m) && SameOutside(old(pool), pool, r)
      ensures SameOutside(old(pool), pool, node) && pool[node].isNode && !pool[node].valid
      decreases false, |pool| - node, 1
    {
      hide SubOk, Holds, Own, Contents, SameOutside, LeafNodeOk;
      ghost var before := pool;
      LeafFacts(pool, dc.dict, depth, r, node, m);
      ReachIsDesc(pool, r, node);
      SplitNode(node);
      GraftOk(before, pool, dc.dict, r, node);
      GraftHolds(before, pool, dc.dict, depth, r, node, m, Contents(dc.dict, before[node].data));
      PathParts(depth, node, m);
      OutsideTrans(before, pool, r, node);
    }

    /** The first loop of split_node. */
    method ClearChildren(node: nat)
      requires Shape() && node < GIndex(height - 1) && node < |pool|
      modifies this`pool
      ensures Shape() && SameOutside(old(pool), pool, node) && pool[node] == old(pool[node])
      ensures ChildrenHold(pool, dc.dict, depth, node, map[])
    {
      ghost var was := pool;
      DepthIndex(node);
      var child := GetChild(node, pool[node].depth, 0);
      var b := 0;
      while b < BUCKET_SIZE
        invariant 0 <= b <= BUCKET_SIZE && |pool| == |was|
        invariant forall i :: 0 <= i < |pool| && !(child <= i < child + b) ==> pool[i] == was[i]
        invariant forall i :: child <= i < child + b ==> pool[i] == ClearNode(was[i])
      {
        pool := pool[child + b := ClearNode(pool[child + b])];
        b := b + 1;
      }
      ClearedChildren(was, pool, dc.dict, depth, node);
    }

    /** split_node: a leaf becomes an invalid inner node whose fresh children hold its items. */
    method SplitNode(node: nat)
      requires Shape() && node < |pool| && !pool[node].isNode && LeafNodeOk(dc.dict, pool[node])
      requires node < GIndex(height - 1)
      requires forall k :: k in Contents(dc.dict, pool[node].data) ==> Own(depth, node, Fnv1a.Hash(k))
      modifies this
      ensures Shape() && height == old(height) && SameOutside(old(pool), pool, node)
      ensures Is(node, Contents(dc.dict, old(pool[node].data))) && pool[node].isNode && !pool[node].valid
      decreases false, |pool| - node, 0
    {
      hide SubOk, Holds, Own, ItemOk, MapOf, K, Nibble, SameOutside, HashSum, LiveCount, ChildrenHold, Depth;
      hide SplitRule, LeavesFrom, Walk;
      ghost var was, n := pool, pool[node];
      var items := Flat(pool[node].data);
      ghost var m := MapOf(dc.dict, items);
      ClearChildren(node);
      var j := 0;
      MapOfNone(dc.dict, items);
      while j < |items|
        invariant 0 <= j <= |items| && Shape() && height == old(height) && |pool| == |was| && pool[node] == n
        invariant SameOutside(was, pool, node)
        invariant ChildrenHold(pool, dc.dict, depth, node, MapOf(dc.dict, items[..j]))
      {
        var keyhash := KeyHash(dc.dict, items[j]);
        ghost var before, done := pool, MapOf(dc.dict, items[..j]);
        SplitItem(dc.dict, depth, node, items, j);
        var b := Nibble(depth, keyhash, pool[node].depth);
        DepthIndex(node);
        var c := GetChild(node, pool[node].depth, b);
        ChildHolds(pool, dc.dict, depth, node, done, b);
        AddItem(c, items[j], keyhash, false, Part(depth, node, done, b));
        ChildChanged(before, pool, dc.dict, depth, node, done, b, K(dc.dict, items[j]), items[j].e);
        ChildOutside(was, before, pool, node, b);
        j := j + 1;
      }
      assert items[..|items|] == items;
      BecomeInner(pool, dc.dict, depth, node, m, n.(isNode := true, valid := false, data := []));
      OutsideRoot(was, pool, node, n.(isNode := true, valid := false, data := []));
      pool := pool[node := pool[node].(isNode := true, valid := false, data := [])];
    }

    /** remove_item. */
    method RemoveItem(r: nat, key: seq<byte>, keyhash: int, ghost k: Key, ghost m: map<Key, Entry>)
      requires Shape() && Is(r, m) && ItemOk(dc.dict, Item(key, Entry(0, 0, 0)))
      requires k == Decode(dc.dict, key) && keyhash == Fnv1a.Hash(k) && Own(depth, r, keyhash)
      modifies this`pool
      ensures Shape() && Is(r, m - {k}) && SameOutside(old(pool), pool, r) && Calmer(old(pool), pool)
    {
      hide SubOk, Holds, Own, ItemOk, Decode, SameOutside, Calmer, Marked;
      ghost var was := pool;
      var node := Descend(r, keyhash, m);
      ghost var mid := pool;
      TakeFromLeaf(r, node, key, keyhash, k, m);
      CalmMarked(was, mid);
      CalmTrans(was, mid, pool);
      OutsideCompose(was, mid, pool, r);
    }

    /** The leaf part of remove_item. */
    method TakeFromLeaf(r: nat, node: nat, key: seq<byte>, keyhash: int, ghost k: Key, ghost m: map<Key, Entry>)
      requires Shape() && Is(r, m) && ItemOk(dc.dict, Item(key, Entry(0, 0, 0)))
      requires k == Decode(dc.dict, key) && keyhash == Fnv1a.Hash(k)
      requires Reach(pool, r, node) && !pool[node].isNode && Own(depth, node, keyhash)
      requires node == r || !pool[Parent(node)].valid
      modifies this`pool
      ensures Shape() && Is(r, m - {k}) && SameOutside(old(pool), pool, r) && Calmer(old(pool), pool)
    {
      hide SubOk, Holds, Own, Contents, HashSum, LiveCount, LeafOk, ItemOk, Decode, Calmer;
      CalmSelf(pool);
      var n := pool[node];
      LeafFacts(pool, dc.dict, depth, r, node, m);
      var data, was := LeafRemove(dc.dict, n.data, k, key);
      ghost var c := Contents(dc.dict, n.data);
      PathSet(depth, node, m, k, Entry(0, 0, 0));
      if was.Some? {
        LeafTotalsRemove(c, k);
        n := n.(data := data, count := n.count - LiveBit(was.value), hash := U16(n.hash - Weight(keyhash, was.value)));
        ChangeLeaf(pool, dc.dict, depth, r, node, m, n);
        CalmLeaf(pool, node, n);
        pool := pool[node := n];
      } else {
        assert c - {k} == c;
        PathParts(depth, node, m);
      }
    }

    /** get_item_hash. */
    method GetItem(r: nat, key: seq<byte>, keyhash: int, ghost k: Key, ghost m: map<Key, Entry>)
      returns (e: Option<Entry>)
      requires Shape() && Is(r, m) && ItemOk(dc.dict, Item(key, Entry(0, 0, 0)))
      requires k == Decode(dc.dict, key) && keyhash == Fnv1a.Hash(k) && Own(depth, r, keyhash)
      ensures e == if k in m then Some(m[k]) else None
    {
      hide SubOk, Holds, Own, Contents, ItemOk, Decode, Nibble;
      var node := r;
      while pool[node].isNode
        invariant Reach(pool, r, node) && Own(depth, node, keyhash)
        decreases |pool| - node
      {
        ChildInPool(pool, dc.dict, r, node);
        DepthIndex(node);
        var b := Nibble(depth, keyhash, pool[node].depth);
        OwnChild(depth, node, keyhash, b);
        ParentOfChild(node, b);
        ReachIsDesc(pool, r, node);
        DescLe(r, node);
        node := GetChild(node, pool[node].depth, b);
      }
      LeafFacts(pool, dc.dict, depth, r, node, m);
      e := LeafGet(dc.dict, pool[node].data, k, key);
    }

    /** merge_node: the live items of sixteen leaves move into their parent, which never
        has to split again. */
    method MergeNode(i: nat, ghost m: map<Key, Entry>)
      requires Shape() && i < |pool| && ChildrenHold(pool, dc.dict, depth, i, m)
      requires forall b :: 0 <= b < BUCKET_SIZE ==> !pool[Child(i, b)].isNode
      requires SumCounts(pool, i, BUCKET_SIZE) <= SPLIT_LIMIT
      requires forall k :: k in m ==> Own(depth, i, Fnv1a.Hash(k))
      modifies this
      ensures Shape() && height == old(height) && SameOutside(old(pool), pool, i)
      ensures Is(i, LivePart(m)) && !pool[i].isNode && Calmer(old(pool), pool)
    {
      hide SubOk, Holds, Own, Nibble, SameOutside, SumCounts, Alike, Calmer, LivePart, Below, Depth, GIndex;
      ghost var was := pool;
      BeginMerge(pool, dc.dict, depth, i);
      AlikeRoot(was, was, i, ClearNode(pool[i]));
      pool := pool[i := ClearNode(pool[i])];
      DepthIndex(i);
      var child := GetChild(i, pool[i].depth, 0);
      var b := 0;
      while b < BUCKET_SIZE
        invariant 0 <= b <= BUCKET_SIZE && Shape() && height == old(height)
        invariant Is(i, LivePart(Below(depth, i, m, b))) && !pool[i].isNode
        invariant SameOutside(was, pool, i)
        invariant forall c :: b <= c < BUCKET_SIZE ==> pool[Child(i, c)] == was[Child(i, c)]
        invariant pool[i].count == SumCounts(was, i, b) && Alike(was, pool, i)
      {
        ghost var before := pool;
        MergeChild(i, b, m, was);
        AlikeRoot(was, before, i, pool[i]);
        OutsideRoot(was, before, i, pool[i]);
        ChildAbove(i);
        FreeChild(was, pool, dc.dict, depth, i, b, LivePart(Below(depth, i, m, b + 1)));
        AlikeFreed(was, pool, i, child + b);
        pool := pool[child + b := pool[child + b].(data := [])];
        b := b + 1;
      }
      CalmMerged(was, pool, i);
      BelowAll(depth, i, m);
    }

    method MergeChild(i: nat, b: nat, ghost m: map<Key, Entry>, ghost was: Pool)
      requires Shape() && i < |pool| && b < BUCKET_SIZE && Child(i, 15) < |pool| == |was|
      requires ChildrenHold(was, dc.dict, depth, i, m) && SumCounts(was, i, BUCKET_SIZE) <= SPLIT_LIMIT
      requires forall k :: k in m ==> Own(depth, i, Fnv1a.Hash(k))
      requires Is(i, LivePart(Below(depth, i, m, b))) && !pool[i].isNode
      requires pool[Child(i, b)] == was[Child(i, b)] && !was[Child(i, b)].isNode
      requires pool[i].count == SumCounts(was, i, b)
      modifies this
      ensures Shape() && height == old(height)
      ensures |pool| == |old(pool)| && pool == old(pool)[i := pool[i]]
      ensures Is(i, LivePart(Below(depth, i, m, b + 1))) && !pool[i].isNode
      ensures pool[i].count == SumCounts(was, i, b + 1)
    {
      hide SubOk, Holds, Own, Nibble, MapOf, K, ItemOk, HashSum, LiveCount, LivePart, SumCounts, ChildrenHold, Depth;
      hide GIndex;
      ghost var base := LivePart(Below(depth, i, m, b));
      ghost var part := Part(depth, i, m, b);
      DepthIndex(i);
      var items := Flat(pool[GetChild(i, pool[i].depth, b)].data);
      MergeFacts(was, dc.dict, depth, i, b, m);
      MapOfNone(dc.dict, items);
      NothingLive(base);
      var j := 0;
      while j < |items|
        invariant 0 <= j <= |items| && Shape() && height == old(height)
        invariant pool == old(pool)[i := pool[i]] && !pool[i].isNode
        invariant Is(i, base + LivePart(MapOf(dc.dict, items[..j])))
        invariant pool[i].count == SumCounts(was, i, b) + LiveCount(MapOf(dc.dict, items[..j]))
      {
        ghost var acc := base + LivePart(MapOf(dc.dict, items[..j]));
        MergeStep(dc.dict, depth, i, b, m, items, j);
        LeafCount(pool, dc.dict, depth, i, acc);
        if items[j].e.ver > 0 {
          AddItem(i, items[j], KeyHash(dc.dict, items[j]), false, acc);
          LeafCount(pool, dc.dict, depth, i, acc[K(dc.dict, items[j]) := items[j].e]);
        }
        j := j + 1;
      }
      assert items[..|items|] == items;
    }

    /** update_node: recomputes counts and hashes below an invalid node and merges it when
        it has become small. Exactly the dead entries on the way of a merge disappear. */
    method UpdateNode(i: nat, ghost m: map<Key, Entry>) returns (ghost m': map<Key, Entry>)
      requires Shape() && Is(i, m)
      modifies this
      ensures Shape() && height == old(height) && SameOutside(old(pool), pool, i)
      ensures Is(i, m') && m' == Updated(old(pool), depth, i, m) && pool[i].valid
      ensures old(pool[i].valid) ==> pool == old(pool)
      ensures Calmer(old(pool), pool)
      decreases |pool| - i, 1
    {
      hide SubOk, Holds, SameOutside, SumCounts, FoldHashes, Own, Updated, UpdatedTo, Untouched, LivePart, GIndex;
      hide Depth, Calmer;
      m' := m;
      CalmSelf(pool);
      if pool[i].valid {
        UpdatedValid(pool, depth, i, m);
        OutsideSelf(pool, i);
        return;
      }
      InvalidIsInner(pool, dc.dict, i);
      ghost var was := pool;
      StartUpdate(pool, dc.dict, depth, i, m);
      UntouchedStart(was, depth, i, m, pool[i].(hash := 0, count := 0));
      CalmInner(was, was, i, pool[i].(hash := 0, count := 0));
      pool := pool[i := pool[i].(hash := 0, count := 0)];
      var b := 0;
      while b < BUCKET_SIZE
        invariant 0 <= b <= BUCKET_SIZE && Shape() && height == old(height) && SameOutside(was, pool, i)
        invariant |pool| == |was| && Calmer(was, pool)
        invariant Is(i, m') && m' == UpdatedTo(was, depth, i, m, b) && Untouched(was, pool, i, b)
        invariant pool[i].isNode && !pool[i].valid && Child(i, 15) < |pool|
        invariant forall c :: 0 <= c < b ==> pool[Child(i, c)].valid
        invariant pool[i].count == SumCounts(pool, i, b) && pool[i].hash == 0 && pool[i].data == []
      {
        ghost var before := pool;
        m' := UpdateChild(i, b, m, m', was);
        CalmTrans(was, before, pool);
        DepthIndex(i);
        var c := GetChild(i, pool[i].depth, b);
        CountChild(was, pool, dc.dict, depth, i, b, m');
        UntouchedRoot(was, pool, i, b + 1, pool[i].(count := pool[i].count + pool[c].count));
        CalmInner(was, pool, i, pool[i].(count := pool[i].count + pool[c].count));
        pool := pool[i := pool[i].(count := pool[i].count + pool[c].count)];
        b := b + 1;
      }
      ghost var counted, full := m', pool;
      m' := FinishUpdate(i, counted, was);
      CalmTrans(was, full, pool);
      UpdatedWhole(was, depth, i, m);
    }

    /** After the counts: the hashes, then the valid mark and a merge if the node is small. */
    method FinishUpdate(i: nat, ghost m: map<Key, Entry>, ghost was: Pool) returns (ghost m': map<Key, Entry>)
      requires Shape() && Is(i, m) && pool[i].isNode && !pool[i].valid && pool[i].data == []
      requires Child(i, 15) < |pool| && pool[i].hash == 0 && SameOutside(was, pool, i)
      requires forall c :: 0 <= c < BUCKET_SIZE ==> pool[Child(i, c)].valid
      requires pool[i].count == SumCounts(pool, i, BUCKET_SIZE)
      modifies this
      ensures Shape() && height == old(height) && SameOutside(was, pool, i)
      ensures Is(i, m') && m' == (if |LivePart(m)| <= SPLIT_LIMIT then LivePart(m) else m) && pool[i].valid
      ensures Calmer(old(pool), pool)
    {
      hide SubOk, Holds, SameOutside, SumCounts, FoldHashes, Own, LivePart, Calmer;
      ghost var mid := pool;
      HashChildren(i, m);
      OutsideRoot(was, mid, i, pool[i]);
      ghost var hashed := pool;
      ChildAbove(i);
      SumsSame(mid, pool, i);
      CalmSelf(mid);
      CalmInner(mid, mid, i, hashed[i]);
      m' := Settle(i, m);
      CalmTrans(mid, hashed, pool);
      OutsideCompose(was, hashed, pool, i);
    }

    /** One child of the first loop of update_node. */
    method UpdateChild(i: nat, b: nat, ghost m0: map<Key, Entry>, ghost m: map<Key, Entry>, ghost was: Pool)
      returns (ghost m': map<Key, Entry>)
      requires Shape() && Is(i, m) && b < BUCKET_SIZE && pool[i].isNode && !pool[i].valid && Child(i, 15) < |pool|
      requires forall c :: 0 <= c < b ==> pool[Child(i, c)].valid
      requires SameOutside(was, pool, i) && |was| == |pool|
      requires m == UpdatedTo(was, depth, i, m0, b) && Untouched(was, pool, i, b)
      modifies this
      ensures Shape() && height == old(height) && |pool| == |old(pool)| && pool[i] == old(pool[i])
      ensures SameOutside(was, pool, i) && Is(i, m')
      ensures m' == UpdatedTo(was, depth, i, m0, b + 1) && Untouched(was, pool, i, b + 1)
      ensures forall c :: 0 <= c <= b ==> pool[Child(i, c)].valid
      ensures SumCounts(pool, i, b) == SumCounts(old(pool), i, b) && Calmer(old(pool), pool)
      decreases |pool| - i, 0
    {
      hide SubOk, Holds, SumCounts, Own, Nibble, Updated, UpdatedTo, Untouched, Calmer;
      ghost var before := pool;
      ToChildren(pool, dc.dict, depth, i, m);
      DepthIndex(i);
      var c := GetChild(i, pool[i].depth, b);
      ghost var mb := UpdateNode(c, Part(depth, i, m, b));
      ChildReach(before, i, b);
      GraftOk(before, pool, dc.dict, i, c);
      GraftHolds(before, pool, dc.dict, depth, i, c, m, mb);
      m' := OffPath(depth, c, m) + mb;
      ChildUpdated(was, before, depth, i, b, m0, m, mb);
      UntouchedNext(was, before, pool, i, b);
      ChildOutside(was, before, pool, i, b);
      OtherChildren(before, pool, i, b);
    }

    /** The second loop of update_node. */
    method HashChildren(i: nat, ghost m: map<Key, Entry>)
      requires Shape() && Is(i, m) && pool[i].isNode && !pool[i].valid && pool[i].data == []
      requires Child(i, 15) < |pool| && pool[i].hash == 0
      modifies this
      ensures Shape() && height == old(height) && Is(i, m)
      ensures |pool| == |old(pool)| && pool == old(pool)[i := pool[i]]
      ensures pool[i] == old(pool[i]).(hash := FoldHashes(old(pool), i, pool[i].count, BUCKET_SIZE))
    {
      hide SubOk, Holds, Own, FoldHashes, U16;
      ghost var was := pool;
      FoldNone(was, i, pool[i].count);
      ChildAbove(i);
      DepthIndex(i);
      var child := GetChild(i, pool[i].depth, 0);
      var b := 0;
      while b < BUCKET_SIZE
        invariant 0 <= b <= BUCKET_SIZE && Shape() && height == old(height) && Is(i, m)
        invariant |pool| == |was| && pool == was[i := pool[i]]
        invariant pool[i] == was[i].(hash := FoldHashes(was, i, pool[i].count, b))
      {
        var h := if pool[i].count > SPLIT_LIMIT * 4 then U16(pool[i].hash * 97) else pool[i].hash;
        FoldStep(was, i, pool[i].count, b, h);
        var n := pool[i].(hash := U16(h + pool[child + b].hash));
        Invalidate(pool, dc.dict, depth, i, i, m, n);
        pool := pool[i := n];
        b := b + 1;
      }
    }

    /** The end of update_node: the node is valid, and is merged when it is small. */
    method Settle(i: nat, ghost m: map<Key, Entry>) returns (ghost m': map<Key, Entry>)
      requires Shape() && Is(i, m) && pool[i].isNode && !pool[i].valid && Child(i, 15) < |pool|
      requires forall c :: 0 <= c < BUCKET_SIZE ==> pool[Child(i, c)].valid
      requires pool[i].count == SumCounts(pool, i, BUCKET_SIZE)
      requires pool[i].hash == FoldHashes(pool, i, pool[i].count, BUCKET_SIZE)
      modifies this
      ensures Shape() && height == old(height) && SameOutside(old(pool), pool, i)
      ensures Is(i, m') && m' == (if |LivePart(m)| <= SPLIT_LIMIT then LivePart(m) else m) && pool[i].valid
      ensures Calmer(old(pool), pool)
    {
      hide SubOk, Holds, Own, SumCounts, FoldHashes, SameOutside, Nibble, LivePart, Calmer;
      ghost var was := pool;
      CalmSelf(was);
      CalmInner(was, was, i, pool[i].(valid := true));
      m' := m;
      ToChildren(pool, dc.dict, depth, i, m);
      ValidChildren(pool, dc.dict, depth, i, m);
      MarkValid(pool, dc.dict, depth, i, m);
      pool := pool[i := pool[i].(valid := true)];
      if pool[i].count <= SPLIT_LIMIT {
        ghost var marked := pool;
        MergeNode(i, m);
        m' := LivePart(m);
        LeafIsValid(pool, dc.dict, i);
        OutsideCompose(was, marked, pool, i);
        CalmTrans(was, marked, pool);
      }
    }
  }

  ghost predicate Pruned(m: map<Key, Entry>, m': map<Key, Entry>) {
    && (forall k :: k in m' ==> k in m && m'[k] == m[k])
    && (forall k :: k in m && LiveEntry(m[k]) ==> k in m')
  }

  lemma PrunedTrans(a: map<Key, Entry>, b: map<Key, Entry>, c: map<Key, Entry>)
    requires Pruned(a, b) && Pruned(b, c)
    ensures Pruned(a, c)
  {
  }

  /** On the way of hash `h` down from `r` there is an invalid inner node with at most 64 live entries,
      which an update merges. */
  ghost predicate Merges(pool: Pool, td: nat, r: nat, m: map<Key, Entry>, h: int)
    requires 0 <= h
    decreases |pool| - r
  {
    r < |pool| && pool[r].isNode && !pool[r].valid
    && (|LivePart(m)| <= SPLIT_LIMIT || MergesIn(pool, td, r, m, h, BUCKET_SIZE))
  }

  /** The same for the children of `r` below `n`. */
  ghost predicate MergesIn(pool: Pool, td: nat, r: nat, m: map<Key, Entry>, h: int, n: nat)
    requires 0 <= h && r < |pool|
    decreases |pool| - r, n
  {
    var b := Nibble(td, h, Depth(r));
    b < n && Merges(pool, td, Child(r, b), Part(td, r, m, b), h)
  }

  /** What update_node keeps: the live entries, and the dead ones that no merge comes across. */
  ghost function Updated(pool: Pool, td: nat, r: nat, m: map<Key, Entry>): map<Key, Entry> {
    map k | k in m && (LiveEntry(m[k]) || !Merges(pool, td, r, m, Fnv1a.Hash(k))) :: m[k]
  }

  ghost function UpdatedTo(pool: Pool, td: nat, r: nat, m: map<Key, Entry>, n: nat): map<Key, Entry>
    requires r < |pool|
  {
    map k | k in m && (LiveEntry(m[k]) || !MergesIn(pool, td, r, m, Fnv1a.Hash(k), n)) :: m[k]
  }

  lemma UpdatedPrunes(pool: Pool, td: nat, r: nat, m: map<Key, Entry>)
    ensures Pruned(m, Updated(pool, td, r, m))
  {
    hide Merges;
  }

  /** The subtrees of the children from `n` on are as they were. */
  ghost predicate Untouched(was: Pool, pool: Pool, i: nat, n: nat) {
    && |pool| == |was|
    && forall c, j :: n <= c < BUCKET_SIZE && 0 <= j < |pool| && Desc(Child(i, c), j) ==> pool[j] == was[j]
  }

  lemma UntouchedStart(was: Pool, td: nat, i: nat, m: map<Key, Entry>, n: Node)
    requires i < |was|
    ensures Untouched(was, was[i := n], i, 0) && UpdatedTo(was, td, i, m, 0) == m
  {
    hide Merges, Nibble, Part;
    UntouchedRoot(was, was, i, 0, n);
  }

  lemma UntouchedRoot(was: Pool, pool: Pool, i: nat, b: nat, n: Node)
    requires i < |pool| && Untouched(was, pool, i, b)
    ensures Untouched(was, pool[i := n], i, b)
  {
    forall c, j | b <= c < BUCKET_SIZE && 0 <= j < |pool| && Desc(Child(i, c), j) ensures pool[i := n][j] == was[j] {
      DescLe(Child(i, c), j);
    }
  }

  lemma UntouchedNext(was: Pool, pool: Pool, pool': Pool, i: nat, b: nat)
    requires b < BUCKET_SIZE && Untouched(was, pool, i, b) && SameOutside(pool, pool', Child(i, b))
    ensures Untouched(was, pool', i, b + 1)
  {
    forall c, j | b + 1 <= c < BUCKET_SIZE && 0 <= j < |pool'| && Desc(Child(i, c), j) ensures pool'[j] == was[j] {
      if Desc(Child(i, b), j) { Siblings(i, b, c, j); assert false; }
    }
  }

  lemma {:induction false} MergesFrame(was: Pool, pool: Pool, td: nat, r: nat, m: map<Key, Entry>, h: int)
    requires 0 <= h && |was| == |pool| && forall j :: 0 <= j < |pool| && Desc(r, j) ==> pool[j] == was[j]
    ensures Merges(pool, td, r, m, h) == Merges(was, td, r, m, h)
    decreases |pool| - r
  {
    hide Nibble, Part, Depth, LivePart;
    if r < |pool| {
      assert Desc(r, r);
      var b := Nibble(td, h, Depth(r));
      forall j | 0 <= j < |pool| && Desc(Child(r, b), j) ensures pool[j] == was[j] { DescThrough(r, b, j); }
      MergesFrame(was, pool, td, Child(r, b), Part(td, r, m, b), h);
    }
  }

  lemma {:induction false} DescThrough(r: nat, b: nat, j: nat)
    requires b < BUCKET_SIZE && Desc(Child(r, b), j)
    ensures Desc(r, j)
    decreases j
  {
    if j == Child(r, b) { ParentOfChild(r, b); } else { DescThrough(r, b, Parent(j)); }
  }

  // ---- Which leaves there are ---------------------------------------------------------------------

  /** Leaves have not become larger, and new ones have at most 64 live items. */
  ghost predicate Calmer(was: Pool, pool: Pool) {
    && |pool| == |was|
    && forall i :: 0 <= i < |pool| ==>
      && (pool[i].isNode ==> was[i].isNode)
      && (!pool[i].isNode ==> pool[i].count <= SPLIT_LIMIT || (!was[i].isNode && pool[i].count <= was[i].count))
  }

  lemma CalmSelf(pool: Pool)
    ensures Calmer(pool, pool)
  {
  }

  lemma CalmTrans(a: Pool, b: Pool, c: Pool)
    requires Calmer(a, b) && Calmer(b, c)
    ensures Calmer(a, c)
  {
  }

  lemma CalmMarked(was: Pool, pool: Pool)
    requires Marked(was, pool)
    ensures Calmer(was, pool)
  {
  }

  lemma CalmLeaf(pool: Pool, n: nat, node: Node)
    requires n < |pool| && !pool[n].isNode && !node.isNode && node.count <= pool[n].count
    ensures Calmer(pool, pool[n := node])
  {
  }

  lemma CalmInner(was: Pool, pool: Pool, n: nat, node: Node)
    requires Calmer(was, pool) && n < |pool| && pool[n].isNode && node.isNode
    ensures Calmer(was, pool[n := node])
  {
  }

  /** All nodes but `i` have their kind and count. */
  ghost predicate Alike(was: Pool, pool: Pool, i: nat) {
    && |pool| == |was|
    && forall j :: 0 <= j < |pool| && j != i ==> pool[j].isNode == was[j].isNode && pool[j].count == was[j].count
  }

  lemma AlikeRoot(was: Pool, pool: Pool, i: nat, n: Node)
    requires (pool == was || Alike(was, pool, i)) && i < |pool|
    ensures Alike(was, pool[i := n], i)
  {
  }

  lemma AlikeFreed(was: Pool, pool: Pool, i: nat, c: nat)
    requires Alike(was, pool, i) && c < |pool| && c != i
    ensures Alike(was, pool[c := pool[c].(data := [])], i)
  {
  }

  lemma CalmMerged(was: Pool, pool: Pool, i: nat)
    requires Alike(was, pool, i) && i < |pool| && !pool[i].isNode && pool[i].count <= SPLIT_LIMIT
    ensures Calmer(was, pool)
  {
  }

  /** Some inner nodes have become invalid. */
  ghost predicate Marked(was: Pool, pool: Pool) {
    && |pool| == |was|
    && forall i :: 0 <= i < |pool| ==> pool[i] == was[i] || (was[i].isNode && pool[i] == was[i].(valid := false))
  }

  lemma MarkedSelf(pool: Pool)
    ensures Marked(pool, pool)
  {
  }

  lemma MarkedMore(was: Pool, pool: Pool, n: nat)
    requires Marked(was, pool) && n < |pool| && pool[n].isNode
    ensures n < |was| && was[n].isNode && Marked(was, pool[n := pool[n].(valid := false)])
  {
  }

  lemma MarkedKind(was: Pool, pool: Pool, n: nat)
    requires Marked(was, pool) && n < |pool|
    ensures n < |was| && was[n].isNode == pool[n].isNode
  {
  }

  lemma WalkEnds(pool: Pool, td: nat, h: int)
    requires 0 <= h
    ensures forall n: nat :: n < |pool| ==>
      Walk(pool, td, n, h) == if pool[n].isNode then Walk(pool, td, Child(n, Nibble(td, h, Depth(n))), h) else n
  {
    hide Nibble, Depth;
  }

  /** A leaf that got a new item has to be split: more than 64 live items, or 256 at the bottom if the pool
      may still grow. */
  predicate Splits(td: nat, height: nat, enlarge: bool, w: nat, live: nat) {
    live > SPLIT_LIMIT
    && (Depth(w) + 1 < height || (enlarge && height + td < MAX_DEPTH && live > SPLIT_LIMIT * 4))
  }

  /** The leaf `w` was split exactly if it had to be. */
  ghost predicate SplitRule(td: nat, height: nat, enlarge: bool, w: nat, added: bool, m: map<Key, Entry>, pool: Pool) {
    w < |pool| && (pool[w].isNode <==> added && Splits(td, height, enlarge, w, |LivePart(OnPath(td, w, m))|))
  }

  /** Every leaf is an old one or below `w`. */
  ghost predicate LeavesFrom(was: Pool, pool: Pool, r: nat, w: nat) {
    forall i: nat :: Reach(pool, r, i) && !pool[i].isNode ==> Desc(w, i) || (Reach(was, r, i) && !was[i].isNode)
  }

  lemma LeavesMarked(was: Pool, found: Pool, put: Pool, r: nat, node: nat)
    requires Marked(was, found) && node < |found| == |put| && put == found[node := put[node]]
    requires !found[node].isNode && !put[node].isNode
    ensures SameKinds(was, put) && LeavesFrom(was, put, r, node)
  {
    forall i: nat | Reach(put, r, i) && !put[i].isNode ensures Reach(was, r, i) && !was[i].isNode {
      ReachFlags(was, put, r, i);
    }
  }

  lemma LeavesSplit(put: Pool, pool: Pool, r: nat, node: nat)
    requires SameOutside(put, pool, node)
    ensures LeavesFrom(put, pool, r, node)
  {
    hide SameOutside;
    forall i: nat | Reach(pool, r, i) && !pool[i].isNode && !Desc(node, i)
      ensures Reach(put, r, i) && !put[i].isNode
    {
      ReachOutside(put, pool, node, r, i);
      OutsideAt(put, pool, node, i);
    }
  }

  lemma LeavesSelf(pool: Pool, r: nat, w: nat)
    ensures LeavesFrom(pool, pool, r, w)
  {
  }

  lemma SplitCases(td: nat, height: nat, enlarge: bool, w: nat, live: nat)
    requires 1 <= height
    ensures live <= SPLIT_LIMIT ==> !Splits(td, height, enlarge, w, live)
    ensures w == 0 && enlarge && td + 1 < MAX_DEPTH && live > SPLIT_LIMIT * 4 ==> Splits(td, height, enlarge, w, live)
    ensures w == 0 && height == 1 && live <= SPLIT_LIMIT * 4 ==> !Splits(td, height, enlarge, w, live)
  {
  }

  lemma OutsideAt(pool: Pool, pool': Pool, c: nat, i: nat)
    requires SameOutside(pool, pool', c) && !Desc(c, i) && i < |pool|
    ensures pool'[i] == pool[i]
  {
  }

  lemma LeavesGrown(before: Pool, dict: Dict, pool: Pool, grown: Pool, node: nat)
    requires 0 < |before| <= |grown| && SubOk(before, dict, 0) && grown[..|before|] == before
    requires SameOutside(grown, pool, node)
    ensures LeavesFrom(before, pool, 0, node)
  {
    hide SameOutside, SubOk;
    var extra := grown[|before|..];
    assert grown == before + extra;
    forall i: nat | Reach(pool, 0, i) && !pool[i].isNode && !Desc(node, i)
      ensures Reach(before, 0, i) && !before[i].isNode
    {
      ReachOutside(grown, pool, node, 0, i);
      ReachGrown(before, dict, extra, 0, i);
      OutsideAt(grown, pool, node, i);
    }
  }

  lemma LeavesThrough(was: Pool, put: Pool, pool: Pool, r: nat, w: nat)
    requires SameKinds(was, put) && LeavesFrom(put, pool, r, w)
    ensures LeavesFrom(was, pool, r, w)
  {
    forall i: nat | Reach(pool, r, i) && !pool[i].isNode && !Desc(w, i) ensures Reach(was, r, i) && !was[i].isNode {
      ReachFlags(was, put, r, i);
    }
  }

  lemma CountOnPath(pool: Pool, dict: Dict, td: nat, r: nat, n: nat, m: map<Key, Entry>)
    requires SubOk(pool, dict, r) && Holds(pool, dict, td, r, m) && Reach(pool, r, n) && !pool[n].isNode
    ensures pool[n].count == |LivePart(OnPath(td, n, m))|
  {
    hide SubOk, Holds, Contents, LiveCount, HashSum, LivePart, OnPath;
    LeafFacts(pool, dict, td, r, n, m);
    LiveSize(OnPath(td, n, m));
  }

  lemma RootApart(pool: Pool, pool': Pool, node: nat)
    requires SameOutside(pool, pool', node) && node < |pool|
    ensures forall r: nat :: r < node ==> pool'[r] == pool[r]
  {
    forall r: nat | r < node ensures pool'[r] == pool[r] {
      if Desc(node, r) { DescLe(node, r); assert false; }
    }
  }

  lemma OutsideSelf(pool: Pool, i: nat)
    ensures SameOutside(pool, pool, i)
  {
  }

  lemma UpdatedValid(pool: Pool, td: nat, i: nat, m: map<Key, Entry>)
    requires i < |pool| && (pool[i].valid || !pool[i].isNode)
    ensures Updated(pool, td, i, m) == m
  {
    hide MergesIn, LivePart;
  }

  /** One child updated, seen from one key. */
  lemma ChildUpdatedKey(was: Pool, pool: Pool, td: nat, i: nat, b: nat, m0: map<Key, Entry>, m: map<Key, Entry>, k: Key)
    requires b < BUCKET_SIZE && i < |pool| == |was| && m == UpdatedTo(was, td, i, m0, b) && Untouched(was, pool, i, b)
    requires k in m && Own(td, i, Fnv1a.Hash(k)) && Part(td, i, m, b) == Part(td, i, m0, b)
    ensures k in Part(td, i, m, b) <==> Own(td, Child(i, b), Fnv1a.Hash(k))
    ensures k in UpdatedTo(was, td, i, m0, b + 1) <==>
      k !in Part(td, i, m, b) || k in Updated(pool, td, Child(i, b), Part(td, i, m, b))
  {
    hide Own, Nibble, LiveEntry, Merges, Depth, Untouched;
    OwnChild(td, i, Fnv1a.Hash(k), b);
    ChildSame(was, pool, i, b);
    MergesFrame(was, pool, td, Child(i, b), Part(td, i, m0, b), Fnv1a.Hash(k));
  }

  lemma ChildSame(was: Pool, pool: Pool, i: nat, b: nat)
    requires b < BUCKET_SIZE && Untouched(was, pool, i, b)
    ensures |was| == |pool| && forall j :: 0 <= j < |pool| && Desc(Child(i, b), j) ==> pool[j] == was[j]
  {
  }

  lemma PartNotYet(was: Pool, td: nat, i: nat, b: nat, m0: map<Key, Entry>)
    requires i < |was|
    ensures Part(td, i, UpdatedTo(was, td, i, m0, b), b) == Part(td, i, m0, b)
  {
    hide Nibble, Merges, Depth, LiveEntry;
  }

  /** One child updated. */
  lemma ChildUpdated(was: Pool, pool: Pool, td: nat, i: nat, b: nat, m0: map<Key, Entry>, m: map<Key, Entry>,
                     mb: map<Key, Entry>)
    requires b < BUCKET_SIZE && i < |pool| == |was| && m == UpdatedTo(was, td, i, m0, b) && Untouched(was, pool, i, b)
    requires mb == Updated(pool, td, Child(i, b), Part(td, i, m, b))
    requires forall k :: k in m ==> Own(td, i, Fnv1a.Hash(k))
    ensures OffPath(td, Child(i, b), m) + mb == UpdatedTo(was, td, i, m0, b + 1)
  {
    hide Own, Part, Untouched, Updated, UpdatedTo;
    PartNotYet(was, td, i, b, m0);
    var m' := OffPath(td, Child(i, b), m) + mb;
    var goal := UpdatedTo(was, td, i, m0, b + 1);
    ShrinkingTo(was, td, i, m0, b);
    UpdatedPart(pool, td, i, b, m);
    forall k | k in m ensures k in m' <==> k in goal {
      ChildUpdatedKey(was, pool, td, i, b, m0, m, k);
    }
    assert forall k :: k in m' ==> k in m && m'[k] == m[k];
    assert m' == goal;
  }

  lemma UpdatedPart(pool: Pool, td: nat, i: nat, b: nat, m: map<Key, Entry>)
    ensures var mb := Updated(pool, td, Child(i, b), Part(td, i, m, b));
      forall k :: k in mb ==> k in Part(td, i, m, b) && k in m && mb[k] == m[k]
  {
    hide Merges, Nibble, Depth;
  }

  lemma ShrinkingTo(was: Pool, td: nat, i: nat, m0: map<Key, Entry>, b: nat)
    requires i < |was|
    ensures var m, m' := UpdatedTo(was, td, i, m0, b), UpdatedTo(was, td, i, m0, b + 1);
      forall k :: k in m' ==> k in m && m'[k] == m[k]
  {
    hide Merges, Nibble, Depth, Part;
  }

  lemma UpdatedWhole(was: Pool, td: nat, i: nat, m: map<Key, Entry>)
    requires i < |was| && was[i].isNode && !was[i].valid
    ensures var c := UpdatedTo(was, td, i, m, BUCKET_SIZE);
      Updated(was, td, i, m) == if |LivePart(c)| <= SPLIT_LIMIT then LivePart(c) else c
  {
    hide Nibble, LiveEntry, MergesIn, Depth;
    assert LivePart(UpdatedTo(was, td, i, m, BUCKET_SIZE)) == LivePart(m);
  }

  lemma InvalidIsInner(pool: Pool, dict: Dict, i: nat)
    requires SubOk(pool, dict, i) && i < |pool| && !pool[i].valid
    ensures pool[i].isNode && Child(i, 15) < |pool| && pool[i].data == []
  {
    assert Reach(pool, i, i);
    assert NodeOk(pool, dict, i);
  }

  lemma LeafIsValid(pool: Pool, dict: Dict, i: nat)
    requires SubOk(pool, dict, i) && i < |pool| && !pool[i].isNode
    ensures pool[i].valid
  {
    assert Reach(pool, i, i);
    assert NodeOk(pool, dict, i);
  }

  lemma StartUpdate(pool: Pool, dict: Dict, td: nat, i: nat, m: map<Key, Entry>)
    requires i < |pool| && SubOk(pool, dict, i) && Holds(pool, dict, td, i, m) && !pool[i].valid
    ensures var pool' := pool[i := pool[i].(hash := 0, count := 0)];
            && SubOk(pool', dict, i) && Holds(pool', dict, td, i, m) && SameOutside(pool, pool', i)
            && Child(i, 15) < |pool| && pool'[i].count == SumCounts(pool', i, 0)
  {
    hide SubOk, Holds;
    InvalidIsInner(pool, dict, i);
    Invalidate(pool, dict, td, i, i, m, pool[i].(hash := 0, count := 0));
  }

  lemma CountChild(was: Pool, pool: Pool, dict: Dict, td: nat, i: nat, b: nat, m: map<Key, Entry>)
    requires i < |pool| && SubOk(pool, dict, i) && Holds(pool, dict, td, i, m) && SameOutside(was, pool, i)
    requires pool[i].isNode && !pool[i].valid && pool[i].data == [] && Child(i, 15) < |pool| && b < BUCKET_SIZE
    requires pool[i].count == SumCounts(pool, i, b)
    ensures var pool' := pool[i := pool[i].(count := pool[i].count + pool[Child(i, b)].count)];
            && SubOk(pool', dict, i) && Holds(pool', dict, td, i, m) && SameOutside(was, pool', i)
            && pool'[i].count == SumCounts(pool', i, b + 1)
  {
    hide SubOk, Holds;
    var n := pool[i].(count := pool[i].count + pool[Child(i, b)].count);
    Invalidate(pool, dict, td, i, i, m, n);
    OutsideRoot(was, pool, i, n);
    ChildAbove(i);
    SumCountsSame(pool, pool[i := n], i, 0, b + 1);
  }

  lemma SumsSame(mid: Pool, pool: Pool, i: nat)
    requires |mid| == |pool| && i < |pool| && Child(i, 15) < |pool| && pool == mid[i := pool[i]]
    ensures SumCounts(pool, i, BUCKET_SIZE) == SumCounts(mid, i, BUCKET_SIZE)
    ensures FoldHashes(pool, i, pool[i].count, BUCKET_SIZE) == FoldHashes(mid, i, pool[i].count, BUCKET_SIZE)
  {
    ChildAbove(i);
    SumCountsSame(mid, pool, i, pool[i].count, BUCKET_SIZE);
  }

  lemma FoldNone(pool: Pool, i: nat, count: nat)
    requires Child(i, 15) < |pool|
    ensures FoldHashes(pool, i, count, 0) == 0
  {
  }

  lemma FoldStep(pool: Pool, i: nat, count: nat, b: nat, h: int)
    requires b < BUCKET_SIZE && Child(i, 15) < |pool|
    requires var before := FoldHashes(pool, i, count, b);
             h == if count > SPLIT_LIMIT * 4 then U16(before * 97) else before
    ensures U16(h + pool[Child(i, b)].hash) == FoldHashes(pool, i, count, b + 1)
  {
    U16Add(FoldHashes(pool, i, count, b) * 97, pool[Child(i, b)].hash);
  }

  lemma InTree(pool: Pool, r: nat, i: nat)
    requires Reach(pool, r, i)
    ensures r <= i < |pool|
  {
  }

  lemma SameSize(a: Pool, b: Pool, i: nat)
    requires SameOutside(a, b, i)
    ensures |a| == |b|
  {
  }

  lemma OutsideCompose(a: Pool, b: Pool, c: Pool, i: nat)
    requires SameOutside(a, b, i) && SameOutside(b, c, i)
    ensures SameOutside(a, c, i)
  {
  }

  lemma ChildReach(pool: Pool, i: nat, b: nat)
    requires b < BUCKET_SIZE && Child(i, 15) < |pool| && pool[i].isNode
    ensures Reach(pool, i, Child(i, b)) && Parent(Child(i, b)) == i
  {
    ParentOfChild(i, b);
    assert Reach(pool, i, i);
  }

  lemma OtherChildren(pool: Pool, pool': Pool, i: nat, b: nat)
    requires b < BUCKET_SIZE && Child(i, 15) < |pool| && SameOutside(pool, pool', Child(i, b))
    ensures forall c :: 0 <= c < b ==> pool'[Child(i, c)] == pool[Child(i, c)]
    ensures SumCounts(pool', i, b) == SumCounts(pool, i, b)
  {
    forall c | 0 <= c < b ensures pool'[Child(i, c)] == pool[Child(i, c)] {
      if Desc(Child(i, b), Child(i, c)) { Siblings(i, b, c, Child(i, c)); assert false; }
    }
    SumCountsSame(pool, pool', i, 0, b);
  }

  /** A small valid node has only leaves below it; a large one is exact. */
  lemma MarkValid(pool: Pool, dict: Dict, td: nat, i: nat, m: map<Key, Entry>)
    requires i < |pool| && pool[i].isNode && pool[i].data == [] && ChildrenHold(pool, dict, td, i, m)
    requires forall c :: 0 <= c < BUCKET_SIZE ==> pool[Child(i, c)].valid
    requires pool[i].count == SumCounts(pool, i, BUCKET_SIZE)
    requires pool[i].hash == FoldHashes(pool, i, pool[i].count, BUCKET_SIZE)
    requires forall k :: k in m ==> Own(td, i, Fnv1a.Hash(k))
    ensures var pool' := pool[i := pool[i].(valid := true)];
            && SameOutside(pool, pool', i) && ChildrenHold(pool', dict, td, i, m)
            && SumCounts(pool', i, BUCKET_SIZE) == pool[i].count
            && (pool[i].count <= SPLIT_LIMIT ==> forall c :: 0 <= c < BUCKET_SIZE ==> !pool'[Child(i, c)].isNode)
            && (pool[i].count > SPLIT_LIMIT ==> SubOk(pool', dict, i) && Holds(pool', dict, td, i, m))
  {
    hide SubOk, Holds, Own, SumCounts, FoldHashes;
    var pool' := pool[i := pool[i].(valid := true)];
    ChildAbove(i);
    SumCountsSame(pool, pool', i, pool[i].count, BUCKET_SIZE);
    ChildrenKeep(pool, dict, td, i, m, pool[i].(valid := true));
    if pool[i].count <= SPLIT_LIMIT {
      forall c | 0 <= c < BUCKET_SIZE ensures !pool'[Child(i, c)].isNode {
        ValidChild(pool, dict, i, c);
      }
    } else {
      FromChildren(pool', dict, td, i, m);
    }
  }

  lemma ValidChild(pool: Pool, dict: Dict, i: nat, c: nat)
    requires c < BUCKET_SIZE && Child(i, 15) < |pool| && SubOk(pool, dict, Child(i, c)) && pool[Child(i, c)].valid
    ensures pool[Child(i, c)].isNode ==> SumCounts(pool, i, BUCKET_SIZE) > SPLIT_LIMIT
  {
    assert Reach(pool, Child(i, c), Child(i, c));
    assert NodeOk(pool, dict, Child(i, c));
    SumCountsMono(pool, i, c + 1, BUCKET_SIZE);
  }

  lemma ChildrenKeep(pool: Pool, dict: Dict, td: nat, node: nat, m: map<Key, Entry>, n: Node)
    requires node < |pool| && ChildrenHold(pool, dict, td, node, m)
    ensures ChildrenHold(pool[node := n], dict, td, node, m)
  {
    hide SubOk, Holds;
    var pool' := pool[node := n];
    forall c | 0 <= c < BUCKET_SIZE
      ensures SubOk(pool', dict, Child(node, c)) && Holds(pool', dict, td, Child(node, c), Part(td, node, m, c))
    {
      forall i | 0 <= i < |pool| && Desc(Child(node, c), i) ensures pool'[i] == pool[i] {
        DescLe(Child(node, c), i);
      }
      SubtreeFrame(pool, pool', dict, td, Child(node, c), Part(td, node, m, c));
    }
  }

  /** What update_node keeps when it merges: the entries with a positive version. */
  ghost function LivePart(m: map<Key, Entry>): map<Key, Entry> {
    map k | k in m && LiveEntry(m[k]) :: m[k]
  }

  /** The keys of `m` that go to the first `b` children. */
  ghost function Below(td: nat, n: nat, m: map<Key, Entry>, b: nat): map<Key, Entry> {
    map k | k in m && Nibble(td, Fnv1a.Hash(k), Depth(n)) < b :: m[k]
  }

  lemma NothingLive(base: map<Key, Entry>)
    ensures base + LivePart(map[]) == base && LiveCount(map[]) == 0
  {
    assert LiveKeys(map[]) == {};
  }

  /** What the leaf of child `b` contributes to a merge. */
  lemma MergeFacts(was: Pool, dict: Dict, td: nat, i: nat, b: nat, m: map<Key, Entry>)
    requires b < BUCKET_SIZE && ChildrenHold(was, dict, td, i, m) && !was[Child(i, b)].isNode
    ensures ItemsOk(dict, Flat(was[Child(i, b)].data))
    ensures MapOf(dict, Flat(was[Child(i, b)].data)) == Part(td, i, m, b)
    ensures SumCounts(was, i, b + 1) == SumCounts(was, i, b) + LiveCount(Part(td, i, m, b))
    ensures LivePart(Below(td, i, m, b)) + LivePart(Part(td, i, m, b)) == LivePart(Below(td, i, m, b + 1))
    ensures SumCounts(was, i, b + 1) <= SumCounts(was, i, BUCKET_SIZE)
  {
    hide LiveCount, HashSum, Nibble, Flat, MapOf, K, Part, Below, LivePart, SubOk, Holds, SumCounts;
    SumCountsNext(was, i, b);
    LeafParts(was, dict, td, Child(i, b), Part(td, i, m, b));
    LiveUnion(td, i, m, b);
    SumCountsMono(was, i, b + 1, BUCKET_SIZE);
  }

  lemma LeafParts(pool: Pool, dict: Dict, td: nat, c: nat, m: map<Key, Entry>)
    requires c < |pool| && !pool[c].isNode && SubOk(pool, dict, c) && Holds(pool, dict, td, c, m)
    ensures ItemsOk(dict, Flat(pool[c].data)) && MapOf(dict, Flat(pool[c].data)) == m
    ensures pool[c].count == LiveCount(m)
  {
    hide LiveCount, HashSum, Flat, MapOf, K;
    LeafIsMap(pool, dict, td, c, m);
    assert Reach(pool, c, c);
    assert NodeOk(pool, dict, c);
  }

  lemma LiveUnion(td: nat, i: nat, m: map<Key, Entry>, b: nat)
    ensures LivePart(Below(td, i, m, b)) + LivePart(Part(td, i, m, b)) == LivePart(Below(td, i, m, b + 1))
  {
    hide Nibble, LiveEntry, Fnv1a.Hash;
  }

  lemma ChildAbove(i: nat)
    ensures forall b :: 0 <= b < BUCKET_SIZE ==> Child(i, b) != i
  {
  }

  lemma SumCountsNext(pool: Pool, i: nat, b: nat)
    requires b < BUCKET_SIZE && Child(i, 15) < |pool|
    ensures SumCounts(pool, i, b + 1) == SumCounts(pool, i, b) + pool[Child(i, b)].count
  {
  }

  lemma {:induction false} SumCountsMono(pool: Pool, i: nat, a: nat, b: nat)
    requires a <= b <= BUCKET_SIZE && Child(i, 15) < |pool|
    ensures SumCounts(pool, i, a) <= SumCounts(pool, i, b)
    decreases b
  {
    if a < b { SumCountsMono(pool, i, a, b - 1); }
  }

  lemma LeafCount(pool: Pool, dict: Dict, td: nat, i: nat, m: map<Key, Entry>)
    requires i < |pool| && !pool[i].isNode && SubOk(pool, dict, i) && Holds(pool, dict, td, i, m)
    ensures pool[i].count == LiveCount(m)
  {
    hide Contents, HashSum, LiveCount;
    LeafIsMap(pool, dict, td, i, m);
    assert Reach(pool, i, i);
    assert NodeOk(pool, dict, i);
  }

  // ---- Counts -----------------------------------------------------------------------------------

  lemma UnionSize(a: map<Key, Entry>, b: map<Key, Entry>)
    requires a.Keys !! b.Keys
    ensures |a + b| == |a| + |b|
  {
    assert (a + b).Keys == a.Keys + b.Keys;
    assert |(a + b).Keys| == |a.Keys| + |b.Keys|;
  }

  lemma LiveSize(m: map<Key, Entry>)
    ensures |LivePart(m)| == LiveCount(m)
  {
    assert LivePart(m).Keys == LiveKeys(m);
  }

  lemma {:induction false} PartsCount(pool: Pool, td: nat, i: nat, m: map<Key, Entry>, n: nat)
    requires n <= BUCKET_SIZE && Child(i, 15) < |pool|
    requires forall b :: 0 <= b < n ==> pool[Child(i, b)].count == |LivePart(Part(td, i, m, b))|
    ensures SumCounts(pool, i, n) == |LivePart(Below(td, i, m, n))|
    decreases n
  {
    hide Depth, Nibble, LivePart, Below, Part, SumCounts;
    if n > 0 {
      PartsCount(pool, td, i, m, n - 1);
      SumCountsNext(pool, i, n - 1);
      PartsStep(td, i, m, n - 1);
    } else {
      NothingBelow(pool, td, i, m);
    }
  }

  lemma PartsStep(td: nat, i: nat, m: map<Key, Entry>, b: nat)
    ensures |LivePart(Below(td, i, m, b + 1))| == |LivePart(Below(td, i, m, b))| + |LivePart(Part(td, i, m, b))|
  {
    hide LivePart, Below, Part;
    LiveUnion(td, i, m, b);
    PartsApart(td, i, m, b);
    UnionSize(LivePart(Below(td, i, m, b)), LivePart(Part(td, i, m, b)));
  }

  lemma PartsApart(td: nat, i: nat, m: map<Key, Entry>, b: nat)
    ensures LivePart(Below(td, i, m, b)).Keys !! LivePart(Part(td, i, m, b)).Keys
  {
    hide Depth, Nibble, LiveEntry;
  }

  lemma NothingBelow(pool: Pool, td: nat, i: nat, m: map<Key, Entry>)
    requires Child(i, 15) < |pool|
    ensures SumCounts(pool, i, 0) == |LivePart(Below(td, i, m, 0))|
  {
    hide Depth, Nibble;
    assert LivePart(Below(td, i, m, 0)) == map[];
  }

  lemma LeafCounts(pool: Pool, dict: Dict, td: nat, i: nat, m: map<Key, Entry>)
    requires i < |pool| && !pool[i].isNode && SubOk(pool, dict, i) && Holds(pool, dict, td, i, m)
    ensures pool[i].count == |LivePart(m)| && pool[i].valid
  {
    hide LiveCount, LivePart, SubOk, Holds;
    LeafCount(pool, dict, td, i, m);
    LeafIsValid(pool, dict, i);
    LiveSize(m);
  }

  /** A valid node counts the live items below it exactly. */
  lemma {:induction false} ValidCount(pool: Pool, dict: Dict, td: nat, i: nat, m: map<Key, Entry>)
    requires i < |pool| && SubOk(pool, dict, i) && Holds(pool, dict, td, i, m) && pool[i].valid
    ensures pool[i].count == |LivePart(m)|
    ensures pool[i].isNode ==> |LivePart(m)| > SPLIT_LIMIT
    decreases |pool| - i, 1
  {
    hide SubOk, Holds, Depth, Nibble, LivePart, Part, SumCounts, FoldHashes;
    if pool[i].isNode {
      ToChildren(pool, dict, td, i, m);
      assert InnerNodeOk(pool, i);
      ValidChildren(pool, dict, td, i, m);
    } else {
      LeafCounts(pool, dict, td, i, m);
    }
  }

  lemma {:induction false} ValidChildren(pool: Pool, dict: Dict, td: nat, i: nat, m: map<Key, Entry>)
    requires i < |pool| && ChildrenHold(pool, dict, td, i, m)
    requires forall c :: 0 <= c < BUCKET_SIZE ==> pool[Child(i, c)].valid
    ensures SumCounts(pool, i, BUCKET_SIZE) == |LivePart(m)|
    decreases |pool| - i, 0
  {
    hide SubOk, Holds, Depth, Nibble, LivePart, Part, SumCounts;
    forall b | 0 <= b < BUCKET_SIZE ensures pool[Child(i, b)].count == |LivePart(Part(td, i, m, b))| {
      ValidCount(pool, dict, td, Child(i, b), Part(td, i, m, b));
    }
    PartsCount(pool, td, i, m, BUCKET_SIZE);
    BelowAll(td, i, m);
  }

  lemma BelowAll(td: nat, i: nat, m: map<Key, Entry>)
    ensures Below(td, i, m, BUCKET_SIZE) == m
  {
    hide Nibble, Depth;
  }

  lemma MergeStep(dict: Dict, td: nat, i: nat, b: nat, m: map<Key, Entry>, items: seq<Item>, j: nat)
    requires b < BUCKET_SIZE && ItemsOk(dict, items) && j < |items|
    requires MapOf(dict, items) == Part(td, i, m, b)
    requires forall k :: k in m ==> Own(td, i, Fnv1a.Hash(k))
    ensures ItemOk(dict, items[j]) && Own(td, i, KeyHash(dict, items[j]))
    ensures var done, done' := MapOf(dict, items[..j]), MapOf(dict, items[..j + 1]);
            var k, e := K(dict, items[j]), items[j].e;
            var base := LivePart(Below(td, i, m, b));
            && LiveCount(done') == LiveCount(done) + LiveBit(e)
            && LiveCount(done') <= LiveCount(MapOf(dict, items))
            && base + LivePart(done')
               == (if LiveEntry(e) then (base + LivePart(done))[k := e] else base + LivePart(done))
            && LiveCount((base + LivePart(done))[k := e]) == LiveCount(base + LivePart(done)) + LiveBit(e)
  {
    hide ItemOk, MapOf, Own, Nibble, LiveCount, Part, K, Below;
    var k, e := K(dict, items[j]), items[j].e;
    assert K(dict, items[j]) in Part(td, i, m, b) && items[j].e == e by { MapOfAt(dict, items, j); }
    PartFacts(td, i, b, m, k);
    var prefix := items[..j + 1];
    assert ItemsOk(dict, prefix);
    MapOfWithout(dict, prefix, j);
    assert Without(prefix, j) == items[..j];
    var done, done' := MapOf(dict, items[..j]), MapOf(dict, prefix);
    var base := LivePart(Below(td, i, m, b));
    LiveCountSet(done, k, e);
    LiveCountSet(base + LivePart(done), k, e);
    PrefixCount(dict, items, j + 1);
    LivePartSet(base, done, k, e);
  }

  lemma PartFacts(td: nat, i: nat, b: nat, m: map<Key, Entry>, k: Key)
    requires k in Part(td, i, m, b)
    ensures k in m && k !in LivePart(Below(td, i, m, b))
  {
  }

  lemma LivePartSet(base: map<Key, Entry>, done: map<Key, Entry>, k: Key, e: Entry)
    requires k !in done && k !in base
    ensures base + LivePart(done[k := e]) ==
              if LiveEntry(e) then (base + LivePart(done))[k := e] else base + LivePart(done)
  {
    hide LiveEntry;
    var l, l' := LivePart(done), LivePart(done[k := e]);
    assert l' == if LiveEntry(e) then l[k := e] else l;
  }

  lemma PrefixCount(dict: Dict, items: seq<Item>, j: nat)
    requires ItemsOk(dict, items) && j <= |items|
    ensures LiveCount(MapOf(dict, items[..j])) <= LiveCount(MapOf(dict, items))
  {
    hide MapOf, K, ItemOk;
    var a, c := MapOf(dict, items[..j]), MapOf(dict, items);
    assert ItemsOk(dict, items[..j]);
    forall k | k in a ensures k in c && c[k] == a[k] {
      var p := MapOfHas(dict, items[..j], k);
      MapOfAt(dict, items[..j], p);
      MapOfAt(dict, items, p);
    }
    assert LiveKeys(c) == LiveKeys(a) + (LiveKeys(c) - LiveKeys(a));
  }

  lemma BeginMerge(pool: Pool, dict: Dict, td: nat, i: nat)
    requires i < |pool| && Child(i, 15) < |pool|
    ensures var pool' := pool[i := ClearNode(pool[i])];
            && SubOk(pool', dict, i) && pool'[i].count == SumCounts(pool, i, 0)
            && SameOutside(pool, pool', i)
            && forall m: map<Key, Entry> :: Holds(pool', dict, td, i, LivePart(Below(td, i, m, 0)))
  {
    var pool' := pool[i := ClearNode(pool[i])];
    ClearedOne(pool[i], dict);
    OneLeaf(pool', dict, td, i);
    forall m: map<Key, Entry> ensures Holds(pool', dict, td, i, LivePart(Below(td, i, m, 0))) {
      assert Below(td, i, m, 0) == map[];
      assert LivePart(Below(td, i, m, 0)) == map[];
    }
  }

  /** Freeing the data of a child that is no longer part of the tree. */
  lemma FreeChild(was: Pool, pool: Pool, dict: Dict, td: nat, i: nat, b: nat, m: map<Key, Entry>)
    requires b < BUCKET_SIZE && Child(i, 15) < |pool| && SameOutside(was, pool, i)
    requires !pool[i].isNode && SubOk(pool, dict, i) && Holds(pool, dict, td, i, m)
    ensures var pool' := pool[Child(i, b) := pool[Child(i, b)].(data := [])];
            && SubOk(pool', dict, i) && Holds(pool', dict, td, i, m) && SameOutside(was, pool', i)
  {
    hide Contents, LeafNodeOk, Own;
    var pool' := pool[Child(i, b) := pool[Child(i, b)].(data := [])];
    ChildIsDesc(i, b);
    assert Reach(pool, i, i);
    assert NodeOk(pool, dict, i);
    assert LeafHolds(pool, dict, td, i, m);
    LeafIsMap(pool, dict, td, i, m);
    OneLeaf(pool', dict, td, i);
  }

  lemma ClearedChildren(was: Pool, pool: Pool, dict: Dict, td: nat, node: nat)
    requires |pool| == |was| && Child(node, 15) < |pool|
    requires forall i :: 0 <= i < |pool| && !(Child(node, 0) <= i <= Child(node, 15)) ==> pool[i] == was[i]
    requires forall i :: Child(node, 0) <= i <= Child(node, 15) ==> pool[i] == ClearNode(was[i])
    ensures ChildrenHold(pool, dict, td, node, map[]) && SameOutside(was, pool, node)
  {
    hide Contents, LeafNodeOk, ClearNode;
    forall b | 0 <= b < BUCKET_SIZE
      ensures SubOk(pool, dict, Child(node, b)) && Holds(pool, dict, td, Child(node, b), Part(td, node, map[], b))
    {
      ClearedOne(was[Child(node, b)], dict);
      OneLeaf(pool, dict, td, Child(node, b));
      assert Part(td, node, map[], b) == map[];
    }
    forall i | 0 <= i < |pool| && !Desc(node, i) ensures pool[i] == was[i] {
      if Child(node, 0) <= i <= Child(node, 15) {
        ChildIsDesc(node, i - Child(node, 0));
      }
    }
  }

  lemma ClearedOne(n: Node, dict: Dict)
    ensures !ClearNode(n).isNode && LeafNodeOk(dict, ClearNode(n)) && Contents(dict, ClearNode(n).data) == map[]
  {
    ClearedLeaf(dict, n);
  }

  lemma MapOfNone(dict: Dict, items: seq<Item>)
    ensures MapOf(dict, items[..0]) == map[]
  {
  }

  /** One more item of a leaf, in order. */
  lemma ChildHolds(pool: Pool, dict: Dict, td: nat, i: nat, m: map<Key, Entry>, b: nat)
    requires ChildrenHold(pool, dict, td, i, m) && b < BUCKET_SIZE
    ensures Child(i, b) < |pool| && SubOk(pool, dict, Child(i, b))
    ensures Holds(pool, dict, td, Child(i, b), Part(td, i, m, b))
  {
    hide SubOk, Holds, Part;
  }

  lemma SplitItem(dict: Dict, td: nat, node: nat, items: seq<Item>, j: nat)
    requires ItemsOk(dict, items) && j < |items|
    requires forall k :: k in MapOf(dict, items) ==> Own(td, node, Fnv1a.Hash(k))
    ensures ItemOk(dict, items[j]) && Own(td, node, KeyHash(dict, items[j]))
    ensures var b := Nibble(td, KeyHash(dict, items[j]), Depth(node));
            Own(td, Child(node, b), KeyHash(dict, items[j]))
    ensures MapOf(dict, items[..j + 1]) == MapOf(dict, items[..j])[K(dict, items[j]) := items[j].e]
  {
    hide ItemOk, MapOf, Own, Nibble;
    MapOfAt(dict, items, j);
    var h := KeyHash(dict, items[j]);
    OwnChild(td, node, h, Nibble(td, h, Depth(node)));
    var prefix := items[..j + 1];
    assert ItemsOk(dict, prefix);
    MapOfWithout(dict, prefix, j);
    assert Without(prefix, j) == items[..j];
  }

  /** Adding a key to one child leaves its siblings alone. */
  lemma ChildChanged(pool: Pool, pool': Pool, dict: Dict, td: nat, node: nat, m: map<Key, Entry>,
                     b: nat, k: Key, e: Entry)
    requires ChildrenHold(pool, dict, td, node, m) && b == Nibble(td, Fnv1a.Hash(k), Depth(node))
    requires SameOutside(pool, pool', Child(node, b))
    requires SubOk(pool', dict, Child(node, b))
    requires Holds(pool', dict, td, Child(node, b), Part(td, node, m, b)[k := e])
    ensures ChildrenHold(pool', dict, td, node, m[k := e])
  {
    hide SubOk, Holds, Nibble;
    forall c | 0 <= c < BUCKET_SIZE
      ensures SubOk(pool', dict, Child(node, c)) && Holds(pool', dict, td, Child(node, c), Part(td, node, m[k := e], c))
    {
      if c == b {
        assert Part(td, node, m[k := e], b) == Part(td, node, m, b)[k := e];
      } else {
        assert Part(td, node, m[k := e], c) == Part(td, node, m, c);
        forall i | 0 <= i < |pool| && Desc(Child(node, c), i) ensures pool'[i] == pool[i] {
          if Desc(Child(node, b), i) { Siblings(node, b, c, i); }
        }
        SubtreeFrame(pool, pool', dict, td, Child(node, c), Part(td, node, m, c));
      }
    }
  }

  lemma ChildOutside(was: Pool, before: Pool, pool: Pool, node: nat, b: nat)
    requires b < BUCKET_SIZE && node < |was|
    requires SameOutside(was, before, node) && SameOutside(before, pool, Child(node, b))
    ensures SameOutside(was, pool, node) && pool[node] == before[node]
  {
    ChildIsDesc(node, b);
    OutsideTrans(before, pool, node, Child(node, b));
    if Desc(Child(node, b), node) { DescLe(Child(node, b), node); assert false; }
  }

  lemma OutsideRoot(was: Pool, pool: Pool, node: nat, n: Node)
    requires SameOutside(was, pool, node) && node < |pool|
    ensures SameOutside(was, pool[node := n], node)
  {
  }

  lemma BecomeInner(pool: Pool, dict: Dict, td: nat, node: nat, m: map<Key, Entry>, n: Node)
    requires ChildrenHold(pool, dict, td, node, m) && n.isNode && !n.valid && n.data == []
    requires forall k :: k in m ==> Own(td, node, Fnv1a.Hash(k))
    ensures var pool' := pool[node := n];
            SubOk(pool', dict, node) && Holds(pool', dict, td, node, m)
  {
    hide SubOk, Holds, Own;
    var pool' := pool[node := n];
    ChildrenKeep(pool, dict, td, node, m, n);
    InvalidInner(pool', dict, node);
    FromChildren(pool', dict, td, node, m);
  }

  lemma ChildInPool(pool: Pool, dict: Dict, r: nat, n: nat)
    requires SubOk(pool, dict, r) && Reach(pool, r, n) && pool[n].isNode
    ensures Child(n, 15) < |pool| && pool[n].data == []
  {
    assert NodeOk(pool, dict, n);
  }

  lemma LeafFacts(pool: Pool, dict: Dict, td: nat, r: nat, n: nat, m: map<Key, Entry>)
    requires SubOk(pool, dict, r) && Holds(pool, dict, td, r, m) && Reach(pool, r, n) && !pool[n].isNode
    ensures LeafNodeOk(dict, pool[n]) && Contents(dict, pool[n].data) == OnPath(td, n, m)
    ensures forall k :: k in Contents(dict, pool[n].data) ==> Own(td, n, Fnv1a.Hash(k))
  {
    assert NodeOk(pool, dict, n);
    LeafOnPath(pool, dict, td, r, n, m);
  }

  lemma CountAfterPut(m: map<Key, Entry>, k: Key, e: Entry)
    ensures var was := if k in m then m[k] else Entry(0, 0, 0);
            0 <= LiveCount(m) + LiveBit(e) - LiveBit(was) <= LiveCount(m) + 1
  {
    LiveCountSet(m, k, e);
  }

  lemma OutsideTrans(pool: Pool, pool': Pool, r: nat, c: nat)
    requires SameOutside(pool, pool', c) && Desc(r, c)
    ensures SameOutside(pool, pool', r)
  {
    forall i | 0 <= i < |pool| && !Desc(r, i) ensures pool'[i] == pool[i] {
      if Desc(c, i) { DescTrans(r, c, i); }
    }
  }
}
