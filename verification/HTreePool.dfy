/** The node pool: a 16-way radix tree laid out in an array, with the invariants that hold
    one node at a time and the lemma that lets one subtree be replaced by another. */
module HTreePool {
  import opened Bytes
  import opened KeyCodec
  import opened HTreeLeaf
  import opened HTreeBlocks
  import Fnv1a

  const BUCKET_SIZE := 16
  const SPLIT_LIMIT := 64
  const MAX_DEPTH := 8

  datatype Node = Node(isNode: bool, valid: bool, depth: nat, hash: int, count: nat, data: Chain)

  type Pool = seq<Node>

  // ---- Geometry -----------------------------------------------------------------------------

  function Parent(i: nat): (p: nat)
    requires 0 < i
    ensures p < i
  {
    (i - 1) / BUCKET_SIZE
  }

  function Child(i: nat, b: nat): (c: nat)
    ensures i < c
  {
    BUCKET_SIZE * i + 1 + b
  }

  function Depth(i: nat): nat {
    if i == 0 then 0 else 1 + Depth(Parent(i))
  }

  /** g_index: where the nodes of a depth start, which is also the size of a pool of that
      height. */
  function GIndex(d: nat): nat {
    if d == 0 then 0 else BUCKET_SIZE * GIndex(d - 1) + 1
  }

  /** get_child as the source computes it, from the position among nodes of equal depth. */
  function GetChild(i: nat, depth: nat, b: nat): (c: nat)
    requires GIndex(depth) <= i
    ensures c == Child(i, b)
  {
    GIndex(depth + 1) + BUCKET_SIZE * (i - GIndex(depth)) + b
  }

  lemma ParentOfChild(i: nat, b: nat)
    requires b < BUCKET_SIZE
    ensures Parent(Child(i, b)) == i && Depth(Child(i, b)) == Depth(i) + 1
  {
    DivMod(BUCKET_SIZE * i + b, BUCKET_SIZE, i, b);
  }

  lemma ChildOfParent(i: nat) returns (b: nat)
    requires 0 < i
    ensures b < BUCKET_SIZE && Child(Parent(i), b) == i
  {
    b := (i - 1) % BUCKET_SIZE;
  }

  lemma {:induction false} DepthInPool(i: nat, h: nat)
    ensures i < GIndex(h) <==> Depth(i) < h
    decreases i
  {
    if i > 0 && h > 0 {
      DepthInPool(Parent(i), h - 1);
      var b := ChildOfParent(i);
    } else if h > 0 {
      assert GIndex(h) >= 1;
    }
  }

  lemma {:induction false} DepthIndex(i: nat)
    ensures GIndex(Depth(i)) <= i
  {
    if i > 0 {
      DepthIndex(Parent(i));
      var b := ChildOfParent(i);
    }
  }

  function Pow16(n: nat): (p: nat)
    ensures 0 < p
  {
    if n == 0 then 1 else 16 * Pow16(n - 1)
  }

  /** INDEX: the hex digit of the key hash that a node of depth `d` branches on, in a tree
      that itself sits `td` digits down. */
  function Nibble(td: nat, h: int, d: nat): (b: nat)
    requires 0 <= h
    ensures b < BUCKET_SIZE
  {
    if td + d <= 7 then h / Pow16(7 - td - d) % 16 else 0
  }

  /** Node `i` lies on the path of hash `h`. */
  ghost predicate Own(td: nat, i: nat, h: int)
    requires 0 <= h
  {
    i == 0 || (Own(td, Parent(i), h) && i == Child(Parent(i), Nibble(td, h, Depth(Parent(i)))))
  }

  predicate Desc(r: nat, i: nat)
    decreases i
  {
    i == r || (i > r && Desc(r, Parent(i)))
  }

  /** `i` is a node of the tree rooted at `r`: every node above it is an inner node. */
  predicate Reach(pool: Pool, r: nat, i: nat)
    decreases i
  {
    i < |pool| && (i == r || (i > r && Reach(pool, r, Parent(i)) && pool[Parent(i)].isNode))
  }

  /** The leaf that hash `h` leads to. */
  function Walk(pool: Pool, td: nat, r: nat, h: int): (w: nat)
    requires 0 <= h
    decreases |pool| - r
  {
    if r < |pool| && pool[r].isNode then Walk(pool, td, Child(r, Nibble(td, h, Depth(r))), h) else r
  }

  lemma {:induction false} ReachIsDesc(pool: Pool, r: nat, i: nat)
    requires Reach(pool, r, i)
    ensures Desc(r, i)
    decreases i
  {
    if i != r { ReachIsDesc(pool, r, Parent(i)); }
  }

  lemma {:induction false} OwnDesc(td: nat, r: nat, i: nat, h: int)
    requires 0 <= h && Desc(r, i) && Own(td, i, h)
    ensures Own(td, r, h)
    decreases i
  {
    if i != r { OwnDesc(td, r, Parent(i), h); }
  }

  lemma {:induction false} DescTrans(a: nat, b: nat, c: nat)
    requires Desc(a, b) && Desc(b, c)
    ensures Desc(a, c) && a <= b <= c
    decreases c
  {
    if c != b {
      DescTrans(a, b, Parent(c));
    } else if b != a {
      DescTrans(a, a, Parent(b));
      DescLe(a, b);
    }
  }

  lemma {:induction false} DescLe(a: nat, b: nat)
    requires Desc(a, b)
    ensures a <= b
  {
  }

  lemma OwnChild(td: nat, i: nat, h: int, b: nat)
    requires 0 <= h && b < BUCKET_SIZE && Own(td, i, h)
    ensures Own(td, Child(i, b), h) <==> Nibble(td, h, Depth(i)) == b
  {
    ParentOfChild(i, b);
  }

  /** A walk passes through every tree node that owns the hash. */
  lemma {:induction false} WalkVia(pool: Pool, td: nat, r: nat, c: nat, h: int)
    requires 0 <= h && Reach(pool, r, c) && Own(td, c, h)
    ensures Walk(pool, td, r, h) == Walk(pool, td, c, h)
    decreases c
  {
    if c != r { WalkVia(pool, td, r, Parent(c), h); }
  }

  // ---- One node at a time -----------------------------------------------------------------------

  function SumCounts(pool: Pool, i: nat, n: nat): (c: nat)
    requires n <= BUCKET_SIZE && Child(i, 15) < |pool|
  {
    if n == 0 then 0 else SumCounts(pool, i, n - 1) + pool[Child(i, n - 1)].count
  }

  /** The hash of an inner node over its first `n` children: a plain sum for small nodes,
      a base-97 fold for large ones. */
  function FoldHashes(pool: Pool, i: nat, count: nat, n: nat): (h: int)
    requires n <= BUCKET_SIZE && Child(i, 15) < |pool|
  {
    if n == 0 then 0
    else
      var before := FoldHashes(pool, i, count, n - 1);
      U16((if count > SPLIT_LIMIT * 4 then before * 97 else before) + pool[Child(i, n - 1)].hash)
  }

  ghost predicate LeafNodeOk(dict: Dict, node: Node) {
    && node.valid && LeafOk(dict, node.data)
    && node.count == LiveCount(Contents(dict, node.data))
    && node.hash == U16(HashSum(Contents(dict, node.data)))
  }

  /** Inner nodes have their children in the pool; a valid one is exact, has only valid
      children and more than SPLIT_LIMIT live items. */
  ghost predicate InnerNodeOk(pool: Pool, i: nat) {
    && i < |pool| && Child(i, 15) < |pool| && pool[i].data == []
    && (pool[i].valid ==>
          && (forall b :: 0 <= b < BUCKET_SIZE ==> pool[Child(i, b)].valid)
          && pool[i].count == SumCounts(pool, i, BUCKET_SIZE) > SPLIT_LIMIT
          && pool[i].hash == FoldHashes(pool, i, pool[i].count, BUCKET_SIZE))
  }

  ghost predicate NodeOk(pool: Pool, dict: Dict, i: nat) {
    i < |pool| && if pool[i].isNode then InnerNodeOk(pool, i) else LeafNodeOk(dict, pool[i])
  }

  ghost predicate SubOk(pool: Pool, dict: Dict, r: nat) {
    forall i: nat :: Reach(pool, r, i) ==> NodeOk(pool, dict, i)
  }

  ghost predicate LeafHolds(pool: Pool, dict: Dict, td: nat, i: nat, m: map<Key, Entry>)
    requires i < |pool|
  {
    forall k :: k in Contents(dict, pool[i].data) ==>
      k in m && m[k] == Contents(dict, pool[i].data)[k] && Own(td, i, Fnv1a.Hash(k))
  }

  ghost predicate Placed(pool: Pool, dict: Dict, td: nat, r: nat, k: Key) {
    var w := Walk(pool, td, r, Fnv1a.Hash(k));
    Own(td, r, Fnv1a.Hash(k)) && w < |pool| && k in Contents(dict, pool[w].data)
  }

  /** The leaves of the tree at `r` hold exactly the map `m`, each key where its hash leads. */
  ghost predicate Holds(pool: Pool, dict: Dict, td: nat, r: nat, m: map<Key, Entry>) {
    && (forall i: nat :: Reach(pool, r, i) && !pool[i].isNode ==> LeafHolds(pool, dict, td, i, m))
    && (forall k :: k in m ==> Placed(pool, dict, td, r, k))
  }

  lemma {:induction false} WalkReach(pool: Pool, dict: Dict, td: nat, r: nat, c: nat, h: int)
    requires 0 <= h && SubOk(pool, dict, r) && Reach(pool, r, c) && Own(td, c, h)
    ensures var w := Walk(pool, td, c, h);
            Reach(pool, r, w) && Desc(c, w) && !pool[w].isNode && Own(td, w, h)
    decreases |pool| - c
  {
    hide Nibble, NodeOk, LeafNodeOk;
    if pool[c].isNode {
      assert NodeOk(pool, dict, c);
      InnerBounds(pool, dict, c);
      var b := Nibble(td, h, Depth(c));
      ParentOfChild(c, b);
      assert Reach(pool, r, Child(c, b)) by { ReachIsDesc(pool, r, c); DescLe(r, c); }
      WalkReach(pool, dict, td, r, Child(c, b), h);
      DescTrans(c, Child(c, b), Walk(pool, td, c, h));
    }
  }

  lemma InnerBounds(pool: Pool, dict: Dict, i: nat)
    requires NodeOk(pool, dict, i) && pool[i].isNode
    ensures Child(i, 15) < |pool| && InnerNodeOk(pool, i)
  {
  }

  lemma WalkUnique(pool: Pool, td: nat, r: nat, i: nat, h: int)
    requires 0 <= h && Reach(pool, r, i) && !pool[i].isNode && Own(td, i, h)
    ensures Walk(pool, td, r, h) == i
  {
    WalkVia(pool, td, r, i, h);
  }

  // ---- Replacing a subtree ----------------------------------------------------------------------

  /** The pools differ at most below `c`. */
  ghost predicate SameOutside(pool: Pool, pool': Pool, c: nat) {
    |pool'| == |pool| && forall i :: 0 <= i < |pool| && !Desc(c, i) ==> pool'[i] == pool[i]
  }

  lemma {:induction false} ReachOutside(pool: Pool, pool': Pool, c: nat, r: nat, i: nat)
    requires SameOutside(pool, pool', c) && !Desc(c, i)
    ensures Reach(pool', r, i) <==> Reach(pool, r, i)
    decreases i
  {
    if i != r && i > r {
      if Desc(c, Parent(i)) { DescLe(c, Parent(i)); }
      ReachOutside(pool, pool', c, r, Parent(i));
    }
  }

  lemma {:induction false} ReachInside(pool: Pool, r: nat, c: nat, i: nat)
    requires Reach(pool, r, i) && Desc(c, i) && Desc(r, c)
    ensures Reach(pool, c, i)
    decreases i
  {
    if i != c {
      DescLe(r, c);
      ReachInside(pool, r, c, Parent(i));
    }
  }

  lemma {:induction false} ReachTrans(pool: Pool, r: nat, c: nat, i: nat)
    requires Reach(pool, r, c) && Reach(pool, c, i)
    ensures Reach(pool, r, i)
    decreases i
  {
    if i != c {
      ReachIsDesc(pool, r, c);
      DescLe(r, c);
      ReachTrans(pool, r, c, Parent(i));
    }
  }

  /** A node stays reachable when only what lies below it changes. */
  lemma ReachRoot(pool: Pool, pool': Pool, r: nat, c: nat)
    requires SameOutside(pool, pool', c) && Reach(pool, r, c)
    ensures Reach(pool', r, c)
  {
    if c != r {
      if Desc(c, Parent(c)) { DescLe(c, Parent(c)); assert false; }
      ReachOutside(pool, pool', c, r, Parent(c));
    }
  }

  lemma {:induction false} SumCountsSame(pool: Pool, pool': Pool, i: nat, count: nat, n: nat)
    requires n <= BUCKET_SIZE && Child(i, 15) < |pool| <= |pool'|
    requires forall b :: 0 <= b < n ==> pool'[Child(i, b)] == pool[Child(i, b)]
    ensures SumCounts(pool', i, n) == SumCounts(pool, i, n)
    ensures FoldHashes(pool', i, count, n) == FoldHashes(pool, i, count, n)
  {
    if n > 0 { SumCountsSame(pool, pool', i, count, n - 1); }
  }

  /** A node keeps its invariant when it and its children stay as they are. */
  lemma NodeSame(pool: Pool, pool': Pool, dict: Dict, i: nat)
    requires NodeOk(pool, dict, i) && |pool| <= |pool'| && pool'[i] == pool[i]
    requires pool[i].isNode && pool[i].valid ==>
      forall b :: 0 <= b < BUCKET_SIZE && Child(i, b) < |pool| ==> pool'[Child(i, b)] == pool[Child(i, b)]
    ensures NodeOk(pool', dict, i)
  {
    hide LeafNodeOk, SumCounts, FoldHashes;
    if pool[i].isNode && pool[i].valid {
      SumCountsSame(pool, pool', i, pool[i].count, BUCKET_SIZE);
    }
  }

  lemma GraftOk(pool: Pool, pool': Pool, dict: Dict, r: nat, c: nat)
    requires SameOutside(pool, pool', c) && Reach(pool, r, c)
    requires c == r || !pool[Parent(c)].valid
    requires SubOk(pool, dict, r) && SubOk(pool', dict, c)
    ensures SubOk(pool', dict, r)
  {
    hide NodeOk;
    forall i: nat | Reach(pool', r, i) ensures NodeOk(pool', dict, i) {
      ReachIsDesc(pool, r, c);
      if Desc(c, i) {
        ReachInside(pool', r, c, i);
      } else {
        ReachOutside(pool, pool', c, r, i);
        forall b | pool[i].valid && 0 <= b < BUCKET_SIZE && Child(i, b) < |pool|
          ensures pool'[Child(i, b)] == pool[Child(i, b)]
        {
          ParentOfChild(i, b);
          ReachIsDesc(pool, r, i);
          DescLe(r, i);
        }
        NodeSame(pool, pool', dict, i);
      }
    }
  }

  ghost function OffPath(td: nat, c: nat, m: map<Key, Entry>): map<Key, Entry> {
    map k | k in m && !Own(td, c, Fnv1a.Hash(k)) :: m[k]
  }

  ghost function OnPath(td: nat, c: nat, m: map<Key, Entry>): map<Key, Entry> {
    map k | k in m && Own(td, c, Fnv1a.Hash(k)) :: m[k]
  }

  /** Replacing the subtree at `c` replaces the keys that `c` owns, and no others. */
  lemma GraftHolds(pool: Pool, pool': Pool, dict: Dict, td: nat, r: nat, c: nat,
                   m: map<Key, Entry>, mc: map<Key, Entry>)
    requires SameOutside(pool, pool', c) && Reach(pool, r, c)
    requires SubOk(pool, dict, r) && SubOk(pool', dict, r)
    requires Holds(pool, dict, td, r, m) && Holds(pool', dict, td, c, mc)
    ensures Holds(pool', dict, td, r, OffPath(td, c, m) + mc)
  {
    hide NodeOk, SubOk, Contents, Own, Walk;
    var m' := OffPath(td, c, m) + mc;
    ReachIsDesc(pool, r, c);
    forall i: nat | Reach(pool', r, i) && !pool'[i].isNode ensures LeafHolds(pool', dict, td, i, m') {
      if Desc(c, i) {
        ReachInside(pool', r, c, i);
        assert LeafHolds(pool', dict, td, i, mc);
      } else {
        GraftLeaf(pool, pool', dict, td, r, c, i, m, mc);
      }
    }
    forall k | k in m' ensures Placed(pool', dict, td, r, k) {
      GraftPlaced(pool, pool', dict, td, r, c, k, m, mc);
    }
  }

  lemma GraftLeaf(pool: Pool, pool': Pool, dict: Dict, td: nat, r: nat, c: nat, i: nat,
                  m: map<Key, Entry>, mc: map<Key, Entry>)
    requires SameOutside(pool, pool', c) && Reach(pool, r, c) && SubOk(pool, dict, r)
    requires Holds(pool, dict, td, r, m)
    requires forall k :: k in mc ==> Own(td, c, Fnv1a.Hash(k))
    requires Reach(pool', r, i) && !pool'[i].isNode && !Desc(c, i)
    ensures LeafHolds(pool', dict, td, i, OffPath(td, c, m) + mc)
  {
    hide SubOk, Contents, Own, Walk, Placed;
    ReachOutside(pool, pool', c, r, i);
    assert LeafHolds(pool, dict, td, i, m);
    forall k | k in Contents(dict, pool[i].data) ensures !Own(td, c, Fnv1a.Hash(k)) {
      if Own(td, c, Fnv1a.Hash(k)) {
        WalkUnique(pool, td, r, i, Fnv1a.Hash(k));
        WalkVia(pool, td, r, c, Fnv1a.Hash(k));
        WalkReach(pool, dict, td, r, c, Fnv1a.Hash(k));
      }
    }
  }

  lemma GraftPlaced(pool: Pool, pool': Pool, dict: Dict, td: nat, r: nat, c: nat, k: Key,
                    m: map<Key, Entry>, mc: map<Key, Entry>)
    requires SameOutside(pool, pool', c) && Reach(pool, r, c)
    requires SubOk(pool, dict, r)
    requires Holds(pool, dict, td, r, m) && Holds(pool', dict, td, c, mc)
    requires k in OffPath(td, c, m) + mc
    ensures Placed(pool', dict, td, r, k)
  {
    hide SubOk, Contents, Own, Walk, LeafHolds;
    var h := Fnv1a.Hash(k);
    ReachRoot(pool, pool', r, c);
    ReachIsDesc(pool, r, c);
    if k in mc {
      assert Placed(pool', dict, td, c, k);
      WalkVia(pool', td, r, c, h);
      OwnDesc(td, r, c, h);
    } else {
      assert Placed(pool, dict, td, r, k);
      ReachSelf(pool, r, c);
      WalkReach(pool, dict, td, r, r, h);
      var w := Walk(pool, td, r, h);
      if Desc(c, w) { OwnDesc(td, c, w, h); }
      ReachOutside(pool, pool', c, r, w);
      WalkUnique(pool', td, r, w, h);
    }
  }

  lemma {:induction false} ReachSelf(pool: Pool, r: nat, c: nat)
    requires Reach(pool, r, c)
    ensures Reach(pool, r, r)
    decreases c
  {
    if c != r { ReachSelf(pool, r, Parent(c)); }
  }

  // ---- Leaves, siblings, growth -----------------------------------------------------------------

  /** A leaf holds a map exactly when that map is its contents. */
  lemma LeafIsMap(pool: Pool, dict: Dict, td: nat, i: nat, m: map<Key, Entry>)
    requires i < |pool| && !pool[i].isNode
    requires Holds(pool, dict, td, i, m)
    ensures m == Contents(dict, pool[i].data)
  {
    hide Contents, Own;
    assert Reach(pool, i, i);
    assert LeafHolds(pool, dict, td, i, m);
    forall k | k in m ensures k in Contents(dict, pool[i].data) {
      assert Placed(pool, dict, td, i, k);
    }
  }

  lemma OneLeaf(pool: Pool, dict: Dict, td: nat, i: nat)
    requires i < |pool| && !pool[i].isNode && LeafNodeOk(dict, pool[i])
    requires forall k :: k in Contents(dict, pool[i].data) ==> Own(td, i, Fnv1a.Hash(k))
    ensures SubOk(pool, dict, i) && Holds(pool, dict, td, i, Contents(dict, pool[i].data))
  {
    hide Contents, Own, LeafNodeOk;
    forall j: nat | Reach(pool, i, j) ensures j == i {
      OnlyRoot(pool, i, j);
    }
  }

  lemma {:induction false} OnlyRoot(pool: Pool, i: nat, j: nat)
    requires Reach(pool, i, j) && !pool[i].isNode
    ensures j == i
    decreases j
  {
    if j != i { OnlyRoot(pool, i, Parent(j)); }
  }

  /** In a tree, the keys a leaf owns are its contents. */
  lemma LeafOnPath(pool: Pool, dict: Dict, td: nat, r: nat, i: nat, m: map<Key, Entry>)
    requires Reach(pool, r, i) && !pool[i].isNode && Holds(pool, dict, td, r, m)
    ensures Contents(dict, pool[i].data) == OnPath(td, i, m)
  {
    hide Contents, Own, Walk, Fnv1a.Hash;
    assert LeafHolds(pool, dict, td, i, m);
    var c := Contents(dict, pool[i].data);
    forall k | k in m && Own(td, i, Fnv1a.Hash(k)) ensures k in Contents(dict, pool[i].data) {
      assert Placed(pool, dict, td, r, k);
      WalkUnique(pool, td, r, i, Fnv1a.Hash(k));
    }
    assert c.Keys == OnPath(td, i, m).Keys;
  }

  lemma PathParts(td: nat, c: nat, m: map<Key, Entry>)
    ensures OffPath(td, c, m) + OnPath(td, c, m) == m
  {
  }

  lemma PathSet(td: nat, c: nat, m: map<Key, Entry>, k: Key, e: Entry)
    requires Own(td, c, Fnv1a.Hash(k))
    ensures OffPath(td, c, m) + OnPath(td, c, m)[k := e] == m[k := e]
    ensures OffPath(td, c, m) + (OnPath(td, c, m) - {k}) == m - {k}
  {
    hide Own, Fnv1a.Hash;
  }

  lemma {:induction false} SameDepthAncestor(a: nat, b: nat, i: nat)
    requires Desc(a, i) && Desc(b, i) && Depth(a) == Depth(b)
    ensures a == b
    decreases i
  {
    if i == a && i != b {
      DescDepth(b, i);
    } else if i == b && i != a {
      DescDepth(a, i);
    } else if i != a && i != b {
      SameDepthAncestor(a, b, Parent(i));
    }
  }

  lemma {:induction false} DescDepth(a: nat, i: nat)
    requires Desc(a, i)
    ensures Depth(a) <= Depth(i) && (a != i ==> Depth(a) < Depth(i))
    decreases i
  {
    if a != i { DescDepth(a, Parent(i)); }
  }

  lemma Siblings(n: nat, b: nat, c: nat, i: nat)
    requires b < BUCKET_SIZE && c < BUCKET_SIZE && Desc(Child(n, b), i) && Desc(Child(n, c), i)
    ensures b == c
  {
    ParentOfChild(n, b);
    ParentOfChild(n, c);
    SameDepthAncestor(Child(n, b), Child(n, c), i);
  }

  lemma ChildIsDesc(n: nat, b: nat)
    requires b < BUCKET_SIZE
    ensures Desc(n, Child(n, b))
  {
    ParentOfChild(n, b);
  }

  /** The pools agree below `r`. */
  ghost predicate SameInside(pool: Pool, pool': Pool, r: nat) {
    |pool'| == |pool| && forall i :: 0 <= i < |pool| && Desc(r, i) ==> pool'[i] == pool[i]
  }

  lemma {:induction false} ReachSame(pool: Pool, pool': Pool, r: nat, i: nat)
    requires SameInside(pool, pool', r)
    ensures Reach(pool', r, i) <==> Reach(pool, r, i)
    decreases i
  {
    if i != r && i > r {
      ReachSame(pool, pool', r, Parent(i));
      if Reach(pool, r, Parent(i)) { ReachIsDesc(pool, r, Parent(i)); }
    }
  }

  lemma {:induction false} WalkSame(pool: Pool, pool': Pool, td: nat, r: nat, c: nat, h: int)
    requires 0 <= h && SameInside(pool, pool', r) && Desc(r, c)
    ensures Walk(pool', td, c, h) == Walk(pool, td, c, h)
    ensures Desc(r, Walk(pool, td, c, h))
    decreases |pool| - c
  {
    if c < |pool| && pool[c].isNode {
      var b := Nibble(td, h, Depth(c));
      ChildIsDesc(c, b);
      DescTrans(r, c, Child(c, b));
      WalkSame(pool, pool', td, r, Child(c, b), h);
    }
  }

  lemma SubtreeFrame(pool: Pool, pool': Pool, dict: Dict, td: nat, r: nat, m: map<Key, Entry>)
    requires SameInside(pool, pool', r) && SubOk(pool, dict, r) && Holds(pool, dict, td, r, m)
    ensures SubOk(pool', dict, r) && Holds(pool', dict, td, r, m)
  {
    hide NodeOk, Contents, Own, Walk;
    forall i: nat | Reach(pool', r, i) ensures NodeOk(pool', dict, i) {
      ReachSame(pool, pool', r, i);
      ReachIsDesc(pool, r, i);
      forall b | 0 <= b < BUCKET_SIZE && Child(i, b) < |pool| ensures pool'[Child(i, b)] == pool[Child(i, b)] {
        ChildIsDesc(i, b);
        DescTrans(r, i, Child(i, b));
      }
      NodeSame(pool, pool', dict, i);
    }
    forall i: nat | Reach(pool', r, i) && !pool'[i].isNode ensures LeafHolds(pool', dict, td, i, m) {
      ReachSame(pool, pool', r, i);
      ReachIsDesc(pool, r, i);
      assert LeafHolds(pool, dict, td, i, m);
    }
    forall k | k in m ensures Placed(pool', dict, td, r, k) {
      assert Placed(pool, dict, td, r, k);
      WalkSame(pool, pool', td, r, r, Fnv1a.Hash(k));
    }
  }

  // ---- Enlarging the pool -----------------------------------------------------------------------

  lemma {:induction false} ReachGrown(pool: Pool, dict: Dict, extra: Pool, r: nat, i: nat)
    requires SubOk(pool, dict, r) && r < |pool|
    ensures Reach(pool + extra, r, i) <==> Reach(pool, r, i)
    decreases i
  {
    hide NodeOk;
    if i != r && i > r {
      ReachGrown(pool, dict, extra, r, Parent(i));
      if Reach(pool, r, Parent(i)) && pool[Parent(i)].isNode {
        InnerBounds(pool, dict, Parent(i));
        var b := ChildOfParent(i);
      }
    }
  }

  lemma GrownOk(pool: Pool, dict: Dict, td: nat, extra: Pool, r: nat, m: map<Key, Entry>)
    requires SubOk(pool, dict, r) && Holds(pool, dict, td, r, m) && r < |pool|
    ensures SubOk(pool + extra, dict, r) && Holds(pool + extra, dict, td, r, m)
  {
    hide NodeOk, Contents, Own, Walk;
    var pool' := pool + extra;
    forall i: nat | Reach(pool', r, i) ensures NodeOk(pool', dict, i) {
      ReachGrown(pool, dict, extra, r, i);
      NodeSame(pool, pool', dict, i);
    }
    forall i: nat | Reach(pool', r, i) && !pool'[i].isNode ensures LeafHolds(pool', dict, td, i, m) {
      ReachGrown(pool, dict, extra, r, i);
      assert LeafHolds(pool, dict, td, i, m);
    }
    forall k | k in m ensures Placed(pool', dict, td, r, k) {
      assert Placed(pool, dict, td, r, k);
      WalkReach(pool, dict, td, r, r, Fnv1a.Hash(k));
      var w := Walk(pool, td, r, Fnv1a.Hash(k));
      ReachGrown(pool, dict, extra, r, w);
      WalkUnique(pool', td, r, w, Fnv1a.Hash(k));
    }
  }

  // ---- A node from its children -----------------------------------------------------------------

  /** The keys of `m` that go to child `b` of node `n`. */
  ghost function Part(td: nat, n: nat, m: map<Key, Entry>, b: nat): map<Key, Entry> {
    map k | k in m && Nibble(td, Fnv1a.Hash(k), Depth(n)) == b :: m[k]
  }

  lemma {:induction false} ReachFromParent(pool: Pool, n: nat, i: nat) returns (b: nat)
    requires Reach(pool, n, i) && i != n
    ensures b < BUCKET_SIZE && Reach(pool, Child(n, b), i)
    decreases i
  {
    if Parent(i) == n {
      b := ChildOfParent(i);
    } else {
      b := ReachFromParent(pool, n, Parent(i));
      ReachIsDesc(pool, Child(n, b), Parent(i));
      DescLe(Child(n, b), Parent(i));
    }
  }

  ghost predicate ChildrenHold(pool: Pool, dict: Dict, td: nat, n: nat, m: map<Key, Entry>) {
    && Child(n, 15) < |pool|
    && forall b :: 0 <= b < BUCKET_SIZE ==>
         SubOk(pool, dict, Child(n, b)) && Holds(pool, dict, td, Child(n, b), Part(td, n, m, b))
  }

  lemma FromChildren(pool: Pool, dict: Dict, td: nat, n: nat, m: map<Key, Entry>)
    requires n < |pool| && pool[n].isNode && InnerNodeOk(pool, n) && ChildrenHold(pool, dict, td, n, m)
    requires forall k :: k in m ==> Own(td, n, Fnv1a.Hash(k))
    ensures SubOk(pool, dict, n) && Holds(pool, dict, td, n, m)
  {
    hide Contents, InnerNodeOk, LeafNodeOk;
    forall i: nat | Reach(pool, n, i) ensures NodeOk(pool, dict, i) {
      if i != n { var b := ReachFromParent(pool, n, i); }
    }
    forall i: nat | Reach(pool, n, i) && !pool[i].isNode ensures LeafHolds(pool, dict, td, i, m) {
      var b := ReachFromParent(pool, n, i);
      assert LeafHolds(pool, dict, td, i, Part(td, n, m, b));
    }
    forall k | k in m ensures Placed(pool, dict, td, n, k) {
      var b := Nibble(td, Fnv1a.Hash(k), Depth(n));
      assert Placed(pool, dict, td, Child(n, b), k);
    }
  }

  /** Conversely, the children of an inner node hold its parts. */
  lemma ToChildren(pool: Pool, dict: Dict, td: nat, n: nat, m: map<Key, Entry>)
    requires n < |pool| && pool[n].isNode && SubOk(pool, dict, n) && Holds(pool, dict, td, n, m)
    ensures InnerNodeOk(pool, n) && ChildrenHold(pool, dict, td, n, m)
    ensures forall k :: k in m ==> Own(td, n, Fnv1a.Hash(k))
  {
    hide Contents, InnerNodeOk, LeafNodeOk, Nibble;
    assert Reach(pool, n, n);
    assert NodeOk(pool, dict, n);
    InnerBounds(pool, dict, n);
    forall b | 0 <= b < BUCKET_SIZE
      ensures SubOk(pool, dict, Child(n, b)) && Holds(pool, dict, td, Child(n, b), Part(td, n, m, b))
    {
      ToChild(pool, dict, td, n, m, b);
    }
    forall k | k in m ensures Own(td, n, Fnv1a.Hash(k)) {
      assert Placed(pool, dict, td, n, k);
    }
  }

  lemma ToChild(pool: Pool, dict: Dict, td: nat, n: nat, m: map<Key, Entry>, b: nat)
    requires n < |pool| && pool[n].isNode && SubOk(pool, dict, n) && Holds(pool, dict, td, n, m)
    requires b < BUCKET_SIZE && Child(n, 15) < |pool|
    ensures SubOk(pool, dict, Child(n, b)) && Holds(pool, dict, td, Child(n, b), Part(td, n, m, b))
  {
    hide Contents, NodeOk, Nibble;
    var c := Child(n, b);
    ParentOfChild(n, b);
    assert Reach(pool, n, c);
    forall i: nat | Reach(pool, c, i) ensures NodeOk(pool, dict, i) {
      ReachTrans(pool, n, c, i);
    }
    forall i: nat | Reach(pool, c, i) && !pool[i].isNode
      ensures LeafHolds(pool, dict, td, i, Part(td, n, m, b))
    {
      ReachTrans(pool, n, c, i);
      ReachIsDesc(pool, c, i);
      assert LeafHolds(pool, dict, td, i, m);
      forall k | k in Contents(dict, pool[i].data) ensures Nibble(td, Fnv1a.Hash(k), Depth(n)) == b {
        OwnDesc(td, c, i, Fnv1a.Hash(k));
        OwnDesc(td, n, c, Fnv1a.Hash(k));
        OwnChild(td, n, Fnv1a.Hash(k), b);
      }
    }
    forall k | k in Part(td, n, m, b) ensures Placed(pool, dict, td, c, k) {
      assert Placed(pool, dict, td, n, k);
      OwnChild(td, n, Fnv1a.Hash(k), b);
      WalkVia(pool, td, n, c, Fnv1a.Hash(k));
    }
  }
}
