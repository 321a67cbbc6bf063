/** What lazy updating keeps true of every tree that `TreeIs` admits, and so of every tree that a run
    of calls can reach: invalid marks are closed upwards, and a valid node is exact. */
module LazyUpdate {
  import opened KeyCodec
  import Fnv1a
  import opened HTreeLeaf
  import opened HTreeBlocks
  import opened HTreePool
  import opened HashTree
  import opened HTreeApi
  import opened SyncHash

  lemma {:induction false} InvalidAbove(pool: Pool, dict: Dict, r: nat, a: nat, i: nat)
    requires SubOk(pool, dict, r) && Reach(pool, r, i) && Reach(pool, r, a) && Desc(a, i) && !pool[i].valid
    ensures !pool[a].valid
    decreases i
  {
    hide LeafNodeOk, SumCounts, FoldHashes;
    if i != a {
      ReachIsDesc(pool, r, a);
      DescLe(r, a);
      DescLe(a, Parent(i));
      var p := Parent(i);
      var b := ChildOfParent(i);
      assert NodeOk(pool, dict, p);
      InvalidAbove(pool, dict, r, a, p);
    }
  }

  /** All of it, for every node of a tree: leaves are valid, an invalid node has only invalid nodes
      above it, a valid node counts exactly the live entries whose hashes lead to it, and a valid inner
      node has valid children and more than 64 live items. */
  lemma LazyInvariant(tree: HTree, m: map<Key, Entry>, i: nat)
    requires TreeIs(tree, m) && Reach(tree.pool, 0, i)
    ensures !tree.pool[i].isNode ==> tree.pool[i].valid
    ensures !tree.pool[i].valid ==> forall a: nat :: Reach(tree.pool, 0, a) && Desc(a, i) ==> !tree.pool[a].valid
    ensures tree.pool[i].valid ==> tree.pool[i].count == |LivePart(OnPath(tree.depth, i, m))|
    ensures tree.pool[i].isNode && tree.pool[i].valid ==>
      |LivePart(OnPath(tree.depth, i, m))| > SPLIT_LIMIT && Child(i, 15) < |tree.pool|
    ensures tree.pool[i].isNode && tree.pool[i].valid ==>
      forall b :: 0 <= b < BUCKET_SIZE ==> tree.pool[Child(i, b)].valid
  {
    hide SumCounts, FoldHashes, LeafOk, LiveCount, HashSum, Contents, LivePart, OnPath;
    var pool, dict := tree.pool, tree.dc.dict;
    assert NodeOk(pool, dict, i);
    if !pool[i].valid {
      forall a: nat | Reach(pool, 0, a) && Desc(a, i) ensures !pool[a].valid {
        InvalidAbove(pool, dict, 0, a, i);
      }
    } else {
      HoldsAt(pool, dict, tree.depth, i, m);
      ValidCount(pool, dict, tree.depth, i, OnPath(tree.depth, i, m));
    }
  }

  // ---- What a hash request drops ------------------------------------------------------------------

  /** Node `n` is an invalid inner node with at most 64 live entries. */
  ghost predicate MergePoint(pool: Pool, td: nat, m: map<Key, Entry>, n: nat) {
    n < |pool| && pool[n].isNode && !pool[n].valid && |LivePart(OnPath(td, n, m))| <= SPLIT_LIMIT
  }

  lemma {:induction false} MergesAt(pool: Pool, dict: Dict, td: nat, m: map<Key, Entry>, r: nat, n: nat, h: int)
    requires 0 <= h && SubOk(pool, dict, 0) && Reach(pool, 0, r) && Reach(pool, r, n) && Own(td, r, h) && Own(td, n, h)
    requires MergePoint(pool, td, m, n)
    ensures Merges(pool, td, r, OnPath(td, r, m), h)
    decreases |pool| - r
  {
    hide SubOk, Nibble, Depth, LivePart, OnPath, Own;
    if n != r {
      var b := ReachFromParent(pool, r, n);
      ReachTrans(pool, 0, r, n);
      ReachIsDesc(pool, Child(r, b), n);
      ReachIsDesc(pool, r, n);
      OwnDesc(td, Child(r, b), n, h);
      OwnChild(td, r, h, b);
      InvalidAbove(pool, dict, 0, r, n);
      FirstInner(pool, r, n);
      PathStep(td, r, m, b);
      ReachTrans(pool, 0, r, Child(r, b));
      MergesAt(pool, dict, td, m, Child(r, b), n, h);
    }
  }

  lemma {:induction false} FirstInner(pool: Pool, r: nat, n: nat)
    requires Reach(pool, r, n) && n != r
    ensures pool[r].isNode
    decreases n
  {
    if Parent(n) != r { FirstInner(pool, r, Parent(n)); }
  }

  lemma {:induction false} ReachTrans(pool: Pool, a: nat, r: nat, n: nat)
    requires Reach(pool, a, r) && Reach(pool, r, n)
    ensures Reach(pool, a, n)
    decreases n
  {
    if n != r { ReachTrans(pool, a, r, Parent(n)); }
  }

  lemma {:induction false} MergesWhere(pool: Pool, td: nat, m: map<Key, Entry>, r: nat, h: int) returns (n: nat)
    requires 0 <= h && Reach(pool, 0, r) && Own(td, r, h) && Merges(pool, td, r, OnPath(td, r, m), h)
    ensures Reach(pool, 0, n) && Own(td, n, h) && MergePoint(pool, td, m, n)
    decreases |pool| - r
  {
    hide Nibble, Depth, LivePart, OnPath, Own;
    n := r;
    if |LivePart(OnPath(td, r, m))| > SPLIT_LIMIT {
      var b := Nibble(td, h, Depth(r));
      assert MergesIn(pool, td, r, OnPath(td, r, m), h, BUCKET_SIZE);
      assert Merges(pool, td, Child(r, b), Part(td, r, OnPath(td, r, m), b), h);
      PathStep(td, r, m, b);
      OwnChild(td, r, h, b);
      ParentOfChild(r, b);
      assert Child(r, b) < |pool| && Reach(pool, 0, Child(r, b));
      n := MergesWhere(pool, td, m, Child(r, b), h);
    }
  }

  /** A hash request drops a key if and only if it is dead and leads through an invalid inner node with
      at most 64 live entries below it. */
  lemma DropsExactly(tree: HTree, m: map<Key, Entry>, k: Key)
    requires TreeIs(tree, m) && k in m
    ensures k !in Updated(tree.pool, tree.depth, 0, m) <==>
      && !LiveEntry(m[k])
      && (exists n: nat ::
        Reach(tree.pool, 0, n) && Own(tree.depth, n, Fnv1a.Hash(k)) && MergePoint(tree.pool, tree.depth, m, n))
  {
    hide SubOk, Holds, Merges, MergePoint, LiveEntry;
    var pool, td, h := tree.pool, tree.depth, Fnv1a.Hash(k);
    assert OnPath(td, 0, m) == m;
    if n: nat :| Reach(pool, 0, n) && Own(td, n, h) && MergePoint(pool, td, m, n) {
      MergesAt(pool, tree.dc.dict, td, m, 0, n, h);
    }
    if Merges(pool, td, 0, m, h) {
      var n := MergesWhere(pool, td, m, 0, h);
    }
  }
}
