/** When no leaf has more than 256 live items, so that every update yields the specified hash: as long as
    no 257 live keys go the same way at any branch, and no dead key comes back to life in place. */
module SmallTrees {
  import opened Bytes
  import opened KeyCodec
  import opened HTreeLeaf
  import opened HTreePool
  import opened HashTree
  import opened SyncHash
  import Fnv1a

  /** The live entries whose hashes lead through node `n`. */
  ghost function LiveAt(td: nat, n: nat, m: map<Key, Entry>): nat {
    |LivePart(OnPath(td, n, m))|
  }

  /** Where more than 256 live entries come through a node they do not all go on to the same child, and the
      node is not on the last level. */
  ghost predicate Spread(td: nat, m: map<Key, Entry>) {
    forall n: nat :: td + Depth(n) < MAX_DEPTH && LiveAt(td, n, m) > PLAIN_LIMIT ==> Parts(td, n, m)
  }

  ghost predicate Parts(td: nat, n: nat, m: map<Key, Entry>) {
    td + Depth(n) + 1 < MAX_DEPTH
    && forall b: nat :: b < BUCKET_SIZE ==> LiveAt(td, Child(n, b), m) < LiveAt(td, n, m)
  }

  lemma SpreadAt(td: nat, n: nat, m: map<Key, Entry>)
    requires Spread(td, m) && td + Depth(n) < MAX_DEPTH
    ensures LiveAt(td, n, m) > PLAIN_LIMIT ==> Parts(td, n, m)
  {
    hide Parts, LiveAt, Depth;
  }

  /** The entry is for a key that is new, live or stays dead, and the keys are still spread. */
  ghost predicate Tame(td: nat, m: map<Key, Entry>, k: Key, e: Entry) {
    Spread(td, m[k := e]) && (k in m && LiveEntry(e) ==> LiveEntry(m[k]))
  }

  lemma SpreadAlike(td: nat, m: map<Key, Entry>, m': map<Key, Entry>)
    requires LivePart(m) == LivePart(m')
    ensures Spread(td, m) == Spread(td, m')
  {
    hide Own;
    forall n: nat ensures LiveAt(td, n, m) == LiveAt(td, n, m') {
      LiveOnPath(td, n, m);
      LiveOnPath(td, n, m');
    }
  }

  lemma LiveOnPath(td: nat, n: nat, m: map<Key, Entry>)
    ensures LivePart(OnPath(td, n, m)) == OnPath(td, n, LivePart(m))
  {
    hide Own, Fnv1a.Hash;
  }

  // ---- How many live entries a node may have ------------------------------------------------------

  lemma LiveBelow(td: nat, a: nat, i: nat, m: map<Key, Entry>)
    requires Desc(a, i)
    ensures LiveAt(td, i, m) <= LiveAt(td, a, m)
  {
    hide Own, Fnv1a.Hash, Desc;
    forall k | k in m && Own(td, i, Fnv1a.Hash(k)) ensures Own(td, a, Fnv1a.Hash(k)) {
      OwnDesc(td, a, i, Fnv1a.Hash(k));
    }
    SubmapSize(LivePart(OnPath(td, i, m)), LivePart(OnPath(td, a, m)));
  }

  lemma LiveWith(td: nat, n: nat, m: map<Key, Entry>, k: Key, e: Entry)
    ensures LiveAt(td, n, m[k := e]) <= LiveAt(td, n, m) + 1
    ensures !Own(td, n, Fnv1a.Hash(k)) || (k in m && (LiveEntry(e) ==> LiveEntry(m[k]))) ==>
      LiveAt(td, n, m[k := e]) <= LiveAt(td, n, m)
  {
    hide Own, Fnv1a.Hash, LiveEntry;
    var a, b := LivePart(OnPath(td, n, m)), LivePart(OnPath(td, n, m[k := e]));
    assert b.Keys <= a.Keys + {k};
    assert |a.Keys + {k}| <= |a.Keys| + 1;
    if !Own(td, n, Fnv1a.Hash(k)) || (k in m && (LiveEntry(e) ==> LiveEntry(m[k]))) {
      SubmapSize(b, a);
    } else {
      SubsetSize(b.Keys, a.Keys + {k});
    }
  }

  lemma {:induction false} ChildToward(w: nat, i: nat) returns (b: nat)
    requires Desc(w, i) && i != w
    ensures b < BUCKET_SIZE && Desc(Child(w, b), i)
    decreases i
  {
    if Parent(i) == w {
      b := ChildOfParent(i);
    } else {
      b := ChildToward(w, Parent(i));
      DescLe(Child(w, b), Parent(i));
    }
  }

  // ---- One addition -------------------------------------------------------------------------------

  /** Before and after an addition of `k`, whose way led to the leaf `w`. */
  ghost predicate AddStep(was: Pool, pool: Pool, dict: Dict, td: nat, height: nat, m: map<Key, Entry>, k: Key, e: Entry,
                          w: nat)
  {
    && w == Walk(was, td, 0, Fnv1a.Hash(k)) && 0 < |was| && SubOk(was, dict, 0) && Holds(was, dict, td, 0, m)
    && SubOk(pool, dict, 0) && Holds(pool, dict, td, 0, m[k := e])
    && |was| == GIndex(height) && td + height <= MAX_DEPTH
    && SplitRule(td, height, true, w, k !in m, m[k := e], pool) && LeavesFrom(was, pool, 0, w)
  }

  lemma LeafOfKey(was: Pool, pool: Pool, dict: Dict, td: nat, height: nat, m: map<Key, Entry>, k: Key, e: Entry, w: nat)
    requires AddStep(was, pool, dict, td, height, m, k, e, w) && SmallLeaves(was, 0)
    ensures LiveAt(td, w, m[k := e]) <= PLAIN_LIMIT + 1 && td + Depth(w) < MAX_DEPTH && Depth(w) < height
    ensures k in m && (LiveEntry(e) ==> LiveEntry(m[k])) ==> LiveAt(td, w, m[k := e]) <= PLAIN_LIMIT
  {
    hide SubOk, Holds, Walk, SplitRule, LeavesFrom, LiveAt, LiveEntry;
    var h := Fnv1a.Hash(k);
    assert Reach(was, 0, 0) && Own(td, 0, h);
    WalkReach(was, dict, td, 0, 0, h);
    CountIsLive(was, dict, td, w, m);
    LiveWith(td, w, m, k, e);
    DepthInPool(w, height);
  }

  lemma CountIsLive(pool: Pool, dict: Dict, td: nat, i: nat, m: map<Key, Entry>)
    requires SubOk(pool, dict, 0) && Holds(pool, dict, td, 0, m) && Reach(pool, 0, i) && !pool[i].isNode
    ensures pool[i].count == LiveAt(td, i, m)
  {
    hide SubOk, Holds;
    CountOnPath(pool, dict, td, 0, i, m);
  }

  /** The leaf itself, if it was not split. */
  lemma UnsplitSmall(was: Pool, pool: Pool, dict: Dict, td: nat, height: nat, m: map<Key, Entry>, k: Key, e: Entry,
                     w: nat)
    requires AddStep(was, pool, dict, td, height, m, k, e, w) && SmallLeaves(was, 0) && Tame(td, m, k, e)
    requires !pool[w].isNode
    ensures LiveAt(td, w, m[k := e]) <= PLAIN_LIMIT
  {
    hide SubOk, Holds, Walk, LeavesFrom, LiveEntry, Depth, GIndex;
    LeafOfKey(was, pool, dict, td, height, m, k, e, w);
    SpreadAt(td, w, m[k := e]);
  }

  /** A leaf below it, if it was. */
  lemma SplitSmall(was: Pool, pool: Pool, dict: Dict, td: nat, height: nat, m: map<Key, Entry>, k: Key, e: Entry,
                   w: nat, i: nat)
    requires AddStep(was, pool, dict, td, height, m, k, e, w) && SmallLeaves(was, 0) && Tame(td, m, k, e)
    requires Desc(w, i) && i != w
    ensures LiveAt(td, i, m[k := e]) <= PLAIN_LIMIT
  {
    hide SubOk, Holds, Walk, LeavesFrom, LiveEntry, Depth, GIndex, LiveAt, SplitRule;
    var m' := m[k := e];
    LeafOfKey(was, pool, dict, td, height, m, k, e, w);
    var b := ChildToward(w, i);
    LiveBelow(td, Child(w, b), i, m');
    LiveBelow(td, w, i, m');
    SpreadAt(td, w, m');
  }

  /** A leaf elsewhere. */
  lemma OtherSmall(was: Pool, pool: Pool, dict: Dict, td: nat, height: nat, m: map<Key, Entry>, k: Key, e: Entry,
                   w: nat, i: nat)
    requires AddStep(was, pool, dict, td, height, m, k, e, w) && SmallLeaves(was, 0)
    requires !Desc(w, i) && Reach(was, 0, i) && !was[i].isNode
    ensures LiveAt(td, i, m[k := e]) <= PLAIN_LIMIT
  {
    hide SubOk, Holds, Walk, LeavesFrom, LiveEntry, GIndex, LiveAt, SplitRule;
    var h := Fnv1a.Hash(k);
    if Own(td, i, h) { WalkUnique(was, td, 0, i, h); }
    CountIsLive(was, dict, td, i, m);
    LiveWith(td, i, m, k, e);
  }

  lemma AddSmall(was: Pool, pool: Pool, dict: Dict, td: nat, height: nat, m: map<Key, Entry>, k: Key, e: Entry, w: nat)
    requires AddStep(was, pool, dict, td, height, m, k, e, w) && SmallLeaves(was, 0) && Tame(td, m, k, e)
    ensures SmallLeaves(pool, 0)
  {
    hide SubOk, Holds, Walk, LiveEntry, GIndex, LiveAt, SplitRule, Tame, Desc;
    forall i: nat | Reach(pool, 0, i) && !pool[i].isNode ensures pool[i].count <= PLAIN_LIMIT {
      CountIsLive(pool, dict, td, i, m[k := e]);
      if i == w {
        UnsplitSmall(was, pool, dict, td, height, m, k, e, w);
      } else if Desc(w, i) {
        SplitSmall(was, pool, dict, td, height, m, k, e, w, i);
      } else {
        OtherSmall(was, pool, dict, td, height, m, k, e, w, i);
      }
    }
  }

  // ---- Removals and updates -----------------------------------------------------------------------

  lemma {:induction false} CalmReach(was: Pool, pool: Pool, i: nat)
    requires Calmer(was, pool) && Reach(pool, 0, i)
    ensures Reach(was, 0, i)
    decreases i
  {
    if i > 0 { CalmReach(was, pool, Parent(i)); }
  }

  lemma CalmSmall(was: Pool, pool: Pool)
    requires Calmer(was, pool) && SmallLeaves(was, 0)
    ensures SmallLeaves(pool, 0)
  {
    forall i: nat | Reach(pool, 0, i) && !pool[i].isNode ensures pool[i].count <= PLAIN_LIMIT {
      CalmReach(was, pool, i);
    }
  }
}
