/** ht_add2, ht_remove2, ht_get2, ht_get_hash and ht_visit: over every run of calls the tree
    behaves as a finite map, and hash updates can only drop entries that are dead. */
module HTreeApi {
  import opened Bytes
  import opened KeyCodec
  import opened CodecTable
  import opened HTreeLeaf
  import opened HTreeBlocks
  import opened HTreePool
  import opened HashTree
  import opened SyncHash
  import opened SmallTrees
  import Fnv1a

  // ---- A growing dictionary ---------------------------------------------------------------

  lemma ItemGrow(d: Dict, d': Dict, it: Item)
    requires DictOk(d) && DictOk(d') && d <= d' && ItemOk(d, it)
    ensures ItemOk(d', it) && K(d', it) == K(d, it)
  {
    hide Decode, Enc, Settled, KeyOk;
    var k := K(d, it);
    EncStable(d, d', k);
    DecodeEnc(d', k);
  }

  lemma {:induction false} MapGrow(d: Dict, d': Dict, items: seq<Item>)
    requires DictOk(d) && DictOk(d') && d <= d'
    requires forall i :: 0 <= i < |items| ==> ItemOk(d, items[i])
    ensures forall i :: 0 <= i < |items| ==> ItemOk(d', items[i])
    ensures MapOf(d', items) == MapOf(d, items)
  {
    hide ItemOk, K, DictOk;
    if items != [] {
      ItemGrow(d, d', items[0]);
      MapGrow(d, d', items[1..]);
      forall i | 0 <= i < |items| ensures ItemOk(d', items[i]) {
        if i > 0 { assert items[i] == items[1..][i - 1]; }
      }
    }
  }

  lemma LeafGrow(d: Dict, d': Dict, n: Node)
    requires DictOk(d) && DictOk(d') && d <= d' && LeafNodeOk(d, n)
    ensures LeafNodeOk(d', n) && Contents(d', n.data) == Contents(d, n.data)
  {
    hide ItemOk, MapOf, DictOk, HashSum, LiveCount;
    MapGrow(d, d', Flat(n.data));
  }

  /** The dictionary may grow without the tree noticing. */
  lemma TreeGrow(pool: Pool, d: Dict, d': Dict, td: nat, r: nat, m: map<Key, Entry>)
    requires DictOk(d) && DictOk(d') && d <= d'
    requires SubOk(pool, d, r) && Holds(pool, d, td, r, m) && r < |pool|
    ensures SubOk(pool, d', r) && Holds(pool, d', td, r, m)
  {
    hide LeafNodeOk, InnerNodeOk, Contents, Own, Walk, DictOk;
    forall i: nat | Reach(pool, r, i) ensures NodeOk(pool, d', i) {
      assert NodeOk(pool, d, i);
      if !pool[i].isNode { LeafGrow(d, d', pool[i]); }
    }
    forall i: nat | Reach(pool, r, i) && !pool[i].isNode ensures LeafHolds(pool, d', td, i, m) {
      assert NodeOk(pool, d, i);
      LeafGrow(d, d', pool[i]);
      assert LeafHolds(pool, d, td, i, m);
    }
    forall k | k in m ensures Placed(pool, d', td, r, k) {
      assert Placed(pool, d, td, r, k);
      WalkReach(pool, d, td, r, r, Fnv1a.Hash(k));
      var w := Walk(pool, td, r, Fnv1a.Hash(k));
      assert NodeOk(pool, d, w);
      LeafGrow(d, d', pool[w]);
    }
  }

  // ---- Calls ----------------------------------------------------------------------------------

  /** check_bucket: a tree that sits `td` digits down serves one value of those digits. */
  predicate InBucket(td: nat, pos: int, key: Key)
    requires td <= 8
  {
    td == 0 || Fnv1a.Hash(key) / Pow16(8 - td) == pos
  }

  ghost predicate TreeIs(tree: HTree, m: map<Key, Entry>)
    reads tree, tree.dc
  {
    tree.dc.Valid() && tree.Shape() && tree.Is(0, m)
  }

  /** create_item: encodes the key, which may add a format to the dictionary. */
  method EncodeKey(tree: HTree, key: Key, ghost m: map<Key, Entry>) returns (code: seq<byte>)
    requires TreeIs(tree, m) && KeyOk(key)
    modifies tree.dc
    ensures TreeIs(tree, m) && Decode(tree.dc.dict, code) == key
    ensures forall e :: ItemOk(tree.dc.dict, Item(code, e))
  {
    hide SubOk, Holds, Settled;
    ghost var before := tree.dc.dict;
    code := tree.dc.Encode(key);
    TreeGrow(tree.pool, before, tree.dc.dict, tree.depth, 0, m);
    DecodeEnc(tree.dc.dict, key);
  }

  /** When the root splits: an inner root stays one and is invalid after an own key; a new key leaves a
      leaf only with at most 256 live entries; a leaf that has never been split stays one up to then. */
  ghost predicate RootRule(was: Pool, height: nat, td: nat, own: bool, known: bool, m': map<Key, Entry>,
                           pool: Pool, height': nat)
  {
    && 0 < |was| && 0 < |pool| && (!own ==> pool == was && height' == height)
    && (was[0].isNode ==> pool[0].isNode && (own ==> !pool[0].valid))
    && (own && !known && td + 1 < MAX_DEPTH ==> pool[0].isNode || |LivePart(m')| <= SPLIT_LIMIT * 4)
    && (!was[0].isNode && height == 1 && |LivePart(m')| <= SPLIT_LIMIT * 4 ==> !pool[0].isNode && height' == 1)
  }

  method Add(tree: HTree, pos: int, key: Key, e: Entry, ghost m: map<Key, Entry>) returns (ghost m': map<Key, Entry>)
    requires TreeIs(tree, m) && KeyOk(key)
    modifies tree, tree.dc
    ensures TreeIs(tree, m')
    ensures m' == if InBucket(tree.depth, pos, key) then m[key := e] else m
    ensures RootRule(old(tree.pool), old(tree.height), tree.depth, InBucket(tree.depth, pos, key), key in m, m',
                     tree.pool, tree.height)
    ensures old(SmallLeaves(tree.pool, 0)) && (InBucket(tree.depth, pos, key) ==> Tame(tree.depth, m, key, e)) ==>
      SmallLeaves(tree.pool, 0)
  {
    hide SubOk, Holds, ItemOk, Decode, KeyOk, LivePart, SmallLeaves, Tame, SplitRule, LeavesFrom, Walk;
    m' := m;
    if InBucket(tree.depth, pos, key) {
      var code := EncodeKey(tree, key, m);
      ghost var was, height := tree.pool, tree.height;
      tree.AddItem(0, Item(code, e), Fnv1a.Hash(key), true, m);
      m' := m[key := e];
      if SmallLeaves(was, 0) && Tame(tree.depth, m, key, e) {
        AddSmall(was, tree.pool, tree.dc.dict, tree.depth, height, m, key, e,
                 Walk(was, tree.depth, 0, Fnv1a.Hash(key)));
      }
    }
  }

  method Remove(tree: HTree, pos: int, key: Key, ghost m: map<Key, Entry>) returns (ghost m': map<Key, Entry>)
    requires TreeIs(tree, m) && KeyOk(key)
    modifies tree, tree.dc
    ensures TreeIs(tree, m')
    ensures m' == if InBucket(tree.depth, pos, key) then m - {key} else m
    ensures old(SmallLeaves(tree.pool, 0)) ==> SmallLeaves(tree.pool, 0)
  {
    hide SubOk, Holds, ItemOk, Decode, KeyOk, SmallLeaves, Calmer;
    m' := m;
    if InBucket(tree.depth, pos, key) {
      var code := EncodeKey(tree, key, m);
      ghost var was := tree.pool;
      tree.RemoveItem(0, code, Fnv1a.Hash(key), key, m);
      if SmallLeaves(was, 0) { CalmSmall(was, tree.pool); }
      m' := m - {key};
    }
  }

  method Get(tree: HTree, pos: int, key: Key, ghost m: map<Key, Entry>) returns (e: Option<Entry>)
    requires TreeIs(tree, m) && KeyOk(key)
    modifies tree.dc
    ensures TreeIs(tree, m)
    ensures e == if InBucket(tree.depth, pos, key) && key in m then Some(m[key]) else None
  {
    hide SubOk, Holds, ItemOk, Decode, KeyOk;
    e := None;
    if InBucket(tree.depth, pos, key) {
      var code := EncodeKey(tree, key, m);
      e := tree.GetItem(0, code, Fnv1a.Hash(key), key, m);
    }
  }

  /** ht_get_hash at the root: the count is always exact, and the hash is the specified one
      as long as no leaf is overfull, which is so up to 256 live entries. Exactly the dead entries
      on the way of a merge are dropped, and none if the root is a leaf. */
  method GetHash(tree: HTree, ghost m: map<Key, Entry>) returns (hash: int, count: nat, ghost m': map<Key, Entry>)
    requires TreeIs(tree, m)
    modifies tree
    ensures TreeIs(tree, m') && Pruned(m, m') && m' == Updated(old(tree.pool), tree.depth, 0, m)
    ensures old(!tree.pool[0].isNode) ==> m' == m && tree.pool == old(tree.pool) && tree.height == old(tree.height)
    ensures count == |LivePart(m)|
    ensures old(SmallLeaves(tree.pool, 0)) ==> SmallLeaves(tree.pool, 0)
    ensures SmallLeaves(tree.pool, 0) || |LivePart(m)| <= PLAIN_LIMIT ==> hash == Sync(tree.depth, LivePart(m), 0)
  {
    hide SubOk, Holds, Sync, SmallLeaves, LivePart, Calmer;
    ghost var was := tree.pool;
    UpdatedPrunes(tree.pool, tree.depth, 0, m);
    if !tree.pool[0].valid {
      InvalidIsInner(tree.pool, tree.dc.dict, 0);
    } else {
      UpdatedValid(tree.pool, tree.depth, 0, m);
    }
    m' := tree.UpdateNode(0, m);
    if SmallLeaves(was, 0) { CalmSmall(was, tree.pool); }
    hash, count := tree.pool[0].hash, tree.pool[0].count;
    PrunedLive(m, m');
    ShallowPool(tree.pool, tree.depth, tree.height);
    ValidCount(tree.pool, tree.dc.dict, tree.depth, 0, m');
    if |LivePart(m)| <= PLAIN_LIMIT {
      SmallTotal(tree.pool, tree.dc.dict, tree.depth, m');
    }
    if SmallLeaves(tree.pool, 0) {
      UpdatedHash(tree.pool, tree.dc.dict, tree.depth, 0, m');
    }
  }

  lemma PrunedLive(m: map<Key, Entry>, m': map<Key, Entry>)
    requires Pruned(m, m')
    ensures LivePart(m') == LivePart(m)
  {
  }

  lemma ShallowPool(pool: Pool, td: nat, height: nat)
    requires |pool| == GIndex(height) && td + height <= MAX_DEPTH
    ensures forall j :: 0 <= j < |pool| ==> td + Depth(j) <= 7
  {
    forall j | 0 <= j < |pool| ensures td + Depth(j) <= 7 {
      DepthInPool(j, height);
    }
  }

  // ---- Visiting -------------------------------------------------------------------------------

  datatype Visited = Visited(key: Key, e: Entry)

  /** The visited items are the entries of `m`, each once. */
  ghost predicate Enumerates(out: seq<Visited>, m: map<Key, Entry>) {
    && (forall j :: 0 <= j < |out| ==> out[j].key in m && m[out[j].key] == out[j].e)
    && (forall j, l :: 0 <= j < l < |out| ==> out[j].key != out[l].key)
    && (forall k :: k in m ==> exists j :: 0 <= j < |out| && out[j].key == k)
  }

  lemma EnumeratesUnion(a: seq<Visited>, ma: map<Key, Entry>, b: seq<Visited>, mb: map<Key, Entry>)
    requires Enumerates(a, ma) && Enumerates(b, mb) && ma.Keys !! mb.Keys
    ensures Enumerates(a + b, ma + mb)
  {
    forall k | k in ma + mb ensures exists j :: 0 <= j < |a + b| && (a + b)[j].key == k {
      if k in mb {
        var j :| 0 <= j < |b| && b[j].key == k;
        assert (a + b)[|a| + j].key == k;
      } else {
        var j :| 0 <= j < |a| && a[j].key == k;
        assert (a + b)[j].key == k;
      }
    }
  }

  /** visit_node on a leaf decodes every item of the chain. */
  method VisitLeaf(tree: HTree, i: nat, ghost m: map<Key, Entry>) returns (out: seq<Visited>)
    requires tree.Is(i, m) && !tree.pool[i].isNode
    ensures Enumerates(out, m)
  {
    hide SubOk, Holds, ItemOk, MapOf, Decode, LiveCount;
    LeafParts(tree.pool, tree.dc.dict, tree.depth, i, m);
    var items := Flat(tree.pool[i].data);
    MapOfNone(tree.dc.dict, items);
    out := [];
    while |out| < |items|
      invariant |out| <= |items|
      invariant forall j :: 0 <= j < |out| ==> out[j] == Visited(K(tree.dc.dict, items[j]), items[j].e)
    {
      out := out + [Visited(Decode(tree.dc.dict, items[|out|].key), items[|out|].e)];
    }
    VisitedLeaf(tree.dc.dict, items, out);
  }

  lemma VisitedLeaf(dict: Dict, items: seq<Item>, out: seq<Visited>)
    requires ItemsOk(dict, items) && |out| == |items|
    requires forall j :: 0 <= j < |out| ==> out[j] == Visited(K(dict, items[j]), items[j].e)
    ensures Enumerates(out, MapOf(dict, items))
  {
    hide ItemOk, MapOf, K;
    var m := MapOf(dict, items);
    forall j | 0 <= j < |out| ensures out[j].key in m && m[out[j].key] == out[j].e {
      MapOfAt(dict, items, j);
    }
    forall j, l | 0 <= j < l < |out| ensures out[j].key != out[l].key {
      KeysDiffer(dict, items[j], items[l]);
    }
    forall k | k in m ensures exists j :: 0 <= j < |out| && out[j].key == k {
      var j := MapOfHas(dict, items, k);
      assert out[j].key == k;
    }
  }

  method VisitNode(tree: HTree, i: nat, ghost m: map<Key, Entry>) returns (out: seq<Visited>)
    requires tree.Shape() && tree.Is(i, m)
    ensures Enumerates(out, m)
    decreases |tree.pool| - i
  {
    hide SubOk, Holds, Nibble, Own, Enumerates;
    if tree.pool[i].isNode {
      ToChildren(tree.pool, tree.dc.dict, tree.depth, i, m);
      DepthIndex(i);
      out := [];
      var b := 0;
      VisitedNone(tree.depth, i, m);
      while b < BUCKET_SIZE
        invariant 0 <= b <= BUCKET_SIZE && Enumerates(out, Below(tree.depth, i, m, b))
      {
        var more := VisitNode(tree, GetChild(i, tree.pool[i].depth, b), Part(tree.depth, i, m, b));
        VisitedMore(tree.depth, i, m, b, out, more);
        out := out + more;
        b := b + 1;
      }
      assert Below(tree.depth, i, m, BUCKET_SIZE) == m;
    } else {
      out := VisitLeaf(tree, i, m);
    }
  }

  /** ht_visit: every entry of the tree, once. */
  method VisitTree(tree: HTree, ghost m: map<Key, Entry>) returns (out: seq<Visited>)
    requires TreeIs(tree, m)
    ensures Enumerates(out, m)
  {
    hide SubOk, Holds, Enumerates;
    out := VisitNode(tree, 0, m);
  }

  lemma VisitedNone(td: nat, i: nat, m: map<Key, Entry>)
    ensures Enumerates([], Below(td, i, m, 0))
  {
    assert Below(td, i, m, 0) == map[];
  }

  lemma VisitedMore(td: nat, i: nat, m: map<Key, Entry>, b: nat, out: seq<Visited>, more: seq<Visited>)
    requires Enumerates(out, Below(td, i, m, b)) && Enumerates(more, Part(td, i, m, b))
    ensures Enumerates(out + more, Below(td, i, m, b + 1))
  {
    hide Enumerates, Nibble;
    EnumeratesUnion(out, Below(td, i, m, b), more, Part(td, i, m, b));
    assert Below(td, i, m, b) + Part(td, i, m, b) == Below(td, i, m, b + 1);
  }

  // ---- Whole runs -------------------------------------------------------------------------------

  datatype Op = AddOp(key: Key, e: Entry) | RemoveOp(key: Key) | GetOp(key: Key) | HashOp

  /** The plain finite map a run is compared with. */
  function PlainStep(td: nat, pos: int, p: map<Key, Entry>, op: Op): map<Key, Entry>
    requires td <= 8
  {
    match op
    case AddOp(k, e) => if InBucket(td, pos, k) then p[k := e] else p
    case RemoveOp(k) => if InBucket(td, pos, k) then p - {k} else p
    case _ => p
  }

  function PlainRun(td: nat, pos: int, ops: seq<Op>): map<Key, Entry>
    requires td <= 8
  {
    if ops == [] then map[] else PlainStep(td, pos, PlainRun(td, pos, ops[..|ops| - 1]), ops[|ops| - 1])
  }

  predicate HasHashOp(ops: seq<Op>) {
    exists i :: 0 <= i < |ops| && ops[i].HashOp?
  }

  /** What a get may answer when the plain map is `p`: the entry if there is one, except
      that a dead entry may already have been dropped by a hash update. */
  predicate GetAgrees(p: map<Key, Entry>, k: Key, dropped: bool, r: Option<Entry>) {
    if k !in p then r == None
    else r == Some(p[k]) || (dropped && !LiveEntry(p[k]) && r == None)
  }

  /** What a call returns: an entry for a get, hash and count for a hash request. */
  datatype Answer = Nothing | Found(e: Option<Entry>) | Hashed(hash: int, count: nat)

  /** Every addition so far left the keys spread and revived none. */
  ghost predicate TameRun(td: nat, pos: int, ops: seq<Op>)
    requires td <= 8
  {
    forall i :: 0 <= i < |ops| ==> TameOp(td, pos, PlainRun(td, pos, ops[..i]), ops[i])
  }

  ghost predicate TameOp(td: nat, pos: int, p: map<Key, Entry>, op: Op)
    requires td <= 8
  {
    op.AddOp? && InBucket(td, pos, op.key) ==> Tame(td, p, op.key, op.e)
  }

  /** What a hash request may answer: the exact live count, and the specified hash if there are at most 256
      live entries or the run was tame. */
  ghost predicate HashAgrees(td: nat, p: map<Key, Entry>, tame: bool, r: Answer) {
    && r.Hashed? && r.count == |LivePart(p)|
    && (tame || |LivePart(p)| <= PLAIN_LIMIT ==> r.hash == Sync(td, LivePart(p), 0))
  }

  ghost predicate AnswerOk(td: nat, pos: int, ops: seq<Op>, i: nat, r: Answer)
    requires td <= 8 && i < |ops|
  {
    match ops[i]
    case GetOp(k) =>
      InBucket(td, pos, k) ==>
        r.Found? && GetAgrees(PlainRun(td, pos, ops[..i]), k, HasHashOp(ops[..i]), r.e)
    case HashOp => HashAgrees(td, PlainRun(td, pos, ops[..i]), TameRun(td, pos, ops[..i]), r)
    case _ => true
  }

  predicate KeysOk(ops: seq<Op>) {
    forall i :: 0 <= i < |ops| ==> ops[i].HashOp? || KeyOk(ops[i].key)
  }

  /** Every run of calls on a new tree, through splits, merges and enlargements: each get
      agrees with the plain map at that point, and is exact while no hash was asked for; each hash
      request gets the exact live count. */
  method Run(td: nat, pos: int, ops: seq<Op>) returns (answers: seq<Answer>)
    requires td < MAX_DEPTH && KeysOk(ops)
    ensures |answers| == |ops| && forall i :: 0 <= i < |ops| ==> AnswerOk(td, pos, ops, i, answers[i])
  {
    hide TreeIs, Tracks, KeyOk, InBucket, PlainRun, HasHashOp, AnswerOk, TameRun, TameOp, SmallLeaves, HashAgrees;
    var tree := NewTree(td, false);
    ghost var m: map<Key, Entry> := map[];
    TracksNothing(td, pos, ops);
    answers := [];
    while |answers| < |ops|
      invariant |answers| <= |ops| && fresh(tree) && fresh(tree.dc) && tree.depth == td && TreeIs(tree, m)
      invariant Tracks(PlainRun(td, pos, ops[..|answers|]), m, HasHashOp(ops[..|answers|]))
      invariant forall i :: 0 <= i < |answers| ==> AnswerOk(td, pos, ops, i, answers[i])
      invariant TameRun(td, pos, ops[..|answers|]) ==> SmallLeaves(tree.pool, 0)
    {
      ghost var was := m;
      var answer;
      TameStep(td, pos, ops, |answers|, was);
      answer, m := Step(tree, pos, ops[|answers|], TameRun(td, pos, ops[..|answers|]), m);
      TracksStep(td, pos, ops, |answers|, was, m);
      TracksAnswer(td, pos, ops, |answers|, was, answer);
      answers := answers + [answer];
    }
  }

  method NewTree(td: nat, tmp: bool) returns (tree: HTree)
    requires td < MAX_DEPTH
    ensures fresh(tree) && fresh(tree.dc) && tree.depth == td && TreeIs(tree, map[])
    ensures tree.height == 1 && !tree.pool[0].isNode && SmallLeaves(tree.pool, 0)
  {
    var dc := new Codec();
    tree := new HTree(td, tmp, dc);
    NothingLiveThere();
    SmallTotal(tree.pool, tree.dc.dict, td, map[]);
  }

  lemma NothingLiveThere()
    ensures LivePart(map[]) == map[]
  {
  }

  /** One call of a run. */
  method Step(tree: HTree, pos: int, op: Op, ghost tame: bool, ghost m: map<Key, Entry>)
    returns (answer: Answer, ghost m': map<Key, Entry>)
    requires TreeIs(tree, m) && tree.depth <= 8 && (op.HashOp? || KeyOk(op.key)) && (tame ==> SmallLeaves(tree.pool, 0))
    modifies tree, tree.dc
    ensures TreeIs(tree, m') && (tame && TameOp(tree.depth, pos, m, op) ==> SmallLeaves(tree.pool, 0))
    ensures op.HashOp? ==> Pruned(m, m') && HashAgrees(tree.depth, m, tame, answer)
    ensures !op.HashOp? ==> m' == PlainStep(tree.depth, pos, m, op)
    ensures op.GetOp? && InBucket(tree.depth, pos, op.key) ==>
      answer == Found(if op.key in m then Some(m[op.key]) else None)
  {
    hide TreeIs, KeyOk, InBucket, Sync, LivePart, SmallLeaves, Tame;
    answer, m' := Nothing, m;
    match op {
      case AddOp(k, e) => m' := Add(tree, pos, k, e, m);
      case RemoveOp(k) => m' := Remove(tree, pos, k, m);
      case GetOp(k) =>
        var e := Get(tree, pos, k, m);
        answer := Found(e);
      case HashOp =>
        var hash, count;
        hash, count, m' := GetHash(tree, m);
        answer := Hashed(hash, count);
    }
  }

  /** The answer of a call against the plain map. */
  lemma TracksAnswer(td: nat, pos: int, ops: seq<Op>, i: nat, m: map<Key, Entry>, r: Answer)
    requires td <= 8 && i < |ops| && Tracks(PlainRun(td, pos, ops[..i]), m, HasHashOp(ops[..i]))
    requires ops[i].GetOp? && InBucket(td, pos, ops[i].key) ==>
      r == Found(if ops[i].key in m then Some(m[ops[i].key]) else None)
    requires ops[i].HashOp? ==> HashAgrees(td, m, TameRun(td, pos, ops[..i]), r)
    ensures AnswerOk(td, pos, ops, i, r)
  {
    hide InBucket, PlainRun, HasHashOp, Sync, TameRun;
    var p := PlainRun(td, pos, ops[..i]);
    TracksGet(p, m, HasHashOp(ops[..i]));
    PrunedLive(p, m);
  }

  /** A run that stays tame was tame before, and so is its next step on the tree's map. */
  lemma TameStep(td: nat, pos: int, ops: seq<Op>, i: nat, m: map<Key, Entry>)
    requires td <= 8 && i < |ops| && Tracks(PlainRun(td, pos, ops[..i]), m, HasHashOp(ops[..i]))
    ensures TameRun(td, pos, ops[..i + 1]) ==> TameRun(td, pos, ops[..i]) && TameOp(td, pos, m, ops[i])
  {
    hide InBucket, PlainRun, HasHashOp, Spread;
    if TameRun(td, pos, ops[..i + 1]) {
      var p := PlainRun(td, pos, ops[..i]);
      forall j | 0 <= j < i ensures TameOp(td, pos, PlainRun(td, pos, ops[..i][..j]), ops[..i][j]) {
        assert ops[..i][..j] == ops[..i + 1][..j] && ops[..i][j] == ops[..i + 1][j];
      }
      assert ops[..i + 1][..i] == ops[..i] && ops[..i + 1][i] == ops[i];
      if ops[i].AddOp? && InBucket(td, pos, ops[i].key) { TamePruned(td, p, m, ops[i].key, ops[i].e); }
    }
  }

  lemma TamePruned(td: nat, p: map<Key, Entry>, m: map<Key, Entry>, k: Key, e: Entry)
    requires Pruned(p, m) && Tame(td, p, k, e)
    ensures Tame(td, m, k, e)
  {
    hide Spread;
    SpreadAlike(td, p[k := e], m[k := e]);
  }

  lemma TracksNothing(td: nat, pos: int, ops: seq<Op>)
    requires td <= 8
    ensures Tracks(PlainRun(td, pos, ops[..0]), map[], HasHashOp(ops[..0]))
  {
  }

  lemma TracksGet(p: map<Key, Entry>, m: map<Key, Entry>, dropped: bool)
    requires Tracks(p, m, dropped)
    ensures forall k :: GetAgrees(p, k, dropped, if k in m then Some(m[k]) else None)
  {
  }

  /** The tree's map follows the plain one, possibly without some dead entries. */
  ghost predicate Tracks(p: map<Key, Entry>, m: map<Key, Entry>, dropped: bool) {
    Pruned(p, m) && (!dropped ==> m == p)
  }

  lemma TracksStep(td: nat, pos: int, ops: seq<Op>, i: nat, was: map<Key, Entry>, m: map<Key, Entry>)
    requires td <= 8 && i < |ops| && Tracks(PlainRun(td, pos, ops[..i]), was, HasHashOp(ops[..i]))
    requires ops[i].HashOp? ==> Pruned(was, m)
    requires !ops[i].HashOp? ==> m == PlainStep(td, pos, was, ops[i])
    ensures Tracks(PlainRun(td, pos, ops[..i + 1]), m, HasHashOp(ops[..i + 1]))
  {
    hide InBucket;
    var p := PlainRun(td, pos, ops[..i]);
    assert ops[..i + 1][..i] == ops[..i];
    assert PlainRun(td, pos, ops[..i + 1]) == PlainStep(td, pos, p, ops[i]);
    HasHashStep(ops, i);
    if ops[i].HashOp? {
      PrunedTrans(p, was, m);
    }
  }

  lemma HasHashStep(ops: seq<Op>, i: nat)
    requires i < |ops|
    ensures HasHashOp(ops[..i + 1]) <==> HasHashOp(ops[..i]) || ops[i].HashOp?
  {
    if HasHashOp(ops[..i]) {
      var j :| 0 <= j < i && ops[..i][j].HashOp?;
      assert ops[..i + 1][j].HashOp?;
    } else if ops[i].HashOp? {
      assert ops[..i + 1][i].HashOp?;
    }
  }
}
