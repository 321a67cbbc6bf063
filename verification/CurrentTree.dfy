/** The tree that is kept for the bucket being written, and the hints made of such trees. */
module CurrentTree {
  import opened Bytes
  import opened HTreeLeaf
  import opened HashTree
  import opened HTreeApi
  import opened Record
  import opened DataFile
  import opened Hint
  import opened Buffers
  import opened Protocol
  import opened Replay
  import opened Lasts
  import opened HintTrees

  // ---- One tree -------------------------------------------------------------------------------

  /** Keys and entries that a tree of this store can have. */
  ghost predicate Ready(td: nat, tpos: int, c: Index)
    requires td <= 8
  {
    forall k :: k in c ==> Accepts(td, tpos, k) && InRange(c[k])
  }

  lemma ReadyForHint(td: nat, tpos: int, recs: seq<Rec>, c: Index)
    requires td <= 8 && AllSound(recs) && Knows(td, tpos, recs, c) && Ready(td, tpos, c)
    ensures HintReady(c, recs)
  {
    hide Sound, CheckKey, InBucket, InRange, EntryFor;
    forall k | k in c ensures CheckKey(k) && InRange(c[k]) && HasKey(recs, k) {
      var i: nat :| LastIn(recs, k, i) && EntryFor(recs, i, c[k]);
    }
  }

  lemma LastInMore(recs: seq<Rec>, s: Rec, k: Key, i: nat)
    ensures k != s.key ==> (LastIn(recs + [s], k, i) <==> LastIn(recs, k, i))
    ensures k == s.key ==> (LastIn(recs + [s], k, i) <==> i == |recs|)
  {
    var all := recs + [s];
    assert all[|recs|] == s;
    assert forall j :: 0 <= j < |recs| ==> all[j] == recs[j];
  }

  lemma EntryForMore(recs: seq<Rec>, s: Rec, i: nat, e: Entry)
    requires AllSound(recs) && Sound(s) && i < |recs|
    ensures AllSound(recs + [s]) && (EntryFor(recs + [s], i, e) <==> EntryFor(recs, i, e))
  {
    hide HasPlain, RecOk, EmptyTrap, FileBytes, Plain, GenHash;
    AllSoundConcat(recs, [s]);
    assert (recs + [s])[..i] == recs[..i] && (recs + [s])[i] == recs[i];
  }

  /** The tree after a record was appended and published. */
  function WithEntry(td: nat, tpos: int, c: Index, key: Key, e: Entry): Index
    requires td <= 8
  {
    if InBucket(td, tpos, key) then c[key := e] else c
  }

  ghost predicate EntryOfLast(recs: seq<Rec>, s: Rec, e: Entry)
    requires AllSound(recs) && Sound(s)
  {
    && Position(e) == |FileBytes(recs)| && (e.ver > 0 <==> s.version > 0)
    && (e.ver > 0 ==> e.hash == GenHash(Plain(s).value))
  }

  lemma LastEntryFor(recs: seq<Rec>, s: Rec, e: Entry)
    requires AllSound(recs) && Sound(s) && EntryOfLast(recs, s, e)
    ensures AllSound(recs + [s]) && EntryFor(recs + [s], |recs|, e)
  {
    hide HasPlain, RecOk, EmptyTrap, FileBytes, Plain, GenHash;
    AllSoundConcat(recs, [s]);
    assert (recs + [s])[..|recs|] == recs;
  }

  lemma KnownMore(recs: seq<Rec>, s: Rec, k: Key, e: Entry)
    requires AllSound(recs) && Sound(s) && k != s.key && KnownLast(recs, k, e)
    ensures AllSound(recs + [s]) && KnownLast(recs + [s], k, e)
  {
    hide Sound, EntryFor;
    AllSoundConcat(recs, [s]);
    var i: nat :| LastIn(recs, k, i) && EntryFor(recs, i, e);
    LastInMore(recs, s, k, i);
    EntryForMore(recs, s, i, e);
  }

  lemma LastInside(recs: seq<Rec>, k: Key, i: nat)
    requires LastIn(recs, k, i)
    ensures i < |recs| && recs[i].key == k
  {
  }

  lemma KnowsAppend(td: nat, tpos: int, recs: seq<Rec>, c: Index, s: Rec, e: Entry)
    requires td <= 8 && AllSound(recs) && Knows(td, tpos, recs, c) && Sound(s) && CheckKey(s.key)
    requires EntryOfLast(recs, s, e)
    ensures AllSound(recs + [s]) && Knows(td, tpos, recs + [s], WithEntry(td, tpos, c, s.key, e))
    ensures Complete(td, tpos, recs, c) ==> Complete(td, tpos, recs + [s], WithEntry(td, tpos, c, s.key, e))
  {
    hide Sound, EntryFor, LastIn, EntryOfLast, CheckKey, InBucket;
    LastEntryFor(recs, s, e);
    var all, c' := recs + [s], WithEntry(td, tpos, c, s.key, e);
    forall k, i: nat
      ensures k != s.key ==> (LastIn(all, k, i) <==> LastIn(recs, k, i))
      ensures k == s.key ==> (LastIn(all, k, i) <==> i == |recs|)
    {
      LastInMore(recs, s, k, i);
    }
    forall k | k in c' && InBucket(td, tpos, k) ensures KnownLast(all, k, c'[k]) {
      if k != s.key { KnownMore(recs, s, k, c[k]); }
    }
    forall k, i: nat | LastIn(recs, k, i) ensures i < |recs| && all[i] == recs[i] { LastInside(recs, k, i); }
  }

  /** Raising the version of a live entry. */
  lemma KnowsRaise(td: nat, tpos: int, recs: seq<Rec>, c: Index, k: Key, i: nat, e: Entry)
    requires td <= 8 && AllSound(recs) && Knows(td, tpos, recs, c) && LastIn(recs, k, i) && CheckKey(k)
    requires EntryFor(recs, i, e)
    ensures Knows(td, tpos, recs, c[k := e])
    ensures Complete(td, tpos, recs, c) ==> Complete(td, tpos, recs, c[k := e])
  {
    hide Sound, EntryFor, CheckKey, InBucket;
  }

  /** Dead entries may be dropped; the tree is then no longer complete. */
  lemma KnowsDrop(td: nat, tpos: int, recs: seq<Rec>, c: Index, c': Index)
    requires td <= 8 && AllSound(recs) && Knows(td, tpos, recs, c) && Ready(td, tpos, c) && Pruned(c, c')
    ensures Knows(td, tpos, recs, c') && Ready(td, tpos, c')
  {
    hide Sound, CheckKey, InBucket, Knows, InRange;
    KnowsPruned(td, tpos, recs, c, c');
  }

  lemma KnowsNothing(td: nat, tpos: int)
    requires td <= 8
    ensures Knows(td, tpos, [], map[]) && Complete(td, tpos, [], map[])
  {
  }

  // ---- The trees of all buckets -----------------------------------------------------------------

  type Trees = map<nat, Index>

  function TreeAt(trees: Trees, currTree: Index, curr: nat, b: nat): Index {
    if b == curr then currTree else if b in trees then trees[b] else map[]
  }

  ghost function TreeList(trees: Trees, currTree: Index, curr: nat): (cs: seq<Index>)
    ensures |cs| == MAX_BUCKET_COUNT
  {
    seq(MAX_BUCKET_COUNT, b requires 0 <= b < MAX_BUCKET_COUNT => TreeAt(trees, currTree, curr, b))
  }

  /** Every bucket that has been rotated out and holds records has a hint made of its tree. */
  ghost predicate HintsOk(td: nat, tpos: int, t: Table, curr: nat, hints: map<nat, seq<byte>>, trees: Trees,
                          currTree: Index)
    requires td <= 8
  {
    && TableOk(t) && |t| == MAX_BUCKET_COUNT && TreesOk(td, tpos, t, TreeList(trees, currTree, curr))
    && Ready(td, tpos, currTree) && (forall b :: b in trees ==> b < curr)
    && (forall b: nat :: b < curr && b < |t| && t[b] != [] ==> b in hints && b in trees && TreeHint(hints[b], trees[b]))
  }

  /** No tombstone is missing from any tree. */
  ghost predicate AllComplete(td: nat, tpos: int, t: Table, curr: nat, trees: Trees, currTree: Index)
    requires td <= 8 && |t| == MAX_BUCKET_COUNT
  {
    forall b: nat :: b < |t| ==> Complete(td, tpos, t[b], TreeAt(trees, currTree, curr, b))
  }

  lemma TreeRow(td: nat, tpos: int, t: Table, curr: nat, hints: map<nat, seq<byte>>, trees: Trees, currTree: Index,
                b: nat)
    requires td <= 8 && HintsOk(td, tpos, t, curr, hints, trees, currTree) && b < |t|
    ensures AllSound(t[b]) && Knows(td, tpos, t[b], TreeAt(trees, currTree, curr, b))
  {
    hide AllSound, Knows, Ready, TreeHint;
    assert TreeList(trees, currTree, curr)[b] == TreeAt(trees, currTree, curr, b);
  }

  lemma TreesBehind(td: nat, tpos: int, t: Table, curr: nat, hints: map<nat, seq<byte>>, trees: Trees, currTree: Index)
    requires td <= 8 && HintsOk(td, tpos, t, curr, hints, trees, currTree)
    ensures TableOk(t) && TreesOk(td, tpos, t, TreeList(trees, currTree, curr))
  {
    hide TreesOk, Ready, TreeHint;
  }

  /** A rotation changes no bucket's tree. */
  lemma SameTrees(td: nat, tpos: int, t: Table, curr: nat, hints: map<nat, seq<byte>>, trees: Trees, currTree: Index,
                  curr': nat)
    requires td <= 8 && HintsOk(td, tpos, t, curr, hints, trees, currTree) && curr < curr'
    ensures TreeList(trees[curr := currTree], map[], curr') == TreeList(trees, currTree, curr)
  {
    hide TreesOk, Ready, TreeHint, TableOk;
  }

  lemma TreeRows(td: nat, tpos: int, t: Table, curr: nat, trees: Trees, currTree: Index)
    requires td <= 8 && TableOk(t) && |t| == MAX_BUCKET_COUNT
    requires forall b: nat :: b < |t| ==> Knows(td, tpos, t[b], TreeAt(trees, currTree, curr, b))
    ensures TreesOk(td, tpos, t, TreeList(trees, currTree, curr))
  {
    hide AllSound, Knows;
  }

  /** Rotation: the tree becomes the hint of its bucket, and a new one is begun. */
  lemma HintsRotate(td: nat, tpos: int, t: Table, curr: nat, hints: map<nat, seq<byte>>, trees: Trees, currTree: Index,
                    curr': nat, hint: seq<byte>)
    requires td <= 8 && HintsOk(td, tpos, t, curr, hints, trees, currTree) && curr < curr' && curr < |t|
    requires TreeHint(hint, currTree) && forall b: nat :: curr < b < |t| ==> t[b] == []
    ensures HintsOk(td, tpos, t, curr', hints[curr := hint], trees[curr := currTree], map[])
    ensures AllComplete(td, tpos, t, curr, trees, currTree) ==>
      AllComplete(td, tpos, t, curr', trees[curr := currTree], map[])
  {
    hide AllSound, Knows, TreeHint, Complete, Accepts, InRange;
    forall b: nat | b < |t|
      ensures Knows(td, tpos, t[b], TreeAt(trees[curr := currTree], map[], curr', b))
      ensures AllComplete(td, tpos, t, curr, trees, currTree) ==>
        Complete(td, tpos, t[b], TreeAt(trees[curr := currTree], map[], curr', b))
    {
      TreeRow(td, tpos, t, curr, hints, trees, currTree, b);
      KnowsNothing(td, tpos);
    }
    TreeRows(td, tpos, t, curr', trees[curr := currTree], map[]);
  }

  /** An append to the current bucket. */
  lemma HintsAppend(td: nat, tpos: int, t: Table, curr: nat, hints: map<nat, seq<byte>>, trees: Trees, currTree: Index,
                    s: Rec, e: Entry)
    requires td <= 8 && HintsOk(td, tpos, t, curr, hints, trees, currTree) && curr < |t| && Sound(s) && CheckKey(s.key)
    requires AllSound(t[curr]) && EntryOfLast(t[curr], s, e) && InRange(e)
    ensures var t', c' := t[curr := t[curr] + [s]], WithEntry(td, tpos, currTree, s.key, e);
      && HintsOk(td, tpos, t', curr, hints, trees, c')
      && (AllComplete(td, tpos, t, curr, trees, currTree) ==> AllComplete(td, tpos, t', curr, trees, c'))
  {
    hide Sound, Knows, TreeHint, Complete, CheckKey, InBucket, InRange, EntryOfLast;
    var t', c' := t[curr := t[curr] + [s]], WithEntry(td, tpos, currTree, s.key, e);
    AllSoundConcat(t[curr], [s]);
    assert TableOk(t');
    forall b: nat | b < |t|
      ensures Knows(td, tpos, t'[b], TreeAt(trees, c', curr, b))
      ensures AllComplete(td, tpos, t, curr, trees, currTree) ==> Complete(td, tpos, t'[b], TreeAt(trees, c', curr, b))
    {
      TreeRow(td, tpos, t, curr, hints, trees, currTree, b);
      if b == curr { KnowsAppend(td, tpos, t[b], currTree, s, e); }
    }
    TreeRows(td, tpos, t', curr, trees, c');
  }

  /** A change of the current tree alone. */
  lemma HintsChange(td: nat, tpos: int, t: Table, curr: nat, hints: map<nat, seq<byte>>, trees: Trees, currTree: Index,
                    c': Index)
    requires td <= 8 && HintsOk(td, tpos, t, curr, hints, trees, currTree) && Ready(td, tpos, c')
    requires curr < |t| ==> AllSound(t[curr]) && Knows(td, tpos, t[curr], c')
    ensures HintsOk(td, tpos, t, curr, hints, trees, c')
    ensures AllComplete(td, tpos, t, curr, trees, currTree) && (curr < |t| ==> Complete(td, tpos, t[curr], c')) ==>
      AllComplete(td, tpos, t, curr, trees, c')
  {
    hide AllSound, Knows, TreeHint, Complete, Ready;
    forall b: nat | b < |t| ensures Knows(td, tpos, t[b], TreeAt(trees, c', curr, b)) {
      TreeRow(td, tpos, t, curr, hints, trees, currTree, b);
    }
    TreeRows(td, tpos, t, curr, trees, c');
    if AllComplete(td, tpos, t, curr, trees, currTree) && (curr < |t| ==> Complete(td, tpos, t[curr], c')) {
      forall b: nat | b < |t| ensures Complete(td, tpos, t[b], TreeAt(trees, c', curr, b)) {
        assert Complete(td, tpos, t[b], TreeAt(trees, currTree, curr, b));
      }
    }
  }
}
