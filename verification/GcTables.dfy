/** What one step of garbage collection does to the records and to the index, and why a replay
    before and after the step gives the same live keys. */
module GcTables {
  import opened Bytes
  import opened HTreeLeaf
  import opened HTreeApi
  import opened Record
  import opened DataFile
  import opened Buffers
  import opened Protocol
  import opened SetRules
  import opened Replay
  import opened Store
  import opened Lasts
  import opened HintTrees

  /** `from` lists the survivors among the first `n` records, in order. */
  ghost predicate PicksTo(index: Index, recs: seq<Rec>, b: nat, from: seq<nat>, n: nat)
    requires AllSound(recs) && n <= |recs|
  {
    && (forall x :: 0 <= x < |from| ==> from[x] < n && Survivor(index, recs, b, from[x]))
    && (forall x, y :: 0 <= x < y < |from| ==> from[x] < from[y])
    && (forall j: nat :: j < n && Survivor(index, recs, b, j) ==> j in from)
  }

  ghost predicate Picks(index: Index, recs: seq<Rec>, b: nat, from: seq<nat>)
    requires AllSound(recs)
  {
    PicksTo(index, recs, b, from, |recs|)
  }

  /** `s'` holds what `s` holds, with the version the index has. */
  ghost predicate Rewrites(s: Rec, ver: int, s': Rec) {
    && Sound(s) && Sound(s') && s'.key == s.key && s'.version == ver
    && Plain(s').flag == Plain(s).flag && Plain(s').value == Plain(s).value
  }

  ghost predicate Copied(index: Index, recs: seq<Rec>, from: seq<nat>, added: seq<Rec>) {
    && |added| == |from|
    && forall x :: 0 <= x < |from| ==> CopiedAt(index, recs, from[x], added[x])
  }

  ghost predicate CopiedAt(index: Index, recs: seq<Rec>, j: nat, s: Rec) {
    j < |recs| && recs[j].key in index && Rewrites(recs[j], index[recs[j].key].ver, s)
  }

  predicate Within(keys: seq<Rec>, k: Key) {
    exists x :: 0 <= x < |keys| && keys[x].key == k
  }

  /** Moved keys get their new position, other live keys keep theirs, dead ones may go. */
  ghost predicate Relocated(index: Index, index': Index, dest: seq<Rec>, added: seq<Rec>, d: nat)
    requires AllSound(dest) && AllSound(added)
  {
    && (forall k :: k in index' ==> k in index && index'[k].ver == index[k].ver && index'[k].hash == index[k].hash)
    && (forall k :: Live(index, k) ==> k in index')
    && (forall k :: k in index' && !Within(added, k) ==> index'[k] == index[k])
    && (forall x :: 0 <= x < |added| && added[x].key in index' ==>
      index'[added[x].key].pos == NewStart(dest, added, x) + d)
  }

  ghost function NewStart(dest: seq<Rec>, added: seq<Rec>, x: nat): nat
    requires AllSound(dest) && AllSound(added) && x < |added|
  {
    AllSoundConcat(dest, added);
    StartOf(dest + added, |dest| + x)
  }

  /** Every record of the buckets up to `last` is live where it is. */
  ghost predicate AllLive(t: Table, index: Index, last: int)
    requires TableOk(t)
  {
    forall c, j: nat :: 0 <= c <= last && c < |t| && j < |t[c]| ==> Survivor(index, t[c], c, j)
  }

  predicate Gap(t: Table, last: int, i: nat) {
    forall c :: last < c < i && 0 <= c < |t| ==> t[c] == []
  }

  ghost predicate GcInv(td: nat, tpos: int, t: Table, index: Index, last: int, i: nat)
    requires td <= 8
  {
    && TableOk(t) && -1 <= last < i <= |t|
    && Mirrors(index, ReplayTable(td, tpos, t)) && AllLive(t, index, last) && Gap(t, last, i)
  }

  function Target(t: Table, b: nat, d: nat): seq<Rec>
    requires d <= b < |t|
  {
    if d == b then [] else t[d]
  }

  /** The source bucket is gone and its survivors are behind the target's records. */
  function SweptTable(t: Table, b: nat, d: nat, added: seq<Rec>): Table
    requires d <= b < |t|
  {
    t[b := []][d := Target(t, b, d) + added]
  }

  /** One call of optimizeDataFile that returned 0. */
  ghost predicate Swept(td: nat, tpos: int, t: Table, index: Index, last: int, b: nat, d: nat,
                        from: seq<nat>, added: seq<Rec>, index': Index)
    requires td <= 8
  {
    && GcInv(td, tpos, t, index, last, b) && b < |t| && last <= d <= last + 1 && 0 <= d <= b
    && Picks(index, t[b], b, from) && Copied(index, t[b], from, added) && AllSound(added)
    && Relocated(index, index', Target(t, b, d), added, d)
  }

  // ---- Facts about one step ---------------------------------------------------------------------

  lemma SweptTableOk(t: Table, b: nat, d: nat, added: seq<Rec>)
    requires TableOk(t) && d <= b < |t| && AllSound(added)
    ensures TableOk(SweptTable(t, b, d, added)) && AllSound(Target(t, b, d))
  {
    hide Sound;
    AllSoundConcat(Target(t, b, d), added);
  }

  /** Two survivors of a file never share their key. */
  lemma SurvivorsDiffer(index: Index, recs: seq<Rec>, b: nat, i: nat, j: nat)
    requires AllSound(recs) && i < j < |recs| && Survivor(index, recs, b, i) && Survivor(index, recs, b, j)
    ensures recs[i].key != recs[j].key
  {
    hide Sound, FileBytes, RecordLength;
    OffsetGrows(recs, i, j);
    RecordAt(recs, i);
  }

  lemma AddedKeys(index: Index, recs: seq<Rec>, b: nat, from: seq<nat>, added: seq<Rec>, x: nat)
    requires AllSound(recs) && Picks(index, recs, b, from) && Copied(index, recs, from, added) && x < |added|
    ensures added[x].key == recs[from[x]].key && Survivor(index, recs, b, from[x]) && Live(index, added[x].key)
    ensures forall y :: x < y < |added| ==> added[y].key != added[x].key
  {
    hide Sound, StartOf, Plain;
    assert CopiedAt(index, recs, from[x], added[x]);
    forall y | x < y < |added| ensures added[y].key != added[x].key {
      assert CopiedAt(index, recs, from[y], added[y]);
      SurvivorsDiffer(index, recs, b, from[x], from[y]);
    }
  }

  lemma AddedNoKey(index: Index, recs: seq<Rec>, b: nat, from: seq<nat>, added: seq<Rec>, k: Key)
    requires AllSound(recs) && Picks(index, recs, b, from) && Copied(index, recs, from, added)
    requires NoKey(recs, k) || !Live(index, k)
    ensures NoKey(added, k)
  {
    hide Sound, Picks, Rewrites, Survivor;
    forall x | 0 <= x < |added| ensures added[x].key != k {
      AddedKeys(index, recs, b, from, added, x);
      PickInside(index, recs, b, from, x);
    }
  }

  lemma PickInside(index: Index, recs: seq<Rec>, b: nat, from: seq<nat>, x: nat)
    requires AllSound(recs) && Picks(index, recs, b, from) && x < |from|
    ensures from[x] < |recs|
  {
  }

  // ---- A key that is moved ----------------------------------------------------------------------

  lemma MovedLast(t: Table, last: int, b: nat, d: nat, added: seq<Rec>, k: Key, x: nat)
    requires d <= b < |t| && Gap(t, last, b) && last <= d && x < |added| && added[x].key == k
    requires NoKeyFrom(t, k, b + 1) && forall y :: x < y < |added| ==> added[y].key != k
    ensures LastAt(SweptTable(t, b, d, added), k, d, |Target(t, b, d)| + x)
  {
    var t', dest := SweptTable(t, b, d, added), Target(t, b, d);
    assert t'[d] == dest + added;
    forall c | d + 1 <= c < |t'| ensures NoKey(t'[c], k) {
      if c > b { assert t'[c] == t[c] && NoKey(t[c], k); } else if c < b { assert t'[c] == t[c] == []; }
    }
  }

  lemma StepMoves(td: nat, tpos: int, t: Table, index: Index, last: int, b: nat, d: nat, from: seq<nat>,
                  added: seq<Rec>, index': Index, k: Key, i: nat)
    requires td <= 8 && Swept(td, tpos, t, index, last, b, d, from, added, index')
    requires Live(index, k) && LastAt(t, k, b, i) && Survivor(index, t[b], b, i) && Sound(t[b][i])
    requires CheckKey(k) && InBucket(td, tpos, k) && index[k].hash == GenHash(Plain(t[b][i]).value)
    ensures TableOk(SweptTable(t, b, d, added))
    ensures MirrorAt(index', ReplayTable(td, tpos, SweptTable(t, b, d, added)), k)
  {
    hide ReplayTable, HasPlain, RecOk, StartOf, CheckKey, InBucket, Plain, GenHash, Mirrors, AllLive, SweptTable;
    hide Target;
    SweptTableOk(t, b, d, added);
    assert i in from;
    var x :| 0 <= x < |from| && from[x] == i;
    AddedKeys(index, t[b], b, from, added, x);
    MovedLast(t, last, b, d, added, k, x);
    var t', dest := SweptTable(t, b, d, added), Target(t, b, d);
    assert CopiedAt(index, t[b], i, added[x]);
    SweptRow(t, b, d, added, x);
    LiveMirrored(td, tpos, t', index', k, d, |dest| + x);
  }

  lemma SweptRow(t: Table, b: nat, d: nat, added: seq<Rec>, x: nat)
    requires d <= b < |t| && AllSound(Target(t, b, d)) && AllSound(added) && x < |added|
    ensures var t', dest := SweptTable(t, b, d, added), Target(t, b, d);
      && |t'| == |t| && t'[d] == dest + added && AllSound(t'[d]) && t'[d][|dest| + x] == added[x]
      && StartOf(t'[d], |dest| + x) == NewStart(dest, added, x)
  {
    hide Sound, StartOf;
    AllSoundConcat(Target(t, b, d), added);
  }

  // ---- A live key that stays where it is --------------------------------------------------------

  lemma StaysLast(t: Table, last: int, b: nat, d: nat, added: seq<Rec>, k: Key, c: nat, i: nat)
    requires d <= b < |t| && Gap(t, last, b) && last <= d && c != b && LastAt(t, k, c, i) && NoKey(added, k)
    requires c > b || c <= d
    ensures LastAt(SweptTable(t, b, d, added), k, c, i)
    ensures c < |t| && i < |t[c]| && t[c] <= SweptTable(t, b, d, added)[c]
  {
    var t', dest := SweptTable(t, b, d, added), Target(t, b, d);
    assert t'[d] == dest + added;
    assert t[c] <= t'[c] && LastIn(t'[c], k, i);
    forall a | c + 1 <= a < |t'| ensures NoKey(t'[a], k) {
      assert NoKey(t[a], k);
    }
  }

  lemma StepStays(td: nat, tpos: int, t: Table, index: Index, last: int, b: nat, d: nat, from: seq<nat>,
                  added: seq<Rec>, index': Index, k: Key, c: nat, i: nat)
    requires td <= 8 && Swept(td, tpos, t, index, last, b, d, from, added, index')
    requires c != b && Live(index, k) && LastAt(t, k, c, i) && AllSound(t[c]) && Survivor(index, t[c], c, i)
    requires Sound(t[c][i]) && t[c][i].version > 0
    requires CheckKey(k) && InBucket(td, tpos, k) && index[k].hash == GenHash(Plain(t[c][i]).value)
    ensures TableOk(SweptTable(t, b, d, added))
    ensures MirrorAt(index', ReplayTable(td, tpos, SweptTable(t, b, d, added)), k)
  {
    hide ReplayTable, HasPlain, RecOk, StartOf, CheckKey, InBucket, Plain, GenHash, Mirrors, AllLive, SweptTable;
    hide Target, Picks, Copied;
    SweptTableOk(t, b, d, added);
    StayingNotAdded(t, index, last, b, from, added, k, c, i);
    StaysLast(t, last, b, d, added, k, c, i);
    var t' := SweptTable(t, b, d, added);
    StartOfPrefix(t[c], t'[c], i);
    NotWithin(added, k);
    LiveMirrored(td, tpos, t', index', k, c, i);
  }

  lemma NotWithin(added: seq<Rec>, k: Key)
    requires NoKey(added, k)
    ensures !Within(added, k)
  {
  }

  /** The survivors of bucket `b` have their index position in it. */
  lemma StayingNotAdded(t: Table, index: Index, last: int, b: nat, from: seq<nat>, added: seq<Rec>, k: Key, c: nat,
                        i: nat)
    requires TableOk(t) && b < |t| && AllSound(t[b]) && Picks(index, t[b], b, from) && Copied(index, t[b], from, added)
    requires c != b && LastAt(t, k, c, i) && AllSound(t[c]) && Survivor(index, t[c], c, i) && Gap(t, last, b)
    ensures NoKey(added, k) && (c > b || c <= last)
  {
    hide HasPlain, RecOk, StartOf, Plain, GenHash, NoKeyFrom, Copied, Picks, TableOk;
    forall x | 0 <= x < |added| ensures added[x].key != k {
      AddedPick(index, t[b], b, from, added, x);
      TableEntry(t, b, from[x]);
      TableEntry(t, c, i);
    }
  }

  lemma AddedPick(index: Index, recs: seq<Rec>, b: nat, from: seq<nat>, added: seq<Rec>, x: nat)
    requires AllSound(recs) && Picks(index, recs, b, from) && Copied(index, recs, from, added) && x < |added|
    ensures x < |from| && from[x] < |recs| && added[x].key == recs[from[x]].key && Survivor(index, recs, b, from[x])
  {
    hide Survivor;
    AddedKeys(index, recs, b, from, added, x);
  }

  // ---- A key that is not live -------------------------------------------------------------------

  lemma StepDead(td: nat, tpos: int, t: Table, index: Index, last: int, b: nat, d: nat, from: seq<nat>, added: seq<Rec>,
                 index': Index, k: Key)
    requires td <= 8 && Swept(td, tpos, t, index, last, b, d, from, added, index') && !Live(index, k)
    ensures TableOk(SweptTable(t, b, d, added))
    ensures MirrorAt(index', ReplayTable(td, tpos, SweptTable(t, b, d, added)), k)
  {
    hide ReplayTable, HasPlain, RecOk, StartOf, CheckKey, InBucket, Plain, GenHash, SweptTable, Target, Picks, Copied;
    hide AllLive, NoKeyFrom;
    SweptTableOk(t, b, d, added);
    var t' := SweptTable(t, b, d, added);
    AddedNoKey(index, t[b], b, from, added, k);
    if !(CheckKey(k) && InBucket(td, tpos, k)) {
      ReplayOthers(td, tpos, t', k);
    } else {
      var found, c, i := FindLast(t, k);
      if found && c > b {
        StaysLast(t, last, b, d, added, k, c, i);
        ReplayLast(td, tpos, t, k, c, i);
        ReplayLast(td, tpos, t', k, c, i);
        SameRow(t, b, d, added, c);
      } else {
        DeadNowhere(t, index, last, b, d, added, k, found, c, i);
        ReplayNone(td, tpos, t', k);
      }
    }
  }

  lemma SameRow(t: Table, b: nat, d: nat, added: seq<Rec>, c: nat)
    requires d <= b < c < |t|
    ensures SweptTable(t, b, d, added)[c] == t[c]
  {
  }

  /** Once its last record has been dropped, no record of a dead key is left. */
  lemma DeadNowhere(t: Table, index: Index, last: int, b: nat, d: nat, added: seq<Rec>, k: Key, found: bool, c: nat,
                    i: nat)
    requires TableOk(t) && d <= b < |t| && last <= d <= last + 1 && last < b && AllLive(t, index, last)
    requires Gap(t, last, b) && !Live(index, k)
    requires NoKey(added, k) && (if found then LastAt(t, k, c, i) && c <= b else NoKeyFrom(t, k, 0))
    ensures NoKeyFrom(SweptTable(t, b, d, added), k, 0)
  {
    hide AllSound, StartOf;
    var t' := SweptTable(t, b, d, added);
    forall a | 0 <= a < |t'| ensures NoKey(t'[a], k) {
      if a <= last {
        LiveBucket(t, index, last, a, k);
      } else if a > b {
        assert NoKey(t[a], k);
      }
    }
  }

  lemma LiveBucket(t: Table, index: Index, last: int, a: nat, k: Key)
    requires TableOk(t) && a < |t| && a <= last && AllLive(t, index, last) && !Live(index, k)
    ensures NoKey(t[a], k)
  {
    hide AllSound, StartOf;
    forall j | 0 <= j < |t[a]| ensures t[a][j].key != k {
      assert Survivor(index, t[a], a, j);
    }
  }

  // ---- The step as a whole ----------------------------------------------------------------------

  lemma StepMirrors(td: nat, tpos: int, t: Table, index: Index, last: int, b: nat, d: nat, from: seq<nat>,
                    added: seq<Rec>, index': Index)
    requires td <= 8 && Swept(td, tpos, t, index, last, b, d, from, added, index')
    ensures TableOk(SweptTable(t, b, d, added)) && Mirrors(index', ReplayTable(td, tpos, SweptTable(t, b, d, added)))
  {
    hide ReplayTable, AllSound, StartOf, CheckKey, InBucket, Plain, GenHash, SweptTable, Swept, Live, LastAt;
    hide Survivor, Sound, TableOk;
    SweptOk(td, tpos, t, index, last, b, d, from, added, index');
    SweptTableOk(t, b, d, added);
    var m' := ReplayTable(td, tpos, SweptTable(t, b, d, added));
    forall k ensures MirrorAt(index', m', k) {
      if Live(index, k) {
        var c, i := LiveAtLast(td, tpos, t, index, k);
        if c == b {
          StepMoves(td, tpos, t, index, last, b, d, from, added, index', k, i);
        } else {
          StepStays(td, tpos, t, index, last, b, d, from, added, index', k, c, i);
        }
      } else {
        StepDead(td, tpos, t, index, last, b, d, from, added, index', k);
      }
    }
    MirrorsPointwise(index', m');
  }

  lemma SweptOk(td: nat, tpos: int, t: Table, index: Index, last: int, b: nat, d: nat, from: seq<nat>, added: seq<Rec>,
                index': Index)
    requires td <= 8 && Swept(td, tpos, t, index, last, b, d, from, added, index')
    ensures TableOk(t) && Mirrors(index, ReplayTable(td, tpos, t)) && d <= b < |t| && AllSound(added)
  {
  }

  /** What was collected stays live where it was put. */
  lemma StepAllLive(td: nat, tpos: int, t: Table, index: Index, last: int, b: nat, d: nat, from: seq<nat>,
                    added: seq<Rec>, index': Index)
    requires td <= 8 && Swept(td, tpos, t, index, last, b, d, from, added, index')
    ensures TableOk(SweptTable(t, b, d, added)) && AllLive(SweptTable(t, b, d, added), index', d)
  {
    hide ReplayTable, HasPlain, RecOk, StartOf, Plain, Mirrors, Picks, Copied, SweptTable, NewStart;
    SweptTableOk(t, b, d, added);
    var t', dest := SweptTable(t, b, d, added), Target(t, b, d);
    forall c, j: nat | 0 <= c <= d && c < |t'| && j < |t'[c]| ensures Survivor(index', t'[c], c, j) {
      SweptCell(t, b, d, added, c, j);
      if c == d && j >= |dest| {
        var x := j - |dest|;
        AddedPick(index, t[b], b, from, added, x);
        SweptRow(t, b, d, added, x);
      } else {
        assert Survivor(index, t[c], c, j);
        OldNotAdded(t, index, b, from, added, c, j);
        StartOfPrefix(t[c], t'[c], j);
      }
    }
  }

  lemma SweptCell(t: Table, b: nat, d: nat, added: seq<Rec>, c: nat, j: nat)
    requires d <= b < |t| && c <= d && j < |SweptTable(t, b, d, added)[c]|
    ensures var t', dest := SweptTable(t, b, d, added), Target(t, b, d);
      if c == d && j >= |dest| then j - |dest| < |added| && t'[c][j] == added[j - |dest|]
      else c < b && j < |t[c]| && t[c] <= t'[c] && t'[c][j] == t[c][j]
  {
  }

  lemma OldNotAdded(t: Table, index: Index, b: nat, from: seq<nat>, added: seq<Rec>, c: nat, j: nat)
    requires TableOk(t) && c < b < |t| && AllSound(t[b]) && Picks(index, t[b], b, from)
    requires Copied(index, t[b], from, added)
    requires j < |t[c]| && AllSound(t[c]) && Survivor(index, t[c], c, j)
    ensures !Within(added, t[c][j].key)
  {
    hide AllSound, EntryOf, StartOf, Copied, Picks, TableOk;
    TableEntry(t, c, j);
    forall x | 0 <= x < |added| ensures added[x].key != t[c][j].key {
      AddedPick(index, t[b], b, from, added, x);
      TableEntry(t, b, from[x]);
    }
  }

  /** One collected file: the target is where the invariant wants it, and no further than the source. */
  lemma StepKeeps(td: nat, tpos: int, t: Table, index: Index, last: int, b: nat, d: nat, from: seq<nat>,
                  added: seq<Rec>, index': Index)
    requires td <= 8 && Swept(td, tpos, t, index, last, b, d, from, added, index')
    ensures GcInv(td, tpos, SweptTable(t, b, d, added), index', d, b + 1)
  {
    hide ReplayTable, AllSound, Mirrors, AllLive, Picks, Copied, Relocated;
    StepMirrors(td, tpos, t, index, last, b, d, from, added, index');
    StepAllLive(td, tpos, t, index, last, b, d, from, added, index');
  }

  // ---- Contents ---------------------------------------------------------------------------------

  /** Only dead keys may be missing. */
  predicate OnlyDeadGone(kv: map<Key, Cell>, kv': map<Key, Cell>) {
    && (forall k :: k in kv' ==> k in kv && kv'[k] == kv[k])
    && (forall k :: k in kv && kv[k].ver > 0 ==> k in kv')
  }

  function Restrict(kv: map<Key, Cell>, index: Index): map<Key, Cell> {
    map k | k in kv && k in index :: kv[k]
  }

  lemma StepCell(td: nat, tpos: int, t: Table, index: Index, last: int, b: nat, d: nat, from: seq<nat>, added: seq<Rec>,
                 index': Index, k: Key, cell: Cell)
    requires td <= 8 && Swept(td, tpos, t, index, last, b, d, from, added, index')
    requires k in index' && CellOk(t, k, index[k], cell)
    ensures CellOk(SweptTable(t, b, d, added), k, index'[k], cell)
  {
    hide ReplayTable, HasPlain, RecOk, StartOf, Plain, Mirrors, SweptTable, NewStart, GenHash, Gap, AllLive, Target;
    SweptTableOk(t, b, d, added);
    if cell.ver > 0 {
      var s :| At(t, index[k], s) && Sound(s) && s.key == k
        && Plain(s).flag == cell.flag && Plain(s).value == cell.value;
      if Within(added, k) {
        var x :| 0 <= x < |added| && added[x].key == k;
        AddedPick(index, t[b], b, from, added, x);
        MovedCell(t, b, d, added, x, index'[k]);
        TableEntry(t, b, from[x]);
        SurvivorAt(t, index, b, from[x]);
        AtOnce(t, index[k], s, t[b][from[x]]);
        assert CopiedAt(index, t[b], from[x], added[x]);
        assert At(SweptTable(t, b, d, added), index'[k], added[x]);
      } else {
        NotInSource(td, tpos, t, index, last, b, d, from, added, index', k);
        StayingCell(t, b, d, added, index[k], s);
      }
    }
  }

  lemma SurvivorAt(t: Table, index: Index, b: nat, j: nat)
    requires TableOk(t) && b < |t| && j < |t[b]| && AllSound(t[b]) && Survivor(index, t[b], b, j)
    ensures At(t, index[t[b][j].key], t[b][j])
  {
    hide HasPlain, RecOk, StartOf;
    TableEntry(t, b, j);
  }

  lemma MovedCell(t: Table, b: nat, d: nat, added: seq<Rec>, x: nat, e: Entry)
    requires TableOk(t) && d <= b < |t| && AllSound(Target(t, b, d)) && AllSound(added) && x < |added|
    requires e.pos == NewStart(Target(t, b, d), added, x) + d
    ensures At(SweptTable(t, b, d, added), e, added[x])
  {
    hide HasPlain, RecOk, StartOf, NewStart, SweptTable;
    SweptTableOk(t, b, d, added);
    SweptRow(t, b, d, added, x);
    var t', i := SweptTable(t, b, d, added), |Target(t, b, d)| + x;
    TableEntry(t', d, i);
  }

  lemma SurvivorCopied(index: Index, recs: seq<Rec>, b: nat, from: seq<nat>, added: seq<Rec>, i: nat)
    requires AllSound(recs) && Picks(index, recs, b, from) && Copied(index, recs, from, added)
    requires i < |recs| && Survivor(index, recs, b, i)
    ensures Within(added, recs[i].key)
  {
    hide Sound, StartOf, Plain;
    assert i in from;
    var x :| 0 <= x < |from| && from[x] == i;
    AddedKeys(index, recs, b, from, added, x);
  }

  /** A live key that is not copied does not have its position in the source. */
  lemma NotInSource(td: nat, tpos: int, t: Table, index: Index, last: int, b: nat, d: nat, from: seq<nat>,
                    added: seq<Rec>, index': Index, k: Key)
    requires td <= 8 && Swept(td, tpos, t, index, last, b, d, from, added, index') && Live(index, k)
    ensures Within(added, k) || Bucket(index[k]) != b
  {
    hide ReplayTable, HasPlain, RecOk, StartOf, Plain, GenHash, AllLive, CheckKey, InBucket, Picks, Copied, Relocated;
    hide Within, NoKeyFrom, Mirrors;
    var c, i := LiveAtLast(td, tpos, t, index, k);
    TableEntry(t, c, i);
    if c == b {
      SurvivorCopied(index, t[b], b, from, added, i);
    }
  }

  lemma StayingCell(t: Table, b: nat, d: nat, added: seq<Rec>, e: Entry, s: Rec)
    requires TableOk(t) && d <= b < |t| && AllSound(added) && At(t, e, s) && Bucket(e) != b
    ensures At(SweptTable(t, b, d, added), e, s)
  {
    hide IsAt, AllSound;
    SweptTableOk(t, b, d, added);
    var t' := SweptTable(t, b, d, added);
    assert t[Bucket(e)] <= t'[Bucket(e)];
    StaysAt(t[Bucket(e)], t'[Bucket(e)], Position(e), s);
  }

  /** Every live key keeps its version, flag and value; no dead key becomes live. */
  lemma StepCells(td: nat, tpos: int, t: Table, index: Index, last: int, b: nat, d: nat, from: seq<nat>,
                  added: seq<Rec>, index': Index, kv: map<Key, Cell>)
    requires td <= 8 && Swept(td, tpos, t, index, last, b, d, from, added, index') && CellsOk(td, tpos, t, index, kv)
    ensures CellsOk(td, tpos, SweptTable(t, b, d, added), index', Restrict(kv, index'))
    ensures OnlyDeadGone(kv, Restrict(kv, index'))
  {
    hide ReplayTable, AllSound, Mirrors, AllLive, Picks, Copied, CellOk, SweptTable, CheckKey, InBucket, Gap, TableOk;
    forall k | k in index'
      ensures CellOk(SweptTable(t, b, d, added), k, index'[k], kv[k]) && CheckKey(k) && InBucket(td, tpos, k)
    {
      StepCell(td, tpos, t, index, last, b, d, from, added, index', k, kv[k]);
    }
    forall k | k in kv && kv[k].ver > 0 ensures k in index' {
      CellVersion(t, k, index[k], kv[k]);
      assert Live(index, k);
    }
  }

  // ---- Renumbering the current bucket -----------------------------------------------------------

  function MovedTable(t: Table, curr: nat, d: nat): Table
    requires d < curr < |t|
  {
    t[curr := []][d := t[curr]]
  }

  /** update_item_pos for every entry of the tree of the current bucket: what has the position that the
      tree has gets bucket number `d`. */
  function Renumber(index: Index, currTree: Index, d: byte): (r: Index)
    ensures r.Keys == index.Keys
  {
    map k | k in index :: RenumberEntry(index, currTree, d, k)
  }

  function RenumberEntry(index: Index, currTree: Index, d: byte, k: Key): Entry
    requires k in index
  {
    var e := index[k];
    if k in currTree && currTree[k].pos == e.pos then e.(pos := e.pos - e.pos % 256 + d as int) else e
  }

  /** An entry of the current bucket gets the new number if and only if the tree has its position. */
  lemma RenumberExactly(index: Index, currTree: Index, curr: nat, d: byte, k: Key)
    requires k in index && Bucket(index[k]) == curr != d
    ensures Bucket(Renumber(index, currTree, d)[k]) == d <==> KnownAt(index, currTree, curr, k)
    ensures !KnownAt(index, currTree, curr, k) ==> Renumber(index, currTree, d)[k] == index[k]
  {
    var e := index[k];
    DivMod(e.pos - e.pos % 256 + d as int, 256, e.pos / 256, d as int);
  }

  /** Live entries of the current bucket get its new number, other live entries stay; nothing but
      positions changes. */
  ghost predicate Renumbered(index: Index, index': Index, curr: nat, d: nat) {
    && index'.Keys == index.Keys
    && (forall k :: k in index ==> index'[k] == index[k].(pos := index'[k].pos))
    && (forall k :: Live(index, k) && Bucket(index[k]) != curr ==> index'[k] == index[k])
    && (forall k :: Live(index, k) && Bucket(index[k]) == curr ==>
      index'[k] == index[k].(pos := index[k].pos - curr + d))
  }

  /** A key whose last record is in another bucket is not in the tree of the current one. */
  lemma ElsewhereUnknown(td: nat, tpos: int, t: Table, index: Index, currTree: Index, curr: nat, k: Key)
    requires td <= 8 && TableOk(t) && curr < |t| && AllSound(t[curr]) && Knows(td, tpos, t[curr], currTree)
    requires Mirrors(index, ReplayTable(td, tpos, t)) && Live(index, k) && Bucket(index[k]) != curr
    requires forall b: nat :: curr < b < |t| ==> t[b] == []
    ensures k !in currTree && Bucket(index[k]) < curr && t[Bucket(index[k])] != []
  {
    hide ReplayTable, AllSound, StartOf, CheckKey, InBucket, GenHash, Plain, EntryFor, Mirrors, TableOk, Knows;
    var b, i := LiveAtLast(td, tpos, t, index, k);
    TableEntry(t, b, i);
    assert b < curr && NoKey(t[curr], k);
    NoEntry(td, tpos, t[curr], currTree, k);
  }

  lemma RenumberedIs(td: nat, tpos: int, t: Table, index: Index, currTree: Index, curr: nat, d: byte)
    requires td <= 8 && TableOk(t) && curr < |t| && AllSound(t[curr]) && Knows(td, tpos, t[curr], currTree)
    requires Mirrors(index, ReplayTable(td, tpos, t)) && CurrentKnown(index, currTree, curr) && d < curr
    requires forall b: nat :: curr < b < |t| ==> t[b] == []
    ensures Renumbered(index, Renumber(index, currTree, d), curr, d)
  {
    hide ReplayTable, AllSound, Mirrors, TableOk, Knows, Position;
    forall k | Live(index, k) && Bucket(index[k]) != curr ensures Renumber(index, currTree, d)[k] == index[k] {
      ElsewhereUnknown(td, tpos, t, index, currTree, curr, k);
    }
    forall k | Live(index, k) && Bucket(index[k]) == curr
      ensures Renumber(index, currTree, d)[k] == index[k].(pos := index[k].pos - curr + d as int)
    {
      assert KnownAt(index, currTree, curr, k);
    }
  }

  lemma MovedTableOk(t: Table, curr: nat, d: nat)
    requires TableOk(t) && d < curr < |t|
    ensures TableOk(MovedTable(t, curr, d))
  {
    hide Sound;
  }

  lemma RenumberLast(t: Table, k: Key, curr: nat, d: nat, c: nat, i: nat)
    requires d < curr < |t| && Gap(t, d - 1, curr) && LastAt(t, k, c, i)
    ensures LastAt(MovedTable(t, curr, d), k, if c == curr then d else c, i)
    ensures MovedTable(t, curr, d)[if c == curr then d else c] == t[c]
  {
    var t' := MovedTable(t, curr, d);
    var c' := if c == curr then d else c;
    assert !(d <= c < curr);
    assert t'[c'] == t[c];
    forall a | c' + 1 <= a < |t'| ensures NoKey(t'[a], k) {
      if a == d {
        assert NoKey(t[curr], k);
      } else if a > curr || a < d {
        assert NoKey(t[a], k);
      } else {
        assert t'[a] == [];
      }
    }
  }

  lemma RenumberNone(t: Table, k: Key, curr: nat, d: nat)
    requires d < curr < |t| && NoKeyFrom(t, k, 0)
    ensures NoKeyFrom(MovedTable(t, curr, d), k, 0)
  {
    var t' := MovedTable(t, curr, d);
    forall a | 0 <= a < |t'| ensures NoKey(t'[a], k) {
      assert NoKey(t[curr], k) && NoKey(t[a], k);
    }
  }

  lemma RenumberMirrorsKey(td: nat, tpos: int, t: Table, index: Index, curr: nat, d: nat, index': Index, k: Key)
    requires td <= 8 && TableOk(t) && d < curr < |t| && Gap(t, d - 1, curr) && Mirrors(index, ReplayTable(td, tpos, t))
    requires Renumbered(index, index', curr, d)
    ensures TableOk(MovedTable(t, curr, d)) && MirrorAt(index', ReplayTable(td, tpos, MovedTable(t, curr, d)), k)
  {
    hide ReplayTable, HasPlain, RecOk, StartOf, CheckKey, InBucket, Plain, GenHash, MovedTable, NoKeyFrom, Gap;
    MovedTableOk(t, curr, d);
    var t' := MovedTable(t, curr, d);
    if Live(index, k) {
      var c, i := LiveAtLast(td, tpos, t, index, k);
      RenumberLast(t, k, curr, d, c, i);
      TableEntry(t, c, i);
      var c' := if c == curr then d else c;
      LiveMirrored(td, tpos, t', index', k, c', i);
    } else if !(CheckKey(k) && InBucket(td, tpos, k)) {
      ReplayOthers(td, tpos, t', k);
    } else {
      var found, c, i := FindLast(t, k);
      if found {
        RenumberLast(t, k, curr, d, c, i);
        ReplayLast(td, tpos, t, k, c, i);
        ReplayLast(td, tpos, t', k, if c == curr then d else c, i);
      } else {
        RenumberNone(t, k, curr, d);
        ReplayNone(td, tpos, t', k);
      }
    }
  }

  lemma RenumberMirrors(td: nat, tpos: int, t: Table, index: Index, curr: nat, d: nat, index': Index)
    requires td <= 8 && TableOk(t) && d < curr < |t| && Gap(t, d - 1, curr) && Mirrors(index, ReplayTable(td, tpos, t))
    requires Renumbered(index, index', curr, d)
    ensures TableOk(MovedTable(t, curr, d)) && Mirrors(index', ReplayTable(td, tpos, MovedTable(t, curr, d)))
  {
    hide ReplayTable, AllSound, MovedTable, Gap, Renumbered, Mirrors, MirrorAt;
    MovedTableOk(t, curr, d);
    var m' := ReplayTable(td, tpos, MovedTable(t, curr, d));
    forall k ensures MirrorAt(index', m', k) {
      RenumberMirrorsKey(td, tpos, t, index, curr, d, index', k);
    }
    MirrorsPointwise(index', m');
  }

  lemma RenumberAt(t: Table, curr: nat, d: nat, e: Entry, s: Rec)
    requires TableOk(t) && d < curr < |t| && Gap(t, d - 1, curr) && At(t, e, s)
    ensures var e' := if Bucket(e) == curr then e.(pos := e.pos - curr + d) else e; At(MovedTable(t, curr, d), e', s)
  {
    hide AllSound, StartOf;
    if Bucket(e) == curr {
      DivMod(e.pos - curr + d, 256, e.pos / 256, d);
    } else {
      assert !(d <= Bucket(e) < curr);
    }
  }

  lemma RenumberCells(td: nat, tpos: int, t: Table, index: Index, curr: nat, d: nat, index': Index, kv: map<Key, Cell>)
    requires td <= 8 && TableOk(t) && d < curr < |t| && Gap(t, d - 1, curr) && Renumbered(index, index', curr, d)
    requires CellsOk(td, tpos, t, index, kv)
    ensures CellsOk(td, tpos, MovedTable(t, curr, d), index', kv)
  {
    hide AllSound, CheckKey, InBucket, TableOk, Gap, MovedTable, At, Plain, Sound, GenHash;
    forall k | k in index'
      ensures CellOk(MovedTable(t, curr, d), k, index'[k], kv[k]) && CheckKey(k) && InBucket(td, tpos, k)
    {
      var e, c := index[k], kv[k];
      assert CellOk(t, k, e, c);
      if c.ver > 0 {
        var s :| At(t, e, s) && Sound(s) && s.key == k && Plain(s).flag == c.flag && Plain(s).value == c.value;
        RenumberAt(t, curr, d, e, s);
        assert Live(index, k);
      }
    }
  }
}
