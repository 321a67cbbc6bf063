/** Collections in the life of a store: before a restart, twice in a row, and anywhere in a run. */
module GcTrace {
  import opened Bytes
  import opened HTreeLeaf
  import HTreePool
  import opened HashTree
  import opened HTreeApi
  import opened DataFile
  import opened Buffers
  import opened Protocol
  import opened SetRules
  import opened Bitcask
  import opened Replay
  import opened Lasts
  import opened HintTrees
  import opened CurrentTree
  import opened Store
  import opened GcTables
  import opened GcGuess
  import opened GcRun
  import opened GcStore
  import opened Recovery

  /** Collection followed by a restart: nothing live is lost, nothing dead comes back. */
  method OptimizeAndRestart(store: Store, world: World, useHints: bool, beyond: seq<byte>)
    returns (tree: HTree, files: Files, ghost m: map<Key, Entry>)
    requires store.Valid() && store.Agrees() && store.td < HTreePool.MAX_DEPTH && store.log.curr < MAX_BUCKET_COUNT
    requires FilesFit(store.log.files, store.log.curr, store.log.max) && 9 <= |beyond|
    modifies store, store.log
    ensures fresh(tree) && fresh(tree.dc) && TreeIs(tree, m)
    ensures !useHints || old(store.Counted()) ==> Recovered(old(store.kv), files, m)
  {
    hide TreeIs, Recovered, CellsOk, Mirrors, ReplayTable, Inv, Bounded, TableOf, TableOk, HintsOk, AllComplete;
    hide CurrentKnown, Fate, Live, FilesFit, OnlyDeadGone, Total, Present, Faithful;
    ghost var kv0 := store.kv;
    var ret := Optimize(store, world);
    ghost var kv1 := store.kv;
    tree, files, m := Restart(store, useHints, beyond);
    if Recovered(kv1, files, m) { RecoveredAll(kv0, kv1, files, m); }
  }

  lemma RecoveredAll(kv0: map<Key, Cell>, kv1: map<Key, Cell>, files: Files, m: map<Key, Entry>)
    requires OnlyDeadGone(kv0, kv1) && Recovered(kv1, files, m)
    ensures Recovered(kv0, files, m)
  {
    hide Answers;
  }

  // ---- Twice in a row ---------------------------------------------------------------------------

  /** Two collections with nothing in between: all is well unless both renumber the current bucket, and
      then exactly its live keys are lost. The first one does if a number below the current one is free. */
  method OptimizeTwice(store: Store, first: World, second: World) returns (ghost mid: nat)
    requires store.Valid() && store.Agrees() && store.log.curr < MAX_BUCKET_COUNT
    requires FilesFit(store.log.files, store.log.curr, store.log.max)
    modifies store`index, store`kv, store`hints, store`trees, store.log`files, store.log`done, store.log`curr
    ensures store.log.curr <= mid <= old(Present(store.log.files, store.log.curr)) <= old(store.log.curr)
    ensures mid == old(store.log.curr) || store.log.curr == mid ==>
      store.Valid() && OnlyDeadGone(old(store.kv), store.kv)
    ensures store.log.curr < mid < old(store.log.curr) ==> forall k :: Live(old(store.index), k) ==>
      (InReach(store.index, store.log.curr, k) <==> Bucket(old(store.index)[k]) != old(store.log.curr))
  {
    hide CellsOk, Mirrors, ReplayTable, Inv, Bounded, TableOf, TableOk, HintsOk, AllComplete, CurrentKnown, Fate;
    hide FilesFit, OnlyDeadGone, Total, Present, Bucket, InReach, KnownAt;
    ghost var index0, curr0, kv0 := store.index, store.log.curr, store.kv;
    var ret := Optimize(store, first);
    mid := store.log.curr;
    ghost var index1, kv1 := store.index, store.kv;
    ret := Optimize(store, second);
    if mid == curr0 || store.log.curr == mid { OnlyDeadTwice(kv0, kv1, store.kv); }
    if store.log.curr < mid < curr0 {
      forall k | Live(index0, k)
        ensures InReach(store.index, store.log.curr, k) <==> Bucket(index0[k]) != curr0
      {
        TwiceFate(index0, store.currTree, curr0, index1, mid, store.index, store.log.curr, k);
      }
    }
  }

  lemma TwiceFate(index0: Index, currTree: Index, curr0: nat, index1: Index, mid: nat, index2: Index, curr: nat, k: Key)
    requires CurrentKnown(index0, currTree, curr0) && Live(index0, k) && curr < mid < curr0
    requires Fate(index0, currTree, curr0, index1, mid, k)
    requires Live(index1, k) ==> Fate(index1, currTree, mid, index2, curr, k)
    ensures InReach(index2, curr, k) <==> Bucket(index0[k]) != curr0
  {
    hide Bucket;
  }

  // ---- Anywhere in a run ------------------------------------------------------------------------

  datatype Event = Do(op: Recovery.Op) | Collect(world: World)

  /** What an event may do to the contents: a collection may forget dead keys and nothing else. */
  predicate EventStep(td: nat, tpos: int, kv: map<Key, Cell>, event: Event, kv': map<Key, Cell>)
    requires td <= 8
  {
    match event
    case Do(op) => kv' == KvStep(td, tpos, kv, op)
    case Collect(_) => OnlyDeadGone(kv, kv')
  }

  predicate History(td: nat, tpos: int, events: seq<Event>, kvs: seq<map<Key, Cell>>)
    requires td <= 8
  {
    && 1 <= |kvs| <= |events| + 1 && kvs[0] == map[]
    && forall i :: 0 <= i < |kvs| - 1 ==> EventStep(td, tpos, kvs[i], events[i], kvs[i + 1])
  }

  /** What an event does to the log. An operation gives up the number of a bucket only if that has less
      than `top` bytes left, and adds at most its size. A collection leaves the buffers alone; the numbers
      it uses are no more than the files it found, without a gap, and the files take no more room. */
  ghost predicate Link(v: View, event: Event, w: View, max: nat, top: nat) {
    match event
    case Do(op) => v.curr <= w.curr <= v.curr + 2 && Spends(v, w, max, top, OpSize(op))
    case Collect(world) =>
      && w == v.(curr := w.curr, files := w.files, done := w.done)
      && w.curr <= Present(v.files, v.curr) && (w.curr == 0 ==> Present(v.files, v.curr) == 0)
      && NoGaps(w.files, w.curr) && Total(w.files, w.curr) <= Total(v.files, v.curr)
      && ((forall b :: world.hinted(b)) && Total(v.files, v.curr) <= max ==> w.curr <= 1)
  }

  ghost predicate Chain(events: seq<Event>, views: seq<View>, max: nat, top: nat) {
    && 1 <= |views| <= |events| + 1 && views[0] == Initial().v
    && forall i :: 0 <= i < |views| - 1 ==> Link(views[i], events[i], views[i + 1], max, top)
  }

  lemma ChainMore(events: seq<Event>, views: seq<View>, w: View, max: nat, top: nat)
    requires Chain(events, views, max, top) && |views| <= |events|
    requires Link(views[|views| - 1], events[|views| - 1], w, max, top)
    ensures Chain(events, views + [w], max, top)
  {
    hide Link;
  }

  /** Event `j` was a collection that renumbered the current bucket, and there was no rotation since. */
  ghost predicate Renumbering(events: seq<Event>, views: seq<View>, j: nat) {
    && j < |events| && j + 1 < |views| && events[j].Collect? && views[j + 1].curr < views[j].curr
    && forall l :: j < l < |views| ==> views[l].curr == views[j + 1].curr
  }

  ghost predicate Unrotated(events: seq<Event>, views: seq<View>) {
    exists j: nat :: Renumbering(events, views, j)
  }

  /** The bytes that the operations among the first `n` events may add to the log. */
  function EventVolume(events: seq<Event>, n: nat): nat
    requires n <= |events|
  {
    if n == 0 then 0 else EventVolume(events, n - 1) + if events[n - 1].Do? then OpSize(events[n - 1].op) else 0
  }

  /** How many of the first `n` events are operations, and how many are sets. */
  function Operations(events: seq<Event>, n: nat): (r: (nat, nat))
    requires n <= |events|
    ensures r.1 <= r.0 <= n
  {
    if n == 0 then (0, 0) else
    var r, e := Operations(events, n - 1), events[n - 1];
    (r.0 + if e.Do? then 1 else 0, r.1 + if e.Do? && e.op.SetOp? then 1 else 0)
  }

  lemma {:induction false} OperationsMono(events: seq<Event>, n: nat, m: nat)
    requires n <= m <= |events|
    ensures Operations(events, n).1 <= Operations(events, m).1
    decreases m
  {
    if n < m { OperationsMono(events, n, m - 1); }
  }

  lemma LinkSpends(v: View, event: Event, w: View, max: nat, top: nat, n: nat, m: nat)
    requires Link(v, event, w, max, top) && top <= max && Spent(v, max, top) <= n
    requires m == n + if event.Do? then OpSize(event.op) else 0
    ensures Spent(w, max, top) <= m
  {
    hide Total, NoGaps, Spent, Spends;
    match event {
      case Do(op) => StepSpends(v, w, max, top, OpSize(op));
      case Collect(_) => LessSpent(v, w, max, top);
    }
  }

  lemma LessSpent(v: View, w: View, max: nat, top: nat)
    requires top <= max && w.curr <= v.curr && w.wbufStart + |w.wbuf| == v.wbufStart + |v.wbuf|
    ensures Spent(w, max, top) <= Spent(v, max, top)
  {
    Scaled(max - top, w.curr, v.curr);
  }

  datatype Stop = AtEnd | Full | Unacceptable | Stale | Oversize

  lemma HistoryMore(td: nat, tpos: int, events: seq<Event>, kvs: seq<map<Key, Cell>>, kv': map<Key, Cell>)
    requires td <= 8 && History(td, tpos, events, kvs) && |kvs| <= |events|
    requires EventStep(td, tpos, kvs[|kvs| - 1], events[|kvs| - 1], kv')
    ensures History(td, tpos, events, kvs + [kv'])
  {
    hide EventStep;
  }

  /** A rotation ends the wait; an event that keeps the number does not change it. */
  lemma UnrotatedMore(events: seq<Event>, views: seq<View>, w: View)
    requires 1 <= |views| <= |events|
    ensures Unrotated(events, views) && w.curr == views[|views| - 1].curr ==> Unrotated(events, views + [w])
    ensures events[|views| - 1].Collect? && w.curr < views[|views| - 1].curr ==> Unrotated(events, views + [w])
  {
    var more, n := views + [w], |views| - 1;
    if Unrotated(events, views) && w.curr == views[n].curr {
      var j: nat :| Renumbering(events, views, j);
      assert Renumbering(events, more, j);
    }
    if events[n].Collect? && w.curr < views[n].curr { assert Renumbering(events, more, n); }
  }

  lemma IndexVersion(td: nat, tpos: int, t: Table, index: Index, kv: map<Key, Cell>, key: Key)
    requires td <= 8 && CellsOk(td, tpos, t, index, kv)
    ensures VersionOf(CellOf(kv, key)) == if key in index then index[key].ver else 0
  {
    hide CheckKey, InBucket, PointsTo, HashFor;
    if key in index { assert CellOk(t, key, index[key], kv[key]); }
  }

  /** With a bucket size of at least the largest buffer no file is too large to collect. */
  lemma AllFilesFit(v: View, max: nat, top: nat)
    requires Inv(v, max) && Bounded(v, max, top) && v.flushing == -1 && top <= max
    ensures FilesFit(v.files, v.curr, max)
  {
    hide SizesOk, AllSound, FileBytes;
    forall b | b in v.files && b < v.curr ensures |v.files[b]| <= max {
      assert FileOk(v, b);
      assert Recs(v, b) == Done(v, b) && SizeOf(v, b, max) <= Limit(max, top);
    }
  }

  /** One event. */
  method EventDone(store: Store, event: Event, beyond: seq<byte>) returns (full: bool)
    requires store.Valid() && 9 <= |beyond| && store.log.curr < MAX_BUCKET_COUNT
    requires event.Do? && event.op.SetOp? ==>
      Acceptable(event.op.key, event.op.w, event.op.tstamp, VersionOf(CellOf(store.kv, event.op.key)), store.log.top)
    requires event.Collect? ==> store.Agrees() && FilesFit(store.log.files, store.log.curr, store.log.max)
    modifies store, store.log, store.log.wbuf, store.bucketTree, store.bucketTree.dc
    ensures store.Valid() && (store.log.wbuf == old(store.log.wbuf) || fresh(store.log.wbuf))
    ensures store.bucketTree == old(store.bucketTree) || (fresh(store.bucketTree) && fresh(store.bucketTree.dc))
    ensures Link(old(store.log.Now()), event, store.log.Now(), store.log.max, store.log.top)
    ensures full <==> store.log.curr >= MAX_BUCKET_COUNT
    ensures !full ==> EventStep(store.td, store.tpos, old(store.kv), event, store.kv)
    ensures store.log.curr == old(store.log.curr) && old(store.Agrees()) ==> store.Agrees()
    ensures store.log.curr > old(store.log.curr) ==> store.Agrees()
    ensures old(store.Counted()) && (event.Do? && event.op.CountOp? ==> old(store.Unsplit())) ==> store.Counted()
    ensures |store.currTree| <= |old(store.currTree)| + if event.Do? && event.op.SetOp? then 1 else 0
    ensures old(store.Unsplit()) && |store.currTree| <= HTreePool.SPLIT_LIMIT * 4 ==> store.Unsplit()
  {
    hide Inv, Bounded, InStep, TableOf, AllComplete, CurrentKnown, TreeIs, Spends, TopOk, TreeList, AllDead, Crowded;
    hide Acceptable, Fate, Live, FilesFit, OnlyDeadGone, Total, Present, NoGaps, KvStep;
    match event {
      case Do(op) => full := Recovery.Step(store, op, beyond);
      case Collect(world) =>
        var ret := Optimize(store, world);
        full := false;
    }
  }

  predicate NoCountEvent(events: seq<Event>) {
    forall i :: 0 <= i < |events| && events[i].Do? ==> !events[i].op.CountOp?
  }

  predicate TreesWhole(events: seq<Event>) {
    NoCountEvent(events) || Operations(events, |events|).1 <= HTreePool.SPLIT_LIMIT * 4
  }

  /** Where a run is after its first `n` events. */
  ghost predicate Along(td: nat, tpos: int, max: nat, top: nat, events: seq<Event>, n: nat, kvs: seq<map<Key, Cell>>,
                        views: seq<View>, kv: map<Key, Cell>, v: View, size: nat)
    requires td <= 8
  {
    && n <= |events| && |kvs| == |views| == n + 1 && kvs[n] == kv && views[n] == v
    && History(td, tpos, events, kvs) && Chain(events, views, max, top) && v.curr <= 2 * Operations(events, n).0
    && size <= Operations(events, n).1 && (top <= max ==> Spent(v, max, top) <= EventVolume(events, n))
  }

  lemma AlongNone(td: nat, tpos: int, max: nat, top: nat, events: seq<Event>)
    requires td <= 8
    ensures Along(td, tpos, max, top, events, 0, [map[]], [Initial().v], map[], Initial().v, 0)
  {
    hide Link, EventStep;
    NothingYet(max, top);
  }

  lemma AlongIs(td: nat, tpos: int, max: nat, top: nat, events: seq<Event>, n: nat, kvs: seq<map<Key, Cell>>,
                views: seq<View>, kv: map<Key, Cell>, v: View, size: nat)
    requires td <= 8 && Along(td, tpos, max, top, events, n, kvs, views, kv, v, size)
    ensures n <= |events| && |kvs| == |views| == n + 1 && kvs[n] == kv && views[n] == v
    ensures History(td, tpos, events, kvs) && Chain(events, views, max, top) && size <= Operations(events, n).1
  {
    hide History, Chain, Spent;
  }

  lemma AlongMore(td: nat, tpos: int, max: nat, top: nat, events: seq<Event>, n: nat, kvs: seq<map<Key, Cell>>,
                  views: seq<View>, kv: map<Key, Cell>, v: View, size: nat, kv': map<Key, Cell>, w: View, size': nat)
    requires td <= 8 && Along(td, tpos, max, top, events, n, kvs, views, kv, v, size) && n < |events|
    requires EventStep(td, tpos, kv, events[n], kv') && Link(v, events[n], w, max, top)
    requires size' <= size + if events[n].Do? && events[n].op.SetOp? then 1 else 0
    ensures Along(td, tpos, max, top, events, n + 1, kvs + [kv'], views + [w], kv', w, size')
    ensures size' <= Operations(events, n + 1).1
  {
    hide History, Chain, Spent, Link, EventStep;
    HistoryMore(td, tpos, events, kvs, kv');
    ChainMore(events, views, w, max, top);
    LinkNumbers(v, events[n], w, max, top);
    if top <= max { LinkSpends(v, events[n], w, max, top, EventVolume(events, n), EventVolume(events, n + 1)); }
  }

  /** The event uses up the last bucket number. */
  ghost predicate Overflows(v: View, event: Event, max: nat, top: nat) {
    exists w :: Link(v, event, w, max, top) && w.curr >= MAX_BUCKET_COUNT
  }

  lemma NumbersUsed(td: nat, tpos: int, max: nat, top: nat, events: seq<Event>, n: nat, kvs: seq<map<Key, Cell>>,
                    views: seq<View>, kv: map<Key, Cell>, v: View, size: nat, w: View)
    requires td <= 8 && Along(td, tpos, max, top, events, n, kvs, views, kv, v, size) && n < |events|
    requires Link(v, events[n], w, max, top) && w.curr >= MAX_BUCKET_COUNT
    ensures |views| == n + 1
    ensures Overflows(views[n], events[n], max, top) && 2 * Operations(events, n + 1).0 >= MAX_BUCKET_COUNT
    ensures top <= max ==> EventVolume(events, n + 1) >= MAX_BUCKET_COUNT * (max - top)
  {
    hide History, Chain, Spent, Link;
    LinkNumbers(v, events[n], w, max, top);
    NumbersGone(w, max, top);
    if top <= max { LinkSpends(v, events[n], w, max, top, EventVolume(events, n), EventVolume(events, n + 1)); }
  }

  predicate Refused(event: Event, kv: map<Key, Cell>, top: nat) {
    event.Do? && event.op.SetOp?
    && !Acceptable(event.op.key, event.op.w, event.op.tstamp, VersionOf(CellOf(kv, event.op.key)), top)
  }

  method IsRefused(store: Store, event: Event) returns (r: bool)
    requires store.Valid()
    ensures r == Refused(event, store.kv, store.log.top)
  {
    hide TreeIs, Inv, Bounded, InStep, TableOf, TopOk, Acceptable;
    r := false;
    if event.Do? && event.op.SetOp? {
      var key := event.op.key;
      StoreVersion(store, key);
      r := !Acceptable(key, event.op.w, event.op.tstamp, if key in store.index then store.index[key].ver else 0,
                       store.log.top);
    }
  }

  /** One event, if nothing speaks against it. */
  method NextEvent(store: Store, event: Event, agrees: bool, beyond: seq<byte>) returns (stop: Stop, agrees': bool)
    requires store.Valid() && 9 <= |beyond| && store.log.curr < MAX_BUCKET_COUNT && (agrees ==> store.Agrees())
    modifies store, store.log, store.log.wbuf, store.bucketTree, store.bucketTree.dc
    ensures store.Valid() && (store.log.wbuf == old(store.log.wbuf) || fresh(store.log.wbuf))
    ensures store.bucketTree == old(store.bucketTree) || (fresh(store.bucketTree) && fresh(store.bucketTree.dc))
    ensures stop == Unacceptable ==> Refused(event, old(store.kv), store.log.top)
    ensures stop == Stale ==> event.Collect? && !agrees
    ensures stop == Oversize ==> event.Collect? && store.log.max < store.log.top
    ensures stop == Oversize ==> !FilesFit(old(store.log.files), old(store.log.curr), store.log.max)
    ensures stop == AtEnd || stop == Full ==>
      Link(old(store.log.Now()), event, store.log.Now(), store.log.max, store.log.top)
    ensures stop == Full ==> store.log.curr >= MAX_BUCKET_COUNT
    ensures stop == AtEnd ==> store.log.curr < MAX_BUCKET_COUNT
    ensures stop == AtEnd ==> EventStep(store.td, store.tpos, old(store.kv), event, store.kv)
    ensures stop == AtEnd && agrees' ==> store.Agrees()
    ensures stop == AtEnd && !agrees' ==>
      if store.log.curr == old(store.log.curr) then !agrees else event.Collect? && store.log.curr < old(store.log.curr)
    ensures stop == AtEnd && old(store.Counted()) && (event.Do? && event.op.CountOp? ==> old(store.Unsplit())) ==>
      store.Counted()
    ensures stop == AtEnd ==>
      |store.currTree| <= |old(store.currTree)| + if event.Do? && event.op.SetOp? then 1 else 0
    ensures stop == AtEnd && old(store.Unsplit()) && |store.currTree| <= HTreePool.SPLIT_LIMIT * 4 ==> store.Unsplit()
  {
    hide TreeIs, Inv, Bounded, InStep, TableOf, TopOk, AllComplete, CurrentKnown, Acceptable, EventStep, Link, FilesFit;
    var refused := IsRefused(store, event);
    if refused {
      return Unacceptable, agrees;
    }
    if event.Collect? && !agrees {
      return Stale, agrees;
    }
    if event.Collect? && !FilesFit(store.log.files, store.log.curr, store.log.max) {
      if store.log.top <= store.log.max { AllFilesFit(store.log.Now(), store.log.max, store.log.top); }
      return Oversize, agrees;
    }
    var before := store.log.curr;
    ghost var v := store.log.Now();
    var full := EventDone(store, event, beyond);
    LinkNumbers(v, event, store.log.Now(), store.log.max, store.log.top);
    stop := if full then Full else AtEnd;
    agrees' := if store.log.curr == before then agrees else store.log.curr > before;
  }

  /** Any run of operations and collections, followed by a restart. It stops at a collection only if an
      earlier one renumbered the current bucket and there was no rotation since, so never at the first,
      or if a file outgrew the configured size because a record needed a larger buffer; when it gets to
      the end, exactly the live keys come back, each with its flag and value. */
  method RunCollecting(td: nat, tpos: int, max: nat, top: nat, events: seq<Event>, useHints: bool, beyond: seq<byte>)
    returns (stop: Stop, n: nat, files: Files, index: map<Key, Entry>, ghost kvs: seq<map<Key, Cell>>,
             ghost views: seq<View>)
    requires td < HTreePool.MAX_DEPTH && TopOk(top) && max + top < TWO_32 && 9 <= |beyond|
    ensures |kvs| == |views| == n + 1 && History(td, tpos, events, kvs) && Chain(events, views, max, top)
    ensures if stop == AtEnd then n == |events| else n < |events|
    ensures stop == AtEnd && (useHints ==> TreesWhole(events)) ==> Recovered(kvs[n], files, index)
    ensures stop == Full ==>
      Overflows(views[n], events[n], max, top) && 2 * Operations(events, n + 1).0 >= MAX_BUCKET_COUNT
    ensures stop == Full && top <= max ==> EventVolume(events, n + 1) >= MAX_BUCKET_COUNT * (max - top)
    ensures stop == Unacceptable ==> Refused(events[n], kvs[n], top)
    ensures stop == Stale ==> events[n].Collect? && Unrotated(events, views)
    ensures stop == Oversize ==> events[n].Collect? && max < top && !FilesFit(views[n].files, views[n].curr, max)
  {
    hide TreeIs, Recovered, Inv, Bounded, InStep, TableOf, TopOk, AllComplete, CurrentKnown, EventStep, LatestLive;
    hide Operations, EventVolume, History, Chain, Unrotated, Faithful, TreeList, Link, FilesFit, TreesWhole, Along;
    hide Refused, Overflows;
    var store := new Store(td, tpos, max, top);
    var agrees := true;
    stop, n, files, index, kvs, views := AtEnd, 0, map[], map[], [map[]], [store.log.Now()];
    AlongNone(td, tpos, max, top, events);
    while n < |events|
      invariant 0 <= n <= |events| && store.Valid() && fresh(store) && fresh(store.log) && fresh(store.log.wbuf)
      invariant fresh(store.bucketTree) && fresh(store.bucketTree.dc)
      invariant store.td == td && store.tpos == tpos && store.log.max == max && store.log.top == top
      invariant store.log.curr < MAX_BUCKET_COUNT
      invariant Along(td, tpos, max, top, events, n, kvs, views, store.kv, store.log.Now(), |store.currTree|)
      invariant (if agrees then store.Agrees() else Unrotated(events, views)) && stop == AtEnd
      invariant Operations(events, |events|).1 <= HTreePool.SPLIT_LIMIT * 4 ==> store.Unsplit()
      invariant TreesWhole(events) ==> store.Counted()
    {
      AlongIs(td, tpos, max, top, events, n, kvs, views, store.kv, store.log.Now(), |store.currTree|);
      var event := events[n];
      ghost var v, kv, size := store.log.Now(), store.kv, |store.currTree|;
      OperationsMono(events, n + 1, |events|);
      if TreesWhole(events) && event.Do? && event.op.CountOp? { CountsAreSmall(events, n); }
      stop, agrees := NextEvent(store, event, agrees, beyond);
      if stop == Full { NumbersUsed(td, tpos, max, top, events, n, kvs, views, kv, v, size, store.log.Now()); }
      if stop != AtEnd {
        return;
      }
      UnrotatedMore(events, views, store.log.Now());
      AlongMore(td, tpos, max, top, events, n, kvs, views, kv, v, size, store.kv, store.log.Now(), |store.currTree|);
      kvs, views := kvs + [store.kv], views + [store.log.Now()];
      n := n + 1;
    }
    AlongIs(td, tpos, max, top, events, n, kvs, views, store.kv, store.log.Now(), |store.currTree|);
    files, index := Reopen(store, useHints, beyond);
  }

  lemma StoreVersion(store: Store, key: Key)
    requires store.Valid()
    ensures VersionOf(CellOf(store.kv, key)) == if key in store.index then store.index[key].ver else 0
  {
    hide CellsOk, Mirrors, ReplayTable, Inv, Bounded, TableOf, TableOk, HintsOk, TreeIs, TopOk;
    IndexVersion(store.td, store.tpos, TableOf(store.log.Now()), store.index, store.kv, key);
  }

  /** If counting is allowed there are too few sets for a tree to split. */
  lemma CountsAreSmall(events: seq<Event>, n: nat)
    requires n < |events| && TreesWhole(events) && events[n].Do? && events[n].op.CountOp?
    ensures Operations(events, |events|).1 <= HTreePool.SPLIT_LIMIT * 4
  {
  }

  lemma LinkNumbers(v: View, event: Event, w: View, max: nat, top: nat)
    requires Link(v, event, w, max, top)
    ensures w.curr <= v.curr + if event.Do? then 2 else 0
    ensures event.Do? ==> v.curr <= w.curr
  {
    hide Total, NoGaps, Spends;
  }
}
