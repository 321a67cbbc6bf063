/** What clients see over whole runs of the interleaved steps: once a set is published, every get
    that starts later finishes within four steps of its own and returns that set, whatever flushes,
    gets and other sets run in between; and once a flush is over, all that was appended before it is
    in the files. */
module Histories {
  import opened HTreeBlocks
  import opened HTreeLeaf
  import opened DataFile
  import opened Record
  import opened Buffers
  import opened Protocol

  /** What a get should answer once `r` is the last word on its key. */
  function Answer(r: Rec): Option<Rec> {
    if r.version > 0 then Some(r) else None
  }

  /** Neither a set nor a raise of `key`. */
  predicate Leaves(op: Op, key: Key) {
    !(op.Append? && op.r.key == key) && !(op.Raise? && op.key == key)
  }

  predicate AllLeave(ops: seq<Op>, key: Key) {
    forall i :: 0 <= i < |ops| ==> Leaves(ops[i], key)
  }

  predicate NoPublish(ops: seq<Op>) {
    forall i :: 0 <= i < |ops| ==> !ops[i].Publish?
  }

  predicate NoRestart(ops: seq<Op>, id: nat) {
    forall i :: 0 <= i < |ops| ==> !(ops[i].Begin? && ops[i].id == id)
  }

  /** How often the get `id` takes a step of its own. */
  function Turns(ops: seq<Op>, id: nat): (n: nat) {
    if ops == [] then 0 else Turns(ops[..|ops| - 1], id) + if ops[|ops| - 1] == Proceed(id) then 1 else 0
  }

  // ---- The last word on a key -----------------------------------------------------------------

  /** `r` is the last word on `key`: a live record is published, a tombstone may have been pruned. */
  predicate Holds(st: State, key: Key, r: Rec) {
    && (st.pending.Some? ==> st.pending.value.key != key)
    && (key in st.kv ==> st.kv[key] == r)
    && (r.version > 0 ==> key in st.kv)
  }

  lemma QuietStep(st: State, op: Op, key: Key, r: Rec, max: nat)
    requires StateOk(st, max) && Leaves(op, key) && Holds(st, key, r)
    ensures Holds(Next(st, op, max), key, r)
  {
    hide Inv, ReaderOk, LeadsTo, MayAppend, Appended, GenHash, BeginStep, RecordLength, ProceedStep, FlushBegun, Wrote;
    hide FlushEnded;
    if op.Proceed? {
      ProceedKeeps(st, op.id, max);
    } else if op.Begin? {
      BeginLeaves(st, op.id, op.key);
    } else if op.Prune? && key in st.index {
      LeadsToVersion(st.v, key, st.index[key], st.kv[key]);
    }
  }

  lemma BeginLeaves(st: State, id: nat, key: Key)
    ensures BeginStep(st, id, key) == st.(readers := BeginStep(st, id, key).readers)
  {
  }

  lemma ExecMore(ops: seq<Op>, op: Op, max: nat)
    ensures Exec(ops + [op], max) == Next(Exec(ops, max), op, max)
  {
    hide Next, Initial;
    assert (ops + [op])[..|ops + [op]| - 1] == ops;
  }

  lemma {:induction false} QuietRun(before: seq<Op>, mid: seq<Op>, key: Key, r: Rec, max: nat)
    requires AllLeave(mid, key) && Holds(Exec(before, max), key, r)
    ensures Holds(Exec(before + mid, max), key, r)
    decreases |mid|
  {
    hide Exec, Next, Holds, StateOk, Leaves;
    if mid == [] {
      assert before + mid == before;
    } else {
      var n := |mid| - 1;
      QuietRun(before, mid[..n], key, r, max);
      assert before + mid == (before + mid[..n]) + [mid[n]];
      ExecMore(before + mid[..n], mid[n], max);
      RunKeeps(before + mid[..n], max);
      QuietStep(Exec(before + mid[..n], max), mid[n], key, r, max);
    }
  }

  // ---- A set becomes the last word ----------------------------------------------------------------

  lemma PendingStays(st: State, op: Op, max: nat)
    requires StateOk(st, max) && st.pending.Some? && !op.Publish?
    ensures Next(st, op, max).pending == st.pending
  {
    hide Inv, ReaderOk, LeadsTo, Appended, GenHash, BeginStep, RecordLength, ProceedStep, FlushBegun, Wrote, FlushEnded;
    if op.Proceed? {
      ProceedKeeps(st, op.id, max);
    } else if op.Begin? {
      BeginLeaves(st, op.id, op.key);
    }
  }

  lemma {:induction false} PendingRun(before: seq<Op>, gap: seq<Op>, max: nat)
    requires NoPublish(gap) && Exec(before, max).pending.Some?
    ensures Exec(before + gap, max).pending == Exec(before, max).pending
    decreases |gap|
  {
    hide Exec, Next, StateOk;
    if gap == [] {
      assert before + gap == before;
    } else {
      var n := |gap| - 1;
      PendingRun(before, gap[..n], max);
      assert before + gap == (before + gap[..n]) + [gap[n]];
      ExecMore(before + gap[..n], gap[n], max);
      RunKeeps(before + gap[..n], max);
      PendingStays(Exec(before + gap[..n], max), gap[n], max);
    }
  }

  /** The run of a set: the append, whatever happens before it is published, and the publication. */
  function SetRun(before: seq<Op>, append: Op, gap: seq<Op>): seq<Op> {
    before + [append] + gap + [Publish]
  }

  lemma SetHolds(before: seq<Op>, r: Rec, memory: bool, s: Rec, flushed: bool, gap: seq<Op>, max: nat)
    requires MayAppend(Exec(before, max), r, memory, s, flushed, max) && NoPublish(gap)
    ensures Holds(Exec(SetRun(before, Append(r, memory, s, flushed), gap), max), r.key, r)
  {
    hide Exec, StateOk, MayAppend, Appended, GenHash, RecordLength;
    var append := Append(r, memory, s, flushed);
    ExecMore(before, append, max);
    PendingRun(before + [append], gap, max);
    ExecMore(before + [append] + gap, Publish, max);
  }

  /** A set of the content a live key already has: the version rises and nothing else changes. */
  lemma RaiseHolds(before: seq<Op>, key: Key, ver: int, r: Rec, max: nat)
    requires var st := Exec(before, max); st.pending == None && Holds(st, key, r) && 0 < r.version < ver
    ensures Holds(Exec(before + [Raise(key, ver)], max), key, r.(version := ver))
  {
    hide Exec, Inv, ReaderOk, LeadsTo;
    var st := Exec(before, max);
    RunKeeps(before, max);
    ExecMore(before, Raise(key, ver), max);
    LeadsToVersion(st.v, key, st.index[key], st.kv[key]);
  }

  // ---- A get runs --------------------------------------------------------------------------------

  /** The steps a get still has before it. */
  function Rank(stage: Stage): (n: nat) {
    match stage
    case Looked => 4
    case NotCurrent => 3
    case Locking => 2
    case ToFile => 1
    case Finished(_) => 0
  }

  lemma ProceedRanks(st: State, id: nat, other: nat)
    requires id in st.readers
    ensures var st' := ProceedStep(st, id);
      && st'.readers.Keys == st.readers.Keys && st'.readers[id].want == st.readers[id].want
      && (0 < Rank(st.readers[id].stage) ==> Rank(st'.readers[id].stage) < Rank(st.readers[id].stage))
      && Rank(st'.readers[id].stage) <= Rank(st.readers[id].stage)
      && (other in st.readers && other != id ==> st'.readers[other] == st.readers[other])
  {
    hide Fetch, Look, FileOf, InWriteBuffer, InFlushBuffer;
  }

  lemma ReaderStep(st: State, op: Op, id: nat, max: nat)
    requires id in st.readers && !(op.Begin? && op.id == id)
    ensures var st' := Next(st, op, max);
      && id in st'.readers && st'.readers[id].want == st.readers[id].want
      && Rank(st'.readers[id].stage) <= Rank(st.readers[id].stage)
      && (op == Proceed(id) && 0 < Rank(st.readers[id].stage) ==>
          Rank(st'.readers[id].stage) < Rank(st.readers[id].stage))
  {
    hide MayAppend, Appended, GenHash, RecordLength, FlushBegun, Wrote, FlushEnded, Published, Rank;
    if op.Proceed? && op.id in st.readers {
      hide ProceedStep;
      ProceedRanks(st, op.id, id);
    }
  }

  lemma {:induction false} ReaderRun(before: seq<Op>, tail: seq<Op>, id: nat, max: nat)
    requires NoRestart(tail, id) && id in Exec(before, max).readers
    ensures var st, st' := Exec(before, max), Exec(before + tail, max);
      && id in st'.readers && st'.readers[id].want == st.readers[id].want
      && (Rank(st'.readers[id].stage) == 0
          || Rank(st'.readers[id].stage) + Turns(tail, id) <= Rank(st.readers[id].stage))
    decreases |tail|
  {
    hide Exec, Next, Rank;
    if tail == [] {
      assert before + tail == before;
    } else {
      var n := |tail| - 1;
      ReaderRun(before, tail[..n], id, max);
      assert before + tail == (before + tail[..n]) + [tail[n]];
      ExecMore(before + tail[..n], tail[n], max);
      ReaderStep(Exec(before + tail[..n], max), tail[n], id, max);
    }
  }

  /** A get that starts while `r` is the last word on its key returns `r`, and is done after four turns. */
  lemma GetAnswers(before: seq<Op>, id: nat, tail: seq<Op>, r: Rec, max: nat)
    requires Holds(Exec(before, max), r.key, r) && r.version != 0 && NoRestart(tail, id)
    ensures var st := Exec(before + [Begin(id, r.key)] + tail, max);
      && id in st.readers
      && (st.readers[id].stage.Finished? ==> st.readers[id].stage.r == Answer(r))
      && (4 <= Turns(tail, id) ==> st.readers[id].stage.Finished?)
  {
    hide Exec, StateOk, Turns;
    var begin := Begin(id, r.key);
    ExecMore(before, begin, max);
    ReaderRun(before + [begin], tail, id, max);
    GetsReturnPublished(before + [begin] + tail, max, id);
  }

  // ---- Read your writes -------------------------------------------------------------------------

  /** After a set of `key` is published, and until the next set of it, every get that starts returns
      that set: the record for a positive version, nothing for a negative one. */
  lemma ReadYourWrites(before: seq<Op>, r: Rec, memory: bool, s: Rec, flushed: bool, gap: seq<Op>, mid: seq<Op>,
                       id: nat, tail: seq<Op>, max: nat)
    requires MayAppend(Exec(before, max), r, memory, s, flushed, max) && r.version != 0
    requires NoPublish(gap) && AllLeave(mid, r.key) && NoRestart(tail, id)
    ensures var run := SetRun(before, Append(r, memory, s, flushed), gap) + mid + [Begin(id, r.key)] + tail;
      var st := Exec(run, max);
      && id in st.readers
      && (st.readers[id].stage.Finished? ==> st.readers[id].stage.r == Answer(r))
      && (4 <= Turns(tail, id) ==> st.readers[id].stage.Finished?)
  {
    hide Exec, MayAppend, SetRun, Holds, Turns, Answer, AllLeave, NoRestart, NoPublish;
    var written := SetRun(before, Append(r, memory, s, flushed), gap);
    SetHolds(before, r, memory, s, flushed, gap, max);
    QuietRun(written, mid, r.key, r, max);
    GetAnswers(written + mid, id, tail, r, max);
  }

  /** The same after a raise, which is how a set of an unchanged value ends. */
  lemma ReadRaised(before: seq<Op>, key: Key, ver: int, r: Rec, mid: seq<Op>, id: nat, tail: seq<Op>, max: nat)
    requires var st := Exec(before, max); st.pending == None && Holds(st, key, r) && 0 < r.version < ver
    requires r.key == key && AllLeave(mid, key) && NoRestart(tail, id)
    ensures var st := Exec(before + [Raise(key, ver)] + mid + [Begin(id, key)] + tail, max);
      && id in st.readers
      && (st.readers[id].stage.Finished? ==> st.readers[id].stage.r == Some(r.(version := ver)))
      && (4 <= Turns(tail, id) ==> st.readers[id].stage.Finished?)
  {
    hide Exec, Holds, Turns, AllLeave, NoRestart;
    RaiseHolds(before, key, ver, r, max);
    QuietRun(before + [Raise(key, ver)], mid, key, r.(version := ver), max);
    GetAnswers(before + [Raise(key, ver)] + mid, id, tail, r.(version := ver), max);
  }

  // ---- What a flush has stored ------------------------------------------------------------------

  /** All records that are appended by now are in the files, or on their way there. */
  ghost predicate OnItsWay(was: View, v: View) {
    forall b: nat :: Recs(was, b) <= Done(v, b) + if v.flushing == b then v.inFlush else []
  }

  lemma SwapTakesAll(v: View, max: nat)
    requires v.flushing == -1
    ensures OnItsWay(v, FlushBegun(v, max))
  {
    hide FlushedSize;
    forall b: nat ensures Recs(v, b) == Done(v, b) + if v.curr == b then v.inBuf else [] { }
  }

  lemma FlushTakesAll(st: State, max: nat)
    requires Inv(st.v, max) && st.v.flushing == -1 && st.v.curr < MAX_BUCKET_COUNT
    ensures OnItsWay(st.v, Next(st, FlushBegin(0, true), max).v)
  {
    hide Inv, FlushBegun, OnItsWay;
    SwapTakesAll(st.v, max);
    if st.v.wbuf == [] {
      NothingBuffered(st.v, max);
      AllDone(st.v);
    }
  }

  lemma AllDone(v: View)
    requires v.inBuf == []
    ensures OnItsWay(v, v)
  {
  }

  lemma NothingBuffered(v: View, max: nat)
    requires Inv(v, max) && v.wbuf == []
    ensures v.inBuf == []
  {
    hide FileOk, SizesOk, FlushOk;
    if v.inBuf != [] { FirstFits(v.inBuf); }
  }

  lemma FirstFits(recs: seq<Rec>)
    requires AllSound(recs) && recs != []
    ensures FileBytes(recs) != []
  {
    hide HasPlain, RecOk, FileBytes;
    FileSplits(recs, 0);
  }

  lemma StaysOnItsWay(was: View, st: State, op: Op, max: nat)
    requires StateOk(st, max) && OnItsWay(was, st.v)
    ensures OnItsWay(was, Next(st, op, max).v)
  {
    hide Inv, ReaderOk, LeadsTo, BeginStep, ProceedStep, GenHash, RecordLength, Recs;
    if op.Proceed? {
      ProceedKeeps(st, op.id, max);
    } else if op.Begin? {
      BeginLeaves(st, op.id, op.key);
    }
  }

  lemma {:induction false} KeepsOnItsWay(was: View, before: seq<Op>, gap: seq<Op>, max: nat)
    requires OnItsWay(was, Exec(before, max).v)
    ensures OnItsWay(was, Exec(before + gap, max).v)
    decreases |gap|
  {
    hide Exec, Next, StateOk, OnItsWay;
    if gap == [] {
      assert before + gap == before;
    } else {
      var n := |gap| - 1;
      KeepsOnItsWay(was, before, gap[..n], max);
      assert before + gap == (before + gap[..n]) + [gap[n]];
      ExecMore(before + gap[..n], gap[n], max);
      RunKeeps(before + gap[..n], max);
      StaysOnItsWay(was, Exec(before + gap[..n], max), gap[n], max);
    }
  }

  /** Every record of `was` is in the file of its bucket, where it was appended. */
  ghost predicate StoredIn(was: View, v: View)
    requires RecordsOk(was)
  {
    forall b: nat :: AllSound(Recs(was, b)) && FileBytes(Recs(was, b)) <= FileOf(v, b)
  }

  lemma FileHas(recs: seq<Rec>, more: seq<Rec>)
    requires recs <= more && AllSound(more)
    ensures AllSound(recs) && FileBytes(recs) <= FileBytes(more)
  {
    hide Sound, FileBytes;
    assert more == recs + more[|recs|..];
    FileBytesConcat(recs, more[|recs|..]);
  }

  lemma Arrived(was: View, v: View, max: nat)
    requires RecordsOk(was) && Inv(v, max) && v.flushing == -1 && OnItsWay(was, v)
    ensures StoredIn(was, v)
  {
    hide Recs, FileBytes, SizesOk, Sound, FlushOk;
    forall b: nat ensures AllSound(Recs(was, b)) && FileBytes(Recs(was, b)) <= FileOf(v, b) {
      assert FileOk(v, b);
      assert Done(v, b) + [] == Done(v, b);
      NoRecords();
      FileHas(Recs(was, b), Done(v, b));
    }
  }

  /** Whatever runs beside a flush, when it is over, or any later one is, all that was appended before it
      began is in the files. */
  lemma FlushStores(before: seq<Op>, gap: seq<Op>, max: nat)
    requires Exec(before, max).v.flushing == -1 && Exec(before, max).v.curr < MAX_BUCKET_COUNT
    requires Exec(before + [FlushBegin(0, true)] + gap, max).v.flushing == -1
    ensures RecordsOk(Exec(before, max).v)
    ensures StoredIn(Exec(before, max).v, Exec(before + [FlushBegin(0, true)] + gap, max).v)
  {
    hide Exec, Inv, OnItsWay, StoredIn, Next, LeadsTo, ReaderOk;
    var was, begin := Exec(before, max), FlushBegin(0, true);
    RunKeeps(before, max);
    InvRecords(was.v, max);
    FlushTakesAll(was, max);
    ExecMore(before, begin, max);
    KeepsOnItsWay(was.v, before + [begin], gap, max);
    RunKeeps(before + [begin] + gap, max);
    Arrived(was.v, Exec(before + [begin] + gap, max).v, max);
  }

  /** A flush is over once as many bytes are written as were in the write buffer. */
  lemma FlushEnds(before: seq<Op>, max: nat)
    requires Exec(before, max).v.flushing == -1 && Exec(before, max).v.curr < MAX_BUCKET_COUNT
    ensures Exec(before + [FlushBegin(0, true), Write(|Exec(before, max).v.wbuf|), FlushEnd], max).v.flushing == -1
  {
    hide Exec, FlushedSize, FileOf, Done;
    var begin, write := FlushBegin(0, true), Write(|Exec(before, max).v.wbuf|);
    ExecMore(before, begin, max);
    ExecMore(before + [begin], write, max);
    ExecMore(before + [begin] + [write], FlushEnd, max);
    assert before + [begin, write, FlushEnd] == before + [begin] + [write] + [FlushEnd];
  }
}
