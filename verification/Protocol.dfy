/** Sets, flushes and gets interleaved step by step: a set appends and then publishes, a flush
    begins, writes and ends, and a get runs in four steps with no lock held between them. In every
    reachable state a get that has finished returned the record that was published when it
    looked its key up. */
module Protocol {
  import opened Bytes
  import opened HTreeBlocks
  import opened HTreeLeaf
  import opened Record
  import opened DataFile
  import opened Buffers

  /** How far a get has come. */
  datatype Stage = Looked | NotCurrent | Locking | ToFile | Finished(r: Option<Rec>)

  /** A get of `key` that found `e` in the index when `want` was the published record. */
  datatype Reader = Reader(key: Key, e: Entry, stage: Stage, want: Option<Rec>)

  datatype Pending = Pending(key: Key, e: Entry, rec: Rec)

  /** `kv` is what clients have been told: the record each key was last published with. */
  datatype State = State(v: View, index: map<Key, Entry>, kv: map<Key, Rec>, pending: Option<Pending>,
                         readers: map<nat, Reader>)

  datatype Op =
    | Append(r: Rec, memory: bool, s: Rec, flushed: bool)
    | Publish
    | Raise(key: Key, ver: int)
    | Prune(key: Key)
    | FlushBegin(limit: nat, expired: bool)
    | Write(n: nat)
    | FlushEnd
    | Begin(id: nat, key: Key)
    | Proceed(id: nat)

  function Bucket(e: Entry): (b: nat) {
    e.pos % 256
  }

  function Position(e: Entry): (at: int) {
    e.pos - e.pos % 256
  }

  function Initial(): State {
    State(View(0, FIRST_BUFFER, 0, [], [], 0, -1, 0, map[], map[], [], []), map[], map[], None, map[])
  }

  // ---- Steps -----------------------------------------------------------------------------------

  ghost predicate MayAppend(st: State, r: Rec, memory: bool, s: Rec, flushed: bool, max: nat) {
    && st.pending == None && Storable(r) && Stored(r, memory, s) && RecOk(s)
    && 0 < st.v.wbufSize && CanAppend(st.v, RecordLength(s), flushed)
    && Appended(st.v, s, flushed, max).curr < MAX_BUCKET_COUNT
  }

  /** The locked section of a set; the index learns of the record in a later step. */
  ghost function AppendStep(st: State, r: Rec, memory: bool, s: Rec, flushed: bool, max: nat): State {
    if !MayAppend(st, r, memory, s, flushed, max) then st else
    var w := Appended(st.v, s, flushed, max);
    var hash := if r.version > 0 then GenHash(r.value) else 0;
    var pos := w.wbufStart + (|w.wbuf| - RecordLength(s)) + w.curr;
    st.(v := w, pending := Some(Pending(r.key, Entry(pos, r.version, hash), r)))
  }

  function PublishStep(st: State): State {
    match st.pending
    case None => st
    case Some(p) => st.(pending := None, index := st.index[p.key := p.e], kv := st.kv[p.key := p.rec])
  }

  /** A set with the content the key already has only raises the version. */
  function RaiseStep(st: State, key: Key, ver: int): State {
    if st.pending == None && key in st.index && key in st.kv && st.index[key].ver > 0 && ver > st.index[key].ver
    then st.(index := st.index[key := st.index[key].(ver := ver)], kv := st.kv[key := st.kv[key].(version := ver)])
    else st
  }

  /** A hash update may drop a dead entry. */
  function PruneStep(st: State, key: Key): State {
    if key in st.index && st.index[key].ver <= 0 then st.(index := st.index - {key}, kv := st.kv - {key}) else st
  }

  function FlushBeginStep(st: State, limit: nat, expired: bool, max: nat): State {
    if && st.v.flushing == -1 && st.v.curr < MAX_BUCKET_COUNT
       && (|st.v.wbuf| > limit * 1024 || (expired && st.v.wbuf != []))
    then st.(v := FlushBegun(st.v, max)) else st
  }

  function WriteStep(st: State, n: nat): State {
    if st.v.flushing >= 0 && st.v.written + n <= |st.v.fbuf| then st.(v := Wrote(st.v, n)) else st
  }

  function FlushEndStep(st: State): State {
    if st.v.flushing >= 0 && st.v.written == |st.v.fbuf| then st.(v := FlushEnded(st.v)) else st
  }

  /** The record a get decodes from `bytes`, with the version of the index. */
  ghost function Fetch(bytes: seq<byte>, key: Key, e: Entry): Option<Rec> {
    if |bytes| < HEADER then None else
    match DecodeBytes(bytes)
    case Bad(_) => None
    case Good(s) => if Sound(s) && s.key == key then Some(Plain(s).(version := e.ver)) else None
  }

  function Published(st: State, key: Key): Option<Rec> {
    if key in st.kv && st.kv[key].version >= 0 then Some(st.kv[key]) else None
  }

  function BeginStep(st: State, id: nat, key: Key): State {
    var found := key in st.index && st.index[key].ver >= 0;
    var e := if found then st.index[key] else Entry(0, 0, 0);
    st.(readers := st.readers[id := Reader(key, e, if found then Looked else Finished(None), Published(st, key))])
  }

  function Moved(st: State, id: nat, stage: Stage): State
    requires id in st.readers
  {
    st.(readers := st.readers[id := st.readers[id].(stage := stage)])
  }

  /** A get that fails drops its key from the index. */
  function Failed(st: State, id: nat): State
    requires id in st.readers
  {
    Moved(st, id, Finished(None)).(index := st.index - {st.readers[id].key}, kv := st.kv - {st.readers[id].key})
  }

  ghost function ProceedStep(st: State, id: nat): State {
    if id !in st.readers then st else
    var rd := st.readers[id];
    var b, at := Bucket(rd.e), Position(rd.e);
    match rd.stage
    case Looked =>
      if b > st.v.curr then Failed(st, id) else Moved(st, id, if b == st.v.curr then Locking else NotCurrent)
    case NotCurrent => Moved(st, id, if b == st.v.flushing then Locking else ToFile)
    case Locking =>
      if && at >= 0 && (InWriteBuffer(st.v, b, at) || InFlushBuffer(st.v, b, at))
         && Fetch(Look(st.v, b, at), rd.key, rd.e).Some?
      then Moved(st, id, Finished(Fetch(Look(st.v, b, at), rd.key, rd.e)))
      else Moved(st, id, ToFile)
    case ToFile =>
      if 0 <= at && at + PADDING <= |FileOf(st.v, b)| && Fetch(FileOf(st.v, b)[at..], rd.key, rd.e).Some?
      then Moved(st, id, Finished(Fetch(FileOf(st.v, b)[at..], rd.key, rd.e)))
      else Failed(st, id)
    case Finished(_) => st
  }

  ghost function Next(st: State, op: Op, max: nat): State {
    match op
    case Append(r, memory, s, flushed) => AppendStep(st, r, memory, s, flushed, max)
    case Publish => PublishStep(st)
    case Raise(key, ver) => RaiseStep(st, key, ver)
    case Prune(key) => PruneStep(st, key)
    case FlushBegin(limit, expired) => FlushBeginStep(st, limit, expired, max)
    case Write(n) => WriteStep(st, n)
    case FlushEnd => FlushEndStep(st)
    case Begin(id, key) => BeginStep(st, id, key)
    case Proceed(id) => ProceedStep(st, id)
  }

  ghost function Exec(ops: seq<Op>, max: nat): State {
    if ops == [] then Initial() else Next(Exec(ops[..|ops| - 1], max), ops[|ops| - 1], max)
  }

  // ---- The invariant ----------------------------------------------------------------------------

  /** The entry leads to a stored form of `rec` that stays where it is. */
  ghost predicate LeadsTo(v: View, key: Key, e: Entry, rec: Rec) {
    && 0 <= Position(e) && Bucket(e) <= v.curr
    && exists s ::
        IsAt(Recs(v, Bucket(e)), Position(e), s) && Sound(s) && s.key == key && Plain(s).(version := e.ver) == rec
  }

  ghost predicate ReaderOk(v: View, rd: Reader)
    requires RecordsOk(v)
  {
    if rd.stage.Finished? then rd.stage.r == rd.want
    else
      && rd.want.Some? && LeadsTo(v, rd.key, rd.e, rd.want.value)
      && (rd.stage == NotCurrent ==> Bucket(rd.e) < v.curr)
      && (rd.stage == ToFile ==> InFile(v, Bucket(rd.e), Position(rd.e)))
  }

  ghost predicate StateOk(st: State, max: nat) {
    && Inv(st.v, max)
    && st.kv.Keys == st.index.Keys
    && (forall k :: k in st.index ==> LeadsTo(st.v, k, st.index[k], st.kv[k]))
    && (st.pending.Some? ==> LeadsTo(st.v, st.pending.value.key, st.pending.value.e, st.pending.value.rec))
    && (forall id :: id in st.readers ==> ReaderOk(st.v, st.readers[id]))
  }

  /** Buckets and files only grow. */
  ghost predicate Grows(v: View, w: View) {
    && RecordsOk(v) && RecordsOk(w) && v.curr <= w.curr
    && forall b: nat :: Recs(v, b) <= Recs(w, b) && Done(v, b) <= Done(w, b)
  }

  lemma LeadsToGrows(v: View, w: View, key: Key, e: Entry, rec: Rec)
    requires Grows(v, w) && LeadsTo(v, key, e, rec)
    ensures LeadsTo(w, key, e, rec)
  {
    hide Sound, IsAt, Plain, RecordsOk;
    var b, at := Bucket(e), Position(e);
    var s :| IsAt(Recs(v, b), at, s) && Sound(s) && s.key == key && Plain(s).(version := e.ver) == rec;
    RecsSound(w, b);
    StaysAt(Recs(v, b), Recs(w, b), at, s);
  }

  lemma InFileGrows(v: View, w: View, b: nat, at: nat)
    requires Grows(v, w) && InFile(v, b, at)
    ensures InFile(w, b, at)
  {
    hide Sound, FileBytes;
    var d, d' := Done(v, b), Done(w, b);
    var more := d'[|d|..];
    assert d' == d + more;
    RecsSound(w, b);
    FileBytesConcat(d, more);
  }

  lemma ReaderGrows(v: View, w: View, rd: Reader)
    requires Grows(v, w) && ReaderOk(v, rd)
    ensures ReaderOk(w, rd)
  {
    hide Sound, LeadsTo, InFile, RecordsOk;
    if !rd.stage.Finished? {
      LeadsToGrows(v, w, rd.key, rd.e, rd.want.value);
      LeadsToPosition(v, rd.key, rd.e, rd.want.value);
      if rd.stage == ToFile { InFileGrows(v, w, Bucket(rd.e), Position(rd.e)); }
    }
  }

  lemma LeadsToPosition(v: View, key: Key, e: Entry, rec: Rec)
    requires LeadsTo(v, key, e, rec)
    ensures 0 <= Position(e)
  {
  }

  // ---- Every step keeps the invariant -----------------------------------------------------------

  lemma ViewKeeps(st: State, w: View, max: nat)
    requires StateOk(st, max) && Inv(w, max) && Grows(st.v, w)
    ensures StateOk(st.(v := w), max)
  {
    hide Inv, Grows, LeadsTo, ReaderOk, RecordsOk;
    forall k | k in st.index ensures LeadsTo(w, k, st.index[k], st.kv[k]) {
      LeadsToGrows(st.v, w, k, st.index[k], st.kv[k]);
    }
    if st.pending.Some? {
      LeadsToGrows(st.v, w, st.pending.value.key, st.pending.value.e, st.pending.value.rec);
    }
    GrowsRecords(st.v, w);
    forall id | id in st.readers ensures ReaderOk(w, st.readers[id]) {
      ReaderGrows(st.v, w, st.readers[id]);
    }
  }

  lemma GrowsRecords(v: View, w: View)
    requires Grows(v, w)
    ensures RecordsOk(v) && RecordsOk(w)
  {
  }

  lemma SameRecordsGrow(v: View, w: View, max: nat)
    requires Inv(v, max) && Inv(w, max) && v.curr <= w.curr
    requires forall b: nat :: Recs(w, b) == Recs(v, b)
    requires forall b: nat :: Done(v, b) <= Done(w, b)
    ensures Grows(v, w)
  {
    hide SizesOk, RecordsOk, FlushOk, FileOk;
  }

  lemma FlushKeeps(st: State, op: Op, max: nat)
    requires StateOk(st, max) && (op.FlushBegin? || op.Write? || op.FlushEnd?)
    ensures StateOk(Next(st, op, max), max)
  {
    hide Inv, StateOk, Grows, Recs;
    var w := Next(st, op, max).v;
    assert Inv(st.v, max) by { ViewOk(st, max); }
    if w != st.v {
      FlushRecords(st, op, max);
      SameRecordsGrow(st.v, w, max);
      ViewKeeps(st, w, max);
    }
    assert Next(st, op, max) == st.(v := w);
  }

  lemma FlushRecords(st: State, op: Op, max: nat)
    requires Inv(st.v, max) && (op.FlushBegin? || op.Write? || op.FlushEnd?)
    ensures var v, w := st.v, Next(st, op, max).v;
      && Inv(w, max) && v.curr <= w.curr
      && forall b: nat :: Recs(w, b) == Recs(v, b) && Done(v, b) <= Done(w, b)
  {
    hide Inv, Recs;
    var w := Next(st, op, max).v;
    if w != st.v {
      match op {
        case FlushBegin(limit, expired) => FlushBeginKeeps(st.v, max);
        case Write(n) => WriteKeeps(st.v, n, max);
        case FlushEnd => FlushEndKeeps(st.v, max);
      }
    }
  }

  lemma ViewOk(st: State, max: nat)
    requires StateOk(st, max)
    ensures Inv(st.v, max)
  {
  }

  /** The append position is the end of the bucket. */
  lemma EndOfBucket(v: View, max: nat)
    requires Inv(v, max)
    ensures AllSound(Recs(v, v.curr)) && v.wbufStart + |v.wbuf| == |FileBytes(Recs(v, v.curr))|
  {
    hide SizesOk, FileOk, FileBytes, Sound;
    var d, f := Done(v, v.curr), if v.flushing == v.curr then v.inFlush else [];
    NoRecords();
    FileBytesConcat(d, f);
    FileBytesConcat(d + f, v.inBuf);
  }

  /** Where an appended record can be found. */
  lemma AppendedAt(v: View, s: Rec, flushed: bool, max: nat)
    requires Inv(v, max) && Sound(s) && CanAppend(v, RecordLength(s), flushed) && v.wbufSize > 0
    ensures var w := Appended(v, s, flushed, max); var at := w.wbufStart + (|w.wbuf| - RecordLength(s));
      && Inv(w, max) && Grows(v, w) && 0 <= at && at % PADDING == 0 && IsAt(Recs(w, w.curr), at, s)
      && |FileBytes(Recs(v, w.curr))| == at
  {
    hide Inv, HasPlain, RecOk, FileBytes, RecordLength, Wire, CanAppend, Recs;
    AppendKeeps(v, s, flushed, max);
    var w := Appended(v, s, flushed, max);
    EndOfBucket(w, max);
    var recs, front := Recs(w, w.curr), Recs(v, w.curr);
    FileBytesLast(recs, front, s);
    Aligned(front);
    assert recs[..|front|] == front && recs[|front|] == s;
    assert StartOf(recs, |front|) == |FileBytes(front)|;
    AppendGrows(v, s, flushed, max);
  }

  lemma AppendGrows(v: View, s: Rec, flushed: bool, max: nat)
    requires Inv(v, max) && Sound(s) && CanAppend(v, RecordLength(s), flushed) && v.wbufSize > 0
    ensures Grows(v, Appended(v, s, flushed, max))
  {
    hide SizesOk, FlushOk, FileOk, HasPlain, RecOk, FileBytes, RecordLength, Wire;
    AppendKeeps(v, s, flushed, max);
    var w := Appended(v, s, flushed, max);
    assert w.done == v.done;
    forall b: nat ensures Recs(v, b) <= Recs(w, b) && Done(v, b) <= Done(w, b) { }
  }

  lemma AppendStepKeeps(st: State, r: Rec, memory: bool, s: Rec, flushed: bool, max: nat)
    requires StateOk(st, max)
    ensures StateOk(AppendStep(st, r, memory, s, flushed, max), max)
  {
    hide Inv, Storable, Stored, StateOk, Grows, RecOk, RecordLength, CanAppend, Appended, IsAt, GenHash, Recs;
    hide FileBytes;
    if MayAppend(st, r, memory, s, flushed, max) {
      StoredSound(r, memory, s);
      StoredKey(r, memory, s);
      ViewOk(st, max);
      AppendedAt(st.v, s, flushed, max);
      var w := Appended(st.v, s, flushed, max);
      ViewKeeps(st, w, max);
      var st' := AppendStep(st, r, memory, s, flushed, max);
      var e, at := st'.pending.value.e, w.wbufStart + (|w.wbuf| - RecordLength(s));
      DivMod(e.pos, 256, at / 256, w.curr);
      assert Position(e) == at && Bucket(e) == w.curr;
      assert Plain(s).(version := e.ver) == r;
      assert LeadsTo(w, r.key, e, r);
      PendingKeeps(st.(v := w), st'.pending.value, max);
    }
  }

  lemma StoredKey(r: Rec, memory: bool, s: Rec)
    requires Storable(r) && Stored(r, memory, s)
    ensures s.key == r.key && s.version == r.version
  {
    StoredOk(r, memory, s);
  }

  lemma PendingKeeps(st: State, p: Pending, max: nat)
    requires StateOk(st, max) && LeadsTo(st.v, p.key, p.e, p.rec)
    ensures StateOk(st.(pending := Some(p)), max)
  {
    hide Inv, LeadsTo, ReaderOk;
  }

  lemma IndexKeeps(st: State, op: Op, max: nat)
    requires StateOk(st, max) && (op.Publish? || op.Raise? || op.Prune?)
    ensures StateOk(Next(st, op, max), max)
  {
    hide Inv, ReaderOk, LeadsTo;
    if op.Raise? && Next(st, op, max) != st {
      RaisedLeadsTo(st.v, op.key, st.index[op.key], st.kv[op.key], op.ver);
    }
  }

  lemma RaisedLeadsTo(v: View, key: Key, e: Entry, rec: Rec, ver: int)
    requires LeadsTo(v, key, e, rec)
    ensures LeadsTo(v, key, e.(ver := ver), rec.(version := ver))
  {
    hide IsAt, Sound, Plain;
    var s :| IsAt(Recs(v, Bucket(e)), Position(e), s) && Sound(s) && s.key == key && Plain(s).(version := e.ver) == rec;
    assert IsAt(Recs(v, Bucket(e.(ver := ver))), Position(e.(ver := ver)), s);
  }

  lemma BeginKeeps(st: State, id: nat, key: Key, max: nat)
    requires StateOk(st, max)
    ensures StateOk(BeginStep(st, id, key), max)
  {
    hide Inv, RecordsOk, LeadsTo, InFile;
    InvRecords(st.v, max);
    if key in st.index {
      LeadsToVersion(st.v, key, st.index[key], st.kv[key]);
    }
    assert key in st.kv <==> key in st.index;
    ReaderKeeps(st, id, BeginStep(st, id, key).readers[id], max);
  }

  lemma ReaderKeeps(st: State, id: nat, rd: Reader, max: nat)
    requires StateOk(st, max) && RecordsOk(st.v) && ReaderOk(st.v, rd)
    ensures StateOk(st.(readers := st.readers[id := rd]), max)
  {
    hide Inv, ReaderOk, LeadsTo, RecordsOk;
  }

  lemma InvRecords(v: View, max: nat)
    requires Inv(v, max)
    ensures RecordsOk(v)
  {
  }

  lemma LeadsToVersion(v: View, key: Key, e: Entry, rec: Rec)
    requires LeadsTo(v, key, e, rec)
    ensures rec.version == e.ver && rec.key == key
  {
    hide IsAt, HasPlain, RecOk;
  }

  /** Decoding what the reader found gives exactly what it wants. */
  lemma FetchWanted(bytes: seq<byte>, key: Key, e: Entry, s: Rec)
    requires HEADER <= |bytes| && DecodeBytes(bytes) == Good(s) && Sound(s) && s.key == key
    ensures Fetch(bytes, key, e) == Some(Plain(s).(version := e.ver))
  {
    hide DecodeBytes, Sound, Plain;
  }

  lemma ProceedKeeps(st: State, id: nat, max: nat)
    requires StateOk(st, max)
    ensures StateOk(ProceedStep(st, id), max)
    ensures ProceedStep(st, id) == st.(readers := ProceedStep(st, id).readers)
  {
    hide Inv, RecordsOk, IsAt, Look, Fetch, InFile, InWriteBuffer, InFlushBuffer, Plain, Sound, FileOf, Recs;
    if id in st.readers && !st.readers[id].stage.Finished? {
      InvRecords(st.v, max);
      var rd := st.readers[id];
      assert ReaderOk(st.v, rd);
      var v, b, at := st.v, Bucket(rd.e), Position(rd.e);
      var s :| IsAt(Recs(v, b), at, s) && Sound(s) && s.key == rd.key
        && Plain(s).(version := rd.e.ver) == rd.want.value;
      if rd.stage == NotCurrent && b != v.flushing {
        NeitherBuffer(v, b, at);
        FlushedIsInFile(v, b, at, s, max);
      } else if rd.stage == Locking {
        if InWriteBuffer(v, b, at) || InFlushBuffer(v, b, at) {
          BufferFinds(v, b, at, s, max);
          FetchWanted(Look(v, b, at), rd.key, rd.e, s);
        } else {
          FlushedIsInFile(v, b, at, s, max);
        }
      } else if rd.stage == ToFile {
        FileFinds(v, b, at, s, max);
        FetchWanted(FileOf(v, b)[at..], rd.key, rd.e, s);
      }
      ReaderKeeps(st, id, ProceedStep(st, id).readers[id], max);
    }
  }

  lemma NeitherBuffer(v: View, b: nat, at: nat)
    requires b != v.flushing && b < v.curr
    ensures !InWriteBuffer(v, b, at) && !InFlushBuffer(v, b, at)
  {
  }

  lemma InitialOk(max: nat)
    ensures StateOk(Initial(), max)
  {
    hide Pow2;
    Pow2Known();
    NoRecords();
  }

  lemma NextKeeps(st: State, op: Op, max: nat)
    requires StateOk(st, max)
    ensures StateOk(Next(st, op, max), max)
  {
    hide StateOk, AppendStep, BeginStep, ProceedStep;
    match op
    case Append(r, memory, s, flushed) => AppendStepKeeps(st, r, memory, s, flushed, max);
    case Begin(id, key) => BeginKeeps(st, id, key, max);
    case Proceed(id) => ProceedKeeps(st, id, max);
    case FlushBegin(_, _) => FlushKeeps(st, op, max);
    case Write(_) => FlushKeeps(st, op, max);
    case FlushEnd => FlushKeeps(st, op, max);
    case _ => IndexKeeps(st, op, max);
  }

  /** Over every run, from an empty store. */
  lemma {:induction false} RunKeeps(ops: seq<Op>, max: nat)
    ensures StateOk(Exec(ops, max), max)
    decreases |ops|
  {
    hide StateOk, Next, Initial;
    if ops == [] {
      InitialOk(max);
    } else {
      RunKeeps(ops[..|ops| - 1], max);
      NextKeeps(Exec(ops[..|ops| - 1], max), ops[|ops| - 1], max);
    }
  }

  /** No get returns other bytes: it returns what was published when it looked its key up. */
  lemma GetsReturnPublished(ops: seq<Op>, max: nat, id: nat)
    ensures var st := Exec(ops, max);
      id in st.readers && st.readers[id].stage.Finished? ==> st.readers[id].stage.r == st.readers[id].want
  {
    hide Exec, Inv, LeadsTo;
    RunKeeps(ops, max);
    var st := Exec(ops, max);
    InvRecords(st.v, max);
    if id in st.readers { assert ReaderOk(st.v, st.readers[id]); }
  }

  /** Every published position shows its record in the very place a get looks. */
  lemma PublishedIsReadable(ops: seq<Op>, max: nat, key: Key)
    requires key in Exec(ops, max).index
    ensures var st := Exec(ops, max); var e := st.index[key];
      && key in st.kv && 0 <= Position(e) && Bucket(e) <= st.v.curr
      && Fetch(Look(st.v, Bucket(e), Position(e)), key, e) == Some(st.kv[key])
  {
    hide Exec, Inv, IsAt, Fetch, Look, Sound, Plain;
    RunKeeps(ops, max);
    var st := Exec(ops, max);
    var e := st.index[key];
    assert LeadsTo(st.v, key, e, st.kv[key]);
    var s :| IsAt(Recs(st.v, Bucket(e)), Position(e), s) && Sound(s) && s.key == key
      && Plain(s).(version := e.ver) == st.kv[key];
    LookFinds(st.v, Bucket(e), Position(e), s, max);
    FetchWanted(Look(st.v, Bucket(e), Position(e)), key, e, s);
  }
}
