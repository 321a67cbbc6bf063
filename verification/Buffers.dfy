/** The write buffer, the flush buffer and the data files: where a record is at any moment,
    and where a reader looks for it. */
module Buffers {
  import opened Bytes
  import opened Record
  import opened DataFile

  const WRITE_BUFFER_SIZE := 2097152
  const FIRST_BUFFER := 4096
  const MAX_BUFFER := 0x800_0000
  const MAX_BUCKET_COUNT := 256

  /** The fields of the store that the flush protocol touches, with the records they hold:
      `done` per data file, `inFlush` in the flush buffer, `inBuf` in the write buffer. */
  datatype View = View(
    curr: nat, wbufSize: nat, wbufStart: nat, wbuf: seq<byte>,
    fbuf: seq<byte>, fbufStart: nat, flushing: int, written: nat,
    files: map<nat, seq<byte>>,
    done: map<nat, seq<Rec>>, inFlush: seq<Rec>, inBuf: seq<Rec>)

  function FileOf(v: View, b: nat): seq<byte> {
    if b in v.files then v.files[b] else []
  }

  function Done(v: View, b: nat): seq<Rec> {
    if b in v.done then v.done[b] else []
  }

  /** Every record appended to bucket `b`, in order. */
  function Recs(v: View, b: nat): seq<Rec> {
    Done(v, b) + (if v.flushing == b then v.inFlush else []) + (if v.curr == b then v.inBuf else [])
  }

  // ---- The invariant -----------------------------------------------------------------------

  ghost predicate BufferSizeOk(n: nat) {
    exists k: nat :: 12 <= k <= 27 && n == Pow2(k)
  }

  /** Room: the write buffer stays inside the bucket limit or the bucket has just begun. */
  ghost predicate SizesOk(v: View, max: nat) {
    && BufferSizeOk(v.wbufSize) && |v.wbuf| <= v.wbufSize
    && (v.wbufStart == 0 || v.wbufStart + v.wbufSize <= max)
  }

  ghost predicate RecordsOk(v: View) {
    AllSound(v.inBuf) && AllSound(v.inFlush) && forall b :: b in v.done ==> AllSound(v.done[b])
  }

  ghost predicate FileOk(v: View, b: nat)
    requires RecordsOk(v)
  {
    && v.written <= |v.fbuf|
    && FileOf(v, b) == FileBytes(Done(v, b)) + (if v.flushing == b then v.fbuf[..v.written] else [])
  }

  ghost predicate FlushOk(v: View)
    requires RecordsOk(v)
  {
    && -1 <= v.flushing <= v.curr && v.written <= |v.fbuf|
    && (v.flushing == -1 ==> v.inFlush == [])
    && (v.flushing >= 0 ==> v.fbuf == FileBytes(v.inFlush) && v.fbufStart == |FileBytes(Done(v, v.flushing))|)
  }

  ghost predicate Inv(v: View, max: nat) {
    && SizesOk(v, max) && RecordsOk(v) && FlushOk(v)
    && v.wbuf == FileBytes(v.inBuf)
    && v.wbufStart == |FileBytes(Done(v, v.curr))| + (if v.flushing == v.curr then |v.fbuf| else 0)
    && (forall b :: b in v.files ==> b <= v.curr)
    && (forall b: nat :: b > v.curr ==> Done(v, b) == [])
    && (forall b: nat :: FileOk(v, b))
  }

  // ---- Steps ------------------------------------------------------------------------------------

  function Rotated(v: View): View {
    v.(curr := v.curr + 1, wbufStart := 0)
  }

  function RotatedIfFull(v: View, max: nat): View {
    if v.wbufStart + v.wbufSize > max then Rotated(v) else v
  }

  /** The buffer size a flush leaves. */
  function FlushedSize(n: nat): nat {
    if n < WRITE_BUFFER_SIZE then n * 2 else if n > WRITE_BUFFER_SIZE * 2 then WRITE_BUFFER_SIZE else n
  }

  /** The write buffer becomes the flush buffer. */
  function Swapped(v: View): View {
    v.(flushing := v.curr, fbuf := v.wbuf, fbufStart := v.wbufStart, written := 0, inFlush := v.inBuf,
       wbufSize := FlushedSize(v.wbufSize), wbufStart := v.wbufStart + |v.wbuf|, wbuf := [], inBuf := [])
  }

  /** Under the buffer lock. */
  function FlushBegun(v: View, max: nat): View
    requires v.flushing == -1
  {
    RotatedIfFull(Swapped(v), max)
  }

  /** Without a lock: some more bytes of the flush buffer reach the file. */
  function Wrote(v: View, n: nat): View
    requires v.flushing >= 0 && v.written + n <= |v.fbuf|
  {
    v.(files := v.files[v.flushing := FileOf(v, v.flushing) + v.fbuf[v.written..v.written + n]],
       written := v.written + n)
  }

  /** Under the buffer lock again: the flush buffer is dropped. */
  function FlushEnded(v: View): View
    requires v.flushing >= 0
  {
    v.(flushing := -1, fbuf := [], written := 0, inFlush := [],
       done := v.done[v.flushing := Done(v, v.flushing) + v.inFlush])
  }

  function Doubled(n: nat, need: nat): (r: nat)
    requires 0 < n
    ensures r >= need && r >= n
    decreases need - n
  {
    if need <= n then n else Doubled(n * 2, need)
  }

  predicate FitsBuffer(v: View, n: nat) {
    |v.wbuf| + n <= v.wbufSize
  }

  /** A set may append when the record fits, or else when it has flushed the buffer empty. */
  predicate CanAppend(v: View, n: nat, flushed: bool) {
    if flushed then v.wbuf == [] && v.flushing == -1 else FitsBuffer(v, n)
  }

  /** Room made for a record of `n` bytes. */
  function Enlarged(v: View, n: nat, flushed: bool, max: nat): View
    requires 0 < v.wbufSize
  {
    if flushed then RotatedIfFull(v.(wbufSize := Doubled(v.wbufSize, n)), max) else v
  }

  function Appended(v: View, s: Rec, flushed: bool, max: nat): View
    requires 0 < v.wbufSize && RecOk(s)
  {
    var w := Enlarged(v, RecordLength(s), flushed, max);
    w.(wbuf := w.wbuf + Wire(s), inBuf := w.inBuf + [s])
  }

  // ---- Files as concatenations ------------------------------------------------------------------

  lemma AllSoundConcat(a: seq<Rec>, b: seq<Rec>)
    requires AllSound(a) && AllSound(b)
    ensures AllSound(a + b)
  {
    hide Sound;
  }

  lemma {:induction false} FileBytesConcat(a: seq<Rec>, b: seq<Rec>)
    requires AllSound(a) && AllSound(b)
    ensures AllSound(a + b) && FileBytes(a + b) == FileBytes(a) + FileBytes(b)
    decreases |b|
  {
    hide Wire, HasPlain, RecOk;
    AllSoundConcat(a, b);
    if b == [] {
      assert a + b == a;
    } else {
      var n := |b| - 1;
      FileBytesConcat(a, b[..n]);
      FileBytesLast(a + b, a + b[..n], b[n]);
      FileBytesLast(b, b[..n], b[n]);
      assert FileBytes(a) + FileBytes(b[..n]) + Wire(b[n]) == FileBytes(a) + (FileBytes(b[..n]) + Wire(b[n]));
    }
  }

  lemma FileBytesLast(recs: seq<Rec>, front: seq<Rec>, s: Rec)
    requires AllSound(recs) && recs == front + [s]
    ensures AllSound(front) && Sound(s) && FileBytes(recs) == FileBytes(front) + Wire(s)
  {
    hide Wire, HasPlain, RecOk;
    assert recs[..|recs| - 1] == front;
    assert recs[|recs| - 1] == s;
  }

  lemma StartOfConcat(a: seq<Rec>, b: seq<Rec>, i: nat)
    requires AllSound(a) && AllSound(b) && i <= |b|
    ensures AllSound(a + b) && StartOf(a + b, |a| + i) == |FileBytes(a)| + StartOf(b, i)
  {
    hide Sound, FileBytes;
    assert (a + b)[..|a| + i] == a + b[..i];
    FileBytesConcat(a, b[..i]);
    FileBytesConcat(a, b);
  }

  lemma FileBytesOne(s: Rec)
    requires Sound(s)
    ensures FileBytes([s]) == Wire(s)
  {
    hide Wire, Sound;
    assert FileBytes([s][..0]) == [];
  }

  lemma RecsSound(v: View, b: nat)
    requires RecordsOk(v)
    ensures AllSound(Recs(v, b)) && AllSound(Done(v, b))
  {
    hide Sound;
  }

  // ---- Every step keeps the invariant -----------------------------------------------------------

  lemma Pow2Double(k: nat)
    ensures Pow2(k + 1) == 2 * Pow2(k)
  {
  }

  lemma {:induction false} Pow2Below(k: nat, j: nat)
    requires k < j
    ensures 2 * Pow2(k) <= Pow2(j)
    decreases j
  {
    if k < j - 1 { Pow2Below(k, j - 1); }
  }

  lemma Pow2Known()
    ensures Pow2(12) == FIRST_BUFFER && Pow2(21) == WRITE_BUFFER_SIZE && Pow2(27) == MAX_BUFFER
  {
    assert Pow2(4) == 16 && Pow2(8) == 256;
    assert Pow2(12) == 4096;
    assert Pow2(16) == 65536;
    assert Pow2(20) == 1048576;
    assert Pow2(24) == 16777216;
  }

  /** Buffer sizes are powers of two between 4 KB and 128 MB. */
  lemma BufferDoubles(n: nat)
    requires BufferSizeOk(n)
    ensures FIRST_BUFFER <= n <= MAX_BUFFER
    ensures n < MAX_BUFFER ==> BufferSizeOk(2 * n)
  {
    var k: nat :| 12 <= k <= 27 && n == Pow2(k);
    Pow2Known();
    if k > 12 { Pow2Below(12, k); }
    if k < 27 {
      Pow2Below(k, 27);
      Pow2Double(k);
    }
  }

  lemma FlushedSizeOk(n: nat)
    requires BufferSizeOk(n)
    ensures BufferSizeOk(FlushedSize(n))
  {
    hide Pow2;
    BufferDoubles(n);
    Pow2Known();
  }

  lemma {:induction false} DoubledOk(n: nat, need: nat)
    requires BufferSizeOk(n) && need <= MAX_BUFFER
    ensures n > 0 && BufferSizeOk(Doubled(n, need))
    decreases need - n
  {
    hide BufferSizeOk;
    BufferDoubles(n);
    if need > n { DoubledOk(2 * n, need); }
  }

  /** A bound on the buffer size: a power of two between 4 MB and 128 MB. */
  ghost predicate TopOk(top: nat) {
    exists k: nat :: 22 <= k <= 27 && top == Pow2(k)
  }

  lemma TopBounds(top: nat)
    requires TopOk(top)
    ensures 2 * WRITE_BUFFER_SIZE <= top <= MAX_BUFFER
  {
    var k: nat :| 22 <= k <= 27 && top == Pow2(k);
    Pow2Known();
    Pow2Double(21);
    if k > 22 { Pow2Below(22, k); }
    if k < 27 { Pow2Below(k, 27); }
  }

  /** Sizes below the bound double at most up to it. */
  lemma BelowTop(n: nat, top: nat)
    requires BufferSizeOk(n) && TopOk(top) && n < top
    ensures 2 * n <= top
  {
    hide Pow2;
    var k: nat, j: nat :| 12 <= k <= 27 && n == Pow2(k) && 22 <= j <= 27 && top == Pow2(j);
    if k >= j { if k > j { Pow2Below(j, k); } }
    Pow2Below(k, j);
  }

  lemma TopFlushed(n: nat, top: nat)
    requires BufferSizeOk(n) && TopOk(top) && n <= top
    ensures FlushedSize(n) <= top
  {
    hide BufferSizeOk, TopOk;
    TopBounds(top);
  }

  lemma {:induction false} TopDoubled(n: nat, need: nat, top: nat)
    requires BufferSizeOk(n) && TopOk(top) && n <= top && need <= top
    ensures n > 0 && Doubled(n, need) <= top
    decreases need - n
  {
    hide BufferSizeOk, TopOk;
    BufferDoubles(n);
    TopBounds(top);
    if need > n {
      BelowTop(n, top);
      TopDoubled(2 * n, need, top);
    }
  }

  /** Starting a new bucket while the write buffer is empty. */
  lemma RotatedKeeps(v: View, max: nat)
    requires RecordsOk(v) && FlushOk(v) && BufferSizeOk(v.wbufSize) && v.wbuf == [] && v.inBuf == []
    requires forall b :: b in v.files ==> b <= v.curr
    requires forall b: nat :: b > v.curr ==> Done(v, b) == []
    requires forall b: nat :: FileOk(v, b)
    ensures Inv(Rotated(v), max)
    ensures forall b: nat :: Recs(Rotated(v), b) == Recs(v, b)
  {
    hide Sound, BufferSizeOk, FileBytes;
    var w := Rotated(v);
    assert FileBytes([]) == [] by { NoRecords(); }
    BufferDoubles(v.wbufSize);
    assert Done(v, v.curr + 1) == [];
    forall b: nat ensures FileOk(w, b) { assert FileOk(v, b); }
    forall b: nat | b > w.curr ensures Done(w, b) == [] { assert Done(v, b) == []; }
  }

  lemma NoRecords()
    ensures FileBytes([]) == []
  {
  }

  lemma FlushBeginKeeps(v: View, max: nat)
    requires Inv(v, max) && v.flushing == -1
    ensures Inv(FlushBegun(v, max), max)
    ensures forall b: nat :: Recs(FlushBegun(v, max), b) == Recs(v, b)
  {
    hide Sound, BufferSizeOk, FileBytes;
    FlushedSizeOk(v.wbufSize);
    BufferDoubles(FlushedSize(v.wbufSize));
    NoRecords();
    var w := Swapped(v);
    forall b: nat ensures FileOk(w, b) {
      assert FileOk(v, b);
      assert w.fbuf[..0] == [];
    }
    forall b: nat | b > w.curr ensures Done(w, b) == [] { assert Done(v, b) == []; }
    forall b: nat ensures Recs(w, b) == Recs(v, b) { }
    if w.wbufStart + w.wbufSize > max {
      RotatedKeeps(w, max);
    }
  }

  lemma WriteFile(v: View, n: nat, b: nat)
    requires RecordsOk(v) && v.flushing >= 0 && v.written + n <= |v.fbuf| && FileOk(v, b)
    ensures RecordsOk(Wrote(v, n)) && FileOk(Wrote(v, n), b)
  {
    hide Sound, FileBytes;
    assert v.fbuf[..v.written] + v.fbuf[v.written..v.written + n] == v.fbuf[..v.written + n];
    assert Done(Wrote(v, n), b) == Done(v, b);
    if b == v.flushing {
      assert FileOf(Wrote(v, n), b) == FileOf(v, b) + v.fbuf[v.written..v.written + n];
    }
  }

  lemma WriteKeeps(v: View, n: nat, max: nat)
    requires Inv(v, max) && v.flushing >= 0 && v.written + n <= |v.fbuf|
    ensures Inv(Wrote(v, n), max)
    ensures forall b: nat :: Recs(Wrote(v, n), b) == Recs(v, b)
  {
    hide Sound, BufferSizeOk, FileBytes, FileOk;
    var w := Wrote(v, n);
    forall b: nat ensures FileOk(w, b) { WriteFile(v, n, b); }
    forall b: nat | b > w.curr ensures Done(w, b) == [] { assert Done(v, b) == []; }
    assert Done(w, w.curr) == Done(v, v.curr) && Done(w, w.flushing) == Done(v, v.flushing);
  }

  lemma FlushEndKeeps(v: View, max: nat)
    requires Inv(v, max) && v.flushing >= 0 && v.written == |v.fbuf|
    ensures Inv(FlushEnded(v), max)
    ensures forall b: nat :: Recs(FlushEnded(v), b) == Recs(v, b)
    ensures forall b: nat :: Done(v, b) <= Done(FlushEnded(v), b)
  {
    hide Sound, BufferSizeOk, FileBytes;
    var w := FlushEnded(v);
    FileBytesConcat(Done(v, v.flushing), v.inFlush);
    assert v.fbuf[..v.written] == v.fbuf;
    forall b: nat ensures FileOk(w, b) {
      assert FileOk(v, b);
    }
    forall b: nat | b > w.curr ensures Done(w, b) == [] { assert Done(v, b) == []; }
    forall b: nat ensures Recs(w, b) == Recs(v, b) && Done(v, b) <= Done(w, b) { }
  }

  lemma EnlargeKeeps(v: View, n: nat, flushed: bool, max: nat)
    requires Inv(v, max) && n <= MAX_BUFFER && CanAppend(v, n, flushed)
    ensures v.wbufSize > 0 && Inv(Enlarged(v, n, flushed, max), max) && FitsBuffer(Enlarged(v, n, flushed, max), n)
    ensures forall b: nat :: Recs(Enlarged(v, n, flushed, max), b) == Recs(v, b)
  {
    hide Sound, BufferSizeOk, FileBytes;
    BufferDoubles(v.wbufSize);
    if flushed {
      DoubledOk(v.wbufSize, n);
      var w := v.(wbufSize := Doubled(v.wbufSize, n));
      if v.inBuf != [] { SomethingBuffered(v.inBuf); }
      forall b: nat ensures FileOk(w, b) { assert FileOk(v, b); }
      forall b: nat | b > w.curr ensures Done(w, b) == [] { assert Done(v, b) == []; }
      if w.wbufStart + w.wbufSize > max {
        RotatedKeeps(w, max);
      }
    }
  }

  lemma SomethingBuffered(recs: seq<Rec>)
    requires AllSound(recs) && recs != []
    ensures FileBytes(recs) != []
  {
    hide FileBytes, DecodeBytes, HasPlain, RecOk;
    RecordAt(recs, 0);
  }

  lemma RecordFitsBuffer(s: Rec)
    requires RecOk(s)
    ensures RecordLength(s) <= MAX_BUFFER
  {
  }

  /** Into a buffer with room. */
  lemma PutKeeps(v: View, s: Rec, max: nat)
    requires Inv(v, max) && Sound(s) && FitsBuffer(v, RecordLength(s))
    ensures Inv(v.(wbuf := v.wbuf + Wire(s), inBuf := v.inBuf + [s]), max)
  {
    hide HasPlain, RecOk, BufferSizeOk, FileBytes, RecordLength, FileOk;
    var w := v.(wbuf := v.wbuf + Wire(s), inBuf := v.inBuf + [s]);
    FileBytesOne(s);
    FileBytesConcat(v.inBuf, [s]);
    forall b: nat ensures FileOk(w, b) { PutFile(v, s, b); }
    forall b: nat | b > w.curr ensures Done(w, b) == [] { assert Done(v, b) == []; }
    assert Done(w, w.curr) == Done(v, v.curr) && (v.flushing >= 0 ==> Done(w, w.flushing) == Done(v, v.flushing));
  }

  lemma PutFile(v: View, s: Rec, b: nat)
    requires RecordsOk(v) && Sound(s) && FileOk(v, b)
    ensures var w := v.(wbuf := v.wbuf + Wire(s), inBuf := v.inBuf + [s]);
      RecordsOk(w) && FileOk(w, b)
  {
    hide HasPlain, RecOk, FileBytes, RecordLength, Wire;
    AllSoundConcat(v.inBuf, [s]);
  }

  /** Appending adds one record to the current bucket and touches no other. */
  lemma AppendKeeps(v: View, s: Rec, flushed: bool, max: nat)
    requires Inv(v, max) && Sound(s) && CanAppend(v, RecordLength(s), flushed)
    ensures v.wbufSize > 0 && Inv(Appended(v, s, flushed, max), max)
    ensures var w := Appended(v, s, flushed, max);
      && Recs(w, w.curr) == Recs(v, w.curr) + [s] && v.curr <= w.curr
      && forall b: nat :: b != w.curr ==> Recs(w, b) == Recs(v, b)
  {
    hide HasPlain, RecOk, Inv, FileBytes, RecordLength, Wire, CanAppend, Enlarged;
    RecordFitsBuffer(s);
    EnlargeKeeps(v, RecordLength(s), flushed, max);
    var e := Enlarged(v, RecordLength(s), flushed, max);
    PutKeeps(e, s, max);
    EnlargedCurr(v, RecordLength(s), flushed, max);
    var w := Appended(v, s, flushed, max);
    assert e.inBuf + [s] == w.inBuf;
    forall b: nat ensures Recs(w, b) == Recs(v, b) + (if b == w.curr then [s] else []) {
      assert Recs(e, b) == Recs(v, b);
    }
  }

  lemma EnlargedCurr(v: View, n: nat, flushed: bool, max: nat)
    requires 0 < v.wbufSize && CanAppend(v, n, flushed)
    ensures v.curr <= Enlarged(v, n, flushed, max).curr
  {
  }

  lemma SoundOk(s: Rec)
    requires Sound(s)
    ensures RecOk(s)
  {
  }

  // ---- Where a reader looks ---------------------------------------------------------------------

  predicate InWriteBuffer(v: View, b: nat, at: nat) {
    b == v.curr && at >= v.wbufStart
  }

  predicate InFlushBuffer(v: View, b: nat, at: nat) {
    b == v.flushing && at >= v.fbufStart
  }

  ghost predicate InFile(v: View, b: nat, at: nat)
    requires RecordsOk(v)
  {
    at < |FileBytes(Done(v, b))|
  }

  /** The bytes from position `at` of bucket `b` on, in the place where a get looks for them. */
  function Look(v: View, b: nat, at: nat): seq<byte> {
    if InWriteBuffer(v, b, at) then (if at - v.wbufStart <= |v.wbuf| then v.wbuf[at - v.wbufStart..] else [])
    else if InFlushBuffer(v, b, at) then (if at - v.fbufStart <= |v.fbuf| then v.fbuf[at - v.fbufStart..] else [])
    else if at <= |FileOf(v, b)| then FileOf(v, b)[at..] else []
  }

  /** `s` is the record at position `at` of the appended records. */
  ghost predicate IsAt(recs: seq<Rec>, at: nat, s: Rec) {
    AllSound(recs) && exists i :: 0 <= i < |recs| && recs[i] == s && StartOf(recs, i) == at
  }

  lemma DecodesIn(recs: seq<Rec>, i: nat, rest: seq<byte>)
    requires AllSound(recs) && i < |recs|
    ensures var bytes := FileBytes(recs) + rest; var at := StartOf(recs, i);
      at + PADDING <= |FileBytes(recs)| && DecodeBytes(bytes[at..]) == Good(recs[i])
  {
    hide HasPlain, RecOk, FileBytes, DecodeBytes, RecordLength, Wire;
    FileSplits(recs, i);
    RecordAt(recs, i);
    var at := StartOf(recs, i);
    var more :| FileBytes(recs)[at..] == Wire(recs[i]) + more;
    assert (FileBytes(recs) + rest)[at..] == Wire(recs[i]) + (more + rest);
    assert Sound(recs[i]);
    SoundOk(recs[i]);
    DecodeWire(recs[i], more + rest);
  }

  lemma StartInside(recs: seq<Rec>, i: nat)
    requires AllSound(recs) && i < |recs|
    ensures StartOf(recs, i) < |FileBytes(recs)|
  {
    hide Sound, FileBytes, DecodeBytes, RecordLength;
    RecordAt(recs, i);
  }

  lemma StartOfPrefix(a: seq<Rec>, b: seq<Rec>, i: nat)
    requires AllSound(b) && a <= b && i <= |a|
    ensures AllSound(a) && StartOf(a, i) == StartOf(b, i)
  {
    hide Sound, FileBytes;
    assert a[..i] == b[..i];
  }

  /** Record `i` of `a + b + c` starts inside exactly one of the three parts. */
  lemma StartInParts(a: seq<Rec>, b: seq<Rec>, c: seq<Rec>, i: nat)
    requires AllSound(a) && AllSound(b) && AllSound(c) && i < |a + b + c|
    ensures AllSound(a + b + c)
    ensures var at, x, y := StartOf(a + b + c, i), |FileBytes(a)|, |FileBytes(a)| + |FileBytes(b)|;
      if i < |a| then at == StartOf(a, i) < x
      else if i < |a| + |b| then x <= at < y && at - x == StartOf(b, i - |a|)
      else y <= at && at - y == StartOf(c, i - |a| - |b|)
  {
    hide Sound, FileBytes, StartOf;
    AllSoundConcat(a, b);
    AllSoundConcat(a + b, c);
    FileBytesConcat(a, b);
    if i < |a| {
      StartOfPrefix(a, a + b + c, i);
      StartInside(a, i);
    } else if i < |a| + |b| {
      StartOfPrefix(a + b, a + b + c, i);
      StartOfConcat(a, b, i - |a|);
      StartInside(b, i - |a|);
    } else {
      StartOfConcat(a + b, c, i - |a| - |b|);
    }
  }

  lemma DecodesWhole(recs: seq<Rec>, i: nat, bytes: seq<byte>, rest: seq<byte>)
    requires AllSound(recs) && i < |recs| && bytes == FileBytes(recs) + rest
    ensures StartOf(recs, i) + PADDING <= |bytes| && DecodeBytes(bytes[StartOf(recs, i)..]) == Good(recs[i])
  {
    hide Sound, FileBytes, DecodeBytes, StartOf;
    DecodesIn(recs, i, rest);
  }

  /** What has been flushed is in the file for good. */
  lemma FileFinds(v: View, b: nat, at: nat, s: Rec, max: nat)
    requires Inv(v, max) && IsAt(Recs(v, b), at, s) && InFile(v, b, at)
    ensures at + PADDING <= |FileOf(v, b)| && DecodeBytes(FileOf(v, b)[at..]) == Good(s)
  {
    hide Sound, FileBytes, DecodeBytes, StartOf, SizesOk;
    var i :| 0 <= i < |Recs(v, b)| && Recs(v, b)[i] == s && StartOf(Recs(v, b), i) == at;
    var a, f, c := Done(v, b), if v.flushing == b then v.inFlush else [], if v.curr == b then v.inBuf else [];
    NoRecords();
    StartInParts(a, f, c, i);
    assert FileOk(v, b);
    DecodesWhole(a, i, FileOf(v, b), if v.flushing == b then v.fbuf[..v.written] else []);
  }

  /** A record that is in neither buffer, where a get looks under the buffer lock, is in the file. */
  lemma FlushedIsInFile(v: View, b: nat, at: nat, s: Rec, max: nat)
    requires Inv(v, max) && IsAt(Recs(v, b), at, s)
    requires !InWriteBuffer(v, b, at) && !InFlushBuffer(v, b, at)
    ensures InFile(v, b, at)
  {
    hide Sound, FileBytes, DecodeBytes, StartOf, SizesOk, FileOk;
    var i :| 0 <= i < |Recs(v, b)| && Recs(v, b)[i] == s && StartOf(Recs(v, b), i) == at;
    var a, f, c := Done(v, b), if v.flushing == b then v.inFlush else [], if v.curr == b then v.inBuf else [];
    NoRecords();
    StartInParts(a, f, c, i);
  }

  lemma WriteBufferFinds(v: View, b: nat, at: nat, s: Rec, i: nat, max: nat)
    requires Inv(v, max) && i < |Recs(v, b)| && Recs(v, b)[i] == s && StartOf(Recs(v, b), i) == at
    requires InWriteBuffer(v, b, at)
    ensures HEADER <= |Look(v, b, at)| && DecodeBytes(Look(v, b, at)) == Good(s)
  {
    hide Sound, FileBytes, DecodeBytes, StartOf, SizesOk, FileOk, FileOf;
    var a, f := Done(v, b), if v.flushing == b then v.inFlush else [];
    NoRecords();
    StartInParts(a, f, v.inBuf, i);
    DecodesWhole(v.inBuf, i - |a| - |f|, v.wbuf, []);
  }

  lemma FlushBufferFinds(v: View, b: nat, at: nat, s: Rec, i: nat, max: nat)
    requires Inv(v, max) && i < |Recs(v, b)| && Recs(v, b)[i] == s && StartOf(Recs(v, b), i) == at
    requires !InWriteBuffer(v, b, at) && InFlushBuffer(v, b, at)
    ensures HEADER <= |Look(v, b, at)| && DecodeBytes(Look(v, b, at)) == Good(s)
  {
    hide Sound, FileBytes, DecodeBytes, StartOf, SizesOk, FileOk, FileOf;
    var a, c := Done(v, b), if v.curr == b then v.inBuf else [];
    NoRecords();
    StartInParts(a, v.inFlush, c, i);
    DecodesWhole(v.inFlush, i - |a|, v.fbuf, []);
  }

  /** The buffers show the original record whenever they are the place to look. */
  lemma BufferFinds(v: View, b: nat, at: nat, s: Rec, max: nat)
    requires Inv(v, max) && IsAt(Recs(v, b), at, s)
    requires InWriteBuffer(v, b, at) || InFlushBuffer(v, b, at)
    ensures HEADER <= |Look(v, b, at)| && DecodeBytes(Look(v, b, at)) == Good(s)
  {
    hide Sound, FileBytes, DecodeBytes, StartOf, Inv, Recs, Look;
    var i :| 0 <= i < |Recs(v, b)| && Recs(v, b)[i] == s && StartOf(Recs(v, b), i) == at;
    if InWriteBuffer(v, b, at) {
      WriteBufferFinds(v, b, at, s, i, max);
    } else {
      FlushBufferFinds(v, b, at, s, i, max);
    }
  }

  /** At every moment the place where a get looks shows the original record. */
  lemma LookFinds(v: View, b: nat, at: nat, s: Rec, max: nat)
    requires Inv(v, max) && IsAt(Recs(v, b), at, s)
    ensures HEADER <= |Look(v, b, at)| && DecodeBytes(Look(v, b, at)) == Good(s)
  {
    hide Sound, DecodeBytes, Inv, IsAt, FileBytes, InFile;
    if InWriteBuffer(v, b, at) || InFlushBuffer(v, b, at) {
      BufferFinds(v, b, at, s, max);
    } else {
      FlushedIsInFile(v, b, at, s, max);
      FileFinds(v, b, at, s, max);
    }
  }

  /** Records keep their positions as more are appended. */
  lemma StaysAt(a: seq<Rec>, b: seq<Rec>, at: nat, s: Rec)
    requires IsAt(a, at, s) && a <= b && AllSound(b)
    ensures IsAt(b, at, s)
  {
    hide Sound, StartOf;
    var i :| 0 <= i < |a| && a[i] == s && StartOf(a, i) == at;
    StartOfPrefix(a, b, i);
    assert b[i] == s;
  }
}
