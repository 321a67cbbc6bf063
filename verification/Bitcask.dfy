/** The log half of a store: the buffers and files as the code changes them in place. Each method
    does to the fields what the step of the same name does to their abstract view. */
module Bitcask {
  import opened Bytes
  import opened HTreeBlocks
  import opened HTreeLeaf
  import opened Record
  import opened DataFile
  import opened Buffers
  import opened Protocol

  /** No bucket outgrows the larger of the configured size and the largest buffer. */
  function Limit(max: nat, top: nat): nat {
    if max < top then top else max
  }

  ghost predicate Bounded(v: View, max: nat, top: nat)
    requires Inv(v, max)
  {
    forall b: nat :: SizeOf(v, b, max) <= Limit(max, top)
  }

  ghost function SizeOf(v: View, b: nat, max: nat): nat
    requires Inv(v, max)
  {
    RecsSound(v, b);
    |FileBytes(Recs(v, b))|
  }

  lemma BoundedSame(v: View, w: View, max: nat, top: nat)
    requires Inv(v, max) && Bounded(v, max, top) && Inv(w, max)
    requires forall b: nat :: Recs(w, b) == Recs(v, b)
    ensures Bounded(w, max, top)
  {
    hide Inv, FileBytes, Recs;
    forall b: nat ensures SizeOf(w, b, max) <= Limit(max, top) {
      assert SizeOf(v, b, max) <= Limit(max, top);
    }
  }

  lemma BoundedAppend(v: View, s: Rec, flushed: bool, max: nat, top: nat)
    requires Inv(v, max) && Bounded(v, max, top) && Sound(s) && CanAppend(v, RecordLength(s), flushed) && v.wbufSize > 0
    requires Appended(v, s, flushed, max).wbufSize <= top
    ensures Inv(Appended(v, s, flushed, max), max) && Bounded(Appended(v, s, flushed, max), max, top)
  {
    hide Inv, FileBytes, Recs, HasPlain, RecOk, RecordLength, CanAppend, Appended;
    AppendKeeps(v, s, flushed, max);
    var w := Appended(v, s, flushed, max);
    EndOfBucket(w, max);
    CurrentSize(w, max, top);
    forall b: nat ensures SizeOf(w, b, max) <= Limit(max, top) {
      if b != w.curr { assert SizeOf(v, b, max) <= Limit(max, top); }
    }
  }

  lemma CurrentSize(v: View, max: nat, top: nat)
    requires Inv(v, max) && v.wbufSize <= top
    ensures v.wbufStart + |v.wbuf| <= v.wbufStart + v.wbufSize <= Limit(max, top)
  {
    hide FileBytes, RecordsOk, FlushOk, FileOk, BufferSizeOk;
  }

  /** What the configuration promises: no bucket is too large for a 32-bit position. */
  lemma SizesFit(v: View, max: nat, top: nat)
    requires Inv(v, max) && Bounded(v, max, top) && TopOk(top) && max + top < TWO_32
    ensures Bounded(v, max, MAX_BUFFER) && max <= MAX_DATA
  {
    hide Inv, TopOk;
    TopBounds(top);
    forall b: nat ensures SizeOf(v, b, max) <= Limit(max, MAX_BUFFER) {
      assert SizeOf(v, b, max) <= Limit(max, top);
    }
  }

  // ---- 32-bit sums --------------------------------------------------------------------------------

  /** As long as the configured size and the largest buffer together stay below 2^32, no sum of the
      code wraps. */
  lemma NoWrap(v: View, n: nat, max: nat, top: nat)
    requires Inv(v, max) && TopOk(top) && v.wbufSize <= top && n <= top && max + top < TWO_32
    ensures v.wbufStart + v.wbufSize < TWO_32 && v.wbufSize > 0
    ensures v.wbufStart + |v.wbuf| + FlushedSize(v.wbufSize) < TWO_32
    ensures v.wbufStart + Doubled(v.wbufSize, n) < TWO_32
  {
    hide FileBytes, RecordsOk, FlushOk, FileOk, BufferSizeOk, Doubled, TopOk;
    BufferDoubles(v.wbufSize);
    TopBounds(top);
    TopFlushed(v.wbufSize, top);
    TopDoubled(v.wbufSize, n, top);
  }

  /** The test for a full bucket as the code computes it. */
  predicate TestsFull(start: nat, size: nat, max: nat) {
    (start + size) % TWO_32 > max
  }

  ghost predicate TestRight(start: nat, size: nat, max: nat) {
    TestsFull(start, size, max) <==> start + size > max
  }

  /** The test is right wherever a buffer of this size may begin, if and only if the sum of the bucket
      size and the buffer size is below 2^32. */
  lemma TestExactly(size: nat, max: nat)
    requires size <= max < TWO_32
    ensures (forall start: nat :: start <= max ==> TestRight(start, size, max)) <==> max + size < TWO_32
  {
    if max + size >= TWO_32 {
      assert (max + size) % TWO_32 == max + size - TWO_32;
      assert !TestRight(max, size, max);
    }
  }

  /** With the default of 4000 MB: a buffer enlarged to 128 MB for one record, beginning 6 MB below the
      limit, is taken to fit, and a record buffered behind the first 102 MB gets the position 0. */
  lemma MissedRotation()
    ensures var mb := 1048576; var max, start, size := 4000 * mb, 3994 * mb, 128 * mb;
      && start + 4 * mb <= max && start + size > max && !TestsFull(start, size, max)
      && 102 * mb < size && (start + 102 * mb) % TWO_32 == 0
  {
  }

  // ---- Bucket numbers -----------------------------------------------------------------------------

  /** What has gone into the log: at least `max - top` bytes for every number, and the current bucket. */
  ghost function Spent(v: View, max: nat, top: nat): int {
    v.curr * (max - top) + v.wbufStart + |v.wbuf|
  }

  /** With buckets no smaller than the largest buffer, a number is used up only when the bucket it
      belongs to has less than `top` bytes left. */
  ghost predicate Spends(v: View, w: View, max: nat, top: nat, n: nat) {
    top <= max ==>
      && v.curr <= w.curr <= v.curr + 1 && (w.curr > v.curr ==> v.wbufStart + |v.wbuf| + top > max)
      && Spent(w, max, top) <= Spent(v, max, top) + n
  }

  lemma FlushSpends(v: View, w: View, max: nat, top: nat)
    requires w == v || (w.wbuf == [] && v.curr <= w.curr <= v.curr + 1)
    requires w != v ==> w.wbufStart == if w.curr > v.curr then 0 else v.wbufStart + |v.wbuf|
    requires w.curr > v.curr ==> v.wbufStart + |v.wbuf| + FlushedSize(v.wbufSize) > max
    requires w.curr > v.curr ==> FlushedSize(v.wbufSize) <= top
    ensures Spends(v, w, max, top, 0)
  {
    if w.curr > v.curr { assert w.curr * (max - top) == v.curr * (max - top) + (max - top); }
  }

  /** A flush if there was one, room, and the record. */
  lemma AppendSpends(u: View, v: View, flushed: bool, bs: seq<byte>, w: View, max: nat, top: nat)
    requires Spends(u, v, max, top, 0) && 0 < v.wbufSize && v.flushing == -1 && (flushed ==> v.wbuf == [])
    requires if flushed then v.wbufStart == (if v.curr > u.curr then 0 else u.wbufStart + |u.wbuf|) else v == u
    requires Doubled(v.wbufSize, |bs|) <= top
    requires w == Enlarged(v, |bs|, flushed, max) || w == PutInto(Enlarged(v, |bs|, flushed, max), bs, w.inBuf)
    ensures Spends(u, w, max, top, |bs|)
  {
    hide Spent, Doubled, Spends;
    var x := Enlarged(v, |bs|, flushed, max);
    var size := v.wbufStart + |v.wbuf|;
    if top <= max {
      SpendsIs(u, v, max, top, 0);
      SpentMoves(v, w, size, |bs|, max, top);
      SpendsIs(u, w, max, top, |bs|);
    } else {
      SpendsIs(u, w, max, top, |bs|);
    }
  }

  lemma SpendsIs(v: View, w: View, max: nat, top: nat, n: nat)
    ensures Spends(v, w, max, top, n) <==>
      (top <= max ==>
        && v.curr <= w.curr <= v.curr + 1 && (w.curr > v.curr ==> v.wbufStart + |v.wbuf| + top > max)
        && Spent(w, max, top) <= Spent(v, max, top) + n)
  {
    hide Spent;
  }

  /** Staying in the bucket, or leaving it when less than `top` bytes are left. */
  lemma SpentMoves(v: View, w: View, size: nat, n: nat, max: nat, top: nat)
    requires size == v.wbufStart + |v.wbuf| && top <= max && v.curr <= w.curr <= v.curr + 1
    requires w.curr > v.curr ==> size + top > max
    requires w.wbufStart + |w.wbuf| <= n + if w.curr > v.curr then 0 else size
    ensures Spent(w, max, top) <= Spent(v, max, top) + n
  {
    if w.curr > v.curr { assert w.curr * (max - top) == v.curr * (max - top) + (max - top); }
  }

  function PutInto(v: View, bs: seq<byte>, recs: seq<Rec>): View {
    v.(wbuf := v.wbuf + bs, inBuf := recs)
  }

  lemma InvBuffer(v: View, max: nat)
    requires Inv(v, max)
    ensures BufferSizeOk(v.wbufSize)
  {
  }

  class Log {
    const max: nat
    const top: nat
    var curr: nat
    var wbufSize: nat
    var wbufStart: nat
    var wbufCurr: nat
    var wbuf: array<byte>
    var fbuf: seq<byte>
    var fbufStart: nat
    var flushing: int
    var written: nat
    var files: map<nat, seq<byte>>
    ghost var done: map<nat, seq<Rec>>
    ghost var inFlush: seq<Rec>
    ghost var inBuf: seq<Rec>

    ghost predicate Shape()
      reads this
    {
      wbufCurr <= wbufSize == wbuf.Length
    }

    ghost function Now(): View
      reads this, wbuf
      requires Shape()
    {
      View(curr, wbufSize, wbufStart, wbuf[..wbufCurr], fbuf, fbufStart, flushing, written, files, done, inFlush, inBuf)
    }

    ghost predicate Valid()
      reads this, wbuf
    {
      Shape() && TopOk(top) && max + top < TWO_32 && wbufSize <= top && Inv(Now(), max) && Bounded(Now(), max, top)
    }

    constructor (max: nat, top: nat)
      requires TopOk(top) && max + top < TWO_32
      ensures Valid() && fresh(wbuf) && this.max == max && this.top == top && Now() == Initial().v
    {
      TopBounds(top);
      this.max, this.top := max, top;
      curr, wbufSize, wbufStart, wbufCurr := 0, FIRST_BUFFER, 0, 0;
      wbuf := new byte[FIRST_BUFFER];
      fbuf, fbufStart, flushing, written, files := [], 0, -1, 0, map[];
      done, inFlush, inBuf := map[], [], [];
      new;
      assert wbuf[..0] == [];
      InitialLog(max, top);
    }

    method Rotate()
      requires Shape()
      modifies this`curr, this`wbufStart
      ensures Shape() && Now() == Rotated(old(Now()))
    {
      curr, wbufStart := curr + 1, 0;
    }

    method SwapBuffers()
      requires Shape()
      modifies this
      ensures Shape() && (wbuf == old(wbuf) || fresh(wbuf)) && Now() == Swapped(old(Now()))
    {
      hide FlushedSize;
      ghost var v := Now();
      var size := wbufCurr;
      flushing, fbuf, written, inFlush := curr, wbuf[..size], 0, inBuf;
      ResizeBuffer();
      fbufStart := wbufStart;
      wbufCurr, inBuf := 0, [];
      wbufStart := wbufStart + size;
      assert wbuf[..0] == [];
      assert fbuf == v.wbuf && |v.wbuf| == size;
    }

    /** Small buffers grow after a flush and very large ones are given back. */
    method ResizeBuffer()
      requires wbuf.Length == wbufSize
      modifies this`wbufSize, this`wbuf
      ensures wbuf.Length == wbufSize == FlushedSize(old(wbufSize)) && (wbuf == old(wbuf) || fresh(wbuf))
    {
      if wbufSize < WRITE_BUFFER_SIZE {
        wbufSize := wbufSize * 2;
        wbuf := new byte[wbufSize];
      } else if wbufSize > WRITE_BUFFER_SIZE * 2 {
        wbufSize := WRITE_BUFFER_SIZE;
        wbuf := new byte[wbufSize];
      }
    }

    /** bc_flush up to the point where it gives the buffer lock back. */
    method BeginFlush(limit: nat, expired: bool) returns (begun: bool)
      requires Valid() && flushing == -1
      modifies this
      ensures Valid() && (wbuf == old(wbuf) || fresh(wbuf))
      ensures begun == (old(wbufCurr) > limit * 1024 || (expired && old(wbufCurr) > 0))
      ensures Now() == if begun then FlushBegun(old(Now()), max) else old(Now())
    {
      hide Inv, Bounded, Recs, Swapped, TopOk;
      ghost var v := Now();
      begun := wbufCurr > limit * 1024 || (expired && wbufCurr > 0);
      if begun {
        SwapBuffers();
        if wbufStart + wbufSize > max {
          Rotate();
        }
        FlushBeginKeeps(v, max);
        BoundedSame(v, Now(), max, top);
        FlushBegunFields(v, max);
        InvBuffer(v, max);
        TopFlushed(v.wbufSize, top);
      }
    }

    /** The file append. */
    method WriteFlush()
      requires Valid() && flushing >= 0
      modifies this`files, this`written
      ensures Valid() && written == |fbuf|
      ensures Now() == Wrote(old(Now()), |fbuf| - old(written))
    {
      hide Bounded, Inv, Recs;
      ghost var v := Now();
      WrittenInside(v, max);
      var file := if flushing in files then files[flushing] else [];
      files, written := files[flushing := file + fbuf[written..]], |fbuf|;
      assert v.fbuf[v.written..] == v.fbuf[v.written..|v.fbuf|];
      WriteKeeps(v, |v.fbuf| - v.written, max);
      BoundedSame(v, Now(), max, top);
    }

    /** The end of bc_flush, under the buffer lock again. */
    method EndFlush()
      requires Valid() && flushing >= 0 && written == |fbuf|
      modifies this`flushing, this`fbuf, this`written, this`done, this`inFlush
      ensures Valid() && Now() == FlushEnded(old(Now()))
    {
      hide Bounded, Inv, Recs;
      ghost var v := Now();
      FlushEndKeeps(v, max);
      done := done[flushing := (if flushing in done then done[flushing] else []) + inFlush];
      flushing, fbuf, written, inFlush := -1, [], 0, [];
      BoundedSame(v, Now(), max, top);
    }

    /** bc_flush as a whole; no record is lost or moved, and the write buffer is empty afterwards
        if anything was flushed. */
    method Flush(limit: nat, expired: bool) returns (begun: bool)
      requires Valid() && flushing == -1
      modifies this
      ensures Valid() && flushing == -1 && (wbuf == old(wbuf) || fresh(wbuf))
      ensures begun == (old(wbufCurr) > limit * 1024 || (expired && old(wbufCurr) > 0))
      ensures begun ==> wbufCurr == 0
      ensures !begun ==> Now() == old(Now())
      ensures old(curr) <= curr <= old(curr) + 1
      ensures forall b: nat :: Recs(Now(), b) == Recs(old(Now()), b)
      ensures begun ==> wbufStart == if curr > old(curr) then 0 else old(wbufStart) + old(wbufCurr)
      ensures Spends(old(Now()), Now(), max, top, 0)
    {
      hide Inv, Bounded, Recs, Wrote, FlushEnded, FlushBegun, TopOk, Spends;
      ghost var v := Now();
      begun := BeginFlush(limit, expired);
      if begun {
        FlushBeginKeeps(v, max);
        FlushBegunFields(v, max);
        ghost var w := Now();
        WriteFlush();
        WrittenInside(w, max);
        WriteKeeps(w, |w.fbuf| - w.written, max);
        FlushEndKeeps(Now(), max);
        EndFlush();
        WroteFields(w, |w.fbuf| - w.written);
        InvBuffer(v, max);
        TopFlushed(v.wbufSize, top);
      }
      FlushSpends(v, Now(), max, top);
    }

    /** After a flush: a larger buffer if need be, and a new bucket if this one is full. */
    method MakeRoom(n: nat)
      requires Shape() && wbufCurr == 0 && wbufSize > 0
      modifies this`wbufSize, this`wbuf, this`curr, this`wbufStart
      ensures Shape() && (wbuf == old(wbuf) || fresh(wbuf))
      ensures Now() == Enlarged(old(Now()), n, true, max)
    {
      ghost var v := Now();
      while n > wbufSize
        invariant Shape() && wbufSize > 0 && (wbuf == old(wbuf) || fresh(wbuf))
        invariant Doubled(wbufSize, n) == Doubled(v.wbufSize, n)
        invariant Now() == v.(wbufSize := wbufSize)
        decreases n - wbufSize
      {
        wbufSize := wbufSize * 2;
        wbuf := new byte[wbufSize];
        assert wbuf[..0] == [];
      }
      if wbufStart + wbufSize > max {
        Rotate();
      }
    }

    /** Copies a record behind what the write buffer holds. */
    method Put(bs: seq<byte>, ghost s: Rec)
      requires Shape() && wbufCurr + |bs| <= wbufSize
      modifies wbuf, this`wbufCurr, this`inBuf
      ensures Shape() && Now() == old(Now()).(wbuf := old(Now()).wbuf + bs, inBuf := old(Now()).inBuf + [s])
    {
      ghost var v, a := Now(), wbuf[..];
      CopyBytes(bs, 0, |bs|, wbuf, wbufCurr);
      assert wbuf[..wbufCurr] == v.wbuf;
      assert bs[0..|bs|] == bs;
      wbufCurr, inBuf := wbufCurr + |bs|, inBuf + [s];
      assert wbuf[..wbufCurr] == v.wbuf + bs;
    }

    /** The part of bc_set that holds the buffer lock, with the flush it may start: the record goes
        to the end of the current bucket, and nothing else moves. When the bucket numbers are used up
        there is no position for it; the next flush of the code then ends the program. */
    method Append(bs: seq<byte>, ghost s: Rec) returns (full: bool, pos: int)
      requires Valid() && flushing == -1 && Sound(s) && bs == Wire(s) && |bs| <= top && curr < MAX_BUCKET_COUNT
      modifies this, wbuf
      ensures Valid() && flushing == -1 && (wbuf == old(wbuf) || fresh(wbuf))
      ensures old(curr) <= curr <= old(curr) + 2 && (full <==> curr >= MAX_BUCKET_COUNT)
      ensures full ==> forall b: nat :: Recs(Now(), b) == Recs(old(Now()), b)
      ensures !full ==> Recs(Now(), curr) == Recs(old(Now()), curr) + [s]
      ensures !full ==> forall b: nat :: b != curr ==> Recs(Now(), b) == Recs(old(Now()), b)
      ensures !full ==> AllSound(Recs(old(Now()), curr)) && pos == |FileBytes(Recs(old(Now()), curr))| + curr
      ensures Spends(old(Now()), Now(), max, top, |bs|)
      ensures old(wbufCurr) + |bs| <= old(wbufSize) ==>
        curr == old(curr) && wbufCurr == old(wbufCurr) + |bs| && wbufSize == old(wbufSize)
    {
      hide Inv, Bounded, Recs, Enlarged, HasPlain, RecOk, EmptyTrap, RecordLength, Wire, FileBytes, TopOk, Spends;
      hide Doubled;
      ghost var u := Now();
      FlushSpends(u, u, max, top);
      var flushed := wbufCurr + |bs| > wbufSize;
      if flushed {
        var begun := Flush(0, false);
        assert wbuf[..0] == [];
      }
      ghost var v := Now();
      AppendKeeps(v, s, flushed, max);
      AppendedAt(v, s, flushed, max);
      EnlargedFields(v, |bs|, flushed, max);
      InvBuffer(v, max);
      TopDoubled(v.wbufSize, |bs|, top);
      BoundedAppend(v, s, flushed, max, top);
      if flushed {
        MakeRoom(|bs|);
      }
      assert Now() == Enlarged(v, |bs|, flushed, max);
      pos := wbufStart + wbufCurr + curr;
      full := curr >= MAX_BUCKET_COUNT;
      if full {
        RecordFitsBuffer(s);
        EnlargeKeeps(v, |bs|, flushed, max);
        BoundedSame(v, Now(), max, top);
        AppendSpends(u, v, flushed, bs, Now(), max, top);
        return;
      }
      Put(bs, s);
      AppendSpends(u, v, flushed, bs, Now(), max, top);
    }

    /** bc_get behind the index lookup, with nothing happening in between: it looks in the write
        buffer, in the flush buffer or in the file, and finds the record that was stored. */
    method ReadAt(key: Key, e: Entry, beyond: seq<byte>, ghost s: Rec) returns (r: Option<Rec>)
      requires Valid() && 9 <= |beyond| && 0 <= Position(e) && Bucket(e) <= curr
      requires IsAt(Recs(Now(), Bucket(e)), Position(e), s) && Sound(s) && s.key == key
      ensures r == Some(Plain(s).(version := e.ver))
    {
      hide Inv, Bounded, Recs, IsAt, DecodeBytes, Sound, Plain, Unpacks, Unpackable;
      var b, at := Bucket(e), Position(e);
      ghost var v := Now();
      LookFinds(v, b, at, s, max);
      SoundUnpacks(s, beyond);
      if b == curr || b == flushing {
        if b == curr && at >= wbufStart {
          assert Look(v, b, at) == wbuf[at - wbufStart..wbufCurr];
          var d := DecodeRecord(wbuf[at - wbufStart..wbufCurr]);
          r := DecompressRecord(d.rec, beyond);
        } else if b == flushing && at >= fbufStart {
          var d := DecodeRecord(fbuf[at - fbufStart..]);
          r := DecompressRecord(d.rec, beyond);
        } else {
          r := ReadFile(key, b, at, beyond, s);
        }
      } else {
        r := ReadFile(key, b, at, beyond, s);
      }
      r := Some(r.value.(version := e.ver));
    }

    method ReadFile(key: Key, b: nat, at: nat, beyond: seq<byte>, ghost s: Rec) returns (r: Option<Rec>)
      requires Valid() && 9 <= |beyond| && !InWriteBuffer(Now(), b, at) && !InFlushBuffer(Now(), b, at)
      requires IsAt(Recs(Now(), b), at, s) && Sound(s) && s.key == key
      ensures r == Some(Plain(s))
    {
      hide Inv, Bounded, Recs, IsAt, DecodeBytes, Sound, Plain, Unpacks, Unpackable, InFile;
      FlushedIsInFile(Now(), b, at, s, max);
      FileFinds(Now(), b, at, s, max);
      SoundUnpacks(s, beyond);
      var file := if b in files then files[b] else [];
      var found := FastReadRecord(file, at);
      r := DecompressRecord(found.value, beyond);
    }
  }

  lemma EnlargedFields(v: View, n: nat, flushed: bool, max: nat)
    requires 0 < v.wbufSize && CanAppend(v, n, flushed)
    ensures var w := Enlarged(v, n, flushed, max);
      && w.curr <= v.curr + 1 && w.flushing == v.flushing && FitsBuffer(w, n) && (!flushed ==> w == v)
      && w.wbufSize == if flushed then Doubled(v.wbufSize, n) else v.wbufSize
  {
  }

  lemma FlushBegunFields(v: View, max: nat)
    requires v.flushing == -1
    ensures var w := FlushBegun(v, max);
      && w.flushing >= 0 && w.wbuf == [] && v.curr <= w.curr <= v.curr + 1 && w.wbufSize == FlushedSize(v.wbufSize)
      && w.wbufStart == (if w.curr > v.curr then 0 else v.wbufStart + |v.wbuf|)
      && (w.curr > v.curr ==> v.wbufStart + |v.wbuf| + FlushedSize(v.wbufSize) > max)
  {
  }

  lemma WroteFields(v: View, n: nat)
    requires v.flushing >= 0 && v.written + n <= |v.fbuf|
    ensures var w := Wrote(v, n);
      && w.flushing >= 0 && w.curr == v.curr && w.wbuf == v.wbuf && w.wbufStart == v.wbufStart
      && w.wbufSize == v.wbufSize
    ensures var x := FlushEnded(Wrote(v, n));
      && x.flushing == -1 && x.curr == v.curr && x.wbuf == v.wbuf && x.wbufStart == v.wbufStart
      && x.wbufSize == v.wbufSize
  {
  }

  lemma WrittenInside(v: View, max: nat)
    requires Inv(v, max)
    ensures v.written <= |v.fbuf|
  {
  }

  lemma InitialLog(max: nat, top: nat)
    ensures Inv(Initial().v, max) && Bounded(Initial().v, max, top)
  {
    InitialOk(max);
    NoRecords();
  }
}
