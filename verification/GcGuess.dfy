/** count_deleted_record and the size that bc_optimize expects of a file from it. */
module GcGuess {
  import opened Bytes
  import opened HTreeLeaf
  import opened HTreeApi
  import opened Hint
  import opened Lasts

  /** The index does not use this entry. */
  predicate Unused(index: Index, v: Visited) {
    v.key !in index || index[v.key].pos != v.e.pos || index[v.key].ver <= 0
  }

  /** How many entries any bytes have as a hint, and how many of them are not used. */
  function Tally(index: Index, buf: seq<byte>, bucket: byte): (r: (nat, nat))
    ensures r.1 <= r.0
    decreases |buf|
  {
    if buf == [] || HintLength(buf) > |buf| then (0, 0) else
    var rest := Tally(index, buf[HintLength(buf)..], bucket);
    (rest.0 + 1, rest.1 + if Unused(index, HintAt(buf, bucket)) then 1 else 0)
  }

  method CountDeleted(index: Index, bucket: byte, buf: seq<byte>) returns (total: nat, deleted: nat)
    ensures (total, deleted) == Tally(index, buf, bucket)
  {
    hide HintAt, HintLength, Unused;
    total, deleted := 0, 0;
    var p := 0;
    assert buf[0..] == buf;
    while p < |buf|
      invariant 0 <= p <= |buf|
      invariant var t, r := Tally(index, buf, bucket), Tally(index, buf[p..], bucket); t == (total + r.0, deleted + r.1)
    {
      var rest := buf[p..];
      if HintLength(rest) > |rest| {
        break;
      }
      assert buf[p + HintLength(rest)..] == rest[HintLength(rest)..];
      total := total + 1;
      if Unused(index, HintAt(rest, bucket)) {
        deleted := deleted + 1;
      }
      p := p + HintLength(rest);
    }
  }

  /** The entries of a tree that the index does not use, under the number of the file. */
  ghost function UnusedKeys(index: Index, c: Index, bucket: byte): set<Key> {
    set k | k in c && Unused(index, Visited(k, Numbered(c[k], bucket)))
  }

  /** On a hint the count is of its entries, in whatever order they were collected. */
  lemma {:induction false} TallyOf(index: Index, out: seq<Visited>, c: Index, bucket: byte)
    requires AllFit(out) && Enumerates(out, c)
    ensures Tally(index, HintBytes(out), bucket) == (|c|, |UnusedKeys(index, c, bucket)|)
    decreases |out|
  {
    hide Fits, Enumerates, HintRecord, HintAt, HintLength, Numbered, Unused;
    if out == [] {
      EnumeratesNone(c);
      assert UnusedKeys(index, c, bucket) == {};
    } else {
      var k, rest := out[0].key, out[1..];
      EnumeratesTail(out, c);
      HintRoundTrip(out[0], HintBytes(rest), bucket);
      TallyOf(index, rest, c - {k}, bucket);
      var buf := HintBytes(out);
      assert buf[|HintRecord(out[0])|..] == HintBytes(rest);
      OneEntry(index, c, k, bucket);
    }
  }

  lemma OneEntry(index: Index, c: Index, k: Key, bucket: byte)
    requires k in c
    ensures |c| == |c - {k}| + 1
    ensures |UnusedKeys(index, c, bucket)|
      == |UnusedKeys(index, c - {k}, bucket)| + if Unused(index, Visited(k, Numbered(c[k], bucket))) then 1 else 0
  {
    hide Numbered, Unused;
    assert (c - {k}).Keys == c.Keys - {k};
    var all, less := UnusedKeys(index, c, bucket), UnusedKeys(index, c - {k}, bucket);
    if Unused(index, Visited(k, Numbered(c[k], bucket))) { assert all == less + {k}; } else { assert all == less; }
  }

  /** What is left of `size` bytes when half of the unused entries are taken off. */
  function Guess(size: nat, total: nat, deleted: nat): (r: nat)
    requires deleted <= total
    ensures r <= size
  {
    GuessInside(size, total - deleted / 2, total + 1);
    size * (total - deleted / 2) / (total + 1)
  }

  lemma GuessInside(size: nat, a: nat, b: nat)
    requires a < b
    ensures 0 <= size * a / b <= size
  {
    var x := size * a;
    assert x <= size * b by { Scaled(size, a, b); }
    Quotient(x, size, b);
  }

  lemma Scaled(size: nat, a: nat, b: nat)
    requires a <= b
    ensures size * a <= size * b
  {
  }

  lemma Quotient(x: nat, size: nat, b: nat)
    requires 0 < b && x <= size * b
    ensures 0 <= x / b <= size
  {
    var q := x / b;
    assert q * b <= x;
  }

  /** The more entries are unused, the smaller the guess. */
  lemma GuessFalls(size: nat, total: nat, d1: nat, d2: nat)
    requires d1 <= d2 <= total
    ensures Guess(size, total, d2) <= Guess(size, total, d1)
  {
    hide Guess;
    Scaled(size, total - d2 / 2, total - d1 / 2);
    Quotients(size * (total - d2 / 2), size * (total - d1 / 2), total + 1);
    GuessIs(size, total, d1);
    GuessIs(size, total, d2);
  }

  lemma GuessIs(size: nat, total: nat, deleted: nat)
    requires deleted <= total
    ensures Guess(size, total, deleted) == size * (total - deleted / 2) / (total + 1)
  {
  }

  lemma Quotients(x: nat, y: nat, b: nat)
    requires x <= y && 0 < b
    ensures x / b <= y / b
  {
    var p, q := x / b, y / b;
    assert p * b <= x && y < (q + 1) * b;
  }

  /** The expected size of a file of `size` bytes whose hint, if it can be opened, is made of `c`. */
  method GuessSize(index: Index, bucket: byte, size: nat, readable: bool, hint: seq<byte>, ghost c: Index)
    returns (guess: nat)
    requires readable ==> TreeHint(hint, c)
    ensures guess <= size
    ensures guess == if readable then Guess(size, |c|, UnusedCount(index, c, bucket)) else 0
  {
    hide HintOf, Holds, Tally, UnusedCount;
    var total, deleted := 0, 0;
    if readable {
      ghost var was :| HintOf(was, c) && Holds(hint, was);
      var buf := OpenHint(hint, was);
      total, deleted := CountDeleted(index, bucket, buf);
      TallyOfHint(index, buf, c, bucket);
    }
    guess := Guess(size, total, deleted);
  }

  ghost function UnusedCount(index: Index, c: Index, bucket: byte): (r: nat)
    ensures r <= |c|
  {
    assert UnusedKeys(index, c, bucket) <= c.Keys;
    SubsetSize(UnusedKeys(index, c, bucket), c.Keys);
    |UnusedKeys(index, c, bucket)|
  }

  lemma TallyOfHint(index: Index, buf: seq<byte>, c: Index, bucket: byte)
    requires HintOf(buf, c)
    ensures Tally(index, buf, bucket) == (|c|, UnusedCount(index, c, bucket))
  {
    hide Tally, Enumerates, AllFit, HintBytes;
    var out :| Enumerates(out, c) && AllFit(out) && buf == HintBytes(out);
    TallyOf(index, out, c, bucket);
  }
}
