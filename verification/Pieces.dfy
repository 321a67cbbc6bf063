/** Byte sequences in pieces, as they arrive from and leave for the network. */
module Pieces {
  import opened Bytes

  /** All pieces in order. */
  function Flat(ss: seq<seq<byte>>): seq<byte> {
    if ss == [] then [] else ss[0] + Flat(ss[1..])
  }

  lemma {:induction false} FlatConcat(a: seq<seq<byte>>, b: seq<seq<byte>>)
    ensures Flat(a + b) == Flat(a) + Flat(b)
    decreases |a|
  {
    if a == [] {
      assert a + b == b;
    } else {
      assert (a + b)[1..] == a[1..] + b;
      FlatConcat(a[1..], b);
    }
  }

  lemma FlatOne(s: seq<byte>)
    ensures Flat([s]) == s
  {
    assert Flat([s][1..]) == [];
  }
}
