/** The mutable codec: the dictionary and its open-addressing reverse table. */
module CodecTable {
  import opened Bytes
  import opened KeyFormat
  import opened KeyCodec
  import Fnv1a

  function RdictSize(dictSize: nat): nat {
    dictSize * 7 + 1
  }

  function Home(fmt: seq<byte>, n: nat): (h: nat)
    requires 0 < n
    ensures h < n
  {
    Fnv1a.Hash(fmt) % n
  }

  /** The slot `d` steps after `home`, wrapping around. */
  function Slot(home: nat, d: nat, n: nat): (s: nat)
    requires home < n && d < n
    ensures s < n
  {
    if home + d < n then home + d else home + d - n
  }

  /** Probing from `home` passes only occupied slots before step `d`. */
  predicate Occupied(rdict: seq<int>, home: nat, d: nat)
    requires home < |rdict|
  {
    d < |rdict| && forall e :: 0 <= e < d ==> rdict[Slot(home, e, |rdict|)] > 0
  }

  predicate LocatedAt(rdict: seq<int>, home: nat, d: nat, i: int)
    requires home < |rdict|
  {
    Occupied(rdict, home, d) && rdict[Slot(home, d, |rdict|)] == i
  }

  ghost predicate Located(rdict: seq<int>, fmt: seq<byte>, i: int)
    requires 0 < |rdict|
  {
    exists d: nat :: LocatedAt(rdict, Home(fmt, |rdict|), d, i)
  }

  /** Every format is found by probing, and no index is filed twice. */
  ghost predicate RdictOk(dict: Dict, rdict: seq<int>) {
    && 0 < |dict| <= |rdict|
    && (forall s :: 0 <= s < |rdict| ==> -1 <= rdict[s] < |dict|)
    && (forall s, t :: 0 <= s < t < |rdict| && rdict[s] > 0 ==> rdict[s] != rdict[t])
    && (forall i :: 1 <= i < |dict| ==> Located(rdict, dict[i].fmt, i))
  }

  // ---- A free slot always exists -------------------------------------------------------------

  lemma {:induction false} Interval(u: nat) returns (all: set<int>)
    ensures forall x :: x in all <==> 0 < x < u
    ensures |all| == if u == 0 then 0 else u - 1
  {
    if u <= 1 {
      all := {};
    } else {
      var smaller := Interval(u - 1);
      all := smaller + {u - 1};
    }
  }

  lemma {:induction false} DistinctValues(vals: seq<int>, u: nat) returns (found: set<int>)
    requires forall i :: 0 <= i < |vals| ==> 0 < vals[i] < u
    requires forall i, j :: 0 <= i < j < |vals| ==> vals[i] != vals[j]
    ensures (forall x :: x in found ==> x in vals && 0 < x < u) && |found| == |vals|
  {
    if vals == [] {
      found := {};
    } else {
      var init, last := vals[..|vals| - 1], vals[|vals| - 1];
      var smaller := DistinctValues(init, u);
      assert last !in init;
      found := smaller + {last};
    }
  }

  lemma SubsetSize(a: set<int>, b: set<int>)
    requires a <= b
    ensures |a| <= |b|
  {
    assert b == a + (b - a);
  }

  lemma FewValues(vals: seq<int>, u: nat)
    requires forall i :: 0 <= i < |vals| ==> 0 < vals[i] < u
    requires forall i, j :: 0 <= i < j < |vals| ==> vals[i] != vals[j]
    ensures 0 < u ==> |vals| < u
  {
    var found := DistinctValues(vals, u);
    var all := Interval(u);
    assert found <= all by {
      forall x | x in found ensures x in all { }
    }
    SubsetSize(found, all);
  }

  lemma FreeSlot(dict: Dict, rdict: seq<int>) returns (s: nat)
    requires RdictOk(dict, rdict)
    ensures s < |rdict| && rdict[s] <= 0
  {
    if forall t :: 0 <= t < |rdict| ==> rdict[t] > 0 {
      FewValues(rdict, |dict|);
      assert false;
    } else {
      s :| 0 <= s < |rdict| && rdict[s] <= 0;
    }
  }

  function Steps(home: nat, s: nat, n: nat): (d: nat)
    requires home < n && s < n
    ensures d < n && Slot(home, d, n) == s
  {
    if s >= home then s - home else s + n - home
  }

  /** A probe that stops at a free slot has passed every format it could have found. */
  lemma NotKnown(dict: Dict, rdict: seq<int>, fmt: seq<byte>, d: nat)
    requires RdictOk(dict, rdict)
    requires Occupied(rdict, Home(fmt, |rdict|), d)
    requires forall e :: 0 <= e < d ==> dict[rdict[Slot(Home(fmt, |rdict|), e, |rdict|)]].fmt != fmt
    requires rdict[Slot(Home(fmt, |rdict|), d, |rdict|)] <= 0
    ensures !Known(dict, fmt)
  {
    hide Home;
    forall i | 1 <= i < |dict| ensures dict[i].fmt != fmt {
      assert Located(rdict, dict[i].fmt, i);
      var d' :| LocatedAt(rdict, Home(dict[i].fmt, |rdict|), d', i);
    }
  }

  lemma MarkSlot(dict: Dict, rdict: seq<int>, h: nat)
    requires RdictOk(dict, rdict) && h < |rdict| && rdict[h] <= 0
    ensures RdictOk(dict, rdict[h := -1])
  {
    hide Home;
    var r := rdict[h := -1];
    forall i | 1 <= i < |dict| ensures Located(r, dict[i].fmt, i) {
      assert Located(rdict, dict[i].fmt, i);
      var d :| LocatedAt(rdict, Home(dict[i].fmt, |rdict|), d, i);
      assert LocatedAt(r, Home(dict[i].fmt, |r|), d, i);
    }
  }

  lemma FileIndex(dict: Dict, rdict: seq<int>, f: Fmt, d: nat)
    requires RdictOk(dict, rdict) && |dict| < |rdict|
    requires Occupied(rdict, Home(f.fmt, |rdict|), d)
    requires rdict[Slot(Home(f.fmt, |rdict|), d, |rdict|)] <= 0
    ensures RdictOk(dict + [f], rdict[Slot(Home(f.fmt, |rdict|), d, |rdict|) := |dict|])
  {
    hide Home;
    var home := Home(f.fmt, |rdict|);
    var r, dict' := rdict[Slot(home, d, |rdict|) := |dict|], dict + [f];
    forall i | 1 <= i < |dict'| ensures Located(r, dict'[i].fmt, i) {
      if i < |dict| {
        assert Located(rdict, dict[i].fmt, i);
        var e :| LocatedAt(rdict, Home(dict[i].fmt, |rdict|), e, i);
        assert LocatedAt(r, Home(dict'[i].fmt, |r|), e, i);
      } else {
        assert LocatedAt(r, home, d, i);
      }
    }
  }

  /** The first free slot from `home` on. */
  method FindFree(ghost dict: Dict, rdict: seq<int>, home: nat) returns (h: nat, ghost d: nat)
    requires RdictOk(dict, rdict) && home < |rdict|
    ensures d < |rdict| && h == Slot(home, d, |rdict|) && Occupied(rdict, home, d) && rdict[h] <= 0
  {
    ghost var free := FreeSlot(dict, rdict);
    ghost var last := Steps(home, free, |rdict|);
    h, d := home, 0;
    while rdict[h] > 0
      invariant 0 <= d <= last && h == Slot(home, d, |rdict|)
      invariant forall e :: 0 <= e < d ==> rdict[Slot(home, e, |rdict|)] > 0
      decreases last - d
    {
      assert d < last;
      h := h + 1;
      if h == |rdict| {
        h := 0;
      }
      d := d + 1;
    }
  }

  /** The first slot on the probe sequence of `fmt` that holds it or is free. */
  method Probe(dict: Dict, rdict: seq<int>, fmt: seq<byte>) returns (h: nat, ghost d: nat)
    requires RdictOk(dict, rdict)
    ensures d < |rdict| && h == Slot(Home(fmt, |rdict|), d, |rdict|)
    ensures Occupied(rdict, Home(fmt, |rdict|), d)
    ensures rdict[h] > 0 ==> dict[rdict[h]].fmt == fmt
    ensures rdict[h] <= 0 ==> !Known(dict, fmt)
  {
    hide Home, Known, Located;
    ghost var home := Home(fmt, |rdict|);
    ghost var free := FreeSlot(dict, rdict);
    ghost var last := Steps(home, free, |rdict|);
    h, d := Home(fmt, |rdict|), 0;
    while rdict[h] > 0 && dict[rdict[h]].fmt != fmt
      invariant 0 <= d <= last && h == Slot(home, d, |rdict|)
      invariant forall e :: 0 <= e < d ==> rdict[Slot(home, e, |rdict|)] > 0
      invariant forall e :: 0 <= e < d ==> dict[rdict[Slot(home, e, |rdict|)]].fmt != fmt
      decreases last - d
    {
      assert d < last;
      h := h + 1;
      if h == |rdict| {
        h := 0;
      }
      d := d + 1;
    }
    if rdict[h] <= 0 {
      NotKnown(dict, rdict, fmt, d);
    }
  }

  // ---- The codec object -----------------------------------------------------------------------

  class Codec {
    var dictSize: nat
    var dict: Dict
    var rdict: seq<int>

    ghost predicate Valid()
      reads this
    {
      DictOk(dict) && Filed()
    }

    /** The reverse table serves the dictionary, whatever formats that holds. */
    ghost predicate Filed()
      reads this
    {
      && RdictOk(dict, rdict)
      && |dict| <= dictSize <= MAX_DICT_SIZE && |rdict| == RdictSize(dictSize)
      && (|dict| < dictSize || dictSize == MAX_DICT_SIZE)
      && (|dict| < MAX_DICT_SIZE ==> forall s :: 0 <= s < |rdict| ==> rdict[s] >= 0)
    }

    constructor ()
      ensures Valid() && dict == [NULL_FMT]
    {
      dictSize, dict := DEFAULT_DICT_SIZE, [NULL_FMT];
      rdict := seq(RdictSize(DEFAULT_DICT_SIZE), _ => 0);
    }

    /** dc_rebuild: files every format afresh in a table for the current size. */
    method Rebuild()
      requires 1 <= |dict| <= dictSize <= MAX_DICT_SIZE && dict[0] == NULL_FMT
      requires |dict| < dictSize || dictSize == MAX_DICT_SIZE
      modifies this`rdict
      ensures Filed()
    {
      hide Home;
      rdict := seq(RdictSize(dictSize), _ => 0);
      assert dict[..1] == [NULL_FMT];
      var i := 1;
      while i < |dict|
        invariant 1 <= i <= |dict| && |rdict| == RdictSize(dictSize)
        invariant RdictOk(dict[..i], rdict)
        invariant forall s :: 0 <= s < |rdict| ==> rdict[s] >= 0
      {
        var h;
        ghost var d;
        h, d := FindFree(dict[..i], rdict, Home(dict[i].fmt, |rdict|));
        FileIndex(dict[..i], rdict, dict[i], d);
        assert dict[..i] + [dict[i]] == dict[..i + 1];
        rdict := rdict[h := i];
        i := i + 1;
      }
      assert dict[..|dict|] == dict;
    }

    /** dc_enlarge. */
    method Enlarge()
      requires DictOk(dict) && |dict| <= dictSize < MAX_DICT_SIZE && 1 <= dictSize
      modifies this`dictSize, this`rdict
      ensures Valid()
    {
      dictSize := if dictSize * 2 < MAX_DICT_SIZE then dictSize * 2 else MAX_DICT_SIZE;
      Rebuild();
    }

    /** The index of a format, which is added if there is room; a full dictionary remembers the miss. */
    method Intern(fmt: seq<byte>, nargs: nat) returns (rh: int)
      requires Valid() && nargs == Conversions(fmt) && 1 <= nargs <= MAX_FMT_ARGS && |fmt| < 100 && 0 !in fmt
      modifies this
      ensures Valid() && old(dict) <= dict
      ensures dict == old(dict) || (!Known(old(dict), fmt) && dict == old(dict) + [Fmt(nargs, fmt)])
      ensures 0 < rh ==> rh < |dict| && dict[rh].fmt == fmt
      ensures rh <= 0 ==> |dict| == MAX_DICT_SIZE && !Known(dict, fmt)
    {
      hide Home, Conversions;
      var h;
      ghost var d;
      h, d := Probe(dict, rdict, fmt);
      rh := rdict[h];
      if rh == 0 {
        if |dict| < dictSize {
          FileIndex(dict, rdict, Fmt(nargs, fmt), d);
          rh := |dict|;
          AppendFmt(dict, Fmt(nargs, fmt));
          dict := dict + [Fmt(nargs, fmt)];
          rdict := rdict[h := rh];
          assert dict[rh].fmt == fmt;
          if |dict| == dictSize && dictSize < MAX_DICT_SIZE {
            Enlarge();
          }
        } else {
          MarkSlot(dict, rdict, h);
          rdict := rdict[h := -1];
          rh := -1;
        }
      }
    }

    /** dc_encode: the stored form of `key`, which from now on never changes. */
    method Encode(key: seq<byte>) returns (r: seq<byte>)
      requires Valid() && 0 !in key
      modifies this
      ensures Valid() && old(dict) <= dict
      ensures Settled(dict, key) && r == Enc(dict, key)
      ensures dict == old(dict) ||
              (Formatted(key) && !Known(old(dict), Parse(key, 0).fmt)
               && dict == old(dict) + [Fmt(|Parse(key, 0).args|, Parse(key, 0).fmt)])
    {
      hide Parse, Conversions, EncodeArgs, EncodeIndex, RdictOk;
      var parsed := ParseFmt(key);
      if 6 < |key| < 100 && 0 < key[0] < 128 && parsed.Parsed? && 0 < |parsed.args| <= MAX_FMT_ARGS {
        var fmt := parsed.fmt;
        ParseRenders(key, 0);
        var rh := Intern(fmt, |parsed.args|);
        if rh > 0 {
          assert Known(dict, fmt) && IndexOf(dict, fmt) == rh;
          return EncodeIndex(rh) + EncodeArgs(parsed.args);
        }
      }
      r := key;
    }
  }

  lemma AppendFmt(dict: Dict, f: Fmt)
    requires DictOk(dict) && |dict| < MAX_DICT_SIZE && !Known(dict, f.fmt)
    requires f.nargs == Conversions(f.fmt) && 1 <= f.nargs <= MAX_FMT_ARGS
    requires |f.fmt| < 100 && 0 !in f.fmt
    ensures DictOk(dict + [f]) && Known(dict + [f], f.fmt)
  {
    assert (dict + [f])[|dict|].fmt == f.fmt;
  }

  /** Over any run of encodings from a new codec: every code decodes to its key under
      the final dictionary, equal keys have equal codes and distinct keys distinct ones. */
  method EncodeRun(keys: seq<seq<byte>>) returns (codes: seq<seq<byte>>, dict: Dict)
    requires forall i :: 0 <= i < |keys| ==> KeyOk(keys[i])
    ensures |codes| == |keys|
    ensures forall i :: 0 <= i < |keys| ==> Decode(dict, codes[i]) == keys[i]
    ensures forall i, j :: 0 <= i < |keys| && 0 <= j < |keys| ==> (codes[i] == codes[j] <==> keys[i] == keys[j])
  {
    var dc := new Codec();
    codes := [];
    while |codes| < |keys|
      invariant |codes| <= |keys| && dc.Valid() && fresh(dc)
      invariant forall i :: 0 <= i < |codes| ==> Settled(dc.dict, keys[i]) && codes[i] == Enc(dc.dict, keys[i])
    {
      ghost var before := dc.dict;
      var code := dc.Encode(keys[|codes|]);
      forall i | 0 <= i < |codes| ensures Settled(dc.dict, keys[i]) && codes[i] == Enc(dc.dict, keys[i]) {
        EncStable(before, dc.dict, keys[i]);
      }
      codes := codes + [code];
    }
    dict := dc.dict;
    forall i | 0 <= i < |keys| ensures Decode(dict, codes[i]) == keys[i] {
      DecodeEnc(dict, keys[i]);
    }
  }
}
