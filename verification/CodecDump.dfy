/** dc_dump and dc_load: the dictionary as bytes, with the reverse table rebuilt. */
module CodecDump {
  import opened Bytes
  import opened KeyCodec
  import opened CodecTable

  /** Size byte, argument count, format, terminating zero. */
  function DumpFmt(f: Fmt): (bs: seq<byte>)
    requires f.nargs < 256 && |f.fmt| < 254
    ensures |bs| == |f.fmt| + 3 && bs[0] == |f.fmt| + 2
  {
    [|f.fmt| + 2, f.nargs] + f.fmt + [0]
  }

  predicate Dumpable(dict: Dict) {
    0 < |dict| <= MAX_DICT_SIZE && dict[0] == NULL_FMT
    && forall i :: 1 <= i < |dict| ==> dict[i].nargs < 256 && |dict[i].fmt| < 254 && 0 !in dict[i].fmt
  }

  function DumpFrom(dict: Dict, i: nat): (bs: seq<byte>)
    requires Dumpable(dict) && 1 <= i <= |dict|
    decreases |dict| - i
  {
    if i == |dict| then [] else DumpFmt(dict[i]) + DumpFrom(dict, i + 1)
  }

  /** What dc_load must undo. */
  function Dump(dict: Dict): (bs: seq<byte>)
    requires Dumpable(dict)
  {
    Le32(|dict|) + DumpFrom(dict, 1)
  }

  method DumpCodec(dc: Codec) returns (buf: seq<byte>)
    requires Dumpable(dc.dict)
    ensures buf == Dump(dc.dict)
  {
    buf := Le32(|dc.dict|);
    var i := 1;
    while i < |dc.dict|
      invariant 1 <= i <= |dc.dict|
      invariant buf + DumpFrom(dc.dict, i) == Dump(dc.dict)
    {
      assert buf + DumpFrom(dc.dict, i) == buf + DumpFmt(dc.dict[i]) + DumpFrom(dc.dict, i + 1);
      buf := buf + DumpFmt(dc.dict[i]);
      i := i + 1;
    }
    assert buf + [] == buf;
  }

  /** The bytes before the first zero, as strlen sees them. */
  function CString(bs: seq<byte>): (s: seq<byte>) {
    if bs == [] || bs[0] == 0 then [] else [bs[0]] + CString(bs[1..])
  }

  lemma {:induction false} CStringOf(s: seq<byte>, tail: seq<byte>)
    requires 0 !in s
    ensures CString(s + [0] + tail) == s
  {
    if s == [] {
      assert (s + [0] + tail)[0] == 0;
    } else {
      assert (s + [0] + tail)[1..] == s[1..] + [0] + tail;
      assert 0 !in s[1..];
      CStringOf(s[1..], tail);
      assert s == [s[0]] + s[1..];
    }
  }

  function LoadFmt(bs: seq<byte>): (f: Fmt) {
    if bs == [] then NULL_FMT else Fmt(bs[0], CString(bs[1..]))
  }

  lemma LoadDumped(f: Fmt, tail: seq<byte>)
    requires f.nargs < 256 && |f.fmt| < 254 && 0 !in f.fmt
    ensures var bs := DumpFmt(f) + tail;
            LoadFmt(bs[1..1 + bs[0]]) == f && bs[1 + bs[0]..] == tail
  {
    var bs := DumpFmt(f) + tail;
    var body := bs[1..1 + bs[0]];
    assert body == [f.nargs as byte] + f.fmt + [0];
    assert body[1..] == f.fmt + [0] + [];
    CStringOf(f.fmt, []);
  }

  lemma LoadNext(buf: seq<byte>, p: nat, d: Dict, i: nat)
    requires Dumpable(d) && 1 <= i < |d| && p <= |buf| && buf[p..] == DumpFrom(d, i)
    ensures p < |buf| && p + 1 + buf[p] as int <= |buf|
    ensures LoadFmt(buf[p + 1..p + 1 + buf[p] as int]) == d[i]
    ensures buf[p + 1 + buf[p] as int..] == DumpFrom(d, i + 1)
  {
    var bs, s := buf[p..], buf[p] as int;
    LoadDumped(d[i], DumpFrom(d, i + 1));
    assert bs[1..1 + s] == buf[p + 1..p + 1 + s];
    assert bs[1 + s..] == buf[p + 1 + s..];
  }

  /** The `used - 1` formats of a dump, or failure when the bytes run out. */
  method LoadFormats(buf: seq<byte>, used: nat, ghost d: Dict) returns (ok: bool, dict: Dict)
    requires 4 <= |buf|
    ensures ok ==> |dict| == (if used < 1 then 1 else used) && dict[0] == NULL_FMT
    ensures Dumpable(d) && used == |d| && buf[4..] == DumpFrom(d, 1) ==> ok && dict == d
  {
    hide LoadFmt, DumpFmt;
    ghost var dumped := Dumpable(d) && used == |d| && buf[4..] == DumpFrom(d, 1);
    dict := [NULL_FMT];
    var p := 4;
    assert dumped ==> d[..1] == [NULL_FMT];
    while |dict| < used
      invariant 1 <= |dict| <= (if used < 1 then 1 else used) && 4 <= p <= |buf| && dict[0] == NULL_FMT
      invariant dumped ==> dict == d[..|dict|] && buf[p..] == DumpFrom(d, |dict|)
    {
      if dumped {
        LoadNext(buf, p, d, |dict|);
        assert d[..|dict|] + [d[|dict|]] == d[..|dict| + 1];
      }
      if p + 1 > |buf| || p + 1 + buf[p] as int > |buf| {
        return false, dict;
      }
      var s := buf[p] as int;
      dict := dict + [LoadFmt(buf[p + 1..p + 1 + s])];
      p := p + 1 + s;
    }
    assert dumped ==> d[..|d|] == d;
    ok := true;
  }

  /** Fails on a short buffer or an impossible count; a dump of `d` gives back `d`. */
  method LoadCodec(dc: Codec, buf: seq<byte>, ghost d: Dict) returns (ok: bool)
    requires dc.Valid()
    modifies dc
    ensures ok ==> dc.Filed()
    ensures DictOk(d) && buf == Dump(d) ==> ok && dc.dict == d && dc.Valid()
  {
    hide RdictOk, DumpFrom;
    if |buf| < 4 {
      return false;
    }
    var used := FromLe32(buf[..4]);
    assert DictOk(d) && buf == Dump(d) ==> used == |d| && buf[4..] == DumpFrom(d, 1);
    if used > MAX_DICT_SIZE {
      return false;
    }
    var dict;
    ok, dict := LoadFormats(buf, used, d);
    if ok {
      var dictSize := if used * 2 < MAX_DICT_SIZE then used * 2 else MAX_DICT_SIZE;
      if dc.dictSize < dictSize {
        dc.dictSize := dictSize;
      }
      dc.dict := dict;
      dc.Rebuild();
    }
  }
}
