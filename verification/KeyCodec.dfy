/** The key codec: a key that looks like text with numbers in it is stored as the index
    of its format in a growing dictionary followed by the numbers. */
module KeyCodec {
  import opened Bytes
  import opened KeyFormat

  const DEFAULT_DICT_SIZE := 1024
  const MAX_DICT_SIZE := 16384

  datatype Fmt = Fmt(nargs: nat, fmt: seq<byte>)

  /** Entry 0 is the null entry; the others are the formats seen, in order. */
  type Dict = seq<Fmt>

  const NULL_FMT := Fmt(0, [])

  /** What check_key and C strings guarantee of a key. */
  predicate KeyOk(key: seq<byte>) {
    0 < |key| <= MAX_KEY_LEN && 0 < key[0] < 128 && 0 !in key
  }

  // ---- Encoding and decoding as functions of the dictionary -------------------------------

  function EncodeIndex(n: nat): (bs: seq<byte>)
    requires 0 < n < MAX_DICT_SIZE
    ensures 1 <= |bs| <= 2 && bs[0] >= 128
  {
    if n < 64 then [256 - n] else [192 - n % 64, n / 64]
  }

  /** Index and size of what decode_varint_old reads from `src`. */
  function DecodeIndex(src: seq<byte>): (r: (int, nat))
    requires 2 <= |src| && src[0] >= 128
  {
    var n := 256 - src[0] as int;
    if n >= 64 then (n - 64 + 64 * src[1] as int, 2) else (n, 1)
  }

  lemma IndexRoundTrip(n: nat, tail: seq<byte>)
    requires 0 < n < MAX_DICT_SIZE && tail != []
    ensures DecodeIndex(EncodeIndex(n) + tail) == (n, |EncodeIndex(n)|)
  {
    if n >= 64 {
      var bs := EncodeIndex(n) + tail;
      assert bs[0] == 192 - n % 64 && bs[1] == n / 64;
    }
  }

  function EncodeArgs(args: seq<int>): (bs: seq<byte>)
    requires Words(args)
    ensures |bs| == 4 * |args|
  {
    if args == [] then [] else Le32(args[0]) + EncodeArgs(args[1..])
  }

  function DecodeArgs(bs: seq<byte>, n: nat): (args: seq<int>)
    requires |bs| == 4 * n
    ensures |args| == n && Words(args)
  {
    if n == 0 then [] else [FromLe32(bs[..4])] + DecodeArgs(bs[4..], n - 1)
  }

  lemma {:induction false} ArgsRoundTrip(args: seq<int>)
    requires Words(args)
    ensures DecodeArgs(EncodeArgs(args), |args|) == args
  {
    if args != [] {
      var bs := EncodeArgs(args);
      assert bs[..4] == Le32(args[0]) && bs[4..] == EncodeArgs(args[1..]);
      ArgsRoundTrip(args[1..]);
    }
  }

  /** The keys that dc_encode tries to shorten. */
  predicate Formatted(key: seq<byte>) {
    && 6 < |key| < 100 && 0 < key[0] < 128
    && Parse(key, 0).Parsed? && 0 < |Parse(key, 0).args| <= MAX_FMT_ARGS
  }

  predicate Known(dict: Dict, fmt: seq<byte>) {
    exists i :: 1 <= i < |dict| && dict[i].fmt == fmt
  }

  ghost function IndexOf(dict: Dict, fmt: seq<byte>): (i: nat)
    requires Known(dict, fmt)
    ensures 1 <= i < |dict| && dict[i].fmt == fmt
  {
    var i :| 1 <= i < |dict| && dict[i].fmt == fmt; i
  }

  ghost predicate DictOk(dict: Dict) {
    && 1 <= |dict| <= MAX_DICT_SIZE && dict[0] == NULL_FMT
    && (forall i :: 1 <= i < |dict| ==>
          && dict[i].nargs == Conversions(dict[i].fmt) && 1 <= dict[i].nargs <= MAX_FMT_ARGS
          && |dict[i].fmt| < 100 && 0 !in dict[i].fmt)
    && (forall i, j :: 1 <= i < j < |dict| ==> dict[i].fmt != dict[j].fmt)
  }

  /** The encoding of `key` can no longer change. */
  ghost predicate Settled(dict: Dict, key: seq<byte>) {
    Formatted(key) ==> Known(dict, Parse(key, 0).fmt) || |dict| == MAX_DICT_SIZE
  }

  function EncodeWith(i: nat, args: seq<int>): (bs: seq<byte>)
    requires 0 < i < MAX_DICT_SIZE && Words(args)
  {
    EncodeIndex(i) + EncodeArgs(args)
  }

  ghost function Enc(dict: Dict, key: seq<byte>): (bs: seq<byte>)
    requires |dict| <= MAX_DICT_SIZE
  {
    if Formatted(key) && Known(dict, Parse(key, 0).fmt) then
      ParseRenders(key, 0);
      EncodeWith(IndexOf(dict, Parse(key, 0).fmt), Parse(key, 0).args)
    else key
  }

  /** dc_decode; the error branches give the empty key. */
  function Decode(dict: Dict, src: seq<byte>): (key: seq<byte>) {
    if src == [] || src[0] < 128 then src
    else if |src| < 5 then []
    else
      var (i, intlen) := DecodeIndex(src);
      if i <= 0 || i >= |dict| then []
      else if |src| != dict[i].nargs * 4 + intlen || !(1 <= dict[i].nargs <= 3) then []
      else Render(dict[i].fmt, DecodeArgs(src[intlen..], dict[i].nargs))
  }

  /** A settled encoding decodes to its key. */
  lemma DecodeEnc(dict: Dict, key: seq<byte>)
    requires DictOk(dict) && KeyOk(key)
    ensures Decode(dict, Enc(dict, key)) == key
    ensures 0 < |Enc(dict, key)| <= MAX_KEY_LEN
  {
    if Formatted(key) && Known(dict, Parse(key, 0).fmt) {
      var r := Parse(key, 0);
      ParseRenders(key, 0);
      var i := IndexOf(dict, r.fmt);
      var tail := EncodeArgs(r.args);
      IndexRoundTrip(i, tail);
      ArgsRoundTrip(r.args);
      assert EncodeWith(i, r.args)[|EncodeIndex(i)|..] == tail;
    }
  }

  /** Growing the dictionary changes neither encodings nor decodings. */
  lemma EncStable(dict: Dict, dict': Dict, key: seq<byte>)
    requires DictOk(dict) && DictOk(dict') && dict <= dict' && Settled(dict, key)
    ensures Settled(dict', key) && Enc(dict', key) == Enc(dict, key)
  {
    if Formatted(key) {
      var fmt := Parse(key, 0).fmt;
      if Known(dict, fmt) {
        var i := IndexOf(dict, fmt);
        assert dict'[i].fmt == fmt;
        assert IndexOf(dict', fmt) == i;
      } else {
        assert dict' == dict;
      }
    }
  }

  lemma EncInjective(dict: Dict, a: seq<byte>, b: seq<byte>)
    requires DictOk(dict) && KeyOk(a) && KeyOk(b) && Enc(dict, a) == Enc(dict, b)
    ensures a == b
  {
    DecodeEnc(dict, a);
    DecodeEnc(dict, b);
  }

  lemma DecodeStable(dict: Dict, dict': Dict, key: seq<byte>)
    requires DictOk(dict) && DictOk(dict') && dict <= dict' && KeyOk(key) && Settled(dict, key)
    ensures Decode(dict', Enc(dict, key)) == key
  {
    EncStable(dict, dict', key);
    DecodeEnc(dict', key);
  }
}
