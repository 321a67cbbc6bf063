/** Bytes, little-endian integers and powers of two shared by every component. */
module Bytes {

  type byte = x: int | 0 <= x < 256

  const TWO_16 := 0x1_0000
  const TWO_24 := 0x100_0000
  const TWO_31 := 0x8000_0000
  const TWO_32 := 0x1_0000_0000

  const MAX_KEY_LEN := 250

  function Pow2(n: nat): (p: nat)
    ensures p > 0
  {
    if n == 0 then 1 else 2 * Pow2(n - 1)
  }

  /** The four bytes of a 32-bit word, low byte first. */
  function Le32(x: int): (bs: seq<byte>)
    requires 0 <= x < TWO_32
    ensures |bs| == 4 && FromLe32(bs) == x
  {
    var a := x / 256;
    var b := a / 256;
    [x % 256, a % 256, b % 256, b / 256]
  }

  function FromLe32(bs: seq<byte>): (x: int)
    requires |bs| == 4
    ensures 0 <= x < TWO_32
  {
    var b: int := bs[2] as int + 256 * bs[3] as int;
    var a: int := bs[1] as int + 256 * b;
    bs[0] as int + 256 * a
  }

  lemma Le32Unique(bs: seq<byte>)
    requires |bs| == 4
    ensures Le32(FromLe32(bs)) == bs
  {
    var b: int := bs[2] as int + 256 * bs[3] as int;
    var a: int := bs[1] as int + 256 * b;
    assert (bs[0] as int + 256 * a) / 256 == a && a / 256 == b;
  }

  lemma MulAtLeast(b: int, k: int)
    requires 0 < b && 1 <= k
    ensures b * k >= b
  {
  }

  /** Quotient and remainder are determined by a = b * q + r with 0 <= r < b. */
  lemma DivMod(a: int, b: int, q: int, r: int)
    requires 0 <= r < b && a == b * q + r
    ensures a / b == q && a % b == r
  {
    var d, m := a / b, a % b;
    var k := d - q;
    assert b * d == b * q + b * k;
    if k > 0 {
      MulAtLeast(b, k);
    } else if k < 0 {
      MulAtLeast(b, -k);
    }
  }

  /** memcpy into a buffer; nothing else of the buffer changes. */
  method CopyBytes(src: seq<byte>, from: nat, n: nat, dst: array<byte>, p: nat)
    requires from + n <= |src| && p + n <= dst.Length
    modifies dst
    ensures dst[p..p + n] == src[from..from + n]
    ensures dst[..p] == old(dst[..p]) && dst[p + n..] == old(dst[p + n..])
  {
    var i := 0;
    while i < n
      invariant 0 <= i <= n
      invariant forall j :: p <= j < p + i ==> dst[j] == src[from + (j - p)]
      invariant forall j :: 0 <= j < p || p + n <= j < dst.Length ==> dst[j] == old(dst[j])
    {
      dst[p + i] := src[from + i];
      i := i + 1;
    }
  }

  /** A signed 32-bit number as a word. */
  function ToWord(x: int): (w: int)
    requires -TWO_31 <= x < TWO_31
    ensures 0 <= w < TWO_32 && FromWord(w) == x
  {
    if x < 0 then x + TWO_32 else x
  }

  function FromWord(w: int): (x: int)
    requires 0 <= w < TWO_32
    ensures -TWO_31 <= x < TWO_31
  {
    if w >= TWO_31 then w - TWO_32 else w
  }

  function Le16(x: int): (bs: seq<byte>)
    requires 0 <= x < TWO_16
    ensures |bs| == 2 && FromLe16(bs) == x
  {
    [x % 256, x / 256]
  }

  function FromLe16(bs: seq<byte>): (x: int)
    requires |bs| == 2
    ensures 0 <= x < TWO_16
  {
    bs[0] as int + 256 * bs[1] as int
  }

  lemma SubsetSize<T>(a: set<T>, b: set<T>)
    requires a <= b
    ensures |a| <= |b|
  {
    assert b == a + (b - a);
  }
}
