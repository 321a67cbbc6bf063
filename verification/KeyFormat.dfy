/** The text side of the key codec: a key is split into a printf format and up to three
    numbers, and printing the format with the numbers gives the key back. */
module KeyFormat {
  import opened Bytes

  const PERCENT: byte := 37
  const LETTER_D: byte := 100
  const LETTER_X: byte := 120
  const MAX_FMT_ARGS := 2

  predicate IsDigit(c: byte) { 48 <= c <= 57 }
  predicate IsHexLetter(c: byte) { 97 <= c <= 102 }
  predicate IsRunChar(c: byte) { IsDigit(c) || IsHexLetter(c) }
  predicate StartsRun(c: byte) { IsRunChar(c) && c != 48 }
  predicate Unsupported(c: byte) { c in {37, 64, 58} }

  // ---- Numerals -----------------------------------------------------------------------

  function DigitValue(c: byte): (v: nat)
    requires IsRunChar(c)
    ensures v < 16
  {
    if IsDigit(c) then c - 48 else c - 87
  }

  function DigitChar(v: nat): (c: byte)
    requires v < 16
    ensures IsRunChar(c) && DigitValue(c) == v
  {
    if v < 10 then v + 48 else v + 87
  }

  predicate Numeral(ds: seq<byte>, radix: nat) {
    forall i :: 0 <= i < |ds| ==> IsRunChar(ds[i]) && DigitValue(ds[i]) < radix
  }

  /** What strtol and atoi read. */
  function Value(ds: seq<byte>, radix: nat): (v: nat)
    requires Numeral(ds, radix)
  {
    if ds == [] then 0
    else Value(ds[..|ds| - 1], radix) * radix + DigitValue(ds[|ds| - 1])
  }

  /** What printf writes for a non-negative number. */
  function Print(v: nat, radix: nat): (ds: seq<byte>)
    requires 2 <= radix <= 16
    decreases v
  {
    if v < radix then [DigitChar(v)]
    else DivSmaller(v, radix); Print(v / radix, radix) + [DigitChar(v % radix)]
  }

  lemma DivSmaller(v: nat, radix: nat)
    requires 2 <= radix <= v
    ensures 0 <= v / radix < v && 0 <= v % radix < radix
  {
    var q := v / radix;
    assert q * radix <= v;
    if q >= v {
      MulMono(v, q, radix);
      MulAtLeast(v, radix - 1);
    }
  }

  lemma {:induction false} PrintValue(ds: seq<byte>, radix: nat)
    requires 2 <= radix <= 16 && Numeral(ds, radix) && ds != [] && ds[0] != 48
    ensures Print(Value(ds, radix), radix) == ds
    ensures Value(ds, radix) > 0
  {
    var init, last := ds[..|ds| - 1], DigitValue(ds[|ds| - 1]);
    if |ds| == 1 {
      assert init == [];
      assert DigitChar(last) == ds[0];
    } else {
      PrintValue(init, radix);
      var v := Value(init, radix);
      DivMod(v * radix + last, radix, v, last);
      MulAtLeast(radix, v);
      assert ds == init + [ds[|ds| - 1]];
    }
  }

  function Power(radix: nat, n: nat): nat {
    if n == 0 then 1 else radix * Power(radix, n - 1)
  }

  lemma {:induction false} ValueBound(ds: seq<byte>, radix: nat)
    requires 2 <= radix && Numeral(ds, radix)
    ensures Value(ds, radix) < Power(radix, |ds|)
  {
    if ds != [] {
      var init := ds[..|ds| - 1];
      ValueBound(init, radix);
      var v, p := Value(init, radix), Power(radix, |init|);
      assert v * radix + radix == (v + 1) * radix;
      MulMono(v + 1, p, radix);
    }
  }

  lemma MulMono(a: nat, b: nat, c: nat)
    requires a <= b
    ensures a * c <= b * c
  {
  }

  // ---- Runs of digits --------------------------------------------------------------------

  datatype Run = Run(len: nat, hex: bool)

  /** The inner loop of parse_fmt after `n` characters. */
  function Extend(s: seq<byte>, n: nat, hex: bool): (r: Run)
    requires n <= |s|
    decreases |s| - n
  {
    if n < |s| && IsRunChar(s[n]) then
      var hex' := hex || IsHexLetter(s[n]);
      if (hex' && n + 1 >= 8) || (!hex' && n + 1 >= 9) then Run(n + 1, hex')
      else Extend(s, n + 1, hex')
    else Run(n, hex)
  }

  /** Eight decimal digits followed by a letter are cut before the letter. */
  function RunAt(s: seq<byte>): (r: Run) {
    var r := Extend(s, 0, false);
    if r.hex && r.len == 9 then Run(8, false) else r
  }

  lemma {:induction false} ExtendFacts(s: seq<byte>, n: nat, hex: bool)
    requires n <= |s| && n <= 8 && (hex ==> n <= 7)
    requires forall i :: 0 <= i < n ==> IsRunChar(s[i])
    requires !hex ==> forall i :: 0 <= i < n ==> IsDigit(s[i])
    ensures var r := Extend(s, n, hex);
            && n <= r.len <= |s| && r.len <= 9
            && (n < |s| && IsRunChar(s[n]) ==> n < r.len)
            && (forall i :: 0 <= i < r.len ==> IsRunChar(s[i]))
            && (!r.hex ==> forall i :: 0 <= i < r.len ==> IsDigit(s[i]))
            && (r.hex && r.len == 9 ==> forall i :: 0 <= i < 8 ==> IsDigit(s[i]))
    decreases |s| - n
  {
    if n < |s| && IsRunChar(s[n]) {
      var hex' := hex || IsHexLetter(s[n]);
      if !((hex' && n + 1 >= 8) || (!hex' && n + 1 >= 9)) {
        ExtendFacts(s, n + 1, hex');
      }
    }
  }

  lemma RunFacts(s: seq<byte>)
    requires s != [] && StartsRun(s[0])
    ensures var r := RunAt(s);
            && 0 < r.len <= |s| && r.len <= 9 && (r.hex ==> r.len <= 8)
            && Numeral(s[..r.len], if r.hex then 16 else 10)
  {
    ExtendFacts(s, 0, false);
  }

  // ---- Formats ----------------------------------------------------------------------------

  datatype Parsed = Bad | Parsed(fmt: seq<byte>, args: seq<int>)

  function Prepend(fmt: seq<byte>, args: seq<int>, r: Parsed): Parsed {
    match r
    case Bad => Bad
    case Parsed(f, a) => Parsed(fmt + f, args + a)
  }

  datatype Piece = Piece(len: nat, fmt: seq<byte>, args: seq<int>)

  /** What one turn of parse_fmt reads and appends; numbers are kept as 32-bit patterns. */
  function NextPiece(s: seq<byte>, m: nat): (p: Piece)
    requires s != []
    ensures 0 < p.len <= |s|
  {
    if StartsRun(s[0]) && m < MAX_FMT_ARGS + 1 then
      RunFacts(s);
      var r := RunAt(s);
      var num := s[..r.len];
      if r.hex && r.len >= 4 then Piece(r.len, [PERCENT, LETTER_X], [Value(num, 16)])
      else if !r.hex && r.len >= 3 then Piece(r.len, [PERCENT, LETTER_D], [Value(num, 10)])
      else Piece(r.len, num, [])
    else Piece(1, [s[0]], [])
  }

  /** The format and the numbers of a key, `m` numbers having been taken already. */
  function Parse(s: seq<byte>, m: nat): (r: Parsed)
    decreases |s|
  {
    if s == [] then Parsed([], [])
    else if Unsupported(s[0]) then Bad
    else
      var p := NextPiece(s, m);
      Prepend(p.fmt, p.args, Parse(s[p.len..], m + |p.args|))
  }

  /** printf with %d and %x over 32-bit patterns. */
  function Render(fmt: seq<byte>, args: seq<int>): (s: seq<byte>)
    requires forall i :: 0 <= i < |args| ==> 0 <= args[i] < TWO_32
  {
    if fmt == [] then []
    else if fmt[0] == PERCENT && |fmt| > 1 && args != [] && fmt[1] in {LETTER_D, LETTER_X} then
      PrintArg(fmt[1], args[0]) + Render(fmt[2..], args[1..])
    else [fmt[0]] + Render(fmt[1..], args)
  }

  function PrintArg(conversion: byte, arg: int): (s: seq<byte>)
    requires 0 <= arg < TWO_32
  {
    if conversion == LETTER_X then Print(arg, 16)
    else if arg < TWO_31 then Print(arg, 10)
    else [45] + Print(TWO_32 - arg, 10)
  }

  /** The number of conversions in a format. */
  function Conversions(fmt: seq<byte>): (n: nat) {
    if fmt == [] then 0 else (if fmt[0] == PERCENT then 1 else 0) + Conversions(fmt[1..])
  }

  // ---- Printing undoes parsing -----------------------------------------------------------

  predicate Words(args: seq<int>) {
    forall i :: 0 <= i < |args| ==> 0 <= args[i] < TWO_32
  }

  lemma {:induction false} RenderLiterals(lits: seq<byte>, fmt: seq<byte>, args: seq<int>)
    requires Words(args) && PERCENT !in lits
    ensures Render(lits + fmt, args) == lits + Render(fmt, args)
    ensures Conversions(lits + fmt) == Conversions(fmt)
  {
    hide PrintArg;
    if lits == [] {
      assert lits + fmt == fmt;
    } else {
      assert (lits + fmt)[1..] == lits[1..] + fmt && (lits + fmt)[0] == lits[0];
      RenderLiterals(lits[1..], fmt, args);
      assert lits == [lits[0]] + lits[1..];
    }
  }

  lemma {:induction false} RenderNumber(conversion: byte, arg: int, fmt: seq<byte>, args: seq<int>)
    requires conversion in {LETTER_D, LETTER_X} && 0 <= arg < TWO_32 && Words(args)
    ensures Words([arg] + args)
    ensures Render([PERCENT, conversion] + fmt, [arg] + args) == PrintArg(conversion, arg) + Render(fmt, args)
    ensures Conversions([PERCENT, conversion] + fmt) == 1 + Conversions(fmt)
  {
    var f := [PERCENT, conversion] + fmt;
    assert f[2..] == fmt && f[1..] == [conversion] + fmt && f[1..][1..] == fmt;
    assert ([arg] + args)[1..] == args;
  }

  lemma PowerTen()
    ensures Power(10, 9) == 1_000_000_000
  {
    assert Power(10, 3) == 1000;
    assert Power(10, 6) == 1_000_000;
  }

  lemma PowerSixteen()
    ensures Power(16, 8) == TWO_32
  {
    assert Power(16, 4) == TWO_16;
  }

  lemma {:induction false} PowerMono(radix: nat, a: nat, b: nat)
    requires 2 <= radix && a <= b
    ensures 0 < Power(radix, a) <= Power(radix, b)
    decreases b
  {
    if a < b {
      PowerMono(radix, a, b - 1);
      MulAtLeast(Power(radix, b - 1), radix);
    } else if a > 0 {
      PowerMono(radix, a - 1, b - 1);
    }
  }

  /** A run of at most nine decimal or eight hexadecimal digits fits 32 bits and prints
      back to itself. */
  lemma NumberPiece(num: seq<byte>, hex: bool)
    requires num != [] && num[0] != 48 && |num| <= (if hex then 8 else 9)
    requires Numeral(num, if hex then 16 else 10)
    ensures var v := Value(num, if hex then 16 else 10);
            && 0 <= v < TWO_32
            && PrintArg(if hex then LETTER_X else LETTER_D, v) == num
  {
    if hex {
      PrintValue(num, 16);
      ValueBound(num, 16);
      PowerMono(16, |num|, 8);
      PowerSixteen();
    } else {
      PrintValue(num, 10);
      ValueBound(num, 10);
      PowerMono(10, |num|, 9);
      PowerTen();
    }
  }

  lemma PieceRenders(s: seq<byte>, m: nat, fmt: seq<byte>, args: seq<int>)
    requires s != [] && !Unsupported(s[0]) && Words(args)
    ensures var p := NextPiece(s, m);
            && Words(p.args + args) && |p.fmt| <= p.len
            && Render(p.fmt + fmt, p.args + args) == s[..p.len] + Render(fmt, args)
            && Conversions(p.fmt + fmt) == |p.args| + Conversions(fmt)
            && (0 !in s ==> 0 !in p.fmt)
  {
    hide Render, Conversions, Value, Extend, PrintArg, Print;
    var p := NextPiece(s, m);
    if StartsRun(s[0]) && m < MAX_FMT_ARGS + 1 {
      RunFacts(s);
      var run := RunAt(s);
      var num := s[..run.len];
      if p.args != [] {
        NumberPiece(num, run.hex);
        RenderNumber(p.fmt[1], p.args[0], fmt, args);
      } else {
        RenderLiterals(num, fmt, args);
        assert p.args + args == args;
      }
    } else {
      RenderLiterals([s[0]], fmt, args);
      assert p.args + args == args;
      assert s[..1] == [s[0]];
    }
  }

  /** A key that parses is what its format and numbers print. */
  lemma {:induction false} ParseRenders(s: seq<byte>, m: nat)
    requires Parse(s, m).Parsed?
    ensures var r := Parse(s, m);
            && Words(r.args) && Render(r.fmt, r.args) == s
            && Conversions(r.fmt) == |r.args| && |r.fmt| <= |s|
            && (0 !in s ==> 0 !in r.fmt)
    decreases |s|
  {
    hide NextPiece;
    if s != [] {
      var p := NextPiece(s, m);
      var rest := Parse(s[p.len..], m + |p.args|);
      ParseRenders(s[p.len..], m + |p.args|);
      PieceRenders(s, m, rest.fmt, rest.args);
      assert s == s[..p.len] + s[p.len..];
    }
  }

  // ---- parse_fmt as it runs ------------------------------------------------------------------

  lemma PrependTwice(f1: seq<byte>, a1: seq<int>, f2: seq<byte>, a2: seq<int>, r: Parsed)
    ensures Prepend(f1, a1, Prepend(f2, a2, r)) == Prepend(f1 + f2, a1 + a2, r)
  {
    if r.Parsed? {
      assert f1 + (f2 + r.fmt) == f1 + f2 + r.fmt;
      assert a1 + (a2 + r.args) == a1 + a2 + r.args;
    }
  }

  /** The digits from `p` on, with the cursor after them. */
  method ReadRun(src: seq<byte>, p0: nat) returns (p: nat, hex: bool)
    requires p0 < |src| && StartsRun(src[p0])
    ensures p0 < p <= |src| && Run(p - p0, hex) == RunAt(src[p0..])
  {
    ghost var s := src[p0..];
    p, hex := p0, false;
    RunFacts(s);
    while p < |src| && IsRunChar(src[p])
      invariant p0 <= p <= |src|
      invariant Extend(s, p - p0, hex) == Extend(s, 0, false)
      decreases |src| - p
    {
      assert s[p - p0] == src[p];
      if IsHexLetter(src[p]) {
        hex := true;
      }
      p := p + 1;
      if (hex && p - p0 >= 8) || (!hex && p - p0 >= 9) {
        assert Run(p - p0, hex) == Extend(s, 0, false);
        break;
      }
    }
    assert Run(p - p0, hex) == Extend(s, 0, false);
    if hex && p - p0 == 9 {
      p, hex := p - 1, false;
    }
  }

  /** One turn of the outer loop. */
  method TakePiece(src: seq<byte>, p: nat, m: nat) returns (q: nat, fmt: seq<byte>, args: seq<int>)
    requires p < |src| && !Unsupported(src[p])
    ensures p < q <= |src| && Piece(q - p, fmt, args) == NextPiece(src[p..], m)
  {
    args := [];
    if StartsRun(src[p]) && m < MAX_FMT_ARGS + 1 {
      var hex;
      q, hex := ReadRun(src, p);
      RunFacts(src[p..]);
      var num := src[p..q];
      assert num == src[p..][..q - p];
      if hex && q - p >= 4 {
        fmt, args := [PERCENT, LETTER_X], [Value(num, 16)];
      } else if !hex && q - p >= 3 {
        fmt, args := [PERCENT, LETTER_D], [Value(num, 10)];
      } else {
        fmt := num;
      }
    } else {
      q, fmt := p + 1, [src[p]];
    }
  }

  method ParseFmt(src: seq<byte>) returns (r: Parsed)
    ensures r == Parse(src, 0)
  {
    hide NextPiece;
    var p, fmt, args := 0, [], [];
    assert src[0..] == src;
    PrependNothing(Parse(src, 0));
    while p < |src|
      invariant 0 <= p <= |src|
      invariant Parse(src, 0) == Prepend(fmt, args, Parse(src[p..], |args|))
    {
      if Unsupported(src[p]) {
        return Bad;
      }
      var q, f, a := TakePiece(src, p, |args|);
      assert src[p..][q - p..] == src[q..];
      PrependTwice(fmt, args, f, a, Parse(src[q..], |args| + |a|));
      p, fmt, args := q, fmt + f, args + a;
    }
    r := Parsed(fmt, args);
  }

  lemma PrependNothing(r: Parsed)
    ensures Prepend([], [], r) == r
  {
    if r.Parsed? {
      assert [] + r.fmt == r.fmt && [] + r.args == r.args;
    }
  }
}
