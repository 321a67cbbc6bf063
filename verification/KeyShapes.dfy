/** Which keys the codec takes apart, and into what: keys spelt from text, short runs of digits that stay
    text, and numbers. */
module KeyShapes {
  import opened Bytes
  import opened KeyFormat
  import opened KeyCodec

  /** A piece of a key. Digits are 0-9 and a-f; a number with a letter in it is hexadecimal. */
  datatype Part = Text(t: seq<byte>) | Short(digits: seq<byte>) | Number(digits: seq<byte>)

  predicate HasLetter(ds: seq<byte>) {
    exists i :: 0 <= i < |ds| && IsHexLetter(ds[i])
  }

  predicate RunOk(ds: seq<byte>) {
    ds != [] && ds[0] != 48 && forall i :: 0 <= i < |ds| ==> IsRunChar(ds[i])
  }

  /** Numbers have three to nine decimal or four to eight hexadecimal digits and no leading zero. */
  predicate PartOk(p: Part) {
    match p
    case Text(t) => t != [] && forall i :: 0 <= i < |t| ==> !StartsRun(t[i]) && !Unsupported(t[i])
    case Short(ds) => RunOk(ds) && |ds| < if HasLetter(ds) then 4 else 3
    case Number(ds) => RunOk(ds) && if HasLetter(ds) then 4 <= |ds| <= 8 else 3 <= |ds| <= 9
  }

  function SpellOne(p: Part): seq<byte> {
    if p.Text? then p.t else p.digits
  }

  function Spell(ps: seq<Part>): seq<byte> {
    if ps == [] then [] else SpellOne(ps[0]) + Spell(ps[1..])
  }

  function ShapeOne(p: Part): seq<byte> {
    if p.Number? then [37, if HasLetter(p.digits) then 120 else 100] else SpellOne(p)
  }

  /** The format: numbers are replaced by what printf would print them with. */
  function Shape(ps: seq<Part>): seq<byte> {
    if ps == [] then []
    else ShapeOne(ps[0]) + Shape(ps[1..])
  }

  function Radix(ds: seq<byte>): nat {
    if HasLetter(ds) then 16 else 10
  }

  lemma RadixFits(ds: seq<byte>)
    requires RunOk(ds)
    ensures Numeral(ds, Radix(ds))
  {
  }

  function Numbers(ps: seq<Part>): seq<int>
    requires forall i :: 0 <= i < |ps| ==> PartOk(ps[i])
  {
    if ps == [] then []
    else if ps[0].Number? then
      assert PartOk(ps[0]);
      RadixFits(ps[0].digits);
      [Value(ps[0].digits, Radix(ps[0].digits))] + Numbers(ps[1..])
    else Numbers(ps[1..])
  }

  /** Runs of digits end where they seem to. */
  predicate WellSpelt(ps: seq<Part>) {
    && (forall i :: 0 <= i < |ps| ==> PartOk(ps[i]))
    && (forall i :: 0 <= i < |ps| - 1 && !ps[i].Text? ==> ps[i + 1].Text? && !IsRunChar(ps[i + 1].t[0]))
  }

  lemma {:induction false} RunEnds(s: seq<byte>, k: nat, n: nat)
    requires n <= k <= |s| && k <= (if HasLetter(s[..k]) then 8 else 9)
    requires (forall i :: 0 <= i < k ==> IsRunChar(s[i])) && (k < |s| ==> !IsRunChar(s[k]))
    ensures Extend(s, n, HasLetter(s[..n])) == Run(k, HasLetter(s[..k]))
    decreases k - n
  {
    if n < k {
      OneMoreLetter(s, n);
      if HasLetter(s[..n + 1]) { LetterStays(s, n + 1, k); }
      if n + 1 < k || !((HasLetter(s[..n + 1]) && n + 1 >= 8) || (!HasLetter(s[..n + 1]) && n + 1 >= 9)) {
        RunEnds(s, k, n + 1);
      }
    }
  }

  lemma OneMoreLetter(s: seq<byte>, n: nat)
    requires n < |s|
    ensures HasLetter(s[..n + 1]) <==> HasLetter(s[..n]) || IsHexLetter(s[n])
  {
    if HasLetter(s[..n]) {
      var i :| 0 <= i < n && IsHexLetter(s[..n][i]);
      assert IsHexLetter(s[..n + 1][i]);
    }
    if IsHexLetter(s[n]) { assert IsHexLetter(s[..n + 1][n]); }
  }

  lemma LetterStays(s: seq<byte>, n: nat, k: nat)
    requires n <= k <= |s| && HasLetter(s[..n])
    ensures HasLetter(s[..k])
  {
    var i :| 0 <= i < n && IsHexLetter(s[..n][i]);
    assert IsHexLetter(s[..k][i]);
  }

  lemma RunIs(ds: seq<byte>, rest: seq<byte>)
    requires RunOk(ds) && |ds| <= (if HasLetter(ds) then 8 else 9) && (rest != [] ==> !IsRunChar(rest[0]))
    ensures RunAt(ds + rest) == Run(|ds|, HasLetter(ds))
  {
    var s := ds + rest;
    assert s[..|ds|] == ds && s[..0] == [];
    RunEnds(s, |ds|, 0);
  }

  /** Characters that begin no run, or that come after the third number. */
  lemma {:induction false} Literally(t: seq<byte>, rest: seq<byte>, m: nat)
    requires forall i :: 0 <= i < |t| ==> (!StartsRun(t[i]) || m >= 3) && !Unsupported(t[i])
    ensures Parse(t + rest, m) == Prepend(t, [], Parse(rest, m))
    decreases |t|
  {
    if t == [] {
      assert t + rest == rest;
      PrependNothing(Parse(rest, m));
    } else {
      var s := t + rest;
      assert s[1..] == t[1..] + rest;
      Literally(t[1..], rest, m);
      PrependTwice([t[0]], [], t[1..], [], Parse(rest, m));
      assert [t[0]] + t[1..] == t;
    }
  }

  lemma ShortParses(ds: seq<byte>, rest: seq<byte>, m: nat)
    requires PartOk(Short(ds)) && (rest != [] ==> !IsRunChar(rest[0]))
    ensures Parse(ds + rest, m) == Prepend(ds, [], Parse(rest, m))
  {
    hide RunAt, Value;
    if m >= 3 {
      Literally(ds, rest, m);
    } else {
      RunIs(ds, rest);
      var s := ds + rest;
      assert s[..|ds|] == ds && s[|ds|..] == rest;
    }
  }

  lemma NumberParses(ds: seq<byte>, rest: seq<byte>, m: nat)
    requires PartOk(Number(ds)) && (rest != [] ==> !IsRunChar(rest[0])) && m < 3
    ensures Numeral(ds, Radix(ds))
    ensures Parse(ds + rest, m)
      == Prepend([37, if HasLetter(ds) then 120 else 100], [Value(ds, Radix(ds))], Parse(rest, m + 1))
  {
    hide RunAt, Value;
    RadixFits(ds);
    RunIs(ds, rest);
    var s := ds + rest;
    assert s[..|ds|] == ds && s[|ds|..] == rest;
  }

  lemma TailStarts(ps: seq<Part>)
    requires WellSpelt(ps) && ps != [] && !ps[0].Text?
    ensures WellSpelt(ps[1..]) && (Spell(ps[1..]) != [] ==> !IsRunChar(Spell(ps[1..])[0]))
  {
    if |ps| > 1 { assert ps[1..][0] == ps[1] && ps[0 + 1].Text?; }
  }

  lemma TailSpelt(ps: seq<Part>)
    requires WellSpelt(ps) && ps != []
    ensures WellSpelt(ps[1..]) && PartOk(ps[0])
  {
  }

  /** A key is taken apart as it was spelt. */
  lemma {:induction false} ParseSpelt(ps: seq<Part>, m: nat)
    requires WellSpelt(ps) && m + |Numbers(ps)| <= 3
    ensures Parse(Spell(ps), m) == Parsed(Shape(ps), Numbers(ps))
    decreases |ps|
  {
    hide Parse, PartOk, HasLetter, WellSpelt;
    TailWhole(ps);
    if ps == [] {
      NothingParses(m);
    } else {
      TailSpelt(ps);
      var rest := Spell(ps[1..]);
      match ps[0] {
        case Text(t) =>
          TextIsLiteral(t, m);
          Literally(t, rest, m);
          ParseSpelt(ps[1..], m);
        case Short(ds) =>
          TailStarts(ps);
          ShortParses(ds, rest, m);
          ParseSpelt(ps[1..], m);
        case Number(ds) =>
          TailStarts(ps);
          NumberParses(ds, rest, m);
          ParseSpelt(ps[1..], m + 1);
      }
    }
  }

  lemma TextIsLiteral(t: seq<byte>, m: nat)
    requires PartOk(Text(t))
    ensures forall i :: 0 <= i < |t| ==> (!StartsRun(t[i]) || m >= 3) && !Unsupported(t[i])
  {
  }

  lemma NothingParses(m: nat)
    ensures Parse([], m) == Parsed([], [])
  {
  }

  lemma TailWhole(ps: seq<Part>)
    requires WellSpelt(ps)
    ensures forall i :: 0 <= i < |ps| ==> PartOk(ps[i])
  {
    hide PartOk;
  }

  // ---- What the codec makes of it -----------------------------------------------------------------

  /** Keys of 7 to 99 bytes with one or two numbers are shortened. */
  lemma SpeltIsFormatted(ps: seq<Part>)
    requires WellSpelt(ps) && 1 <= |Numbers(ps)| <= 2
    requires var key := Spell(ps); 6 < |key| < 100 && 0 < key[0] < 128
    ensures Formatted(Spell(ps)) && Parse(Spell(ps), 0) == Parsed(Shape(ps), Numbers(ps))
  {
    hide Parse, WellSpelt, Shape, Spell, Numbers;
    ParseSpelt(ps, 0);
  }

  /** Once the format is in the dictionary such a key takes one or two bytes and four for each number; and
      it is in there when the key has been encoded, unless the dictionary is full. */
  lemma SpeltEncodes(dict: Dict, ps: seq<Part>)
    requires DictOk(dict) && WellSpelt(ps) && 1 <= |Numbers(ps)| <= 2
    requires var key := Spell(ps); 6 < |key| < 100 && 0 < key[0] < 128
    ensures Settled(dict, Spell(ps)) && |dict| < MAX_DICT_SIZE ==> Known(dict, Shape(ps))
    ensures Words(Numbers(ps))
    ensures Known(dict, Shape(ps)) ==>
      && Enc(dict, Spell(ps)) == EncodeIndex(IndexOf(dict, Shape(ps))) + EncodeArgs(Numbers(ps))
      && |Enc(dict, Spell(ps))| <= 2 + 4 * |Numbers(ps)|
  {
    hide Parse, WellSpelt, Shape, Spell, Numbers;
    SpeltIsFormatted(ps);
    ParseRenders(Spell(ps), 0);
  }
}
