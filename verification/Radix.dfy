/** Base conversion over 32-bit limbs, a chunk of digits at a time, with 64-bit products and quotients
    cut to their width as the code cuts them. */
module Radix {
  import opened Words
  import opened Positional

  /** Digits of a radix, how many are handled per pass, and their characters. */
  datatype Alphabet = Alphabet(radix: nat, chunk: nat, digit: byte -> int, symbol: nat -> byte)

  ghost predicate Sound(a: Alphabet)
  {
    && a.radix >= 2 && a.chunk > 0 && Pow(a.radix, a.chunk) <= TWO32
    && (forall d: nat :: d < a.radix ==> a.digit(a.symbol(d)) == d)
    && (forall c: byte :: 0 <= a.digit(c) ==> a.digit(c) < a.radix && a.symbol(a.digit(c)) == c)
  }

  predicate Spelled(text: seq<byte>, a: Alphabet)
  {
    forall i :: 0 <= i < |text| ==> a.digit(text[i]) >= 0
  }

  function DigitsOf(text: seq<byte>, a: Alphabet): (s: seq<nat>)
    requires Spelled(text, a)
    ensures |s| == |text|
  {
    seq(|text|, i requires 0 <= i < |text| => a.digit(text[i]))
  }

  function Spell(s: seq<nat>, a: Alphabet): (text: seq<byte>)
    ensures |text| == |s|
  {
    seq<byte>(|s|, i requires 0 <= i < |s| => a.symbol(s[i]))
  }

  lemma SpellDigits(s: seq<nat>, a: Alphabet)
    requires Sound(a) && Digits(s, a.radix)
    ensures Spelled(Spell(s, a), a) && DigitsOf(Spell(s, a), a) == s
  {
  }

  lemma DigitsSpell(text: seq<byte>, a: Alphabet)
    requires Sound(a) && Spelled(text, a)
    ensures Digits(DigitsOf(text, a), a.radix) && Spell(DigitsOf(text, a), a) == text
  {
  }

  // ---- text to bytes ----

  /** One limb of a multiplication: the low word stays, the high word is carried, and the 64-bit product
      does not overflow. */
  method MulLimb(limb: nat, mult: nat, carry: nat) returns (lo: nat, hi: nat)
    requires limb < TWO32 && carry < mult <= TWO32
    ensures lo < TWO32 && hi < mult && lo + TWO32 * hi == limb * mult + carry
  {
    var cur := (limb * mult + carry) % TWO64;
    ProductFits(limb, mult, carry);
    Recompose(cur, TWO32);
    lo, hi := cur % TWO32, cur / TWO32;
    QuotientBound(cur, mult);
  }

  lemma ProductFits(limb: nat, mult: nat, carry: nat)
    requires limb < TWO32 && carry < mult <= TWO32
    ensures limb * mult + carry < TWO32 * mult
    ensures (limb * mult + carry) % TWO64 == limb * mult + carry
  {
    MulLess(mult, limb, carry, TWO32);
    Uncut(limb * mult + carry);
  }

  lemma Uncut(x: nat)
    ensures x < TWO64 ==> x % TWO64 == x
    ensures x < TWO32 ==> x % TWO32 == x
  {
  }

  lemma QuotientBound(cur: nat, d: nat)
    requires cur < TWO32 * d
    ensures cur / TWO32 < d
  {
  }

  /** The limbs so far and the carry above them make up a number. */
  ghost predicate Carried(r: seq<nat>, carry: nat, v: nat)
  {
    LeValue(r, TWO32) + carry * Pow(TWO32, |r|) == v
  }

  ghost function Scaled(limbs: seq<nat>, mult: nat, val: nat): nat
  {
    LeValue(limbs, TWO32) * mult + val
  }

  lemma CarriedNone(mult: nat, val: nat)
    ensures Carried([], val, Scaled([], mult, val))
  {
    assert Pow(TWO32, 0) == 1;
  }

  lemma CarriedEnd(r: seq<nat>, v: nat)
    ensures Carried(r, 0, v) <==> LeValue(r, TWO32) == v
  {
  }

  /** Moving a carried word into the limbs. */
  lemma CarriedOver(r: seq<nat>, lo: nat, hi: nat, v: nat)
    requires Carried(r, lo + TWO32 * hi, v)
    ensures Carried(r + [lo], hi, v)
  {
    hide LeValue;
    LeSnoc(r, lo, TWO32);
    var p := Pow(TWO32, |r|);
    assert Pow(TWO32, |r| + 1) == TWO32 * p;
    Regroup(lo, hi, p);
  }

  lemma Regroup(lo: nat, hi: nat, p: nat)
    ensures (lo + TWO32 * hi) * p == lo * p + hi * (TWO32 * p)
  {
  }

  /** One more limb of the multiplicand. */
  lemma CarriedNext(r: seq<nat>, carry: nat, limbs: seq<nat>, limb: nat, mult: nat, val: nat)
    requires |r| == |limbs| && Carried(r, carry, Scaled(limbs, mult, val))
    ensures Carried(r, limb * mult + carry, Scaled(limbs + [limb], mult, val))
  {
    hide LeValue, Pow;
    LeSnoc(limbs, limb, TWO32);
    var p, v := Pow(TWO32, |r|), LeValue(limbs, TWO32);
    calc {
      LeValue(r, TWO32) + (limb * mult + carry) * p;
      { Expand(limb, mult, carry, p); }
      LeValue(r, TWO32) + carry * p + (limb * p) * mult;
      v * mult + val + (limb * p) * mult;
      { Factor(v, limb * p, mult); }
      (v + limb * p) * mult + val;
    }
  }

  lemma Expand(limb: nat, mult: nat, carry: nat, p: nat)
    ensures (limb * mult + carry) * p == carry * p + (limb * p) * mult
  {
    calc {
      (limb * mult + carry) * p;
      (limb * mult) * p + carry * p;
      (limb * p) * mult + carry * p;
    }
  }

  lemma Factor(v: nat, w: nat, mult: nat)
    ensures v * mult + w * mult == (v + w) * mult
  {
  }

  /** limbs * mult + val, without losing a bit. */
  method MulAdd(limbs: seq<nat>, mult: nat, val: nat) returns (r: seq<nat>)
    requires Digits(limbs, TWO32) && val < mult <= TWO32
    ensures Digits(r, TWO32) && LeValue(r, TWO32) == LeValue(limbs, TWO32) * mult + val
  {
    hide Carried, Scaled, LeValue, Pow;
    r := [];
    var carry: nat := val;
    CarriedNone(mult, val);
    for i := 0 to |limbs|
      invariant |r| == i && Digits(r, TWO32) && carry < mult
      invariant Carried(r, carry, Scaled(limbs[..i], mult, val))
    {
      CarriedNext(r, carry, limbs[..i], limbs[i], mult, val);
      assert limbs[..i + 1] == limbs[..i] + [limbs[i]];
      var lo, hi := MulLimb(limbs[i], mult, carry);
      CarriedOver(r, lo, hi, Scaled(limbs[..i + 1], mult, val));
      r, carry := r + [lo], hi;
    }
    assert limbs[..|limbs|] == limbs;
    while carry != 0
      invariant Digits(r, TWO32) && carry < TWO32 && Carried(r, carry, Scaled(limbs, mult, val))
      decreases carry
    {
      CarriedOver(r, carry, 0, Scaled(limbs, mult, val));
      r, carry := r + [carry % TWO32], carry / TWO32;
    }
    MulAddDone(r, limbs, mult, val);
  }

  lemma MulAddDone(r: seq<nat>, limbs: seq<nat>, mult: nat, val: nat)
    requires Carried(r, 0, Scaled(limbs, mult, val))
    ensures LeValue(r, TWO32) == LeValue(limbs, TWO32) * mult + val
  {
    CarriedEnd(r, Scaled(limbs, mult, val));
  }

  /** The value of a chunk of text, and the radix to the power of its length. */
  method ReadChunk(text: seq<byte>, a: Alphabet) returns (val: nat, mult: nat, ok: bool)
    requires Sound(a) && |text| <= a.chunk
    ensures ok <==> Spelled(text, a)
    ensures ok ==> val == Value(DigitsOf(text, a), a.radix) && mult == Pow(a.radix, |text|) && val < mult <= TWO32
  {
    hide Value, Pow;
    val, mult, ok := 0, 1, false;
    PowOne(a.radix);
    for i := 0 to |text|
      invariant Spelled(text[..i], a)
      invariant val == Value(DigitsOf(text[..i], a), a.radix) && mult == Pow(a.radix, i)
    {
      var d := a.digit(text[i]);
      if d < 0 { return; }
      ChunkNext(text, a, i);
      Uncut(val * a.radix + d);
      Uncut(mult * a.radix);
      val, mult := (val * a.radix + d) % TWO64, (mult * a.radix) % TWO64;
    }
    assert text[..|text|] == text;
    ok := true;
    ChunkBound(text, a);
  }

  lemma PowOne(b: nat)
    ensures Pow(b, 0) == 1 && Value([], b) == 0
  {
  }

  lemma {:induction false} PowGrows(b: nat, m: nat, n: nat)
    requires b >= 1 && m <= n
    ensures 1 <= Pow(b, m) <= Pow(b, n)
    decreases n
  {
    if m < n {
      PowGrows(b, m, n - 1);
      MulMono(1, b, Pow(b, n - 1));
    } else if n > 0 {
      PowGrows(b, n - 1, n - 1);
      MulZero(b, Pow(b, n - 1));
    }
  }

  lemma ChunkBound(text: seq<byte>, a: Alphabet)
    requires Sound(a) && Spelled(text, a) && |text| <= a.chunk
    ensures Value(DigitsOf(text, a), a.radix) < Pow(a.radix, |text|) <= TWO32
  {
    hide Value, Pow;
    DigitsSpell(text, a);
    ValueBound(DigitsOf(text, a), a.radix);
    PowGrows(a.radix, |text|, a.chunk);
  }

  lemma ChunkNext(text: seq<byte>, a: Alphabet, i: nat)
    requires Sound(a) && i < |text| <= a.chunk && Spelled(text[..i], a) && a.digit(text[i]) >= 0
    ensures Spelled(text[..i + 1], a)
    ensures var v, p := Value(DigitsOf(text[..i], a), a.radix), Pow(a.radix, i);
      && Value(DigitsOf(text[..i + 1], a), a.radix) == v * a.radix + a.digit(text[i]) < TWO64
      && Pow(a.radix, i + 1) == p * a.radix < TWO64
  {
    hide Value, Pow, Sound;
    var t := text[..i + 1];
    var d := a.digit(text[i]);
    assert DigitsOf(t, a) == DigitsOf(text[..i], a) + [d];
    ValueSnoc(DigitsOf(text[..i], a), d, a.radix);
    assert |t| == i + 1;
    ChunkBound(t, a);
    PowStep(a.radix, i);
  }

  lemma PowStep(b: nat, i: nat)
    ensures Pow(b, i + 1) == Pow(b, i) * b
  {
  }

  /** Text to little-endian limbs. */
  method ReadLimbs(text: seq<byte>, a: Alphabet) returns (limbs: seq<nat>, ok: bool)
    requires Sound(a)
    ensures ok <==> Spelled(text, a)
    ensures ok ==> Digits(limbs, TWO32) && LeValue(limbs, TWO32) == Value(DigitsOf(text, a), a.radix)
  {
    hide Value, LeValue, Pow, Sound;
    limbs, ok := [], false;
    PowOne(a.radix);
    NoLimbs();
    var pos := 0;
    while pos < |text|
      invariant 0 <= pos <= |text| && Spelled(text[..pos], a)
      invariant Digits(limbs, TWO32) && LeValue(limbs, TWO32) == Value(DigitsOf(text[..pos], a), a.radix)
    {
      assert a.chunk > 0 by { ChunkPositive(a); }
      var n := if a.chunk > |text| - pos then |text| - pos else a.chunk;
      var part := text[pos..pos + n];
      var val, mult, good := ReadChunk(part, a);
      if !good {
        assert exists i :: 0 <= i < |part| && a.digit(part[i]) < 0;
        return;
      }
      TextSplit(text[..pos], part, a);
      assert text[..pos + n] == text[..pos] + part;
      limbs := MulAdd(limbs, mult, val);
      pos := pos + n;
    }
    assert text[..pos] == text;
    ok := true;
  }

  lemma NoLimbs()
    ensures LeValue([], TWO32) == 0
  {
  }

  lemma ChunkPositive(a: Alphabet)
    requires Sound(a)
    ensures a.chunk > 0
  {
  }

  lemma DigitsAppend(s: seq<byte>, t: seq<byte>, a: Alphabet)
    requires Spelled(s, a) && Spelled(t, a)
    ensures Spelled(s + t, a) && DigitsOf(s + t, a) == DigitsOf(s, a) + DigitsOf(t, a)
  {
    var u := s + t;
    assert Spelled(u, a);
    var d, e := DigitsOf(u, a), DigitsOf(s, a) + DigitsOf(t, a);
    assert |d| == |e|;
    forall i | 0 <= i < |d| ensures d[i] == e[i] {
      assert u[i] == if i < |s| then s[i] else t[i - |s|];
    }
  }

  lemma TextSplit(s: seq<byte>, t: seq<byte>, a: Alphabet)
    requires Spelled(s, a) && Spelled(t, a)
    ensures Spelled(s + t, a)
    ensures Value(DigitsOf(s + t, a), a.radix) ==
      Value(DigitsOf(s, a), a.radix) * Pow(a.radix, |t|) + Value(DigitsOf(t, a), a.radix)
  {
    hide Value, Pow, DigitsOf, Spelled;
    DigitsAppend(s, t, a);
    ValueAppend(DigitsOf(s, a), DigitsOf(t, a), a.radix);
  }

  /** A limb as four bytes, the high one first. */
  function LimbBytes(v: nat): (s: seq<byte>)
    ensures |s| == 4
  {
    [v / 0x100_0000 % 256, v / 0x1_0000 % 256, v / 0x100 % 256, v % 256]
  }

  lemma LimbBytesValue(v: nat)
    requires v < TWO32
    ensures Value(LimbBytes(v), 256) == v && Digits(LimbBytes(v), 256)
  {
    var s: seq<nat> := LimbBytes(v);
    assert s[..3] == [s[0], s[1], s[2]] && s[..3][..2] == [s[0], s[1]] && s[..3][..2][..1] == [s[0]];
    assert Value([s[0]], 256) == s[0];
    assert Value([s[0], s[1]], 256) == 256 * s[0] + s[1];
    assert Value([s[0], s[1], s[2]], 256) == 256 * (256 * s[0] + s[1]) + s[2];
    assert Value(s, 256) == 256 * (256 * (256 * s[0] + s[1]) + s[2]) + s[3];
    FourBytes(v);
  }

  lemma FourBytes(v: nat)
    requires v < TWO32
    ensures v == 256 * (256 * (256 * (v / 0x100_0000 % 256) + v / 0x1_0000 % 256) + v / 0x100 % 256) + v % 256
  {
    var a, b, c := v / 0x100_0000, v / 0x1_0000, v / 0x100;
    assert a == b / 256 && b == c / 256 && a < 256;
  }

  /** Limbs from the top down, as bytes without leading zeros. */
  method LimbsToBytes(limbs: seq<nat>) returns (out: seq<nat>)
    requires Digits(limbs, TWO32)
    ensures out == ToDigits(LeValue(limbs, TWO32), 256)
  {
    hide Value, LeValue, Pow, LimbBytes, ToDigits;
    out := [];
    BytesStart(limbs);
    var i := |limbs|;
    while i > 0
      invariant 0 <= i <= |limbs| && Digits(out, 256) && Written(out, limbs, i)
    {
      i := i - 1;
      BytesNext(out, limbs, i);
      LimbBytesValue(limbs[i]);
      out := out + LimbBytes(limbs[i]);
    }
    BytesEnd(out, limbs);
    out := StripZeros(out, 256);
  }

  /** The bytes hold the limbs from `i` up. */
  ghost predicate Written(out: seq<nat>, limbs: seq<nat>, i: nat)
    requires i <= |limbs|
  {
    LeValue(limbs, TWO32) == Value(out, 256) * Pow(TWO32, i) + LeValue(limbs[..i], TWO32)
  }

  lemma BytesStart(limbs: seq<nat>)
    ensures Written([], limbs, |limbs|)
  {
    assert limbs[..|limbs|] == limbs;
  }

  lemma BytesEnd(out: seq<nat>, limbs: seq<nat>)
    ensures Written(out, limbs, 0) <==> LeValue(limbs, TWO32) == Value(out, 256)
  {
    assert Pow(TWO32, 0) == 1 && limbs[..0] == [];
  }

  lemma BytesNext(out: seq<nat>, limbs: seq<nat>, i: nat)
    requires i < |limbs| && limbs[i] < TWO32 && Written(out, limbs, i + 1)
    ensures Written(out + LimbBytes(limbs[i]), limbs, i)
  {
    hide Value, LeValue, Pow, LimbBytes;
    WordLimits();
    LimbBytesValue(limbs[i]);
    ValueAppend(out, LimbBytes(limbs[i]), 256);
    assert limbs[..i + 1] == limbs[..i] + [limbs[i]];
    LeSnoc(limbs[..i], limbs[i], TWO32);
    PowStep(TWO32, i);
    Shift(Value(out, 256), limbs[i], Pow(TWO32, i));
  }

  lemma Shift(v: nat, x: nat, p: nat)
    ensures v * (p * TWO32) + x * p == (v * TWO32 + x) * p
  {
  }

  /** Text in a radix to the bytes of its number; fails exactly on a character that is no digit. */
  method Decode(text: seq<byte>, a: Alphabet) returns (r: Option<seq<nat>>)
    requires Sound(a)
    ensures r.Some? <==> Spelled(text, a)
    ensures r.Some? ==> r.value == ToDigits(Value(DigitsOf(text, a), a.radix), 256)
  {
    hide Value, LeValue, Sound, ToDigits;
    var limbs, ok := ReadLimbs(text, a);
    if !ok { return None; }
    var out := LimbsToBytes(limbs);
    return Some(out);
  }

  // ---- bytes to text ----

  /** A few bytes as one limb. */
  method PackLimb(src: seq<byte>) returns (v: nat)
    requires |src| <= 4
    ensures v == Value(src, 256) < TWO32
  {
    hide Value;
    v := 0;
    PowOne(256);
    for i := 0 to |src|
      invariant v == Value(src[..i], 256)
    {
      assert src[..i + 1] == src[..i] + [src[i]];
      ValueSnoc(src[..i], src[i], 256);
      ShortValue(src[..i + 1]);
      v := (v * 256 + src[i]) % TWO32;
    }
    assert src[..|src|] == src;
    ShortValue(src);
  }

  lemma ShortValue(s: seq<byte>)
    requires |s| <= 4
    ensures Value(s, 256) < TWO32
  {
    hide Value, Pow;
    ValueBound(s, 256);
    PowGrows(256, |s|, 4);
    WordLimits();
  }

  /** Bytes as 32-bit limbs, the high one first; the first limb may be short. */
  method BytesToLimbs(src: seq<byte>) returns (limbs: seq<nat>)
    ensures Digits(limbs, TWO32) && Value(limbs, TWO32) == Value(src, 256)
  {
    hide Value, Pow;
    limbs := [];
    PowOne(256);
    PowOne(TWO32);
    var i := |src| % 4;
    if i != 0 {
      var v := PackLimb(src[..i]);
      ValueSnoc([], v, TWO32);
      assert [] + [v] == [v];
      limbs := [v];
    }
    while i < |src|
      invariant 0 <= i <= |src| && (|src| - i) % 4 == 0
      invariant Digits(limbs, TWO32) && Value(limbs, TWO32) == Value(src[..i], 256)
    {
      var v := PackLimb(src[i..i + 4]);
      assert src[..i + 4] == src[..i] + src[i..i + 4];
      ValueAppend(src[..i], src[i..i + 4], 256);
      WordLimits();
      ValueSnoc(limbs, v, TWO32);
      limbs := limbs + [v];
      i := i + 4;
    }
    assert src[..i] == src;
  }

  /** One limb of a division: the quotient fits in a limb. */
  method DivLimb(rem: nat, limb: nat, div: nat) returns (q: nat, r: nat)
    requires rem < div <= TWO32 && limb < TWO32
    ensures q < TWO32 && r < div && rem * TWO32 + limb == q * div + r
  {
    var cur := (rem * TWO32 + limb) % TWO64;
    DividendFits(rem, limb, div);
    Recompose(cur, div);
    DivBound(cur, div);
    Uncut(cur / div);
    q, r := cur / div % TWO32, cur % div;
  }

  lemma DividendFits(rem: nat, limb: nat, div: nat)
    requires rem < div <= TWO32 && limb < TWO32
    ensures rem * TWO32 + limb < div * TWO32 && (rem * TWO32 + limb) % TWO64 == rem * TWO32 + limb
  {
    MulLess(TWO32, rem, limb, div);
    Uncut(rem * TWO32 + limb);
  }

  lemma DivBound(cur: nat, div: nat)
    requires div > 0 && cur < div * TWO32
    ensures cur / div < TWO32
  {
    var q := cur / div;
    Recompose(cur, div);
    if q >= TWO32 {
      MulMono(TWO32, q, div);
      assert false;
    }
  }

  /** Long division of the limbs. */
  method DivPass(limbs: seq<nat>, div: nat) returns (q: seq<nat>, rem: nat)
    requires Digits(limbs, TWO32) && 0 < div <= TWO32
    ensures Digits(q, TWO32) && rem < div && Value(limbs, TWO32) == Value(q, TWO32) * div + rem
  {
    hide Value;
    q, rem := [], 0;
    PowOne(TWO32);
    for j := 0 to |limbs|
      invariant Digits(q, TWO32) && rem < div && Value(limbs[..j], TWO32) == Value(q, TWO32) * div + rem
    {
      assert limbs[..j + 1] == limbs[..j] + [limbs[j]];
      ValueSnoc(limbs[..j], limbs[j], TWO32);
      var d, r := DivLimb(rem, limbs[j], div);
      ValueSnoc(q, d, TWO32);
      DivStep(Value(q, TWO32), div, rem, limbs[j], d, r);
      q, rem := q + [d], r;
    }
    assert limbs[..|limbs|] == limbs;
  }

  lemma DivStep(q: nat, div: nat, rem: nat, limb: nat, d: nat, r: nat)
    requires rem * TWO32 + limb == d * div + r
    ensures TWO32 * (q * div + rem) + limb == (TWO32 * q + d) * div + r
  {
    calc {
      TWO32 * (q * div + rem) + limb;
      TWO32 * (q * div) + d * div + r;
      (TWO32 * q + d) * div + r;
    }
  }

  /** The digits of a remainder, least significant first. */
  method ChunkDigits(rem: nat, radix: nat, chunk: nat) returns (d: seq<nat>)
    requires radix >= 2 && rem < Pow(radix, chunk)
    ensures |d| == chunk && Digits(d, radix) && LeValue(d, radix) == rem
  {
    hide LeValue, Pow;
    d := [];
    var left: nat := rem;
    LeftStart(rem, radix);
    for k := 0 to chunk
      invariant |d| == k && Digits(d, radix) && Left(d, left, radix, rem)
    {
      Recompose(left, radix);
      LeftNext(d, left, radix, rem);
      d, left := d + [left % radix], left / radix;
    }
    LeftEnd(d, left, radix, rem);
  }

  ghost predicate Left(d: seq<nat>, left: nat, radix: nat, rem: nat)
  {
    LeValue(d, radix) + left * Pow(radix, |d|) == rem
  }

  lemma LeftStart(rem: nat, radix: nat)
    ensures Left([], rem, radix, rem)
  {
    assert Pow(radix, 0) == 1;
  }

  lemma LeftNext(d: seq<nat>, left: nat, radix: nat, rem: nat)
    requires radix >= 2 && Left(d, left, radix, rem)
    ensures Left(d + [left % radix], left / radix, radix, rem)
  {
    hide LeValue, Pow;
    LeSnoc(d, left % radix, radix);
    PowStep(radix, |d|);
    Recompose(left, radix);
    SplitLeft(left / radix, left % radix, radix, Pow(radix, |d|));
  }

  lemma SplitLeft(q: nat, r: nat, radix: nat, p: nat)
    ensures (radix * q + r) * p == r * p + q * (p * radix)
  {
    calc {
      (radix * q + r) * p;
      (radix * q) * p + r * p;
      q * (p * radix) + r * p;
    }
  }

  lemma LeftEnd(d: seq<nat>, left: nat, radix: nat, rem: nat)
    requires Left(d, left, radix, rem) && rem < Pow(radix, |d|)
    ensures LeValue(d, radix) == rem
  {
    hide LeValue, Pow;
    if left > 0 {
      MulMono(1, left, Pow(radix, |d|));
      assert false;
    }
  }

  /** Digits already split off below what is left in the limbs. */
  ghost predicate Split(out: seq<nat>, limbs: seq<nat>, radix: nat, v: nat)
  {
    v == LeValue(out, radix) + Value(limbs, TWO32) * Pow(radix, |out|)
  }

  lemma SplitStart(limbs: seq<nat>, radix: nat)
    ensures Split([], limbs, radix, Value(limbs, TWO32))
  {
    assert Pow(radix, 0) == 1;
  }

  lemma SplitNext(out: seq<nat>, limbs: seq<nat>, q: seq<nat>, d: seq<nat>, radix: nat, v: nat)
    requires Split(out, limbs, radix, v) && Value(limbs, TWO32) == Value(q, TWO32) * Pow(radix, |d|) + LeValue(d, radix)
    ensures Split(out + d, q, radix, v)
  {
    hide Value, LeValue, Pow;
    LeAppend(out, d, radix);
    PowAdd(radix, |out|, |d|);
    Spread(LeValue(d, radix), Value(q, TWO32), Pow(radix, |out|), Pow(radix, |d|));
  }

  lemma SplitEnd(out: seq<nat>, radix: nat, v: nat)
    requires Split(out, [], radix, v)
    ensures LeValue(out, radix) == v
  {
  }

  lemma QuotientShrinks(v: nat, q: nat, d: nat, r: nat)
    requires v > 0 && d >= 2 && v == q * d + r
    ensures q < v
  {
    if q > 0 { MulMono(2, d, q); }
  }

  /** All digits of the limbs, least significant first, with zeros on top. */
  method LimbDigits(src: seq<nat>, a: Alphabet) returns (out: seq<nat>)
    requires Sound(a) && Digits(src, TWO32) && Canon(src)
    ensures Digits(out, a.radix) && LeValue(out, a.radix) == Value(src, TWO32)
  {
    hide Value, LeValue, Split, Pow;
    out := [];
    var limbs := src;
    var div := Power(a);
    SplitStart(src, a.radix);
    while limbs != []
      invariant Digits(limbs, TWO32) && Canon(limbs) && Digits(out, a.radix)
      invariant Split(out, limbs, a.radix, Value(src, TWO32))
      decreases Value(limbs, TWO32)
    {
      var q, rem := DivPass(limbs, div);
      var d := ChunkDigits(rem, a.radix, a.chunk);
      SplitNext(out, limbs, q, d, a.radix, Value(src, TWO32));
      CanonPositive(limbs, TWO32);
      QuotientShrinks(Value(limbs, TWO32), Value(q, TWO32), div, rem);
      var rest := StripZeros(q, TWO32);
      ToDigitsValue(Value(q, TWO32), TWO32);
      SameSplit(out + d, q, rest, a.radix, Value(src, TWO32));
      out, limbs := out + d, rest;
    }
    SplitEnd(out, a.radix, Value(src, TWO32));
  }

  lemma SameSplit(out: seq<nat>, q: seq<nat>, r: seq<nat>, radix: nat, v: nat)
    requires Split(out, q, radix, v) && Value(q, TWO32) == Value(r, TWO32)
    ensures Split(out, r, radix, v)
  {
  }

  /** The radix to the power of the chunk: the divisor constant of the code. */
  method Power(a: Alphabet) returns (div: nat)
    requires Sound(a)
    ensures div == Pow(a.radix, a.chunk) && 2 <= div <= TWO32
  {
    div := 1;
    for i := 0 to a.chunk
      invariant div == Pow(a.radix, i)
    {
      PowStep(a.radix, i);
      div := div * a.radix;
    }
    PowGrows(a.radix, 1, a.chunk);
    PowStep(a.radix, 0);
    PowOne(a.radix);
  }

  lemma DropTop(out: seq<nat>, b: nat)
    requires out != [] && out[|out| - 1] == 0
    ensures LeValue(out[..|out| - 1], b) == LeValue(out, b)
  {
  }

  /** Appends the number of `src`, in the radix, without leading zeros. */
  method Append(dst: seq<byte>, src: seq<byte>, a: Alphabet) returns (r: seq<byte>)
    requires Sound(a)
    ensures r == dst + Spell(ToDigits(Value(src, 256), a.radix), a)
  {
    hide Value, LeValue, Pow, ToDigits;
    var wide := BytesToLimbs(src);
    var limbs := StripZeros(wide, TWO32);
    ToDigitsValue(Value(wide, TWO32), TWO32);
    var out := LimbDigits(limbs, a);
    ghost var v := Value(src, 256);
    while |out| > 0 && out[|out| - 1] == 0
      invariant Digits(out, a.radix) && LeValue(out, a.radix) == v
    {
      DropTop(out, a.radix);
      out := out[..|out| - 1];
    }
    ReversedValue(out, a.radix);
    CanonUnique(Reversed(out), a.radix);
    r := dst;
    var i := |out|;
    while i > 0
      invariant 0 <= i <= |out| && r == dst + Spell(Reversed(out)[..|out| - i], a)
    {
      i := i - 1;
      r := r + [a.symbol(out[i])];
    }
    assert Reversed(out)[..|out|] == Reversed(out);
  }
}
