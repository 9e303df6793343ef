/** ULID text, 26 Crockford base32 characters, as the 128-bit number it writes. */
module Ulid {
  import opened Words
  import opened Positional
  import opened Radix

  function Digit32(c: byte): int
  {
    if '0' as int <= c <= '9' as int then c - '0' as int
    else if 'A' as int <= c <= 'H' as int then c - 'A' as int + 10
    else if 'J' as int <= c <= 'K' as int then c - 'J' as int + 18
    else if 'M' as int <= c <= 'N' as int then c - 'M' as int + 20
    else if 'P' as int <= c <= 'T' as int then c - 'P' as int + 22
    else if 'V' as int <= c <= 'Z' as int then c - 'V' as int + 27
    else -1
  }

  function Symbol32(d: nat): byte
  {
    if d < 10 then d + '0' as int
    else if d < 18 then d - 10 + 'A' as int
    else if d < 20 then d - 18 + 'J' as int
    else if d < 22 then d - 20 + 'M' as int
    else if d < 27 then d - 22 + 'P' as int
    else if d < 32 then d - 27 + 'V' as int
    else 0
  }

  const CROCKFORD := Alphabet(32, 1, Digit32, Symbol32)

  lemma CrockfordSound()
    ensures Sound(CROCKFORD)
  {
    assert Pow(32, 1) == 32 * Pow(32, 0);
  }

  predicate IsUlid(src: seq<byte>)
  {
    |src| == 26 && Spelled(src, CROCKFORD) && Digit32(src[0]) <= 7
  }

  // ---- regrouping bits ----

  /** The groups written so far, then `bits` pending bits with value `acc`. */
  ghost predicate Pending(v: nat, out: seq<nat>, base: nat, acc: nat, bits: nat)
  {
    v == Value(out, base) * Pow(2, bits) + acc && acc < Pow(2, bits)
  }

  lemma PowBits(b: nat)
    ensures Pow(2, b + 5) == 32 * Pow(2, b) && Pow(2, b + 8) == 256 * Pow(2, b) && Pow(2, b) >= 1
  {
    PowAdd(2, b, 5);
    PowAdd(2, b, 8);
    assert Pow(2, 1) == 2 && Pow(2, 2) == 4 && Pow(2, 3) == 8 && Pow(2, 4) == 16 && Pow(2, 5) == 32;
    assert Pow(2, 6) == 64 && Pow(2, 7) == 128 && Pow(2, 8) == 256;
    PowGrows(2, 0, b);
    assert Pow(2, 0) == 1;
  }

  /** Taking in a group of `w` bits. */
  lemma TakeIn(v: nat, out: seq<nat>, base: nat, acc: nat, bits: nat, w: nat, d: nat, size: nat)
    requires Pending(v, out, base, acc, bits) && size > 0 && Pow(2, bits + w) == size * Pow(2, bits) && d < size
    ensures Pending(v * size + d, out, base, acc * size + d, bits + w)
  {
    hide Value, Pow;
    var p, o := Pow(2, bits), Value(out, base);
    MulLess(size, acc, d, p);
    calc {
      v * size + d;
      (o * p + acc) * size + d;
      { Spread3(o, p, acc, size); }
      o * (size * p) + acc * size + d;
    }
  }

  lemma Spread3(o: nat, p: nat, acc: nat, size: nat)
    ensures (o * p + acc) * size == o * (size * p) + acc * size
  {
    calc {
      (o * p + acc) * size;
      (o * p) * size + acc * size;
      o * (size * p) + acc * size;
    }
  }

  /** Writing out a group of base `base`. */
  lemma WriteOut(v: nat, out: seq<nat>, base: nat, acc: nat, bits: nat, w: nat)
    requires Pending(v, out, base, acc, bits + w) && base > 0 && Pow(2, bits + w) == base * Pow(2, bits)
    requires Pow(2, bits) > 0
    ensures acc / Pow(2, bits) < base && Pending(v, out + [acc / Pow(2, bits)], base, acc % Pow(2, bits), bits)
  {
    hide Value, Pow;
    var p, o := Pow(2, bits), Value(out, base);
    var q, r := acc / p, acc % p;
    Recompose(acc, p);
    ValueSnoc(out, q, base);
    QuotientSmall(acc, p, base);
    calc {
      v;
      o * (base * p) + (p * q + r);
      { Regroup2(o, base, p, q); }
      (base * o + q) * p + r;
    }
  }

  lemma QuotientSmall(acc: nat, p: nat, base: nat)
    requires p > 0 && acc < base * p
    ensures acc / p < base
  {
    Recompose(acc, p);
    if acc / p >= base {
      MulMono(base, acc / p, p);
      assert false;
    }
  }

  lemma Regroup2(o: nat, base: nat, p: nat, q: nat)
    ensures o * (base * p) + p * q == (base * o + q) * p
  {
    calc {
      o * (base * p) + p * q;
      (base * o) * p + q * p;
      (base * o + q) * p;
    }
  }

  /** Text to bytes; refused exactly when it is no ULID. */
  method Encode(src: seq<byte>) returns (r: Option<seq<byte>>)
    ensures r.Some? <==> IsUlid(src)
    ensures r.Some? ==> |r.value| == 16 && Value(r.value, 256) == Value(DigitsOf(src, CROCKFORD), 32)
  {
    hide Value, Pow, Digit32, Symbol32, Pending, DigitsOf;
    CrockfordSound();
    if |src| != 26 { return None; }
    var first := Digit32(src[0]);
    if first < 0 || first > 7 { return None; }
    var out: seq<byte> := [];
    var acc: nat, bits: nat := first, 3;
    FirstDigit(src);
    for i := 1 to 26
      invariant Spelled(src[..i], CROCKFORD) && bits < 8 && 8 * |out| + bits == 5 * i - 2
      invariant Pending(Value(DigitsOf(src[..i], CROCKFORD), 32), out, 256, acc, bits)
    {
      var v := Digit32(src[i]);
      if v < 0 { return None; }
      NextDigit(src, i);
      PowBits(bits);
      TakeIn(Value(DigitsOf(src[..i], CROCKFORD), 32), out, 256, acc, bits, 5, v, 32);
      acc, bits := acc * 32 + v, bits + 5;
      while bits >= 8
        invariant bits < 13 && 8 * |out| + bits == 5 * (i + 1) - 2
        invariant Pending(Value(DigitsOf(src[..i + 1], CROCKFORD), 32), out, 256, acc, bits)
        decreases bits
      {
        bits := bits - 8;
        PowBits(bits);
        WriteOut(Value(DigitsOf(src[..i + 1], CROCKFORD), 32), out, 256, acc, bits, 8);
        out, acc := out + [acc / Pow(2, bits)], acc % Pow(2, bits);
      }
    }
    assert src[..26] == src;
    NothingPending(Value(DigitsOf(src, CROCKFORD), 32), out, 256, acc);
    return Some(out);
  }

  lemma NothingPending(v: nat, out: seq<nat>, base: nat, acc: nat)
    requires Pending(v, out, base, acc, 0)
    ensures v == Value(out, base)
  {
    assert Pow(2, 0) == 1;
  }

  lemma FirstDigit(src: seq<byte>)
    requires |src| == 26 && 0 <= Digit32(src[0]) <= 7
    ensures Spelled(src[..1], CROCKFORD)
    ensures Pending(Value(DigitsOf(src[..1], CROCKFORD), 32), [], 256, Digit32(src[0]), 3)
  {
    var d := DigitsOf(src[..1], CROCKFORD);
    assert d == [Digit32(src[0])] && d[..0] == [];
    assert Value(d, 32) == Digit32(src[0]);
    assert Pow(2, 1) == 2 && Pow(2, 2) == 4 && Pow(2, 3) == 8;
  }

  lemma NextDigit(src: seq<byte>, i: nat)
    requires i < |src| && Spelled(src[..i], CROCKFORD) && Digit32(src[i]) >= 0
    ensures Spelled(src[..i + 1], CROCKFORD) && Digit32(src[i]) < 32
    ensures Value(DigitsOf(src[..i + 1], CROCKFORD), 32) ==
      Value(DigitsOf(src[..i], CROCKFORD), 32) * 32 + Digit32(src[i])
  {
    var t := src[..i + 1];
    assert DigitsOf(t, CROCKFORD) == DigitsOf(src[..i], CROCKFORD) + [Digit32(src[i])];
    ValueSnoc(DigitsOf(src[..i], CROCKFORD), Digit32(src[i]), 32);
  }

  /** The 26 digits of sixteen bytes. */
  method ToDigits32(src: seq<byte>) returns (out: seq<nat>)
    requires |src| == 16
    ensures |out| == 26 && Digits(out, 32) && Value(out, 32) == Value(src, 256)
  {
    hide Value, Pow, Pending;
    out := [];
    var acc: nat, bits: nat := 0, 2;
    PaddingBits();
    assert src[..0] == [];
    for i := 0 to 16
      invariant Digits(out, 32) && bits < 5 && 5 * |out| + bits == 8 * i + 2
      invariant Pending(Value(src[..i], 256), out, 32, acc, bits)
    {
      assert src[..i + 1] == src[..i] + [src[i]];
      ValueSnoc(src[..i], src[i], 256);
      PowBits(bits);
      TakeIn(Value(src[..i], 256), out, 32, acc, bits, 8, src[i], 256);
      acc, bits := acc * 256 + src[i], bits + 8;
      while bits >= 5
        invariant Digits(out, 32) && bits < 13 && 5 * |out| + bits == 8 * (i + 1) + 2
        invariant Pending(Value(src[..i + 1], 256), out, 32, acc, bits)
        decreases bits
      {
        bits := bits - 5;
        PowBits(bits);
        WriteOut(Value(src[..i + 1], 256), out, 32, acc, bits, 5);
        out, acc := out + [acc / Pow(2, bits)], acc % Pow(2, bits);
      }
    }
    assert src[..16] == src;
    NothingPending(Value(src, 256), out, 32, acc);
  }

  lemma PaddingBits()
    ensures Pending(Value([], 256), [], 32, 0, 2)
  {
    assert Pow(2, 1) == 2 && Pow(2, 2) == 4;
  }

  /** The text of sixteen bytes. */
  function Text(src: seq<byte>): seq<byte>
  {
    Spell(FixedDigits(Value(src, 256), 26, 32), CROCKFORD)
  }

  /** Bytes to text. */
  method Decode(src: seq<byte>) returns (r: Option<seq<byte>>)
    ensures r == if |src| == 16 then Some(Text(src)) else None
    ensures r.Some? ==> IsUlid(r.value) && Value(DigitsOf(r.value, CROCKFORD), 32) == Value(src, 256)
  {
    hide Value, Pow, Digit32, Symbol32, DigitsOf, Spell;
    if |src| != 16 { return None; }
    var out := ToDigits32(src);
    FixedIs(out, 32);
    CrockfordSound();
    SpellDigits(out, CROCKFORD);
    TopDigit(out, src);
    FirstSpelled(out);
    return Some(Spell(out, CROCKFORD));
  }

  lemma FirstSpelled(out: seq<nat>)
    requires out != [] && out[0] < 32 && Sound(CROCKFORD)
    ensures Digit32(Spell(out, CROCKFORD)[0]) == out[0]
  {
    assert CROCKFORD.digit(CROCKFORD.symbol(out[0])) == out[0];
  }

  /** A 128-bit number leaves at most seven for the first digit. */
  lemma TopDigit(out: seq<nat>, src: seq<byte>)
    requires |out| == 26 && |src| == 16 && Value(out, 32) == Value(src, 256)
    ensures out[0] <= 7
  {
    hide Value, Pow;
    ValueBound(src, 256);
    assert out == [out[0]] + out[1..];
    ValueAppend([out[0]], out[1..], 32);
    SingleValue(out[0]);
    BigPowers();
    if out[0] > 7 {
      MulMono(8, out[0], Pow(32, 25));
      assert false;
    }
  }

  lemma SingleValue(x: nat)
    ensures Value([x], 32) == x
  {
    assert [x][..0] == [];
  }

  lemma BigPowers()
    ensures Pow(256, 16) == 8 * Pow(32, 25)
  {
    hide Pow;
    PowPow(5, 25);
    PowPow(8, 16);
    PowAdd(2, 125, 3);
    SmallPowers();
  }

  lemma SmallPowers()
    ensures Pow(2, 3) == 8 && Pow(2, 5) == 32 && Pow(2, 8) == 256
  {
    PowBits(0);
    assert Pow(2, 0) == 1 && Pow(2, 1) == 2 && Pow(2, 2) == 4;
  }

  lemma {:induction false} PowPow(k: nat, n: nat)
    ensures Pow(2, k * n) == Pow(Pow(2, k), n)
    decreases n
  {
    if n == 0 {
      assert k * n == 0;
    } else {
      PowPow(k, n - 1);
      assert k * n == k * (n - 1) + k;
      PowAdd(2, k * (n - 1), k);
    }
  }

  /** The bytes of a ULID read back as its text. */
  lemma TextBack(src: seq<byte>, bytes: seq<byte>)
    requires IsUlid(src) && |bytes| == 16 && Value(bytes, 256) == Value(DigitsOf(src, CROCKFORD), 32)
    ensures Text(bytes) == src
  {
    hide Value, Pow, Digit32, Symbol32, DigitsOf, Spell;
    CrockfordSound();
    DigitsSpell(src, CROCKFORD);
    FixedIs(DigitsOf(src, CROCKFORD), 32);
  }

  /** The text of sixteen bytes spells their number. */
  lemma TextValue(src: seq<byte>)
    requires |src| == 16
    ensures Spelled(Text(src), CROCKFORD) && Value(DigitsOf(Text(src), CROCKFORD), 32) == Value(src, 256)
  {
    hide Value, Pow, Digit32, Symbol32, DigitsOf, Spell;
    ValueBound(src, 256);
    BigPowers();
    Room();
    FixedValue(Value(src, 256), 26, 32);
    CrockfordSound();
    SpellDigits(FixedDigits(Value(src, 256), 26, 32), CROCKFORD);
  }

  lemma Room()
    ensures 8 * Pow(32, 25) <= Pow(32, 26)
  {
  }

  /** Different bytes have different text. */
  lemma TextInjective(a: seq<byte>, b: seq<byte>)
    requires |a| == |b| == 16 && Text(a) == Text(b)
    ensures a == b
  {
    hide Value, DigitsOf, Spell;
    TextValue(a);
    TextValue(b);
    FixedUnique(a, b, 256);
  }
}
