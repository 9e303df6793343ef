/** Canonical decimal text of 64-bit integers, kept as a zigzag varint. */
module Integers {
  import opened Words
  import opened Positional
  import opened Radix
  import opened Identifiers
  import Uvarint

  const MINUS: byte := '-' as int
  const PLUS: byte := '+' as int
  const ZERO: byte := '0' as int

  /** A number in decimal, as Go's formatter writes it. */
  function Decimal(m: nat): seq<byte>
  {
    if m == 0 then [ZERO] else Spell(ToDigits(m, 10), DECIMAL)
  }

  function FormatInt(n: int): seq<byte>
  {
    if n < 0 then [MINUS] + Decimal(-n) else Decimal(n)
  }

  // ---- parsing ----

  /** Digits without a spare leading zero. */
  predicate Plain(s: seq<byte>)
  {
    s != [] && Spelled(s, DECIMAL) && (s[0] == ZERO ==> |s| == 1)
  }

  function Magnitude(s: seq<byte>): nat
    requires Spelled(s, DECIMAL)
  {
    Value(DigitsOf(s, DECIMAL), 10)
  }

  /** Text without a spare zero is the decimal form of its own number, and of no other. */
  lemma PlainDecimal(s: seq<byte>)
    requires Plain(s)
    ensures Decimal(Magnitude(s)) == s
  {
    hide Value, ToDigits, Pow;
    AlphabetsSound();
    DigitsSpell(s, DECIMAL);
    var d := DigitsOf(s, DECIMAL);
    if s[0] == ZERO {
      assert d == [0];
      OneDigit(0);
      assert s == [ZERO];
    } else {
      CanonPositive(d, 10);
      CanonUnique(d, 10);
    }
  }

  lemma OneDigit(x: nat)
    ensures Value([x], 10) == x
  {
    assert [x][..0] == [];
  }

  lemma DecimalPlain(m: nat)
    ensures Plain(Decimal(m)) && Magnitude(Decimal(m)) == m
  {
    hide Value, ToDigits, Pow;
    AlphabetsSound();
    if m == 0 {
      assert DigitsOf([ZERO], DECIMAL) == [0];
      OneDigit(0);
    } else {
      var d := ToDigits(m, 10);
      ToDigitsValue(m, 10);
      SpellDigits(d, DECIMAL);
      NotEmpty(m, 10);
      FirstNotZero(d);
    }
  }

  lemma NotEmpty(m: nat, b: nat)
    requires m > 0 && b >= 2
    ensures ToDigits(m, b) != []
  {
  }

  lemma FirstNotZero(d: seq<nat>)
    requires d != [] && Digits(d, 10) && Canon(d)
    ensures Spell(d, DECIMAL)[0] != ZERO
  {
  }

  /** Reads digits up to a limit; the check before each step keeps every product in range. */
  method ReadMagnitude(s: seq<byte>, limit: nat) returns (m: nat, ok: bool)
    requires limit == MAX_INT64 || limit == MAX_INT64 + 1
    ensures ok <==> Spelled(s, DECIMAL) && Magnitude(s) <= limit
    ensures ok ==> m == Magnitude(s)
  {
    hide Value, DecimalDigit, DigitsOf;
    m, ok := 0, false;
    assert s[..0] == [];
    NoDigits();
    for i := 0 to |s|
      invariant Spelled(s[..i], DECIMAL) && m == Magnitude(s[..i]) <= limit
    {
      var digit := DecimalDigit(s[i]);
      if digit < 0 { return; }
      DigitRange(s[i]);
      MagnitudeNext(s, i);
      if m > (limit - digit) / 10 {
        if Spelled(s, DECIMAL) { MagnitudeGrows(s, i + 1); }
        return;
      }
      m := (m * 10 + digit) % TWO64;
    }
    assert s[..|s|] == s;
    ok := true;
  }

  lemma NoDigits()
    ensures Spelled([], DECIMAL) && Magnitude([]) == 0
  {
  }

  lemma DigitRange(c: byte)
    ensures DecimalDigit(c) < 10
  {
  }

  lemma MagnitudeNext(s: seq<byte>, i: nat)
    requires i < |s| && Spelled(s[..i], DECIMAL) && DecimalDigit(s[i]) >= 0
    ensures Spelled(s[..i + 1], DECIMAL) && Magnitude(s[..i + 1]) == Magnitude(s[..i]) * 10 + DecimalDigit(s[i])
  {
    var t := s[..i + 1];
    assert DigitsOf(t, DECIMAL) == DigitsOf(s[..i], DECIMAL) + [DecimalDigit(s[i])];
    ValueSnoc(DigitsOf(s[..i], DECIMAL), DecimalDigit(s[i]), 10);
  }

  lemma {:induction false} MagnitudeGrows(s: seq<byte>, i: nat)
    requires i <= |s| && Spelled(s, DECIMAL)
    ensures Spelled(s[..i], DECIMAL) && Magnitude(s[..i]) <= Magnitude(s)
    decreases |s| - i
  {
    hide Value, DecimalDigit, DigitsOf;
    if i == |s| {
      assert s[..i] == s;
    } else {
      MagnitudeGrows(s, i + 1);
      MagnitudeNext(s, i);
    }
  }

  /** Parses exactly the canonical text of a 64-bit integer. */
  method CanonicalInt64(src: seq<byte>) returns (r: Option<int>)
    ensures r.Some? ==> Int64(r.value) && FormatInt(r.value) == src
    ensures forall n :: Int64(n) && FormatInt(n) == src ==> r == Some(n)
  {
    hide Value, DecimalDigit, Decimal, Magnitude;
    FormatsOnce(src);
    if |src| == 0 { return None; }
    var negative := src[0] == MINUS;
    var start := 0;
    if negative {
      if |src| == 1 { return None; }
      start := 1;
    } else if src[0] == PLUS {
      return None;
    }
    var body := src[start..];
    assert src == (if negative then [MINUS] else []) + body;
    if src[start] == ZERO && |src| - start > 1 { return None; }
    var limit := if negative then MAX_INT64 + 1 else MAX_INT64;
    var m, ok := ReadMagnitude(body, limit);
    if !ok { return None; }
    PlainDecimal(body);
    if negative {
      if m == 0 { return None; }
      var magnitude: int := m;
      return Some(-magnitude);
    }
    return Some(m);
  }

  /** What the text of an integer looks like. */
  lemma FormatsOnce(src: seq<byte>)
    ensures forall n :: Int64(n) && FormatInt(n) == src ==> Reads(src, n)
  {
    forall n | Int64(n) && FormatInt(n) == src
      ensures Reads(src, n)
    {
      FormatReads(n);
    }
  }

  ghost predicate Reads(src: seq<byte>, n: int)
  {
    if n < 0 then |src| > 1 && src[0] == MINUS && Plain(src[1..]) && Magnitude(src[1..]) == -n
    else src != [] && src[0] != MINUS && src[0] != PLUS && Plain(src) && Magnitude(src) == n && src[0..] == src
  }

  lemma FormatReads(n: int)
    ensures Reads(FormatInt(n), n)
  {
    hide Value, Decimal, Magnitude;
    if n < 0 {
      DecimalPlain(-n);
      assert FormatInt(n)[1..] == Decimal(-n);
    } else {
      DecimalPlain(n);
      assert FormatInt(n)[0..] == FormatInt(n);
    }
  }

  // ---- the varint ----

  function ZigZag(n: int): nat
  {
    if n < 0 then -2 * n - 1 else 2 * n
  }

  function UnZigZag(u: nat): int
  {
    if u % 2 == 0 then u / 2 else -(u / 2) - 1
  }

  lemma ZigZagInverse(n: int)
    requires Int64(n)
    ensures ZigZag(n) < TWO64 && UnZigZag(ZigZag(n)) == n
  {
  }

  function PutVarint(n: int): seq<byte> { Uvarint.Put(ZigZag(n)) }

  /** What the integer codec decodes. */
  function Decoded(src: seq<byte>): Option<seq<byte>>
  {
    var u := Uvarint.Get(src, 0);
    if u.None? || u.value.size != |src| then None else Some(FormatInt(UnZigZag(u.value.value)))
  }

  /** The varint of an integer decodes to its text. */
  lemma IntegerBack(n: int)
    requires Int64(n)
    ensures Decoded(PutVarint(n)) == Some(FormatInt(n))
  {
    hide Uvarint.Get, Uvarint.Put, FormatInt;
    ZigZagInverse(n);
    Uvarint.RoundTrip(ZigZag(n), []);
    assert PutVarint(n) + [] == PutVarint(n);
  }
}
