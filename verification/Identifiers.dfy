/** Base58 text and long decimal numbers as bytes. */
module Identifiers {
  import opened Words
  import opened Positional
  import opened Radix

  // ---- the alphabets ----

  /** Digits of the Bitcoin alphabet: 1 to 9, then the letters without I, O and l. */
  function Digit58(c: byte): int
  {
    if '1' as int <= c <= '9' as int then c - '1' as int
    else if 'A' as int <= c <= 'H' as int then c - 'A' as int + 9
    else if 'J' as int <= c <= 'N' as int then c - 'J' as int + 17
    else if 'P' as int <= c <= 'Z' as int then c - 'P' as int + 22
    else if 'a' as int <= c <= 'k' as int then c - 'a' as int + 33
    else if 'm' as int <= c <= 'z' as int then c - 'm' as int + 44
    else -1
  }

  function Symbol58(d: nat): byte
  {
    if d < 9 then d + '1' as int
    else if d < 17 then d - 9 + 'A' as int
    else if d < 22 then d - 17 + 'J' as int
    else if d < 33 then d - 22 + 'P' as int
    else if d < 44 then d - 33 + 'a' as int
    else if d < 58 then d - 44 + 'm' as int
    else 0
  }

  const BASE58 := Alphabet(58, 5, Digit58, Symbol58)

  function DecimalDigit(c: byte): int
  {
    if '0' as int <= c <= '9' as int then c - '0' as int else -1
  }

  function DecimalSymbol(d: nat): byte
  {
    if d < 10 then d + '0' as int else 0
  }

  const DECIMAL := Alphabet(10, 9, DecimalDigit, DecimalSymbol)

  /** The divisors of the code are the powers of its chunks, and fit in 32 bits. */
  lemma ChunkPowers()
    ensures Pow(58, 5) == 656356768 && Pow(10, 9) == 1000000000
  {
    assert Pow(58, 1) == 58 && Pow(58, 2) == 3364 && Pow(58, 3) == 195112 && Pow(58, 4) == 11316496;
    assert Pow(10, 1) == 10 && Pow(10, 2) == 100 && Pow(10, 3) == 1000 && Pow(10, 4) == 10000;
    assert Pow(10, 5) == 100000 && Pow(10, 6) == 1000000 && Pow(10, 7) == 10000000 && Pow(10, 8) == 100000000;
  }

  lemma AlphabetsSound()
    ensures Sound(BASE58) && Sound(DECIMAL)
  {
    hide Pow;
    ChunkPowers();
  }

  // ---- base58 ----

  /** How many times `c` stands in front. */
  function Leading(s: seq<byte>, c: byte): (n: nat)
    ensures n <= |s| && (n < |s| ==> s[n] != c)
    ensures forall i :: 0 <= i < n ==> s[i] == c
  {
    if s == [] || s[0] != c then 0 else 1 + Leading(s[1..], c)
  }

  lemma {:induction false} LeadingIs(n: nat, c: byte, t: seq<byte>)
    requires t == [] || t[0] != c
    ensures Leading(Repeat(c, n) + t, c) == n && (Repeat(c, n) + t)[n..] == t
    decreases n
  {
    if n == 0 {
      assert Repeat(c, 0) + t == t;
    } else {
      var s := Repeat(c, n) + t;
      assert s[1..] == Repeat(c, n - 1) + t;
      LeadingIs(n - 1, c, t);
    }
  }

  function Repeat(c: byte, n: nat): (s: seq<byte>)
    ensures |s| == n
  {
    seq<byte>(n, _ => c)
  }

  lemma LeadingSplit(s: seq<byte>, c: byte)
    ensures s == Repeat(c, Leading(s, c)) + s[Leading(s, c)..]
  {
  }

  const ONE: byte := '1' as int

  /** Base58 text as bytes: leading ones are zero bytes, the rest is a number. */
  ghost function Decoded58(text: seq<byte>): seq<nat>
    requires Spelled(text[Leading(text, ONE)..], BASE58)
  {
    var z := Leading(text, ONE);
    Repeat(0, z) + ToDigits(Value(DigitsOf(text[z..], BASE58), 58), 256)
  }

  ghost function Encoded58(src: seq<byte>): seq<byte>
  {
    var z := Leading(src, 0);
    Repeat(ONE, z) + Spell(ToDigits(Value(src[z..], 256), 58), BASE58)
  }

  lemma AsBytes(v: nat) returns (s: seq<byte>)
    ensures s == ToDigits(v, 256) && (s == [] || s[0] != 0) && Value(s, 256) == v
  {
    ToDigitsValue(v, 256);
    s := ToDigits(v, 256);
  }

  /** Decoding any text of the alphabet and encoding the bytes gives the text back. */
  lemma EncodesBack(text: seq<byte>, bytes: seq<byte>)
    requires Spelled(text, BASE58) && bytes == Decoded58(text)
    ensures Encoded58(bytes) == text
  {
    hide Value, ToDigits, Digit58, Symbol58, DigitsOf, Spell, Pow;
    AlphabetsSound();
    var z := Leading(text, ONE);
    var rest := text[z..];
    DigitsSpell(rest, BASE58);
    var body := AsBytes(Value(DigitsOf(rest, BASE58), 58));
    LeadingIs(z, 0, body);
    FirstDigit(rest);
    CanonUnique(DigitsOf(rest, BASE58), 58);
    LeadingSplit(text, ONE);
  }

  lemma FirstDigit(rest: seq<byte>)
    requires Spelled(rest, BASE58) && (rest == [] || rest[0] != ONE)
    ensures Canon(DigitsOf(rest, BASE58))
  {
  }

  /** Encoding any bytes and decoding the text gives the bytes back. */
  lemma DecodesBack(src: seq<byte>)
    ensures Spelled(Encoded58(src), BASE58) && Decoded58(Encoded58(src)) == src
  {
    hide Value, ToDigits, Symbol58, DigitsOf, Spell, Pow;
    AlphabetsSound();
    var z := Leading(src, 0);
    var rest := src[z..];
    var d := ToDigits(Value(rest, 256), 58);
    ToDigitsValue(Value(rest, 256), 58);
    var body := Spell(d, BASE58);
    SpellDigits(d, BASE58);
    NotOne(d);
    LeadingIs(z, ONE, body);
    CanonUnique(rest, 256);
    LeadingSplit(src, 0);
  }

  lemma NotOne(d: seq<nat>)
    requires Digits(d, 58) && Canon(d)
    ensures Spell(d, BASE58) == [] || Spell(d, BASE58)[0] != ONE
  {
  }

  method Decode58(text: seq<byte>) returns (r: Option<seq<byte>>)
    ensures r.Some? <==> Spelled(text, BASE58)
    ensures r.Some? ==> r.value == Decoded58(text)
  {
    hide Value, ToDigits, Digit58, Symbol58, DigitsOf, Spell, Pow;
    AlphabetsSound();
    var zeros := 0;
    while zeros < |text| && text[zeros] == ONE
      invariant 0 <= zeros <= |text| && forall i :: 0 <= i < zeros ==> text[i] == ONE
    {
      zeros := zeros + 1;
    }
    LeadingAt(text, zeros, ONE);
    OnesSpelled(text, zeros);
    var body := Radix.Decode(text[zeros..], BASE58);
    if body.None? { return None; }
    ghost var bytes := AsBytes(Value(DigitsOf(text[zeros..], BASE58), 58));
    return Some(Repeat(0, zeros) + body.value);
  }

  lemma OnesSpelled(text: seq<byte>, z: nat)
    requires z <= |text| && forall i :: 0 <= i < z ==> text[i] == ONE
    ensures Spelled(text, BASE58) <==> Spelled(text[z..], BASE58)
  {
    if Spelled(text[z..], BASE58) {
      forall i | 0 <= i < |text| ensures Digit58(text[i]) >= 0 {
        if i >= z { assert text[i] == text[z..][i - z]; }
      }
    }
  }

  lemma {:induction false} LeadingAt(s: seq<byte>, n: nat, c: byte)
    requires n <= |s| && (forall i :: 0 <= i < n ==> s[i] == c) && (n < |s| ==> s[n] != c)
    ensures Leading(s, c) == n
  {
    if n > 0 { LeadingAt(s[1..], n - 1, c); }
  }

  method Encode58(src: seq<byte>) returns (r: seq<byte>)
    ensures r == Encoded58(src)
  {
    hide Value, ToDigits, Digit58, Symbol58, Spell, Pow;
    AlphabetsSound();
    var zeros := 0;
    while zeros < |src| && src[zeros] == 0
      invariant 0 <= zeros <= |src| && forall i :: 0 <= i < zeros ==> src[i] == 0
    {
      zeros := zeros + 1;
    }
    LeadingAt(src, zeros, 0);
    var body := Radix.Append([], src[zeros..], BASE58);
    assert [] + body == body;
    return Repeat(ONE, zeros) + body;
  }

  // ---- the codecs ----

  /** A 32-byte key in 32 to 44 characters. */
  method EncodeKey(src: seq<byte>) returns (r: Option<seq<byte>>)
    ensures r.Some? ==> |r.value| == 32 && Encoded58(r.value) == src
    ensures r.Some? <==> 32 <= |src| <= 44 && Spelled(src, BASE58) && |Decoded58(src)| == 32
  {
    hide Decoded58, Encoded58, Digit58;
    if |src| < 32 || |src| > 44 { return None; }
    var out := Decode58(src);
    if out.None? || |out.value| != 32 { return None; }
    EncodesBack(src, out.value);
    return out;
  }

  method DecodeKey(src: seq<byte>, rawLength: nat) returns (r: Option<seq<byte>>)
    ensures r == if |src| == 32 && |Encoded58(src)| == rawLength then Some(Encoded58(src)) else None
  {
    hide Encoded58;
    if |src| != 32 { return None; }
    var text := Encode58(src);
    if |text| != rawLength { return None; }
    return Some(text);
  }

  predicate IsDecimal(src: seq<byte>)
  {
    20 <= |src| <= 78 && src[0] != '0' as int && Spelled(src, DECIMAL)
  }

  /** Canonical decimal text of 65 to 256 bits. */
  method EncodeDecimal(src: seq<byte>) returns (r: Option<seq<byte>>)
    ensures r.Some? ==> 9 <= |r.value| <= 32 && r.value[0] != 0 && Written10(r.value) == src
    ensures r.Some? <==> IsDecimal(src) && 9 <= |ToDigits(Value(DigitsOf(src, DECIMAL), 10), 256)| <= 32
  {
    hide Value, ToDigits, DecimalDigit, DecimalSymbol, DigitsOf, Pow, Spell;
    AlphabetsSound();
    if |src| < 20 || |src| > 78 || src[0] == '0' as int { return None; }
    var out := Radix.Decode(src, DECIMAL);
    if out.None? { return None; }
    if |out.value| < 9 || |out.value| > 32 { return None; }
    ghost var bytes := AsBytes(Value(DigitsOf(src, DECIMAL), 10));
    DecimalBack(src, bytes);
    return Some(out.value);
  }

  ghost function Written10(src: seq<byte>): seq<byte>
  {
    Spell(ToDigits(Value(src, 256), 10), DECIMAL)
  }

  /** Decimal text without a leading zero survives the limb form. */
  lemma DecimalBack(text: seq<byte>, bytes: seq<byte>)
    requires Spelled(text, DECIMAL) && text != [] && text[0] != '0' as int
    requires bytes == ToDigits(Value(DigitsOf(text, DECIMAL), 10), 256)
    ensures Written10(bytes) == text
  {
    hide Value, ToDigits, DecimalSymbol, Pow, Spell;
    AlphabetsSound();
    DigitsSpell(text, DECIMAL);
    ToDigitsValue(Value(DigitsOf(text, DECIMAL), 10), 256);
    CanonUnique(DigitsOf(text, DECIMAL), 10);
  }

  method DecodeDecimal(src: seq<byte>, rawLength: nat) returns (r: Option<seq<byte>>)
    ensures r == if 9 <= |src| <= 32 && src[0] != 0 && |Written10(src)| == rawLength then Some(Written10(src)) else None
  {
    hide Value, ToDigits, DecimalDigit, DecimalSymbol, Pow, Spell;
    AlphabetsSound();
    if |src| < 9 || |src| > 32 || src[0] == 0 { return None; }
    var text := Radix.Append([], src, DECIMAL);
    assert [] + Written10(src) == Written10(src);
    if |text| != rawLength { return None; }
    return Some(text);
  }
}
