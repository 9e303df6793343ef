/** Hexadecimal text as bytes, with a flag byte for the 0x prefix and the case, and one bit per digit
    when both cases occur. */
module Hex {
  import opened Words
  import opened Bits

  const MIN_DIGITS := 32
  const MAX_DIGITS := 4096
  const LOWER := 0
  const UPPER := 1
  const MIXED := 2

  function Value(c: byte): Option<nat>
  {
    if '0' as int <= c <= '9' as int then Some(c - '0' as int)
    else if 'a' as int <= c <= 'f' as int then Some(c - 'a' as int + 10)
    else if 'A' as int <= c <= 'F' as int then Some(c - 'A' as int + 10)
    else None
  }

  predicate IsUpper(c: byte) { 'A' as int <= c <= 'F' as int }

  predicate IsLower(c: byte) { 'a' as int <= c <= 'f' as int }

  function Symbol(v: nat, upper: bool): byte
  {
    if v < 10 then v + '0' as int
    else if v < 16 then v - 10 + (if upper then 'A' as int else 'a' as int)
    else 0
  }

  lemma SymbolBack(c: byte)
    requires Value(c).Some?
    ensures Value(c).value < 16 && Symbol(Value(c).value, IsUpper(c)) == c
    ensures !IsUpper(c) && !IsLower(c) ==> Symbol(Value(c).value, true) == Symbol(Value(c).value, false) == c
    ensures !(IsUpper(c) && IsLower(c))
  {
  }

  // ---- bits of the mask ----

  predicate Bit(n: nat, k: nat) { And(n, Pow(2, k)) != 0 }

  lemma {:induction false} OrAdds(n: nat, k: nat)
    requires n < Pow(2, k)
    ensures Or(n, Pow(2, k)) == n + Pow(2, k) < Pow(2, k + 1)
    decreases k
  {
    if k == 0 {
      assert Pow(2, 0) == 1 && Pow(2, 1) == 2;
      assert Or(0, 1) == 1 + 2 * Or(0, 0);
    } else {
      PowTwice(k - 1);
      PowTwice(k);
      OrAdds(n / 2, k - 1);
    }
  }

  lemma PowTwice(k: nat)
    ensures Pow(2, k + 1) == 2 * Pow(2, k)
  {
  }

  /** Setting a bit above a number sets that bit and no lower one. */
  lemma {:induction false} BitSet(n: nat, k: nat, t: nat)
    requires n < Pow(2, k) && t <= k
    ensures Bit(n + Pow(2, k), t) == (t == k || Bit(n, t))
    decreases k
  {
    hide Bit, Pow;
    BitHalf(n, t);
    BitHalf(n + Pow(2, k), t);
    if k == 0 {
      PowZero();
    } else {
      PowTwice(k - 1);
      assert (n + Pow(2, k)) / 2 == n / 2 + Pow(2, k - 1) && (n + Pow(2, k)) % 2 == n % 2;
      if t > 0 { BitSet(n / 2, k - 1, t - 1); }
    }
  }

  lemma PowZero()
    ensures Pow(2, 0) == 1
  {
  }

  lemma BitHalf(n: nat, t: nat)
    ensures Bit(n, t) == if t == 0 then n % 2 == 1 else Bit(n / 2, t - 1)
  {
    if t == 0 {
      assert Pow(2, 0) == 1;
      AndZero(n / 2);
    } else {
      assert Pow(2, t) == 2 * Pow(2, t - 1);
    }
  }

  lemma {:induction false} BitClear(n: nat, k: nat)
    requires n < Pow(2, k)
    ensures !Bit(n, k)
    decreases k
  {
    BitHalf(n, k);
    if k > 0 {
      assert Pow(2, k) == 2 * Pow(2, k - 1);
      BitClear(n / 2, k - 1);
    } else {
      assert Pow(2, 0) == 1;
    }
  }

  // ---- what the text is, and what a record decodes to ----

  /** An even number of hex digits, 32 to 4096. */
  predicate IsDigits(d: seq<byte>)
  {
    MIN_DIGITS <= |d| <= MAX_DIGITS && |d| % 2 == 0 && forall i :: 0 <= i < |d| ==> Value(d[i]).Some?
  }

  predicate Prefixed(src: seq<byte>) { |src| >= 2 && src[0] == '0' as int && src[1] == 'x' as int }

  function DigitsOf(src: seq<byte>): seq<byte> { if Prefixed(src) then src[2..] else src }

  predicate IsHex(src: seq<byte>) { IsDigits(DigitsOf(src)) }

  function Nibble(body: seq<byte>, pos: nat): nat
    requires pos < 2 * |body|
  {
    if pos % 2 == 0 then body[pos / 2] / 16 else body[pos / 2] % 16
  }

  predicate Raised(mode: nat, mask: seq<byte>, pos: nat)
    requires mode == MIXED ==> pos / 8 < |mask|
  {
    mode == UPPER || (mode == MIXED && Bit(mask[pos / 8], pos % 8))
  }

  /** The digits that a body, a case mode and a mask spell. */
  function Spelled(body: seq<byte>, mode: nat, mask: seq<byte>): seq<byte>
    requires mode == MIXED ==> 2 * |body| <= 8 * |mask|
  {
    seq<byte>(2 * |body|, pos requires 0 <= pos < 2 * |body| => Symbol(Nibble(body, pos), Raised(mode, mask, pos)))
  }

  /** Bytes that hold one bit for each digit. */
  function MaskBytes(digits: nat): (n: nat)
    ensures digits <= 8 * n < digits + 8
  {
    (digits + 7) / 8
  }

  function Decoded(src: seq<byte>, rawLength: nat): Option<seq<byte>>
  {
    if |src| < 1 || src[0] >= 8 || src[0] / 2 > MIXED then None
    else
      var prefix, mode := src[0] % 2, src[0] / 2;
      var digits := rawLength - 2 * prefix;
      if digits < MIN_DIGITS || digits > MAX_DIGITS || digits % 2 != 0 then None
      else
        var want := digits / 2;
        if |src| != 1 + want + MaskFor(mode, want) then None
        else Some(if prefix == 1 then ['0' as int, 'x' as int] + TextOf(src, mode, want) else TextOf(src, mode, want))
  }

  /** Bytes of the mask for `want` bytes of digits. */
  function MaskFor(mode: nat, want: nat): nat
  {
    if mode == MIXED then MaskBytes(2 * want) else 0
  }

  /** The text of a record with `want` bytes of digits. */
  function TextOf(src: seq<byte>, mode: nat, want: nat): seq<byte>
    requires |src| == 1 + want + MaskFor(mode, want)
  {
    Spelled(src[1..1 + want], mode, src[1 + want..])
  }

  // ---- encoding ----

  ghost predicate BodyOf(body: seq<byte>, d: seq<byte>, n: nat)
    requires n <= |d|
  {
    2 * |body| == n && forall i :: 0 <= i < n ==> Value(d[i]) == Some(Nibble(body, i))
  }

  /** The bytes that digits spell, and which cases occur. */
  method PackDigits(d: seq<byte>) returns (body: seq<byte>, sawUpper: bool, sawLower: bool, ok: bool)
    requires |d| % 2 == 0
    ensures ok <==> forall i :: 0 <= i < |d| ==> Value(d[i]).Some?
    ensures ok ==> BodyOf(body, d, |d|)
    ensures ok ==> (sawUpper <==> exists i :: 0 <= i < |d| && IsUpper(d[i]))
    ensures ok ==> (sawLower <==> exists i :: 0 <= i < |d| && IsLower(d[i]))
  {
    hide Value, IsUpper, IsLower, BodyOf;
    BodyNone(d);
    body, sawUpper, sawLower, ok := [], false, false, false;
    var i := 0;
    while i < |d|
      invariant 0 <= i <= |d| && i % 2 == 0 && BodyOf(body, d, i)
      invariant forall j :: 0 <= j < i ==> Value(d[j]).Some?
      invariant sawUpper <==> exists j :: 0 <= j < i && IsUpper(d[j])
      invariant sawLower <==> exists j :: 0 <= j < i && IsLower(d[j])
    {
      var hi, lo := Value(d[i]), Value(d[i + 1]);
      if hi.None? || lo.None? { return; }
      assert hi.value < 16 && lo.value < 16 by { ValueRange(d[i]); ValueRange(d[i + 1]); }
      BodyNext(body, d, i, hi.value, lo.value);
      body := body + [16 * hi.value + lo.value];
      sawUpper := sawUpper || IsUpper(d[i]) || IsUpper(d[i + 1]);
      sawLower := sawLower || IsLower(d[i]) || IsLower(d[i + 1]);
      i := i + 2;
    }
    ok := true;
  }

  lemma BodyNone(d: seq<byte>)
    ensures BodyOf([], d, 0)
  {
  }

  lemma BodyNext(body: seq<byte>, d: seq<byte>, i: nat, hi: nat, lo: nat)
    requires i + 2 <= |d| && BodyOf(body, d, i) && Value(d[i]) == Some(hi) && Value(d[i + 1]) == Some(lo) && hi < 16
    requires lo < 16
    ensures BodyOf(body + [16 * hi + lo], d, i + 2)
  {
    hide Value;
    var next: seq<byte> := body + [16 * hi + lo];
    forall j | 0 <= j < i + 2
      ensures Value(d[j]) == Some(Nibble(next, j))
    {
      if j < i { assert Nibble(next, j) == Nibble(body, j); }
    }
  }

  lemma ValueRange(c: byte)
    ensures Value(c).Some? ==> Value(c).value < 16
  {
  }

  /** How many bits of mask byte `b` the first `n` digits use. */
  function Width(n: nat, b: nat): nat
  {
    if n < 8 * b then 0 else if n - 8 * b < 8 then n - 8 * b else 8
  }

  lemma WidthNext(n: nat, b: nat)
    ensures if b == n / 8 then Width(n, b) == n % 8 && Width(n + 1, b) == n % 8 + 1 else Width(n + 1, b) == Width(n, b)
  {
  }

  /** The mask marks the upper-case digits up to `n`, and nothing from `n` on. */
  ghost predicate Marks(mask: seq<byte>, d: seq<byte>, n: nat)
    requires n <= |d| && |d| <= 8 * |mask|
  {
    && (forall j :: 0 <= j < n ==> (Bit(mask[j / 8], j % 8) <==> IsUpper(d[j])))
    && (forall b :: 0 <= b < |mask| ==> mask[b] < Pow(2, Width(n, b)))
  }

  lemma MarkNext(mask: seq<byte>, d: seq<byte>, n: nat)
    requires n < |d| <= 8 * |mask| && Marks(mask, d, n)
    ensures n / 8 < |mask| && mask[n / 8] + Pow(2, n % 8) < 256
    ensures Marks(if IsUpper(d[n]) then mask[n / 8 := mask[n / 8] + Pow(2, n % 8)] else mask, d, n + 1)
  {
    hide Bit, Pow, IsUpper, Width;
    var b, k := n / 8, n % 8;
    var was := mask[b];
    WidthNext(n, b);
    PowTwice(k);
    PowUpTo(k);
    var next := if IsUpper(d[n]) then mask[b := was + Pow(2, k)] else mask;
    forall j | 0 <= j < n + 1
      ensures Bit(next[j / 8], j % 8) <==> IsUpper(d[j])
    {
      MarkBit(was, k, j % 8);
      Before(j, n);
    }
    forall c | 0 <= c < |next|
      ensures next[c] < Pow(2, Width(n + 1, c))
    {
      WidthNext(n, c);
    }
  }

  lemma MarkBit(was: nat, k: nat, t: nat)
    requires was < Pow(2, k)
    ensures t <= k ==> Bit(was + Pow(2, k), t) == (t == k || Bit(was, t))
    ensures !Bit(was, k)
  {
    hide Bit, Pow;
    BitClear(was, k);
    if t <= k { BitSet(was, k, t); }
  }

  lemma Before(j: nat, n: nat)
    requires j <= n
    ensures j / 8 <= n / 8 && (j / 8 == n / 8 ==> j % 8 <= n % 8) && (j / 8 == n / 8 && j % 8 == n % 8 ==> j == n)
  {
  }

  lemma PowUpTo(k: nat)
    requires k < 8
    ensures Pow(2, 0) == 1 && Pow(2, k + 1) <= 256 && Pow(2, 8) == 256
  {
    assert Pow(2, 1) == 2 && Pow(2, 2) == 4 && Pow(2, 3) == 8 && Pow(2, 4) == 16;
    assert Pow(2, 5) == 32 && Pow(2, 6) == 64 && Pow(2, 7) == 128;
  }

  method PackMask(d: seq<byte>) returns (mask: seq<byte>)
    ensures |mask| == (|d| + 7) / 8 && Marks(mask, d, |d|)
  {
    hide Marks, Bit, Pow, IsUpper, Or;
    mask := seq<byte>((|d| + 7) / 8, _ => 0);
    NoMarks(mask, d);
    for i := 0 to |d|
      invariant |mask| == (|d| + 7) / 8 && Marks(mask, d, i)
    {
      MarkNext(mask, d, i);
      if IsUpper(d[i]) {
        assert mask[i / 8] < Pow(2, i % 8) by { Unmarked(mask, d, i); }
        OrAdds(mask[i / 8], i % 8);
        mask := mask[i / 8 := Or(mask[i / 8], Pow(2, i % 8))];
      }
    }
  }

  lemma Unmarked(mask: seq<byte>, d: seq<byte>, n: nat)
    requires n < |d| <= 8 * |mask| && Marks(mask, d, n)
    ensures mask[n / 8] < Pow(2, n % 8)
  {
    hide Bit, Pow, Width;
    WidthNext(n, n / 8);
  }

  lemma NoMarks(mask: seq<byte>, d: seq<byte>)
    requires |d| <= 8 * |mask| && forall b :: 0 <= b < |mask| ==> mask[b] == 0
    ensures Marks(mask, d, 0)
  {
    PowUpTo(0);
  }

  /** Digits, mode and mask spell the text again. */
  lemma SpelledBack(body: seq<byte>, mode: nat, mask: seq<byte>, d: seq<byte>)
    requires BodyOf(body, d, |d|) && (mode == MIXED ==> |d| <= 8 * |mask| && Marks(mask, d, |d|)) && mode <= MIXED
    requires mode == LOWER ==> forall i :: 0 <= i < |d| ==> !IsUpper(d[i])
    requires mode == UPPER ==> forall i :: 0 <= i < |d| ==> !IsLower(d[i])
    ensures Spelled(body, mode, mask) == d
  {
    hide Value, Bit, Symbol, IsUpper, IsLower;
    forall pos | 0 <= pos < |d|
      ensures Spelled(body, mode, mask)[pos] == d[pos]
    {
      SymbolBack(d[pos]);
    }
  }

  /** Encodes hex text: refused exactly when it is not, and otherwise decoded to itself. */
  method Encode(src: seq<byte>) returns (r: Option<seq<byte>>)
    ensures r.Some? <==> IsHex(src)
    ensures r.Some? ==> Decoded(r.value, |src|) == Some(src)
  {
    hide Value, Spelled, Marks, BodyOf, IsUpper, IsLower, Decoded, MaskBytes;
    var prefix := if Prefixed(src) then 1 else 0;
    var d := DigitsOf(src);
    if |d| < MIN_DIGITS || |d| > MAX_DIGITS || |d| % 2 != 0 { return None; }
    var body, sawUpper, sawLower, ok := PackDigits(d);
    if !ok { return None; }
    var mode := if sawUpper && sawLower then MIXED else if sawUpper then UPPER else LOWER;
    var mask: seq<byte> := [];
    if mode == MIXED { mask := PackMask(d); }
    SpelledBack(body, mode, mask, d);
    BodySize(body, d);
    EncodedBack(src, prefix, mode, body, mask);
    return Some([prefix + 2 * mode] + (body + mask));
  }

  /** The flag byte, the digits and the mask decode to the text. */
  lemma EncodedBack(src: seq<byte>, prefix: nat, mode: nat, body: seq<byte>, mask: seq<byte>)
    requires prefix == (if Prefixed(src) then 1 else 0) && mode <= MIXED && |mask| == MaskFor(mode, |body|)
    requires MIN_DIGITS <= 2 * |body| == |DigitsOf(src)| <= MAX_DIGITS && Spelled(body, mode, mask) == DigitsOf(src)
    ensures Decoded([prefix + 2 * mode] + (body + mask), |src|) == Some(src)
  {
    hide Spelled, MaskBytes;
    var out := [prefix + 2 * mode] + (body + mask);
    assert out[1..1 + |body|] == body && out[1 + |body|..] == mask;
    DivModUnique(prefix + 2 * mode, 2, mode, prefix);
    DivModUnique(2 * |body|, 2, |body|, 0);
    assert prefix == 1 ==> src == ['0' as int, 'x' as int] + DigitsOf(src);
  }

  lemma BodySize(body: seq<byte>, d: seq<byte>)
    requires BodyOf(body, d, |d|)
    ensures 2 * |body| == |d|
  {
  }

  lemma SpelledNext(body: seq<byte>, mode: nat, mask: seq<byte>, i: nat)
    requires (mode == MIXED ==> 2 * |body| <= 8 * |mask|) && i < |body|
    ensures Spelled(body, mode, mask)[..2 * i + 2] == Spelled(body, mode, mask)[..2 * i]
      + [Symbol(body[i] / 16, Raised(mode, mask, 2 * i)), Symbol(body[i] % 16, Raised(mode, mask, 2 * i + 1))]
  {
    hide Bit, Symbol;
    var s := Spelled(body, mode, mask);
    assert Nibble(body, 2 * i) == body[i] / 16 && Nibble(body, 2 * i + 1) == body[i] % 16;
    assert s[..2 * i + 2] == s[..2 * i] + [s[2 * i], s[2 * i + 1]];
  }

  method SpellDigits(body: seq<byte>, mode: nat, mask: seq<byte>) returns (out: seq<byte>)
    requires mode == MIXED ==> 2 * |body| <= 8 * |mask|
    ensures out == Spelled(body, mode, mask)
  {
    hide Bit, Symbol;
    out := [];
    for i := 0 to |body|
      invariant out == Spelled(body, mode, mask)[..2 * i]
    {
      SpelledNext(body, mode, mask, i);
      out := out +
        [Symbol(body[i] / 16, Raised(mode, mask, 2 * i)), Symbol(body[i] % 16, Raised(mode, mask, 2 * i + 1))];
    }
    assert Spelled(body, mode, mask)[..2 * |body|] == Spelled(body, mode, mask);
  }

  /** Decodes a record. */
  method Decode(src: seq<byte>, rawLength: nat) returns (r: Option<seq<byte>>)
    ensures r == Decoded(src, rawLength)
  {
    hide Spelled;
    if |src| < 1 { return None; }
    var flags := src[0];
    if flags >= 8 || flags / 2 > MIXED { return None; }
    var mode := flags / 2;
    var digits := rawLength - 2 * (flags % 2);
    if digits < MIN_DIGITS || digits > MAX_DIGITS || digits % 2 != 0 { return None; }
    var want := digits / 2;
    var maskLen := if mode == MIXED then (digits + 7) / 8 else 0;
    if |src| - 1 != want + maskLen { return None; }
    var body, mask := src[1..1 + want], src[1 + want..];
    var out := SpellDigits(body, mode, mask);
    return Some(if flags % 2 == 1 then ['0' as int, 'x' as int] + out else out);
  }
}
