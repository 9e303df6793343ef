/** UUID text in the form of section 4 of RFC 9562 (lower case) as 16 bytes. */
module Uuid {
  import opened Words

  const DASH: byte := '-' as int

  function Nibble(c: byte): Option<nat>
  {
    if '0' as int <= c <= '9' as int then Some(c - '0' as int)
    else if 'a' as int <= c <= 'f' as int then Some(c - 'a' as int + 10)
    else None
  }

  function HexDigit(n: nat): byte
  {
    if n < 10 then n + '0' as int else if n < 16 then n - 10 + 'a' as int else 0
  }

  lemma NibbleInverse(c: byte, n: nat)
    ensures Nibble(c).Some? ==> Nibble(c).value < 16 && HexDigit(Nibble(c).value) == c
    ensures n < 16 ==> Nibble(HexDigit(n)) == Some(n)
  {
  }

  /** How many dashes stand before the digits of byte `i`. */
  function Dashes(i: nat): nat
  {
    if i < 4 then 0 else if i < 6 then 1 else if i < 8 then 2 else if i < 10 then 3 else 4
  }

  /** Where the digits of byte `i` start in the text. */
  function Place(i: nat): nat { 2 * i + Dashes(i) }

  predicate DashAt(p: nat) { p == 8 || p == 13 || p == 18 || p == 23 }

  /** The text is a lower-case UUID. */
  predicate IsUuid(src: seq<byte>)
  {
    |src| == 36 && forall p :: 0 <= p < 36 ==> if DashAt(p) then src[p] == DASH else Nibble(src[p]).Some?
  }

  /** The bytes written as text. */
  function Text(d: seq<byte>, n: nat): seq<byte>
    requires n <= |d|
  {
    if n == 0 then []
    else
      Text(d, n - 1) + (if n == 5 || n == 7 || n == 9 || n == 11 then [DASH] else [])
        + [HexDigit(d[n - 1] / 16), HexDigit(d[n - 1] % 16)]
  }

  lemma {:induction false} TextShape(d: seq<byte>, n: nat, i: nat)
    requires i < n <= |d| && n <= 16
    ensures |Text(d, n)| == Place(n - 1) + 2 && Place(i) + 1 < |Text(d, n)|
    ensures Text(d, n)[Place(i)] == HexDigit(d[i] / 16) && Text(d, n)[Place(i) + 1] == HexDigit(d[i] % 16)
    ensures forall p :: 0 <= p < |Text(d, n)| && DashAt(p) ==> Text(d, n)[p] == DASH
    decreases n
  {
    if n > 1 {
      TextShape(d, n - 1, if i < n - 1 then i else 0);
    }
  }

  /** Encodes a UUID; anything else is refused. */
  method Encode(src: seq<byte>) returns (r: Option<seq<byte>>)
    ensures r.Some? <==> IsUuid(src)
    ensures r.Some? ==> |r.value| == 16 && Text(r.value, 16) == src
  {
    hide Text, Nibble, HexDigit, IsUuid, Spells, Place;
    NotDashed(src);
    if |src| != 36 || src[8] != DASH || src[13] != DASH || src[18] != DASH || src[23] != DASH { return None; }
    var out: seq<byte> := [];
    var si := 0;
    SpellsNone(src);
    for oi := 0 to 16
      invariant |out| == oi && si == End(oi) && Spells(src, out, oi)
    {
      PlaceAfter(oi);
      if si == 8 || si == 13 || si == 18 || si == 23 { si := si + 1; }
      var hi, lo := Nibble(src[si]), Nibble(src[si + 1]);
      NotSpelled(src, oi);
      if hi.None? || lo.None? { return None; }
      SpellsNext(src, out, oi);
      var b: byte := 16 * hi.value + lo.value;
      out := out + [b];
      si := si + 2;
    }
    SpellsAll(src, out);
    return Some(out);
  }

  /** Where the text of the first `n` bytes ends. */
  function End(n: nat): nat { if n == 0 then 0 else Place(n - 1) + 2 }

  /** The dashes stand where a UUID has them. */
  predicate Dashed(src: seq<byte>)
  {
    |src| == 36 && src[8] == src[13] == src[18] == src[23] == DASH
  }

  /** The bytes are those of the first digits of the text. */
  ghost predicate Spells(src: seq<byte>, out: seq<byte>, n: nat)
    requires Dashed(src) && n <= 16
  {
    && |out| == n && End(n) <= 36 && Text(out, n) == src[..End(n)]
    && forall p :: 0 <= p < End(n) && !DashAt(p) ==> Nibble(src[p]).Some?
  }

  lemma NotDashed(src: seq<byte>)
    ensures IsUuid(src) ==> Dashed(src)
  {
    assert DashAt(8) && DashAt(13) && DashAt(18) && DashAt(23);
  }

  lemma SpellsNone(src: seq<byte>)
    requires Dashed(src)
    ensures Spells(src, [], 0) && End(0) == 0
  {
  }

  /** The digits of the next byte follow the last ones, or the dash after them. */
  lemma PlaceAfter(n: nat)
    requires n < 16
    ensures Place(n) == (if DashAt(End(n)) then End(n) + 1 else End(n)) && Place(n) + 1 < 36
    ensures End(n + 1) == Place(n) + 2
    ensures DashAt(End(n)) <==> n == 4 || n == 6 || n == 8 || n == 10
    ensures !DashAt(Place(n)) && !DashAt(Place(n) + 1)
  {
  }

  lemma NotSpelled(src: seq<byte>, n: nat)
    requires Dashed(src) && n < 16 && Place(n) + 1 < 36
    ensures IsUuid(src) ==> Nibble(src[Place(n)]).Some? && Nibble(src[Place(n) + 1]).Some?
    ensures Nibble(src[Place(n)]).Some? && Nibble(src[Place(n) + 1]).Some? ==>
      Nibble(src[Place(n)]).value < 16 && Nibble(src[Place(n) + 1]).value < 16
  {
    hide Nibble, HexDigit;
    PlaceAfter(n);
    NibbleInverse(src[Place(n)], 0);
    NibbleInverse(src[Place(n) + 1], 0);
  }

  lemma SpellsNext(src: seq<byte>, out: seq<byte>, n: nat)
    requires Dashed(src) && n < 16 && Spells(src, out, n) && Place(n) + 1 < 36
    requires Nibble(src[Place(n)]).Some? && Nibble(src[Place(n) + 1]).Some?
    ensures var hi, lo := Nibble(src[Place(n)]).value, Nibble(src[Place(n) + 1]).value;
      hi < 16 && lo < 16 && Spells(src, out + [16 * hi + lo], n + 1)
  {
    hide Text, Nibble, HexDigit, Place;
    var p := Place(n);
    PlaceAfter(n);
    NibbleInverse(src[p], 0);
    NibbleInverse(src[p + 1], 0);
    var hi, lo := Nibble(src[p]).value, Nibble(src[p + 1]).value;
    DivModUnique(16 * hi + lo, 16, hi, lo);
    TextNext(out, 16 * hi + lo, n);
    assert src[..p + 2] == src[..p] + [src[p], src[p + 1]];
    assert DashAt(End(n)) ==> src[..p] == src[..p - 1] + [DASH];
  }

  lemma SpellsAll(src: seq<byte>, out: seq<byte>)
    requires Dashed(src) && Spells(src, out, 16)
    ensures IsUuid(src) && Text(out, 16) == src
  {
    hide Text, Nibble;
    assert End(16) == 36 && src[..36] == src;
  }

  lemma TextNext(d: seq<byte>, b: byte, n: nat)
    requires n == |d|
    ensures Text(d + [b], n + 1) == Text(d, n) + (if n == 4 || n == 6 || n == 8 || n == 10 then [DASH] else [])
      + [HexDigit(b / 16), HexDigit(b % 16)]
  {
    TextSame(d, b, n);
  }

  lemma {:induction false} TextSame(d: seq<byte>, b: byte, n: nat)
    requires n <= |d|
    ensures Text(d + [b], n) == Text(d, n)
  {
    if n > 0 { TextSame(d, b, n - 1); }
  }

  /** Decodes sixteen bytes. */
  method Decode(src: seq<byte>) returns (r: Option<seq<byte>>)
    ensures r == if |src| == 16 then Some(Text(src, 16)) else None
  {
    if |src| != 16 { return None; }
    var out: seq<byte> := [];
    for i := 0 to 16
      invariant out == Text(src, i)
    {
      if i == 4 || i == 6 || i == 8 || i == 10 { out := out + [DASH]; }
      out := out + [HexDigit(src[i] / 16), HexDigit(src[i] % 16)];
    }
    return Some(out);
  }

  /** Text of any sixteen bytes is a UUID, and different bytes have different text. */
  lemma TextIsUuid(d: seq<byte>)
    requires |d| == 16
    ensures IsUuid(Text(d, 16))
  {
    hide Text, Nibble, HexDigit;
    var t := Text(d, 16);
    TextShape(d, 16, 0);
    forall p | 0 <= p < 36
      ensures if DashAt(p) then t[p] == DASH else Nibble(t[p]).Some?
    {
      if !DashAt(p) {
        var i := ByteAt(p);
        TextShape(d, 16, i);
        NibbleInverse(0, d[i] / 16);
        NibbleInverse(0, d[i] % 16);
      }
    }
  }

  /** The byte whose digits a place of the text belongs to. */
  function ByteAt(p: nat): (i: nat)
    requires p < 36 && !DashAt(p)
    ensures i < 16 && (p == Place(i) || p == Place(i) + 1)
  {
    if p < 8 then p / 2
    else if p < 13 then (p - 1) / 2
    else if p < 18 then (p - 2) / 2
    else if p < 23 then (p - 3) / 2
    else (p - 4) / 2
  }

  lemma TextInjective(c: seq<byte>, d: seq<byte>)
    requires |c| == |d| == 16 && Text(c, 16) == Text(d, 16)
    ensures c == d
  {
    hide Text, Nibble, HexDigit;
    forall i | 0 <= i < 16
      ensures c[i] == d[i]
    {
      TextShape(c, 16, i);
      TextShape(d, 16, i);
      NibbleInverse(0, c[i] / 16);
      NibbleInverse(0, d[i] / 16);
      NibbleInverse(0, c[i] % 16);
      NibbleInverse(0, d[i] % 16);
    }
  }
}
