/** An entry packed in two words. */
module EntryPack {
  import opened Words
  import opened ArenaAllocator

  const TWO38 := 0x40_0000_0000
  const TWO43 := 0x800_0000_0000
  const TWO44 := 0x1000_0000_0000
  const TWO45 := 0x2000_0000_0000
  const TWO19 := 0x8_0000

  datatype Entry = Entry(ref: Ref, rawLength: nat, codec: nat, kind: nat, hasExpiry: bool, rawStable: bool)

  datatype Packed = Packed(location: nat, meta: nat)

  function Bit(b: bool): nat { if b then 1 else 0 }

  /** Every field is within its bits. */
  predicate Fits(e: Entry)
  {
    e.rawLength < TWO32 && e.codec < 64 && e.kind < 32 && e.ref.generation < TWO19 && e.ref.location < TWO64
  }

  /** The two words of an entry; the code stops when the generation, codec or type does not fit. */
  function Pack(e: Entry): Option<Packed>
  {
    if e.ref.generation >= TWO19 || e.codec >= 64 || e.kind >= 32 then None
    else Some(Packed(e.ref.location,
      e.rawLength + e.codec * TWO32 + e.kind * TWO38
      + Bit(e.hasExpiry) * TWO43 + Bit(e.rawStable) * TWO44 + e.ref.generation * TWO45))
  }

  function Unpack(p: Packed): Entry
  {
    Entry(Ref(p.location, p.meta / TWO45 % TWO19), p.meta % TWO32, p.meta / TWO32 % 64, p.meta / TWO38 % 32,
      p.meta / TWO43 % 2 == 1, p.meta / TWO44 % 2 == 1)
  }

  /** An entry whose fields fit comes back unchanged. */
  lemma PackRoundTrip(e: Entry)
    requires Fits(e)
    ensures Pack(e).Some? && Unpack(Pack(e).value) == e && Pack(e).value.meta < TWO64 && Pack(e).value.location < TWO64
  {
    var x, s := Bit(e.hasExpiry), Bit(e.rawStable);
    var m := Pack(e).value.meta;
    var g := e.ref.generation;
    Digits(m, e.rawLength, e.codec, e.kind, x, s, g);
  }

  lemma Digits(m: nat, raw: nat, codec: nat, kind: nat, x: nat, s: nat, g: nat)
    requires raw < TWO32 && codec < 64 && kind < 32 && x < 2 && s < 2 && g < TWO19
    requires m == raw + codec * TWO32 + kind * TWO38 + x * TWO43 + s * TWO44 + g * TWO45
    ensures m % TWO32 == raw && m / TWO32 % 64 == codec && m / TWO38 % 32 == kind
    ensures m / TWO43 % 2 == x && m / TWO44 % 2 == s && m / TWO45 % TWO19 == g && m < TWO64
  {
    var d := s + 2 * g;
    var c := x + 2 * d;
    var b := kind + 32 * c;
    var a := codec + 64 * b;
    DivModUnique(m, TWO32, a, raw);
    DivModUnique(a, 64, b, codec);
    DivModUnique(m, TWO38, b, raw + codec * TWO32);
    DivModUnique(b, 32, c, kind);
    DivModUnique(m, TWO43, c, raw + codec * TWO32 + kind * TWO38);
    DivModUnique(c, 2, d, x);
    DivModUnique(m, TWO44, d, raw + codec * TWO32 + kind * TWO38 + x * TWO43);
    DivModUnique(d, 2, g, s);
    DivModUnique(m, TWO45, g, raw + codec * TWO32 + kind * TWO38 + x * TWO43 + s * TWO44);
    DivModUnique(g, TWO19, 0, g);
  }

  /** Every pair of 64-bit words is the packing of what it unpacks to. */
  /** Dividing twice is dividing by the product. */
  lemma DivTwice(m: nat, x: nat, y: nat)
    requires x > 0 && y > 0
    ensures x * y > 0 && m / (x * y) == m / x / y
  {
    var q := m / x;
    var p, s := q / y, q % y;
    DivMod(m, x);
    DivMod(q, y);
    Nested(x, y, p, s, m % x);
    DivModUnique(m, x * y, p, x * s + m % x);
  }

  lemma Nested(x: nat, y: nat, p: nat, s: nat, r: nat)
    requires s < y && r < x
    ensures x * y > 0 && x * (y * p + s) + r == (x * y) * p + (x * s + r) && 0 <= x * s + r < x * y
  {
    Distributes(x, y * p, s);
    Associates(x, y, p);
    Distributes(x, s, 1);
    MulMono(s + 1, y, x);
  }

  lemma Distributes(x: nat, a: nat, b: nat)
    ensures x * (a + b) == x * a + x * b
  {
  }

  lemma Associates(x: nat, y: nat, p: nat)
    ensures x * (y * p) == (x * y) * p
  {
  }

  lemma UnpackRoundTrip(p: Packed)
    requires p.location < TWO64 && p.meta < TWO64
    ensures Fits(Unpack(p)) && Pack(Unpack(p)) == Some(p)
  {
    var m := p.meta;
    var a, b, c, d, g := m / TWO32, m / TWO38, m / TWO43, m / TWO44, m / TWO45;
    DivMod(m, TWO32);
    DivTwice(m, TWO32, 64);
    DivMod(a, 64);
    DivTwice(m, TWO38, 32);
    DivMod(b, 32);
    DivTwice(m, TWO43, 2);
    DivMod(c, 2);
    DivTwice(m, TWO44, 2);
    DivMod(d, 2);
    DivModUnique(g, TWO19, 0, g);
  }
}
