/** Bytes, little-endian words and in-place patches of byte buffers. */
module Words {

  type byte = x: int | 0 <= x < 256

  datatype Option<+T> = None | Some(value: T)

  /** Always true.  A definition guarded by it stays folded in proofs that only pass it along, and is
      opened by naming it. */
  predicate Open(k: int) { true }

  function Pow(b: nat, e: nat): nat
  {
    if e == 0 then 1 else b * Pow(b, e - 1)
  }

  /** The `w` low-order bytes of `n`, least significant first. */
  function Le(n: nat, w: nat): (s: seq<byte>)
    ensures |s| == w
    decreases w
  {
    if w == 0 then [] else [n % 256] + Le(n / 256, w - 1)
  }

  function FromLe(s: seq<byte>): nat
  {
    if s == [] then 0 else s[0] + 256 * FromLe(s[1..])
  }

  lemma {:induction false} LeRoundTrip(n: nat, w: nat)
    requires n < Pow(256, w)
    ensures FromLe(Le(n, w)) == n
    decreases w
  {
    if w > 0 {
      assert n / 256 < Pow(256, w - 1);
      LeRoundTrip(n / 256, w - 1);
      assert Le(n, w)[1..] == Le(n / 256, w - 1);
    }
  }

  lemma {:induction false} FromLeRoundTrip(s: seq<byte>)
    ensures FromLe(s) < Pow(256, |s|)
    ensures Le(FromLe(s), |s|) == s
  {
    if s != [] {
      FromLeRoundTrip(s[1..]);
      var n := FromLe(s);
      assert n % 256 == s[0] && n / 256 == FromLe(s[1..]);
      assert s == [s[0]] + s[1..];
    }
  }

  const TWO16 := 0x1_0000
  const TWO32 := 0x1_0000_0000
  const TWO64 := 0x1_0000_0000_0000_0000

  const MAX_INT64 := 0x7FFF_FFFF_FFFF_FFFF
  const MIN_INT64: int := -0x8000_0000_0000_0000

  predicate Int64(n: int) { MIN_INT64 <= n <= MAX_INT64 }

  lemma DivMod(n: nat, d: nat)
    requires d > 0
    ensures n == d * (n / d) + n % d && n % d < d
  {
  }

  /** Quotient and remainder are the only ones. */
  lemma DivModUnique(n: int, d: nat, q: int, r: nat)
    requires n == d * q + r && r < d
    ensures n / d == q && n % d == r
  {
    var e := n / d - q;
    assert n == d * (n / d) + n % d;
    assert d * e == r - n % d;
    assert e >= 1 ==> d * e >= d;
    assert e <= -1 ==> d * e <= -(d as int);
  }

  lemma MulMono(a: nat, b: nat, w: nat)
    requires a <= b
    ensures a * w <= b * w && w * a <= w * b
  {
  }

  lemma Assoc<T>(a: seq<T>, b: seq<T>, c: seq<T>)
    ensures (a + b) + c == a + (b + c)
  {
  }

  lemma WordLimits()
    ensures Pow(256, 2) == TWO16 && Pow(256, 4) == TWO32 && Pow(256, 8) == TWO64
  {
    assert Pow(256, 1) == 256;
    assert Pow(256, 2) == 256 * 256;
    assert Pow(256, 3) == 256 * 256 * 256;
    assert Pow(256, 4) == TWO32;
    assert Pow(256, 5) == 256 * TWO32;
    assert Pow(256, 6) == TWO16 * TWO32;
    assert Pow(256, 7) == 256 * TWO16 * TWO32;
  }

  /** The bytes of `data` with `src` copied over position `off`. */
  function Patch(data: seq<byte>, off: nat, src: seq<byte>): (r: seq<byte>)
    requires off + |src| <= |data|
    ensures |r| == |data|
    ensures forall i :: off <= i < off + |src| ==> r[i] == src[i - off]
    ensures forall i :: 0 <= i < off || off + |src| <= i < |data| ==> r[i] == data[i]
  {
    data[..off] + src + data[off + |src|..]
  }

  lemma PatchReads(data: seq<byte>, off: nat, src: seq<byte>)
    requires off + |src| <= |data|
    ensures Patch(data, off, src)[off..off + |src|] == src
  {
  }

  /** A range that the patch does not touch reads as before. */
  lemma PatchFrame(data: seq<byte>, off: nat, src: seq<byte>, lo: nat, hi: nat)
    requires off + |src| <= |data| && lo <= hi <= |data|
    requires hi <= off || off + |src| <= lo
    ensures Patch(data, off, src)[lo..hi] == data[lo..hi]
  {
  }

  /** The little-endian word of `w` bytes at `off`. */
  function Word(data: seq<byte>, off: nat, w: nat): nat
    requires off + w <= |data|
  {
    FromLe(data[off..off + w])
  }

  lemma WordPatched(data: seq<byte>, off: nat, w: nat, n: nat)
    requires off + w <= |data| && n < Pow(256, w)
    ensures Word(Patch(data, off, Le(n, w)), off, w) == n
  {
    PatchReads(data, off, Le(n, w));
    LeRoundTrip(n, w);
  }

  /** The eight bytes of a word, as `binary.LittleEndian.PutUint64` writes them. */
  method EncodeWord(n: nat) returns (s: seq<byte>)
    requires n < TWO64
    ensures |s| == 8 && FromLe(s) == n
  {
    WordLimits();
    LeRoundTrip(n, 8);
    s := Le(n, 8);
  }

  lemma SliceOfSlice<T>(s: seq<T>, lo: nat, hi: nat, a: nat, b: nat)
    requires lo <= hi <= |s| && a <= b <= hi - lo
    ensures s[lo..hi][a..b] == s[lo + a..lo + b]
  {
    forall i | 0 <= i < b - a
      ensures s[lo..hi][a..b][i] == s[lo + a..lo + b][i]
    {
    }
  }

  function Zeros(n: nat): (s: seq<byte>)
    ensures |s| == n && forall i :: 0 <= i < n ==> s[i] == 0
  {
    seq(n, _ => 0)
  }
}
