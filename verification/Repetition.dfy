/** Values that repeat one byte or a short pattern. */
module Repetition {
  import opened Words

  // ---- one byte ----

  method EncodeRepeat(src: seq<byte>) returns (r: Option<seq<byte>>)
    ensures r.Some? <==> |src| >= 16 && forall i :: 0 <= i < |src| ==> src[i] == src[0]
    ensures r.Some? ==> |r.value| == 1 && Repeated(r.value, |src|) == Some(src)
  {
    if |src| < 16 { return None; }
    var first := src[0];
    for i := 1 to |src|
      invariant forall j :: 0 <= j < i ==> src[j] == first
    {
      if src[i] != first { return None; }
    }
    assert seq<byte>(|src|, _ => first) == src;
    return Some([first]);
  }

  /** What a repeat-byte record decodes to. */
  function Repeated(data: seq<byte>, n: nat): Option<seq<byte>>
  {
    if |data| != 1 then None else Some(seq<byte>(n, _ => data[0]))
  }

  // ---- a pattern ----

  /** The value repeats its first `p` bytes. */
  ghost predicate Periodic(src: seq<byte>, p: nat)
  {
    p > 0 && forall i :: p <= i < |src| ==> src[i] == src[i - p]
  }

  function Expanded(pattern: seq<byte>, n: nat): (s: seq<byte>)
    requires pattern != []
    ensures |s| == n
  {
    seq<byte>(n, i requires i >= 0 => pattern[i % |pattern|])
  }

  lemma {:induction false} PeriodicAt(src: seq<byte>, p: nat, i: nat)
    requires Periodic(src, p) && p <= |src| && i < |src|
    ensures src[i] == src[i % p]
    decreases i
  {
    if i >= p {
      PeriodicAt(src, p, i - p);
      ModStep(i, p);
    }
  }

  lemma ModStep(i: nat, p: nat)
    requires 0 < p <= i
    ensures (i - p) % p == i % p
  {
    var q := i / p;
    assert i - p == p * (q - 1) + i % p;
    DivModUnique(i - p, p, q - 1, i % p);
  }

  lemma MulAtLeast(d: nat, e: int)
    requires e >= 1
    ensures d * e >= d
  {
  }

  /** A periodic value is its pattern, expanded. */
  lemma PeriodicExpands(src: seq<byte>, p: nat)
    requires Periodic(src, p) && p <= |src|
    ensures Expanded(src[..p], |src|) == src
  {
    var e := Expanded(src[..p], |src|);
    forall i | 0 <= i < |src|
      ensures e[i] == src[i]
    {
      PeriodicAt(src, p, i);
    }
  }

  method HasPeriod(src: seq<byte>, p: nat) returns (yes: bool)
    requires 0 < p < |src|
    ensures yes <==> Periodic(src, p)
  {
    if src[p] != src[0] { return false; }
    for i := p to |src|
      invariant forall j :: p <= j < i ==> src[j] == src[j - p]
    {
      if src[i] != src[i - p] { return false; }
    }
    return true;
  }

  function MaxPeriod(n: nat): nat { if n / 2 < 64 then n / 2 else 64 }

  /** The shortest pattern of two to 64 bytes that the value repeats at least twice. */
  method EncodePeriodic(src: seq<byte>) returns (r: Option<seq<byte>>)
    ensures r.None? <==> |src| < 32 || forall p :: 2 <= p <= MaxPeriod(|src|) ==> !Periodic(src, p)
    ensures r.Some? ==> 2 <= |r.value| <= MaxPeriod(|src|) && r.value == src[..|r.value|] && Periodic(src, |r.value|)
    ensures r.Some? ==> forall p :: 2 <= p < |r.value| ==> !Periodic(src, p)
  {
    if |src| < 32 { return None; }
    var maxPeriod := MaxPeriod(|src|);
    for period := 2 to maxPeriod + 1
      invariant forall p :: 2 <= p < period ==> !Periodic(src, p)
    {
      var yes := HasPeriod(src, period);
      if yes { return Some(src[..period]); }
    }
    return None;
  }

  /** `copy(dst[copied:], dst[:copied])`, bounded by what is left. */
  method CopyPrefix(dst: array<byte>, copied: nat, m: nat)
    requires m <= copied && copied + m <= dst.Length
    modifies dst
    ensures dst[..copied + m] == old(dst[..copied]) + old(dst[..m])
  {
    ghost var before := dst[..];
    forall i | 0 <= i < m { dst[copied + i] := dst[i]; }
    forall i | 0 <= i < copied + m
      ensures dst[i] == if i < copied then before[i] else before[i - copied]
    {
      if i >= copied { assert dst[copied + (i - copied)] == before[i - copied]; }
    }
  }

  lemma Extended(pattern: seq<byte>, copied: nat, times: nat, m: nat)
    requires pattern != [] && copied == times * |pattern| && m <= copied
    ensures Expanded(pattern, copied) + Expanded(pattern, copied)[..m] == Expanded(pattern, copied + m)
  {
    var a, e := Expanded(pattern, copied), Expanded(pattern, copied + m);
    forall i | 0 <= i < copied + m
      ensures (a + a[..m])[i] == e[i]
    {
      if i >= copied { Shifted(i - copied, times, |pattern|); }
    }
  }

  lemma FirstCopy(pattern: seq<byte>, n: nat)
    requires pattern != [] && n <= |pattern|
    ensures Expanded(pattern, n) == pattern[..n]
  {
  }

  /** Fills a buffer with a pattern by copying ever longer prefixes of itself. */
  method Expand(dst: array<byte>, pattern: seq<byte>)
    requires pattern != []
    modifies dst
    ensures dst[..] == Expanded(pattern, dst.Length)
  {
    hide Expanded;
    var n, p := dst.Length, |pattern|;
    var copied := if n < p then n else p;
    forall i | 0 <= i < copied { dst[i] := pattern[i]; }
    FirstCopy(pattern, copied);
    assert dst[..copied] == pattern[..copied];
    ghost var times: nat := 1;
    while copied < n
      invariant 0 <= copied <= n && (copied < n ==> copied == times * p) && times >= 1
      invariant dst[..copied] == Expanded(pattern, copied)
      decreases n - copied
    {
      var m := if copied < n - copied then copied else n - copied;
      Extended(pattern, copied, times, m);
      MulAtLeast(p, times);
      Twice(times, p);
      assert dst[..copied][..m] == dst[..m];
      CopyPrefix(dst, copied, m);
      copied := copied + m;
      times := 2 * times;
    }
    assert dst[..n] == dst[..];
  }

  lemma Twice(k: nat, p: nat)
    ensures 2 * k * p == k * p + k * p
  {
  }

  lemma Shifted(i: nat, k: nat, p: nat)
    requires p > 0
    ensures (i + k * p) % p == i % p
  {
    var q := i / p;
    assert i + k * p == p * (q + k) + i % p;
    DivModUnique(i + k * p, p, q + k, i % p);
  }

  /** What a periodic record decodes to. */
  function Repeating(data: seq<byte>, n: nat): Option<seq<byte>>
  {
    if |data| < 2 || |data| > 64 || n < |data| then None else Some(Expanded(data, n))
  }

  method DecodePeriodic(data: seq<byte>, n: nat) returns (r: Option<seq<byte>>)
    ensures r == Repeating(data, n)
  {
    if |data| < 2 || |data| > 64 || n < |data| { return None; }
    var out := new byte[n](_ => 0);
    Expand(out, data);
    return Some(out[..]);
  }
}
