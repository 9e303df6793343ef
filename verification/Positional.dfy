/** Numbers written in a base: values of digit lists, and the one canonical list of each number. */
module Positional {
  import opened Words

  predicate Digits(s: seq<nat>, b: nat)
  {
    forall i :: 0 <= i < |s| ==> s[i] < b
  }

  /** The number a digit list stands for, most significant digit first. */
  function Value(s: seq<nat>, b: nat): nat
  {
    if s == [] then 0 else b * Value(s[..|s| - 1], b) + s[|s| - 1]
  }

  /** The same, least significant digit first. */
  function LeValue(s: seq<nat>, b: nat): nat
  {
    if s == [] then 0 else LeValue(s[..|s| - 1], b) + s[|s| - 1] * Pow(b, |s| - 1)
  }

  /** No leading zero. */
  predicate Canon(s: seq<nat>)
  {
    s == [] || s[0] != 0
  }

  function ToDigits(v: nat, b: nat): (s: seq<nat>)
    requires b >= 2
    decreases v
  {
    if v == 0 then [] else ToDigits(v / b, b) + [v % b]
  }

  lemma ValueSnoc(s: seq<nat>, x: nat, b: nat)
    ensures Value(s + [x], b) == b * Value(s, b) + x
  {
    assert (s + [x])[..|s|] == s;
  }

  lemma LeSnoc(s: seq<nat>, x: nat, b: nat)
    ensures LeValue(s + [x], b) == LeValue(s, b) + x * Pow(b, |s|)
  {
    assert (s + [x])[..|s|] == s;
  }

  lemma Recompose(v: nat, b: nat)
    requires b > 0
    ensures b * (v / b) + v % b == v && v % b < b && (v >= b ==> v / b > 0) && (v < b ==> v / b == 0)
  {
  }

  lemma DivShrinks(v: nat, b: nat)
    requires v > 0 && b >= 2
    ensures v / b < v && v % b < b
  {
    Recompose(v, b);
    MulMono(2, b, v / b);
  }

  lemma NoDigits(b: nat)
    ensures Value([], b) == 0
  {
  }

  lemma {:induction false} ToDigitsValue(v: nat, b: nat)
    requires b >= 2
    ensures Value(ToDigits(v, b), b) == v && Digits(ToDigits(v, b), b) && Canon(ToDigits(v, b))
  {
    hide Value;
    if v > 0 {
      Recompose(v, b);
      DivShrinks(v, b);
      ToDigitsValue(v / b, b);
      ValueSnoc(ToDigits(v / b, b), v % b, b);
    } else {
      NoDigits(b);
    }
  }

  lemma MulZero(b: nat, x: nat)
    requires b > 0 && x > 0
    ensures b * x > 0
  {
  }

  lemma {:induction false} CanonPositive(s: seq<nat>, b: nat)
    requires b >= 2 && Canon(s) && s != []
    ensures Value(s, b) > 0
  {
    if |s| > 1 {
      CanonPositive(s[..|s| - 1], b);
      MulZero(b, Value(s[..|s| - 1], b));
    }
  }

  /** A number has one canonical digit list. */
  lemma {:induction false} CanonUnique(s: seq<nat>, b: nat)
    requires b >= 2 && Digits(s, b) && Canon(s)
    ensures s == ToDigits(Value(s, b), b)
  {
    if s != [] {
      var n := |s| - 1;
      var init, v := s[..n], Value(s, b);
      CanonPositive(s, b);
      CanonUnique(init, b);
      DivModUnique(v, b, Value(init, b), s[n]);
      assert v / b == Value(init, b) && v % b == s[n];
      assert s == init + [s[n]];
    }
  }

  lemma PowAdd(b: nat, m: nat, n: nat)
    ensures Pow(b, m + n) == Pow(b, m) * Pow(b, n)
    decreases n
  {
    if n > 0 {
      PowAdd(b, m, n - 1);
      var x, y := Pow(b, m), Pow(b, n - 1);
      assert Pow(b, m + n) == b * (x * y);
      assert b * (x * y) == x * (b * y);
    } else {
      assert Pow(b, 0) == 1;
    }
  }

  lemma {:induction false} ValueAppend(s: seq<nat>, t: seq<nat>, b: nat)
    ensures Value(s + t, b) == Value(s, b) * Pow(b, |t|) + Value(t, b)
    decreases |t|
  {
    if t == [] {
      assert s + t == s && Pow(b, 0) == 1;
    } else {
      var n := |t| - 1;
      var u, x := t[..n], t[n];
      assert (s + t)[..|s| + n] == s + u;
      ValueAppend(s, u, b);
      Distribute(Value(s, b), Pow(b, n), Value(u, b), b);
    }
  }

  lemma Distribute(v: nat, p: nat, w: nat, b: nat)
    ensures b * (v * p + w) == v * (b * p) + b * w
  {
    calc {
      b * (v * p + w);
      b * (v * p) + b * w;
      v * (b * p) + b * w;
    }
  }

  lemma MulLess(b: nat, v: nat, r: nat, p: nat)
    requires v < p && r < b
    ensures b * v + r < b * p
  {
    var e := p - v - 1;
    assert b * p == b * v + b + b * e;
    assert b * e >= 0;
  }

  lemma {:induction false} ValueBound(s: seq<nat>, b: nat)
    requires b >= 1 && Digits(s, b)
    ensures Value(s, b) < Pow(b, |s|)
  {
    if s == [] {
      assert Pow(b, 0) == 1;
    } else {
      var n := |s| - 1;
      ValueBound(s[..n], b);
      MulLess(b, Value(s[..n], b), s[n], Pow(b, n));
    }
  }

  /** Leading zeros do not count. */
  lemma {:induction false} DropZero(s: seq<nat>, b: nat)
    requires s != [] && s[0] == 0
    ensures Value(s[1..], b) == Value(s, b)
  {
    if |s| > 1 {
      var n := |s| - 1;
      assert s[..n][1..] == s[1..][..n - 1];
      DropZero(s[..n], b);
    }
  }

  /** The list without its leading zeros. */
  method StripZeros(s: seq<nat>, ghost b: nat) returns (r: seq<nat>)
    requires b >= 2 && Digits(s, b)
    ensures r == ToDigits(Value(s, b), b)
  {
    var skip := 0;
    assert s[0..] == s;
    while skip < |s| && s[skip] == 0
      invariant 0 <= skip <= |s| && Value(s[skip..], b) == Value(s, b)
    {
      assert s[skip..][1..] == s[skip + 1..];
      DropZero(s[skip..], b);
      skip := skip + 1;
    }
    r := s[skip..];
    CanonUnique(r, b);
  }

  lemma {:induction false} LeAppend(s: seq<nat>, t: seq<nat>, b: nat)
    ensures LeValue(s + t, b) == LeValue(s, b) + LeValue(t, b) * Pow(b, |s|)
    decreases |t|
  {
    if t == [] {
      assert s + t == s;
    } else {
      var n := |t| - 1;
      var u, x := t[..n], t[n];
      assert s + t == (s + u) + [x] && t == u + [x];
      LeAppend(s, u, b);
      LeSnoc(s + u, x, b);
      LeSnoc(u, x, b);
      PowAdd(b, |s|, n);
      Spread(LeValue(u, b), x, Pow(b, |s|), Pow(b, n));
    }
  }

  lemma Spread(u: nat, x: nat, p: nat, q: nat)
    ensures u * p + x * (p * q) == (u + x * q) * p
  {
    calc {
      u * p + x * (p * q);
      u * p + (x * q) * p;
      (u + x * q) * p;
    }
  }

  function Reversed(s: seq<nat>): (r: seq<nat>)
    ensures |r| == |s|
  {
    seq(|s|, i requires 0 <= i < |s| => s[|s| - 1 - i])
  }

  /** Turning a list round turns its value. */
  lemma {:induction false} ReversedValue(s: seq<nat>, b: nat)
    ensures Value(Reversed(s), b) == LeValue(s, b)
  {
    if s != [] {
      var n := |s| - 1;
      ReversedValue(s[..n], b);
      assert Reversed(s) == [s[n]] + Reversed(s[..n]);
      ValueAppend([s[n]], Reversed(s[..n]), b);
      assert Value([s[n]], b) == s[n];
    }
  }

  /** Lists of one length with one value are one list. */
  lemma {:induction false} FixedUnique(s: seq<nat>, t: seq<nat>, b: nat)
    requires b >= 2 && |s| == |t| && Digits(s, b) && Digits(t, b) && Value(s, b) == Value(t, b)
    ensures s == t
  {
    if s != [] {
      var n := |s| - 1;
      DivModUnique(Value(s, b), b, Value(s[..n], b), s[n]);
      DivModUnique(Value(t, b), b, Value(t[..n], b), t[n]);
      FixedUnique(s[..n], t[..n], b);
      assert s == s[..n] + [s[n]] && t == t[..n] + [t[n]];
    }
  }

  /** The last `n` digits of a number. */
  function FixedDigits(v: nat, n: nat, b: nat): (s: seq<nat>)
    requires b >= 2
    ensures |s| == n
    decreases n
  {
    if n == 0 then [] else FixedDigits(v / b, n - 1, b) + [v % b]
  }

  lemma {:induction false} FixedIs(s: seq<nat>, b: nat)
    requires b >= 2 && Digits(s, b)
    ensures FixedDigits(Value(s, b), |s|, b) == s
  {
    if s != [] {
      var n := |s| - 1;
      DivModUnique(Value(s, b), b, Value(s[..n], b), s[n]);
      FixedIs(s[..n], b);
      assert s == s[..n] + [s[n]];
    }
  }

  lemma {:induction false} FixedValue(v: nat, n: nat, b: nat)
    requires b >= 2 && v < Pow(b, n)
    ensures Digits(FixedDigits(v, n, b), b) && Value(FixedDigits(v, n, b), b) == v
    decreases n
  {
    if n > 0 {
      var init := FixedDigits(v / b, n - 1, b);
      assert v == b * (v / b) + v % b;
      if v / b >= Pow(b, n - 1) { MulMono(Pow(b, n - 1), v / b, b); }
      FixedValue(v / b, n - 1, b);
      assert (init + [v % b])[..n - 1] == init;
    }
  }
}
