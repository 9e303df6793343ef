/** Bitwise operations on naturals, and the laws of the low bits of a number. */
module Bits {
  import opened Words

  function Xor(a: nat, b: nat): nat
    decreases a + b
  {
    if a == 0 && b == 0 then 0 else (a % 2 + b % 2) % 2 + 2 * Xor(a / 2, b / 2)
  }

  function Or(a: nat, b: nat): nat
    decreases a + b
  {
    if a == 0 && b == 0 then 0 else (if a % 2 + b % 2 == 0 then 0 else 1) + 2 * Or(a / 2, b / 2)
  }

  /** The `k` low bits of `n`. */
  function Low(n: nat, k: nat): nat
    decreases k
  {
    if k == 0 then 0 else n % 2 + 2 * Low(n / 2, k - 1)
  }

  /** `n >> k`: the bits of `n` above the `k` low ones. */
  function High(n: nat, k: nat): nat
    decreases k, n
  {
    if k == 0 then n else High(n / 2, k - 1)
  }

  lemma TwoTimes(p: nat, h: nat)
    ensures (2 * p) * h == 2 * (p * h)
  {
  }

  lemma {:induction false} LowHigh(n: nat, k: nat)
    ensures Low(n, k) < Pow(2, k) && n == Pow(2, k) * High(n, k) + Low(n, k)
    decreases k
  {
    if k > 0 {
      LowHigh(n / 2, k - 1);
      DivMod(n, 2);
      TwoTimes(Pow(2, k - 1), High(n / 2, k - 1));
    }
  }

  lemma LowIsMod(n: nat, k: nat)
    ensures Low(n, k) < Pow(2, k) && Low(n, k) == n % Pow(2, k) && High(n, k) == n / Pow(2, k)
  {
    LowHigh(n, k);
    DivModUnique(n, Pow(2, k), High(n, k), Low(n, k));
  }

  lemma {:induction false} XorCancels(a: nat, b: nat)
    ensures Xor(Xor(a, b), b) == a
    decreases a + b
  {
    hide Xor;
    XorHalf(a, b);
    XorHalf(Xor(a, b), b);
    if a != 0 || b != 0 {
      XorCancels(a / 2, b / 2);
    } else {
      XorZero();
    }
  }

  lemma XorZero()
    ensures Xor(0, 0) == 0
  {
  }

  /** Dropping the high bits before or after an exclusive or is the same. */
  lemma {:induction false} XorLow(a: nat, b: nat, k: nat)
    ensures Low(Xor(Low(a, k), b), k) == Low(Xor(a, b), k)
    decreases k
  {
    hide Xor;
    if k > 0 {
      XorLow(a / 2, b / 2, k - 1);
      XorHalf(Low(a, k), b);
      XorHalf(a, b);
      DivModUnique(Low(a, k), 2, Low(a / 2, k - 1), a % 2);
    }
  }

  lemma XorHalf(a: nat, b: nat)
    ensures Xor(a, b) % 2 == (a % 2 + b % 2) % 2 && Xor(a, b) / 2 == Xor(a / 2, b / 2)
  {
  }

  lemma {:induction false} LowIdle(n: nat, k: nat)
    requires n < Pow(2, k)
    ensures Low(n, k) == n
    decreases k
  {
    if k > 0 { LowIdle(n / 2, k - 1); }
  }

  // ---- rounding up to a power of two ----

  lemma {:induction false} OrHigh(a: nat, b: nat, k: nat)
    ensures High(Or(a, b), k) == Or(High(a, k), High(b, k))
    decreases k
  {
    if k > 0 {
      OrHalf(a, b);
      OrHigh(a / 2, b / 2, k - 1);
    }
  }

  lemma OrHalf(a: nat, b: nat)
    ensures Or(a, b) / 2 == Or(a / 2, b / 2)
    ensures Or(a, b) % 2 == (if a % 2 + b % 2 == 0 then 0 else 1)
  {
  }

  lemma {:induction false} OrZero(a: nat)
    ensures Or(a, 0) == a
  {
    if a != 0 { OrZero(a / 2); }
  }

  lemma {:induction false} HighHigh(n: nat, i: nat, j: nat)
    ensures High(High(n, i), j) == High(n, i + j)
    decreases i
  {
    if i > 0 { HighHigh(n / 2, i - 1, j); }
  }

  /** The number written with `t` ones. */
  function Ones(t: nat): nat
  {
    if t == 0 then 0 else 2 * Ones(t - 1) + 1
  }

  lemma {:induction false} OnesPow(t: nat)
    ensures Ones(t) + 1 == Pow(2, t)
  {
    if t > 0 { OnesPow(t - 1); }
  }

  lemma {:induction false} OnesHigh(t: nat, k: nat)
    requires k <= t
    ensures High(Ones(t), k) == Ones(t - k)
    decreases k
  {
    if k > 0 { OnesHigh(t - 1, k - 1); }
  }

  /** Or-ing `u` ones into a number whose upper bits are `t` ones gives `t + u` ones. */
  lemma {:induction false} OrOnes(x: nat, u: nat, t: nat)
    requires High(x, u) == Ones(t)
    ensures Or(x, Ones(u)) == Ones(t + u)
    decreases u
  {
    if u == 0 {
      OrZero(x);
    } else {
      OrOnes(x / 2, u - 1, t);
      OrHalf(x, Ones(u));
    }
  }

  /** `n` has at most `L` bits and the `t` top ones are all set. */
  predicate TopOnes(n: nat, L: nat, t: nat)
  {
    t <= L && n < Pow(2, L) && High(n, L - t) == Ones(t)
  }

  /** Or-ing in the number shifted by `t` extends the run of top ones. */
  lemma Smear(n: nat, L: nat, t: nat, u: nat)
    requires TopOnes(n, L, t) && u <= t && t + u <= L
    ensures High(Or(n, High(n, t)), L - t - u) == Ones(t + u)
  {
    var j := L - t - u;
    OrHigh(n, High(n, t), j);
    HighHigh(n, t, j);
    HighHigh(n, L - t, t - u);
    HighHigh(n, j, u);
    OnesHigh(t, t - u);
    OrOnes(High(n, j), u, t);
  }

  lemma {:induction false} OrBelow(a: nat, b: nat, k: nat)
    requires a < Pow(2, k) && b < Pow(2, k)
    ensures Or(a, b) < Pow(2, k)
    decreases k
  {
    if k > 0 {
      OrBelow(a / 2, b / 2, k - 1);
      OrHalf(a, b);
    }
  }

  /** The step `n |= n >> s` with `s` the current run of top ones, cut off at the length of `n`. */
  lemma SmearStep(n: nat, L: nat, t: nat)
    requires TopOnes(n, L, t)
    ensures TopOnes(Or(n, High(n, t)), L, if 2 * t <= L then 2 * t else L)
  {
    var u := if 2 * t <= L then t else L - t;
    Smear(n, L, t, u);
    HighBelow(n, t);
    OrBelow(n, High(n, t), L);
  }

  lemma {:induction false} HighBelow(n: nat, k: nat)
    ensures High(n, k) <= n
    decreases k
  {
    if k > 0 { HighBelow(n / 2, k - 1); }
  }

  /** `n |= n >> s` */
  function Spread(n: nat, s: nat): nat { Or(n, High(n, s)) }

  /** The steps `n |= n >> s` for s, 2s, 4s, ... below 64. */
  function SpreadFrom(n: nat, s: nat): nat
    requires s > 0
    decreases 64 - s
  {
    if s >= 64 then n else SpreadFrom(Spread(n, s), 2 * s)
  }

  /** The smallest power of two that is at least `n`: smear the top bit by 1, 2, 4, 8, 16 and 32. */
  function NextPowerOfTwo(n: nat): nat
  {
    if n <= 1 then 1 else SpreadFrom(n - 1, 1) + 1
  }

  lemma {:induction false} SpreadFills(n: nat, L: nat, s: nat)
    requires s > 0 && L <= 64 && TopOnes(n, L, if s <= L then s else L)
    ensures SpreadFrom(n, s) == Ones(L)
    decreases 64 - s
  {
    if s < 64 {
      SmearSpread(n, L, s);
      SpreadFills(Spread(n, s), L, 2 * s);
    }
  }

  lemma SmearSpread(n: nat, L: nat, t: nat)
    requires TopOnes(n, L, if t <= L then t else L)
    ensures TopOnes(Spread(n, t), L, if 2 * t <= L then 2 * t else L)
  {
    if t <= L {
      SmearStep(n, L, t);
    } else {
      HighSmall(n, t, L);
      OrZero(n);
    }
  }

  lemma {:induction false} HighSmall(n: nat, t: nat, L: nat)
    requires n < Pow(2, L) && L <= t
    ensures High(n, t) == 0
    decreases t
  {
    if t > 0 {
      if L > 0 { HighSmall(n / 2, t - 1, L - 1); } else { HighSmall(n / 2, t - 1, 0); }
    }
  }

  /** The number of bits of `n`. */
  function Bitlen(n: nat): nat
  {
    if n == 0 then 0 else 1 + Bitlen(n / 2)
  }

  lemma {:induction false} BitlenTop(n: nat)
    requires n > 0
    ensures Bitlen(n) > 0 && Pow(2, Bitlen(n) - 1) <= n < Pow(2, Bitlen(n)) && High(n, Bitlen(n) - 1) == 1
  {
    if n > 1 {
      BitlenTop(n / 2);
      DivMod(n, 2);
      var k := Bitlen(n / 2);
      assert Pow(2, k) == 2 * Pow(2, k - 1) && Pow(2, k + 1) == 2 * Pow(2, k);
    }
  }

  /** For every 64-bit argument the smearing yields a power of two, and the least one. */
  lemma NextPowerOfTwoCorrect(n: nat) returns (k: nat)
    requires 1 <= n < TWO64
    ensures NextPowerOfTwo(n) == Pow(2, k) && n <= Pow(2, k) && (k > 0 ==> Pow(2, k - 1) < n)
  {
    hide SpreadFrom, Pow, Ones, Bitlen;
    FirstPowers();
    if n <= 1 {
      k := 0;
    } else {
      var a := n - 1;
      k := Bitlen(a);
      BitlenTop(a);
      BitlenWord(a);
      SpreadFills(a, k, 1);
      OnesPow(k);
    }
  }

  lemma FirstPowers()
    ensures Pow(2, 0) == 1 && Ones(1) == 1
  {
  }

  lemma BitlenWord(n: nat)
    requires 0 < n < TWO64
    ensures Bitlen(n) <= 64
  {
    BitlenTop(n);
    var k := Bitlen(n);
    if k > 64 {
      PowMonotone(64, k - 1);
      PowWord();
    }
  }

  lemma {:induction false} PowMonotone(a: nat, b: nat)
    requires a <= b
    ensures 0 < Pow(2, a) <= Pow(2, b)
  {
    if b > 0 { PowMonotone(if a > 0 then a - 1 else 0, b - 1); }
  }

  lemma PowWord()
    ensures Pow(2, 64) == TWO64
  {
    PowEight(8);
    WordLimits();
  }

  lemma {:induction false} PowEight(w: nat)
    ensures Pow(2, 8 * w) == Pow(256, w)
  {
    if w > 0 {
      PowEight(w - 1);
      var e := 8 * (w - 1);
      assert Pow(2, e + 8) == 2 * Pow(2, e + 7) && Pow(2, e + 7) == 2 * Pow(2, e + 6);
      assert Pow(2, e + 6) == 2 * Pow(2, e + 5) && Pow(2, e + 5) == 2 * Pow(2, e + 4);
      assert Pow(2, e + 4) == 2 * Pow(2, e + 3) && Pow(2, e + 3) == 2 * Pow(2, e + 2);
      assert Pow(2, e + 2) == 2 * Pow(2, e + 1) && Pow(2, e + 1) == 2 * Pow(2, e);
    }
  }

  ghost predicate PowerOfTwo(n: nat) { n > 0 && exists k: nat :: n == Pow(2, k) }

  lemma PowerOfTwoDoubles(n: nat)
    requires PowerOfTwo(n)
    ensures PowerOfTwo(2 * n)
  {
    var k: nat :| n == Pow(2, k);
    assert Pow(2, k + 1) == 2 * n;
  }

  lemma PowerOfTwoSmall()
    ensures PowerOfTwo(8) && PowerOfTwo(16)
  {
    assert Pow(2, 1) == 2 && Pow(2, 2) == 4 && Pow(2, 3) == 8 && Pow(2, 4) == 16;
  }

  function And(a: nat, b: nat): nat
    decreases a
  {
    if a == 0 then 0 else (a % 2) * (b % 2) + 2 * And(a / 2, b / 2)
  }

  lemma {:induction false} AndSelf(n: nat)
    ensures And(n, n) == n
  {
    if n > 0 {
      AndSelf(n / 2);
      BitSquare(n % 2);
    }
  }

  lemma BitSquare(b: nat)
    requires b < 2
    ensures b * b == b
  {
  }

  lemma PowEven(k: nat)
    requires k > 0
    ensures Pow(2, k) % 2 == 0
  {
    DivModUnique(Pow(2, k), 2, Pow(2, k - 1), 0);
  }

  /** The test `n & (n-1) == 0` finds the powers of two. */
  lemma {:induction false} AndPredecessor(n: nat)
    requires n > 0
    ensures And(n, n - 1) == 0 <==> PowerOfTwo(n)
  {
    hide PowerOfTwo, And;
    AndHalves(n, n - 1);
    DivMod(n, 2);
    if n % 2 == 1 {
      DivModUnique(n - 1, 2, n / 2, 0);
      AndSelf(n / 2);
      OddPower(n);
    } else {
      DivModUnique(n - 1, 2, n / 2 - 1, 1);
      AndPredecessor(n / 2);
      EvenPower(n);
    }
  }

  lemma AndHalves(a: nat, b: nat)
    ensures And(a, b) == (if a % 2 == 1 && b % 2 == 1 then 1 else 0) + 2 * And(a / 2, b / 2)
  {
    BitProduct(a % 2, b % 2);
    if a == 0 { assert And(0, b / 2) == 0; }
  }

  lemma BitProduct(x: nat, y: nat)
    requires x < 2 && y < 2
    ensures x * y == if x == 1 && y == 1 then 1 else 0
  {
    if x == 0 { assert 0 * y == 0; } else { assert 1 * y == y; }
  }

  lemma OddPower(n: nat)
    requires n % 2 == 1
    ensures PowerOfTwo(n) <==> n / 2 == 0
  {
    if PowerOfTwo(n) {
      var k: nat :| n == Pow(2, k);
      if k > 0 {
        PowEven(k);
        assert false;
      }
    }
    if n / 2 == 0 { assert n == Pow(2, 0); }
  }

  lemma EvenPower(n: nat)
    requires n > 0 && n % 2 == 0
    ensures PowerOfTwo(n) <==> PowerOfTwo(n / 2)
  {
    if PowerOfTwo(n / 2) { PowerOfTwoDoubles(n / 2); }
    if PowerOfTwo(n) {
      var k: nat :| n == Pow(2, k);
      assert Pow(2, 0) == 1;
      assert n / 2 == Pow(2, k - 1);
    }
  }

  lemma {:induction false} AndMask(h: nat, k: nat)
    ensures Pow(2, k) > 0 && And(h, Pow(2, k) - 1) == Low(h, k)
    decreases k
  {
    if k == 0 {
      AndZero(h);
    } else {
      AndMask(h / 2, k - 1);
      if h == 0 { LowZero(k); }
    }
  }

  lemma {:induction false} AndZero(h: nat)
    ensures And(h, 0) == 0
  {
    if h > 0 { AndZero(h / 2); }
  }

  lemma {:induction false} LowZero(k: nat)
    ensures Low(0, k) == 0
  {
    if k > 0 { LowZero(k - 1); }
  }

  /** Masking with `n - 1` is the remainder by `n`, for a power of two. */
  lemma MaskIsMod(h: nat, n: nat)
    requires PowerOfTwo(n)
    ensures And(h, n - 1) == h % n
  {
    var k: nat :| n == Pow(2, k);
    AndMask(h, k);
    LowIsMod(h, k);
  }
}
