/** What the count query of a cuckoo filter reports: the stored copies of an item's tag, except that
    every copy is counted twice when the item's two candidate buckets coincide. */
module CuckooCount {
  import opened Words
  import opened Bits
  import opened CuckooSlots
  import opened CuckooFilter

  /** How many of the slots `lo..hi` hold the fingerprint. */
  function CountFp(s: seq<byte>, lo: nat, hi: nat, fp: byte): nat
    requires hi <= |s|
    decreases hi
  {
    if hi <= lo then 0 else CountFp(s, lo, hi - 1, fp) + if s[hi - 1] == fp then 1 else 0
  }

  method BucketCount(data: array<byte>, offset: nat, size: nat, fp: byte) returns (count: nat)
    requires offset + size <= data.Length
    ensures count == CountFp(data[..], offset, offset + size, fp)
  {
    count := 0;
    for i := 0 to size
      invariant count == CountFp(data[..], offset, offset + i, fp)
    {
      if data[offset + i] == fp { count := count + 1; }
    }
  }

  /** `i` held to the range `lo..hi`. */
  function Clamp(i: nat, lo: nat, hi: nat): nat
  {
    if i < lo then lo else if i <= hi then i else hi
  }

  lemma CountStep(s: seq<byte>, o: nat, size: nat, i: nat, fp: byte)
    requires o + size <= |s| && i < |s|
    ensures CountFp(s, o, Clamp(i + 1, o, o + size), fp) ==
      CountFp(s, o, Clamp(i, o, o + size), fp) + if o <= i < o + size && s[i] == fp then 1 else 0
  {
  }

  lemma CountNone(s: seq<byte>, o: nat, size: nat, fp: byte)
    requires o + size <= |s|
    ensures CountFp(s, o, Clamp(0, o, o + size), fp) == 0
  {
  }

  /** Counting a value in a sequence is counting it in the two ranges where it can occur. */
  lemma {:induction false} CountPrefix<T>(t: seq<T>, x: T, s: seq<byte>, fp: byte, o1: nat, o2: nat, size: nat, i: nat)
    requires |t| == |s| && i <= |s| && o1 + size <= |s| && o2 + size <= |s|
    requires o1 == o2 || o1 + size <= o2 || o2 + size <= o1
    requires forall j :: 0 <= j < |s| ==> (t[j] == x <==> s[j] == fp && InEither(j, o1, o2, size))
    ensures multiset(t[..i])[x] ==
      CountFp(s, o1, Clamp(i, o1, o1 + size), fp) + if o1 == o2 then 0 else CountFp(s, o2, Clamp(i, o2, o2 + size), fp)
    decreases i
  {
    hide CountFp, Clamp;
    if i > 0 {
      CountPrefix(t, x, s, fp, o1, o2, size, i - 1);
      MultisetSnoc(t, x, i - 1);
      CountStep(s, o1, size, i - 1, fp);
      CountStep(s, o2, size, i - 1, fp);
    } else {
      CountNone(s, o1, size, fp);
      CountNone(s, o2, size, fp);
    }
  }

  lemma MultisetSnoc<T>(t: seq<T>, x: T, i: nat)
    requires i < |t|
    ensures multiset(t[..i + 1])[x] == multiset(t[..i])[x] + if t[i] == x then 1 else 0
  {
    assert t[..i + 1] == t[..i] + [t[i]];
  }

  /** The copies of a tag in one sub-filter, bucket by bucket. */
  lemma TagCount(s: seq<byte>, n: nat, size: nat, lookup: Lookup, o1: nat, o2: nat)
    requires Shaped(s, n, size) && Looks(lookup)
    requires o1 == (lookup.h1 % n) * size && o2 == (lookup.h2 % n) * size
    requires o1 + size <= |s| && o2 + size <= |s|
    ensures o1 == o2 <==> lookup.h1 % n == lookup.h2 % n
    ensures Bag(s, n, size)[TagFor(lookup, n)] ==
      CountFp(s, o1, o1 + size, lookup.fp) + if o1 == o2 then 0 else CountFp(s, o2, o2 + size, lookup.fp)
  {
    hide TagFor, Tags, CountFp;
    var b1, b2, t := lookup.h1 % n, lookup.h2 % n, Tags(s, n, size);
    forall j | 0 <= j < |s|
      ensures t[j] == TagFor(lookup, n) <==> s[j] == lookup.fp && InEither(j, o1, o2, size)
    {
      SlotTag(s, n, size, lookup, o1, o2, j);
    }
    if b1 < b2 { MulStep(b1, b2, size); }
    if b2 < b1 { MulStep(b2, b1, size); }
    CountPrefix(t, TagFor(lookup, n), s, lookup.fp, o1, o2, size, |s|);
    assert t[..|s|] == t;
  }

  /** The count of one sub-filter, as the code adds up both buckets. */
  method SubCount(data: array<byte>, n: nat, size: nat, lookup: Lookup, ghost bag: multiset<Tag>) returns (count: nat)
    requires Holds(data[..], n, size, bag) && Looks(lookup)
    ensures count == if lookup.h1 % n == lookup.h2 % n then 2 * bag[TagFor(lookup, n)] else bag[TagFor(lookup, n)]
  {
    assert Open(0);
    var o1, o2 := (lookup.h1 % n) * size, (lookup.h2 % n) * size;
    BucketRange(lookup.h1 % n, n, size);
    BucketRange(lookup.h2 % n, n, size);
    TagCount(data[..], n, size, lookup, o1, o2);
    var c1 := BucketCount(data, o1, size, lookup.fp);
    var c2 := BucketCount(data, o2, size, lookup.fp);
    count := c1 + c2;
  }

  function Copies<T>(bags: seq<multiset<T>>, x: T): nat
  {
    if bags == [] then 0 else Copies(bags[..|bags| - 1], x) + bags[|bags| - 1][x]
  }

  lemma {:induction false} CopiesSum<T>(bags: seq<multiset<T>>, x: T)
    ensures Copies(bags, x) == Sum(bags)[x]
  {
    if bags != [] { CopiesSum(bags[..|bags| - 1], x); }
  }

  /** The count of an item is exact if and only if its candidate buckets differ (or it is absent). */
  method Count(f: Filter, item: seq<byte>) returns (total: nat)
    requires f.Valid()
    ensures var lookup := LookupFor(f.hash(item));
      var copies := f.Items()[f.TagOfItem(item)];
      total == if lookup.h1 % f.numBuckets == lookup.h2 % f.numBuckets then 2 * copies else copies
  {
    var lookup := LookupFor(f.hash(item));
    ghost var twice := lookup.h1 % f.numBuckets == lookup.h2 % f.numBuckets;
    ghost var tag := f.TagOfItem(item);
    total := 0;
    for i := 0 to |f.filters|
      invariant f.Valid()
      invariant total == if twice then 2 * Copies(f.bags[..i], tag) else Copies(f.bags[..i], tag)
    {
      assert f.SubValid(i);
      var count := SubCount(f.filters[i].data, f.filters[i].numBuckets, f.bucketSize, lookup, f.bags[i]);
      assert f.bags[..i + 1][..i] == f.bags[..i];
      total := total + count;
    }
    assert f.bags[..|f.filters|] == f.bags;
    CopiesSum(f.bags, tag);
  }

  // ---- when the two buckets coincide ----

  lemma {:induction false} XorKeepsLow(a: nat, b: nat, k: nat)
    ensures Low(Xor(a, b), k) == Low(a, k) <==> Low(b, k) == 0
    decreases k
  {
    hide Xor;
    if k > 0 {
      XorHalf(a, b);
      XorKeepsLow(a / 2, b / 2, k - 1);
    }
  }

  lemma {:induction false} OddKeepsLow(m: nat, odd: nat, k: nat)
    requires odd % 2 == 1
    ensures Low(m * odd, k) == 0 <==> Low(m, k) == 0
    decreases k
  {
    if k > 0 {
      OddHalf(m, odd);
      OddKeepsLow(m / 2, odd, k - 1);
    }
  }

  lemma OddHalf(m: nat, odd: nat)
    requires odd % 2 == 1
    ensures m * odd % 2 == m % 2 && (m % 2 == 0 ==> m * odd / 2 == m / 2 * odd)
  {
    var h, o := m / 2, odd / 2;
    if m % 2 == 0 { Twice(m, h, odd); }
    else { Odds(h, o); }
  }

  lemma Twice(m: nat, h: nat, x: nat)
    requires m == 2 * h
    ensures m * x == 2 * (h * x)
  {
  }

  lemma Odds(h: nat, o: nat)
    ensures (2 * h + 1) * (2 * o + 1) == 2 * (2 * (h * o) + h + o) + 1
  {
  }

  /** The two buckets of an item coincide exactly when the number of buckets divides its fingerprint;
      with 256 buckets or more they never do. */
  lemma BucketsCoincide(hash: nat, n: nat)
    requires PowerOfTwo(n)
    ensures var lookup := LookupFor(hash);
      && (lookup.h1 % n == lookup.h2 % n <==> lookup.fp % n == 0)
      && (n >= 256 ==> lookup.h1 % n != lookup.h2 % n)
  {
    hide Xor, Low;
    var lookup := LookupFor(hash);
    var k: nat :| n == Pow(2, k);
    AltLow(lookup.fp, hash, k);
    if n >= 256 { DivModUnique(lookup.fp, n, 0, lookup.fp); }
  }

  lemma AltLow(fp: byte, hash: nat, k: nat)
    ensures Pow(2, k) > 0 && (AltHash(fp, hash) % Pow(2, k) == hash % Pow(2, k) <==> fp % Pow(2, k) == 0)
  {
    hide Xor, Low, Pow;
    LowIsMod(hash, k);
    LowIsMod(AltHash(fp, hash), k);
    LowIsMod(fp, k);
    XorKeepsLow(hash, fp * MIX, k);
    OddKeepsLow(fp, MIX, k);
  }

  /** One item, inserted once into the smallest filter, is counted twice. */
  method CountedTwice() returns (total: nat)
    ensures total == 2
  {
    hide Xor, TagFor, Sum, Pow, NextPowerOfTwo, Filter.Affordable, Filter.HasRoom, Filter.SubTakes, Filter.CanGrow,
      Filter.SubValid;
    var f := NewFilter(_ => 1, 4);
    var added, err := f.Insert([], false);
    PowersBelowFour(f.numBuckets);
    BucketsCoincide(1, f.numBuckets);
    total := Count(f, []);
  }

  lemma PowersBelowFour(n: nat)
    requires PowerOfTwo(n) && n < 4
    ensures n == 1 || n == 2
  {
    var k: nat :| n == Pow(2, k);
    if k >= 2 { PowMonotone(2, k); }
    assert Pow(2, 0) == 1 && Pow(2, 1) == 2 && Pow(2, 2) == 4;
  }
}
