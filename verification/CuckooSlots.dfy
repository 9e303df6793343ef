/** One cuckoo sub-filter: buckets of fingerprint bytes, the alternate-bucket map and eviction chains. */
module CuckooSlots {
  import opened Words
  import opened Bits

  const MIX := 0x5bd1_e995

  function AltHash(fp: byte, index: nat): nat { Xor(index, fp * MIX) }

  datatype Lookup = Lookup(h1: nat, h2: nat, fp: byte)

  function LookupFor(hash: nat): Lookup
  {
    var fp: byte := hash % 255 + 1;
    Lookup(hash, AltHash(fp, hash), fp)
  }

  /** The other bucket of a fingerprint, among `n` buckets. */
  function Alt(fp: byte, bucket: nat, n: nat): nat
    requires n > 0
  {
    AltHash(fp, bucket) % n
  }

  /** Modulo a power of two the alternate-bucket map is an involution. */
  lemma AltInvolution(fp: byte, bucket: nat, n: nat)
    requires PowerOfTwo(n) && bucket < n
    ensures Alt(fp, Alt(fp, bucket, n), n) == bucket
  {
    var k: nat :| n == Pow(2, k);
    var x := AltHash(fp, bucket);
    LowIsMod(x, k);
    LowIsMod(AltHash(fp, Low(x, k)), k);
    XorLow(x, fp * MIX, k);
    XorCancels(bucket, fp * MIX);
    LowIdle(bucket, k);
  }

  /** The second hash of an item falls into the alternate bucket of the first. */
  lemma AltOfHash(fp: byte, hash: nat, n: nat)
    requires PowerOfTwo(n)
    ensures AltHash(fp, hash) % n == Alt(fp, hash % n, n)
  {
    var k: nat :| n == Pow(2, k);
    LowIsMod(hash, k);
    LowIsMod(AltHash(fp, hash), k);
    LowIsMod(AltHash(fp, hash % n), k);
    XorLow(hash, fp * MIX, k);
  }

  /** What a slot stands for: nothing, or a fingerprint together with its pair of buckets. */
  datatype Tag = Empty | Tag(fp: byte, lo: nat, hi: nat)

  function TagOf(fp: byte, bucket: nat, n: nat): Tag
    requires n > 0
  {
    var other := Alt(fp, bucket, n);
    if fp == 0 then Empty else if bucket <= other then Tag(fp, bucket, other) else Tag(fp, other, bucket)
  }

  lemma TagAlt(fp: byte, bucket: nat, n: nat)
    requires PowerOfTwo(n) && bucket < n
    ensures TagOf(fp, Alt(fp, bucket, n), n) == TagOf(fp, bucket, n)
  {
    AltInvolution(fp, bucket, n);
  }

  /** The shape of a sub-filter: `n` buckets of `size` slots. */
  ghost predicate Shaped(s: seq<byte>, n: nat, size: nat)
  {
    PowerOfTwo(n) && size > 0 && |s| == n * size
  }

  function Tags(s: seq<byte>, n: nat, size: nat): (r: seq<Tag>)
    requires n > 0 && size > 0
    ensures |r| == |s| && forall i :: 0 <= i < |s| ==> r[i] == TagOf(s[i], i / size, n)
  {
    seq(|s|, i requires 0 <= i < |s| => TagOf(s[i], i / size, n))
  }

  /** Everything the slots hold, empty slots included. */
  function Held(s: seq<byte>, n: nat, size: nat): multiset<Tag>
    requires n > 0 && size > 0
  {
    multiset(Tags(s, n, size))
  }

  lemma WriteSlot(s: seq<byte>, n: nat, size: nat, o: nat, fp: byte)
    requires n > 0 && size > 0 && o < |s|
    ensures Held(s[o := fp], n, size) ==
      Held(s, n, size) - multiset{TagOf(s[o], o / size, n)} + multiset{TagOf(fp, o / size, n)}
    ensures TagOf(s[o], o / size, n) in Held(s, n, size)
  {
    var t := Tags(s, n, size);
    assert Tags(s[o := fp], n, size) == t[o := TagOf(fp, o / size, n)];
    assert t[o] in multiset(t);
  }

  lemma SlotOf(bucket: nat, victim: nat, n: nat, size: nat)
    requires bucket < n && victim < size
    ensures bucket * size + victim < n * size && (bucket * size + victim) / size == bucket
  {
    assert bucket * size + size <= n * size by { MulStep(bucket, n, size); }
    DivModUnique(bucket * size + victim, size, bucket, victim);
  }

  lemma MulStep(a: nat, b: nat, size: nat)
    requires a < b
    ensures a * size + size <= b * size
  {
    var d := b - a - 1;
    assert b * size == (a + 1 + d) * size == a * size + size + d * size;
  }

  // ---- eviction chains ----

  /** A chain in progress: the slots, the fingerprint in hand, its bucket and the next victim. */
  datatype Chain = Chain(slots: seq<byte>, fp: byte, bucket: nat, victim: nat)

  ghost predicate Walking(x: Chain, n: nat, size: nat)
  {
    Shaped(x.slots, n, size) && x.bucket < n && x.victim < size
  }

  /** Swap the fingerprint in hand with the victim and move to the victim's other bucket. */
  function Kick(x: Chain, n: nat, size: nat): Chain
    requires n > 0 && size > 0 && x.bucket * size + x.victim < |x.slots|
  {
    var o := x.bucket * size + x.victim;
    Chain(x.slots[o := x.fp], x.slots[o], Alt(x.slots[o], x.bucket, n), (x.victim + 1) % size)
  }

  /** The roll-back step of a chain. */
  function Unkick(y: Chain, n: nat, size: nat): Chain
    requires n > 0 && size > 0 && Alt(y.fp, y.bucket, n) * size + (y.victim + size - 1) % size < |y.slots|
  {
    var victim := (y.victim + size - 1) % size;
    var bucket := Alt(y.fp, y.bucket, n);
    var o := bucket * size + victim;
    Chain(y.slots[o := y.fp], y.slots[o], bucket, victim)
  }

  lemma AltBelow(fp: byte, bucket: nat, n: nat)
    requires n > 0
    ensures Alt(fp, bucket, n) < n
  {
  }

  /** A kick keeps the slots well formed, conserves every tag and is undone by one roll-back step. */
  lemma KickStep(x: Chain, n: nat, size: nat)
    requires Walking(x, n, size)
    ensures x.bucket * size + x.victim < |x.slots|
    ensures var y := Kick(x, n, size);
      && Walking(y, n, size)
      && Held(y.slots, n, size) + multiset{TagOf(y.fp, y.bucket, n)} ==
         Held(x.slots, n, size) + multiset{TagOf(x.fp, x.bucket, n)}
      && Alt(y.fp, y.bucket, n) == x.bucket && (y.victim + size - 1) % size == x.victim
      && Unkick(y, n, size) == x
  {
    hide TagOf, Alt, Held;
    SlotOf(x.bucket, x.victim, n, size);
    var o := x.bucket * size + x.victim;
    var y := Kick(x, n, size);
    AltBelow(x.slots[o], x.bucket, n);
    AltInvolution(x.slots[o], x.bucket, n);
    TagAlt(x.slots[o], x.bucket, n);
    WriteSlot(x.slots, n, size, o, x.fp);
    VictimBack(x.victim, size);
    assert x.slots[o := x.fp][o := x.slots[o]] == x.slots;
  }

  lemma VictimBack(victim: nat, size: nat)
    requires victim < size
    ensures ((victim + 1) % size + size - 1) % size == victim && (victim + 1) % size < size
  {
    if victim + 1 < size {
      DivModUnique(victim + 1, size, 0, victim + 1);
      DivModUnique(victim + size, size, 1, victim);
    } else {
      DivModUnique(size, size, 1, 0);
      DivModUnique(size - 1, size, 0, size - 1);
    }
  }

  /** `c` kicks in a row. */
  ghost function Kicks(x: Chain, c: nat, n: nat, size: nat): (y: Chain)
    requires Walking(x, n, size)
    ensures Walking(y, n, size)
    ensures Held(y.slots, n, size) + multiset{TagOf(y.fp, y.bucket, n)} ==
      Held(x.slots, n, size) + multiset{TagOf(x.fp, x.bucket, n)}
  {
    if c == 0 then x
    else
      var y := Kicks(x, c - 1, n, size);
      KickStep(y, n, size);
      Kick(y, n, size)
  }

  /** Some slot of the bucket is free. */
  ghost predicate Room(s: seq<byte>, bucket: nat, size: nat)
  {
    exists i :: bucket * size <= i < bucket * size + size && i < |s| && s[i] == 0
  }

  /** The bucket that `c` kicks lead to has a free slot. */
  ghost predicate RoomAfter(x: Chain, c: nat, n: nat, size: nat)
    requires Walking(x, n, size)
  {
    Room(Kicks(x, c, n, size).slots, Kicks(x, c, n, size).bucket, size)
  }

  /** Some chain of at most `maxIterations` kicks ends at a bucket with a free slot. */
  ghost predicate ChainEnds(s: seq<byte>, n: nat, size: nat, maxIterations: nat, lookup: Lookup)
    requires Shaped(s, n, size)
  {
    exists c :: 0 < c <= maxIterations && RoomAfter(Chain(s, lookup.fp, lookup.h1 % n, 0), c, n, size)
  }

  method BucketAvailable(data: array<byte>, offset: nat, size: nat) returns (slot: int)
    requires offset + size <= data.Length
    ensures slot >= 0 ==> offset <= slot < offset + size && data[slot] == 0
    ensures slot < 0 ==> forall i :: offset <= i < offset + size ==> data[i] != 0
  {
    for i := 0 to size
      invariant forall j :: offset <= j < offset + i ==> data[j] != 0
    {
      if data[offset + i] == 0 { return offset + i; }
    }
    return -1;
  }

  /** The slot at an offset and victim of a bucket. */
  lemma BucketRange(bucket: nat, n: nat, size: nat)
    requires bucket < n
    ensures bucket * size + size <= n * size
  {
    MulStep(bucket, n, size);
  }

  lemma PlaceSlot(s: seq<byte>, n: nat, size: nat, o: nat, bucket: nat, fp: byte)
    requires Shaped(s, n, size) && bucket < n && bucket * size <= o < bucket * size + size && o < |s| && s[o] == 0
    ensures Held(s[o := fp], n, size) + multiset{Empty} == Held(s, n, size) + multiset{TagOf(fp, bucket, n)}
    ensures Shaped(s[o := fp], n, size)
  {
    SlotOf(bucket, o - bucket * size, n, size);
    WriteSlot(s, n, size, o, fp);
  }

  /** One swap of the chain, on the array. */
  method KickSlot(data: array<byte>, n: nat, size: nat, fp: byte, bucket: nat, victim: nat, ghost x: Chain)
    returns (fp': byte, bucket': nat, victim': nat)
    requires Walking(x, n, size) && x == Chain(data[..], fp, bucket, victim)
    modifies data
    ensures x.bucket * size + x.victim < |x.slots|
    ensures Chain(data[..], fp', bucket', victim') == Kick(x, n, size)
  {
    SlotOf(bucket, victim, n, size);
    var o := bucket * size + victim;
    fp' := data[o];
    data[o] := fp;
    assert data[..] == x.slots[o := fp];
    bucket' := Alt(fp', bucket, n);
    victim' := (victim + 1) % size;
  }

  /** One swap of the roll-back, on the array. */
  method UnkickSlot(data: array<byte>, n: nat, size: nat, fp: byte, bucket: nat, victim: nat, ghost x: Chain)
    returns (fp': byte, bucket': nat, victim': nat)
    requires Walking(x, n, size) && x.bucket * size + x.victim < |x.slots|
    requires Kick(x, n, size) == Chain(data[..], fp, bucket, victim)
    modifies data
    ensures Chain(data[..], fp', bucket', victim') == x
  {
    hide Held, TagOf, Alt;
    KickStep(x, n, size);
    victim' := (victim + size - 1) % size;
    bucket' := Alt(fp, bucket, n);
    var o := bucket' * size + victim';
    fp' := data[o];
    data[o] := fp;
  }

  /** Ends a chain in the first free slot of the bucket, if there is one. */
  method PlaceInBucket(data: array<byte>, n: nat, size: nat, fp: byte, bucket: nat) returns (ok: bool)
    requires Shaped(data[..], n, size) && bucket < n
    modifies data
    ensures Shaped(data[..], n, size)
    ensures ok <==> Room(old(data[..]), bucket, size)
    ensures !ok ==> data[..] == old(data[..]) && exists i :: 0 <= i < data.Length && data[i] != 0
    ensures ok ==>
      Held(data[..], n, size) + multiset{Empty} == old(Held(data[..], n, size)) + multiset{TagOf(fp, bucket, n)}
  {
    BucketRange(bucket, n, size);
    var slot := BucketAvailable(data, bucket * size, size);
    ok := slot >= 0;
    if ok {
      PlaceSlot(data[..], n, size, slot, bucket, fp);
      assert data[..][slot] == 0;
      data[slot] := fp;
      assert data[..] == old(data[..])[slot := fp];
    } else {
      assert data[bucket * size] != 0;
    }
  }

  /** Inserts by evicting a chain of victims, at most `maxIterations` of them.  It succeeds exactly when
      such a chain ends at a free slot; a failed insertion leaves every slot as it was. */
  method KickInsert(data: array<byte>, n: nat, size: nat, maxIterations: nat, lookup: Lookup) returns (ok: bool)
    requires Shaped(data[..], n, size)
    modifies data
    ensures Shaped(data[..], n, size)
    ensures ok <==> ChainEnds(old(data[..]), n, size, maxIterations, lookup)
    ensures !ok ==> data[..] == old(data[..])
    ensures ok ==>
      Held(data[..], n, size) + multiset{Empty} ==
      old(Held(data[..], n, size)) + multiset{TagOf(lookup.fp, lookup.h1 % n, n)}
  {
    hide Room, Kick, Held, Alt, TagOf;
    var fp: byte, bucket: nat, victim: nat := lookup.fp, lookup.h1 % n, 0;
    ghost var x := Chain(data[..], fp, bucket, victim);
    for counter := 0 to maxIterations
      invariant Chain(data[..], fp, bucket, victim) == Kicks(x, counter, n, size)
      invariant forall c :: 0 < c <= counter ==> !RoomAfter(x, c, n, size)
    {
      ghost var y := Kicks(x, counter, n, size);
      fp, bucket, victim := KickSlot(data, n, size, fp, bucket, victim, y);
      assert Chain(data[..], fp, bucket, victim) == Kicks(x, counter + 1, n, size);
      ok := PlaceInBucket(data, n, size, fp, bucket);
      assert ok <==> RoomAfter(x, counter + 1, n, size);
      if ok { return; }
    }
    RollBack(data, n, size, maxIterations, fp, bucket, victim, x);
    ok := false;
  }

  /** Undoes a chain of kicks from its end. */
  method RollBack(data: array<byte>, n: nat, size: nat, kicks: nat, fp: byte, bucket: nat, victim: nat, ghost x: Chain)
    requires Walking(x, n, size) && Chain(data[..], fp, bucket, victim) == Kicks(x, kicks, n, size)
    modifies data
    ensures data[..] == x.slots
  {
    hide Room, Kick, Held, Shaped, Alt, TagOf;
    var fp, bucket, victim := fp, bucket, victim;
    for counter := kicks downto 0
      invariant Chain(data[..], fp, bucket, victim) == Kicks(x, counter, n, size)
    {
      ghost var y := Kicks(x, counter, n, size);
      KickStep(y, n, size);
      fp, bucket, victim := UnkickSlot(data, n, size, fp, bucket, victim, y);
    }
  }

  // ---- lookups in one sub-filter ----

  function TagFor(lookup: Lookup, n: nat): Tag
    requires n > 0
  {
    TagOf(lookup.fp, lookup.h1 % n, n)
  }

  /** A lookup as items produce them. */
  ghost predicate Looks(lookup: Lookup)
  {
    lookup.fp != 0 && lookup.h2 == AltHash(lookup.fp, lookup.h1)
  }

  /** A slot holds the tag of a fingerprint exactly when it holds the fingerprint in one of the two buckets. */
  lemma TagMatches(fp: byte, bucket: nat, fp': byte, bucket': nat, n: nat)
    requires PowerOfTwo(n) && bucket < n && bucket' < n && fp != 0
    ensures TagOf(fp', bucket', n) == TagOf(fp, bucket, n) <==>
      fp' == fp && (bucket' == bucket || bucket' == Alt(fp, bucket, n))
  {
    TagAlt(fp, bucket, n);
  }

  method BucketFind(data: array<byte>, offset: nat, size: nat, fp: byte) returns (slot: int)
    requires offset + size <= data.Length
    ensures slot >= 0 ==> offset <= slot < offset + size && data[slot] == fp
    ensures slot < 0 ==> forall i :: offset <= i < offset + size ==> data[i] != fp
  {
    for i := 0 to size
      invariant forall j :: offset <= j < offset + i ==> data[j] != fp
    {
      if data[offset + i] == fp { return offset + i; }
    }
    return -1;
  }

  lemma BucketOfSlot(o: nat, n: nat, size: nat)
    requires size > 0 && o < n * size
    ensures o / size < n && o / size * size <= o < o / size * size + size
  {
    var b := o / size;
    assert o == b * size + o % size;
    assert b >= n ==> b * size >= n * size by {
      if b > n { MulStep(n, b, size); }
    }
  }

  lemma InBucket(j: nat, b: nat, size: nat)
    requires size > 0
    ensures j / size == b <==> b * size <= j < b * size + size
  {
    var q := j / size;
    DivMod(j, size);
    assert size * q == q * size;
    if q < b { MulStep(q, b, size); }
    if b < q { MulStep(b, q, size); }
  }

  /** A slot is in one of the two buckets that start at `o1` and `o2`. */
  predicate InEither(i: nat, o1: nat, o2: nat, size: nat)
  {
    o1 <= i < o1 + size || o2 <= i < o2 + size
  }

  /** A slot holds the tag of a lookup exactly when it holds the fingerprint in one of its two buckets. */
  lemma SlotTag(s: seq<byte>, n: nat, size: nat, lookup: Lookup, o1: nat, o2: nat, i: nat)
    requires Shaped(s, n, size) && Looks(lookup) && i < |s|
    requires o1 == (lookup.h1 % n) * size && o2 == (lookup.h2 % n) * size
    ensures Tags(s, n, size)[i] == TagFor(lookup, n) <==> s[i] == lookup.fp && InEither(i, o1, o2, size)
  {
    hide TagOf, Alt, AltHash, Tags, InEither;
    AltOfHash(lookup.fp, lookup.h1, n);
    SlotTagAt(s, n, size, lookup.fp, lookup.h1 % n, lookup.h2 % n, i);
  }

  lemma SlotTagAt(s: seq<byte>, n: nat, size: nat, fp: byte, b: nat, b': nat, i: nat)
    requires Shaped(s, n, size) && fp != 0 && b < n && b' == Alt(fp, b, n) && i < |s|
    ensures Tags(s, n, size)[i] == TagOf(fp, b, n) <==> s[i] == fp && InEither(i, b * size, b' * size, size)
  {
    hide TagOf, Alt;
    BucketOfSlot(i, n, size);
    TagMatches(fp, b, s[i], i / size, n);
    InBucket(i, b, size);
    InBucket(i, b', size);
  }

  /** No slot of either bucket holds the fingerprint: the tag is absent. */
  lemma TagAbsent(s: seq<byte>, n: nat, size: nat, lookup: Lookup, o1: nat, o2: nat)
    requires Shaped(s, n, size) && Looks(lookup)
    requires o1 == (lookup.h1 % n) * size && o2 == (lookup.h2 % n) * size
    requires forall i :: 0 <= i < |s| && InEither(i, o1, o2, size) ==> s[i] != lookup.fp
    ensures TagFor(lookup, n) !in Held(s, n, size)
  {
    hide TagFor, InEither, Tags;
    var t := Tags(s, n, size);
    forall i | 0 <= i < |t|
      ensures t[i] != TagFor(lookup, n)
    {
      SlotTag(s, n, size, lookup, o1, o2, i);
    }
  }

  /** A matching slot in one of the two candidate buckets holds the tag. */
  lemma FoundSlot(s: seq<byte>, n: nat, size: nat, lookup: Lookup, slot: nat, bucket: nat)
    requires Shaped(s, n, size) && Looks(lookup) && slot < |s| && s[slot] == lookup.fp
    requires (bucket == lookup.h1 % n || bucket == lookup.h2 % n) && bucket * size <= slot < bucket * size + size
    ensures TagOf(s[slot], slot / size, n) == TagFor(lookup, n) && TagFor(lookup, n) in Held(s, n, size)
  {
    AltOfHash(lookup.fp, lookup.h1, n);
    TagAlt(lookup.fp, lookup.h1 % n, n);
    SlotOf(bucket, slot - bucket * size, n, size);
    assert Tags(s, n, size)[slot] == TagFor(lookup, n);
  }

  /** The first slot of one of the two candidate buckets that holds the fingerprint, or -1. */
  method FilterFind(data: array<byte>, n: nat, size: nat, lookup: Lookup) returns (slot: int)
    requires Shaped(data[..], n, size) && Looks(lookup)
    ensures slot >= 0 ==>
      slot < data.Length && data[slot] == lookup.fp && TagOf(data[slot], slot / size, n) == TagFor(lookup, n)
    ensures slot >= 0 <==> TagFor(lookup, n) in Held(data[..], n, size)
  {
    var b1, b2 := lookup.h1 % n, lookup.h2 % n;
    BucketRange(b1, n, size);
    BucketRange(b2, n, size);
    slot := BucketFind(data, b1 * size, size, lookup.fp);
    if slot >= 0 {
      FoundSlot(data[..], n, size, lookup, slot, b1);
      return;
    }
    slot := BucketFind(data, b2 * size, size, lookup.fp);
    if slot >= 0 {
      FoundSlot(data[..], n, size, lookup, slot, b2);
      return;
    }
    TagAbsent(data[..], n, size, lookup, b1 * size, b2 * size);
  }

  /** Puts the fingerprint into a free slot of its first or second bucket. */
  method PlaceDirect(data: array<byte>, n: nat, size: nat, lookup: Lookup) returns (ok: bool)
    requires Shaped(data[..], n, size) && Looks(lookup)
    modifies data
    ensures Shaped(data[..], n, size)
    ensures ok <==> Room(old(data[..]), lookup.h1 % n, size) || Room(old(data[..]), lookup.h2 % n, size)
    ensures !ok ==> data[..] == old(data[..]) && exists i :: 0 <= i < data.Length && data[i] != 0
    ensures ok ==>
      Held(data[..], n, size) + multiset{Empty} == old(Held(data[..], n, size)) + multiset{TagFor(lookup, n)}
  {
    ok := PlaceInBucket(data, n, size, lookup.fp, lookup.h1 % n);
    if !ok {
      AltOfHash(lookup.fp, lookup.h1, n);
      TagAlt(lookup.fp, lookup.h1 % n, n);
      ok := PlaceInBucket(data, n, size, lookup.fp, lookup.h2 % n);
    }
  }

  /** Clears the first slot that holds the fingerprint in one of its buckets. */
  method RemoveOne(data: array<byte>, n: nat, size: nat, lookup: Lookup) returns (ok: bool)
    requires Shaped(data[..], n, size) && Looks(lookup)
    modifies data
    ensures Shaped(data[..], n, size)
    ensures ok <==> TagFor(lookup, n) in old(Held(data[..], n, size))
    ensures !ok ==> data[..] == old(data[..])
    ensures ok ==>
      Held(data[..], n, size) == old(Held(data[..], n, size)) - multiset{TagFor(lookup, n)} + multiset{Empty}
  {
    var slot := FilterFind(data, n, size, lookup);
    ok := slot >= 0;
    if ok {
      WriteSlot(data[..], n, size, slot, 0);
      data[slot] := 0;
      assert data[..] == old(data[..])[slot := 0];
    }
  }
}
