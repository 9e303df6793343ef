/** Size classes and segment sizing of the arena. */
module ArenaSizing {
  import Words

  const SEGMENT_BYTES := 8192
  const SEGMENT_METADATA := 24
  const BUCKETS := 137
  const DEDICATED_BUCKET := 58
  const SHARED_LARGE_BASE := 51
  const MAX_BLOCK := 33 * 1024 * 1024 + 8192
  const GO_PAGE := 8192
  const GO_CLASSES: seq<nat> := [
    4864, 5376, 6144, 6528, 6784, 6912, 8192, 9472, 9728, 10240, 10880,
    12288, 13568, 14336, 16384, 18432, 19072, 20480, 21760, 24576, 27264,
    28672, 32768]

  datatype Class = Class(bucket: nat, block: nat)

  predicate Dedicated(block: nat) { block > SEGMENT_BYTES / 2 }

  /** The least multiple of `step` that is at least `n`. */
  function RoundUp(n: nat, step: nat): (r: nat)
    requires step > 0
    ensures n <= r < n + step && r % step == 0
  {
    var q := (n + step - 1) / step;
    assert n + step - 1 == q * step + (n + step - 1) % step;
    MultipleMod(q, step);
    q * step
  }

  lemma {:induction false} MultipleMod(q: nat, step: nat)
    requires step > 0
    ensures q * step % step == 0
  {
    assert q * step == step * q + 0;
    Words.DivModUnique(q * step, step, q, 0);
  }

  function GeometricStep(block: nat): nat
  {
    var step := if block / 8 < 128 then 128 else block / 8;
    if block + step > SEGMENT_BYTES / 2 then SEGMENT_BYTES / 2 else block + step
  }

  /** Block size of geometric bucket `38 + k`. */
  function GeometricBlock(k: nat): nat
  {
    if k == 0 then 1024 else GeometricStep(GeometricBlock(k - 1))
  }

  function GeometricClass(size: nat, k: nat): Class
    requires size <= SEGMENT_BYTES / 2 && k <= 12
    decreases 12 - k
  {
    if k < 12 && GeometricBlock(k) < size then GeometricClass(size, k + 1)
    else Class(38 + k, GeometricBlock(k))
  }

  function GoClassIndex(size: nat, i: nat): (r: nat)
    requires i <= |GO_CLASSES|
    ensures i <= r <= |GO_CLASSES|
    ensures r < |GO_CLASSES| ==> size <= GO_CLASSES[r]
    decreases |GO_CLASSES| - i
  {
    if i == |GO_CLASSES| || size <= GO_CLASSES[i] then i else GoClassIndex(size, i + 1)
  }

  function DedicatedBlockSize(size: nat): nat
  {
    var i := GoClassIndex(size, 0);
    if i < |GO_CLASSES| then GO_CLASSES[i] else RoundUp(size, GO_PAGE)
  }

  /** Classes of blocks up to 1 KiB: fixed steps with two exact classes cut in. */
  function SmallClass(size: nat): Class
    requires 16 <= size <= 1024
  {
    if 16 < size <= 24 then Class(128, 24)
    else if 80 < size <= 88 then Class(129, 88)
    else if size <= 48 then
      var block := RoundUp(size, 16);
      Class(block / 16 - 1, block)
    else if size <= 56 then Class(3, 56)
    else if size <= 128 then
      var block := RoundUp(size, 16);
      Class(4 + (block - 64) / 16, block)
    else if size <= 256 then
      var block := RoundUp(size, 32);
      Class(9 + (block - 160) / 32, block)
    else if size <= 384 then
      var block := RoundUp(size, 16);
      Class(13 + (block - 272) / 16, block)
    else if size <= 512 then
      var block := RoundUp(size, 16);
      if block == 448 || block == 512 then Class(21 + (block - 448) / 64, block)
      else Class(130 + (block - 400) / 16, block)
    else
      var block := RoundUp(size, 32);
      Class(23 + (block - 544) / 32, block)
  }

  /** Classes above half a segment: the Go allocator's own size classes. */
  function LargeClass(size: nat): Class
  {
    var i := GoClassIndex(size, 0);
    var block := DedicatedBlockSize(size);
    if block <= SEGMENT_BYTES && i < |GO_CLASSES| then Class(SHARED_LARGE_BASE + i, block)
    else Class(DEDICATED_BUCKET, block)
  }

  function Footprint(n: nat): nat { if n + 8 < 16 then 16 else n + 8 }

  function SizeClass(n: nat): Class
    requires n + 8 <= MAX_BLOCK
  {
    var size := Footprint(n);
    if size <= 1024 then SmallClass(size)
    else if size <= SEGMENT_BYTES / 2 then GeometricClass(size, 0)
    else LargeClass(size)
  }

  /** The one block size that free-list bucket `b` holds. */
  function BucketBlock(b: nat): nat
  {
    if b <= 2 then 16 * (b + 1)
    else if b == 3 then 56
    else if b <= 8 then 64 + 16 * (b - 4)
    else if b <= 12 then 160 + 32 * (b - 9)
    else if b <= 20 then 272 + 16 * (b - 13)
    else if b <= 22 then 448 + 64 * (b - 21)
    else if b <= 38 then 544 + 32 * (b - 23)
    else if b <= 50 then GeometricBlock(b - 38)
    else if b <= 57 then GO_CLASSES[b - SHARED_LARGE_BASE]
    else if b == 128 then 24
    else if b == 129 then 88
    else if 130 <= b <= 136 then 400 + 16 * (b - 130)
    else 0
  }

  lemma GeometricTable()
    ensures forall k :: 0 < k <= 12 ==> GeometricBlock(k - 1) < GeometricBlock(k)
    ensures GeometricBlock(0) == 1024 && GeometricBlock(12) == 4096
  {
    assert GeometricBlock(1) == 1152 && GeometricBlock(2) == 1296;
    assert GeometricBlock(3) == 1458 && GeometricBlock(4) == 1640;
    assert GeometricBlock(5) == 1845 && GeometricBlock(6) == 2075;
    assert GeometricBlock(7) == 2334 && GeometricBlock(8) == 2625;
    assert GeometricBlock(9) == 2953 && GeometricBlock(10) == 3322;
    assert GeometricBlock(11) == 3737 && GeometricBlock(12) == 4096;
  }

  lemma {:induction false} GeometricOrdered(j: nat, k: nat)
    requires j < k <= 12
    ensures GeometricBlock(j) < GeometricBlock(k)
  {
    GeometricGrows(k - 1);
    if j + 1 < k { GeometricOrdered(j, k - 1); }
  }

  lemma GeometricGrows(k: nat)
    requires k < 12
    ensures GeometricBlock(k) < GeometricBlock(k + 1)
  {
    hide GeometricBlock;
    GeometricTable();
    assert GeometricBlock(k + 1 - 1) < GeometricBlock(k + 1);
  }

  /** The geometric class is the first of its chain that holds `size`. */
  lemma {:induction false} GeometricFit(size: nat, k: nat)
    requires 1024 < size <= 4096 && k <= 12
    requires forall j :: 0 <= j < k ==> GeometricBlock(j) < size
    ensures exists r :: 0 < r <= 12 && GeometricClass(size, k) == Class(38 + r, GeometricBlock(r)) &&
                        GeometricBlock(r - 1) < size <= GeometricBlock(r)
    decreases 12 - k
  {
    hide GeometricBlock;
    GeometricTable();
    if k < 12 && GeometricBlock(k) < size {
      GeometricFit(size, k + 1);
    } else {
      assert 0 < k <= 12 && GeometricBlock(k - 1) < size;
    }
  }

  lemma {:induction false} GoClassFit(size: nat, i: nat)
    requires i <= |GO_CLASSES|
    ensures forall j :: i <= j < GoClassIndex(size, i) ==> GO_CLASSES[j] < size
    decreases |GO_CLASSES| - i
  {
    if i < |GO_CLASSES| && GO_CLASSES[i] < size { GoClassFit(size, i + 1); }
  }

  /** Soundness of one class for a footprint. */
  predicate Fits(size: nat, c: Class)
  {
    && c.bucket < BUCKETS
    && size <= c.block <= MAX_BLOCK
    && (c.bucket == DEDICATED_BUCKET <==> c.block > SEGMENT_BYTES)
    && (c.bucket != DEDICATED_BUCKET ==> SharedBucket(c.bucket) && c.block == BucketBlock(c.bucket))
  }

  predicate SharedBucket(b: nat)
  {
    b < DEDICATED_BUCKET || 128 <= b < BUCKETS
  }

  lemma SmallClassFits(size: nat)
    requires 16 <= size <= 1024
    ensures Fits(size, SmallClass(size))
  {
  }

  lemma GoClassRange(i: nat)
    requires i < |GO_CLASSES|
    ensures 4096 < GO_CLASSES[i] <= 32768 && (GO_CLASSES[i] <= SEGMENT_BYTES <==> i <= 6)
  {
    // one case per class of the table
    if i < 8 {
      if i < 4 { if i < 2 { if i == 0 { } else { } } else { if i == 2 { } else { } } }
      else { if i < 6 { if i == 4 { } else { } } else { if i == 6 { } else { } } }
    } else if i < 16 {
      if i < 12 { if i < 10 { if i == 8 { } else { } } else { if i == 10 { } else { } } }
      else { if i < 14 { if i == 12 { } else { } } else { if i == 14 { } else { } } }
    } else {
      if i < 20 { if i < 18 { if i == 16 { } else { } } else { if i == 18 { } else { } } }
      else { if i == 20 { } else if i == 21 { } else { } }
    }
  }

  lemma LargeClassFits(size: nat)
    requires SEGMENT_BYTES / 2 < size <= MAX_BLOCK
    ensures Fits(size, LargeClass(size))
  {
    GoClassFit(size, 0);
    var i := GoClassIndex(size, 0);
    if i < |GO_CLASSES| { GoClassRange(i); } else { GoClassLast(size); }
  }

  /** A class holds the header and the value, and its bucket fixes its block size. */
  lemma SizeClassSound(n: nat)
    requires n + 8 <= MAX_BLOCK
    ensures Fits(Footprint(n), SizeClass(n))
  {
    var size := Footprint(n);
    if size <= 1024 {
      SmallClassFits(size);
    } else if size <= 4096 {
      GeometricFit(size, 0);
    } else {
      LargeClassFits(size);
    }
  }

  predicate SmallBlock(block: nat)
  {
    || block in {24, 56, 88}
    || (block <= 128 && block % 16 == 0)
    || (128 < block <= 256 && block % 32 == 0)
    || (256 < block <= 512 && block % 16 == 0)
    || (512 < block <= 1024 && block % 32 == 0)
  }

  lemma MultipleBelow(r: nat, m: nat, step: nat)
    requires step > 0 && r % step == 0 && m % step == 0 && r < m + step
    ensures r <= m
  {
    var p, q := m / step, r / step;
    Words.DivMod(m, step);
    Words.DivMod(r, step);
    if p < q { ProductOrder(step, p, q); } else { Words.MulMono(q, p, step); }
  }

  lemma ProductOrder(step: nat, p: nat, q: nat)
    requires step > 0
    ensures p < q ==> step * p + step <= step * q
  {
    if p < q {
      var d := q - p - 1;
      assert step * q == step * (p + 1 + d) == step * p + step + step * d;
    }
  }

  lemma RoundUpLeast(n: nat, step: nat, m: nat)
    requires step > 0 && n <= m && m % step == 0
    ensures RoundUp(n, step) <= m
  {
    MultipleBelow(RoundUp(n, step), m, step);
  }

  lemma SmallBestFit(size: nat, block: nat)
    requires 16 <= size <= block && SmallBlock(block)
    ensures SmallClass(size).block <= block
  {
    if size <= 48 {
      RoundUpLeast(size, 16, 48);
      if block % 16 == 0 { RoundUpLeast(size, 16, block); }
    } else if size <= 128 {
      RoundUpLeast(size, 16, 128);
      if block <= 128 && block % 16 == 0 { RoundUpLeast(size, 16, block); }
      if size <= 80 { RoundUpLeast(size, 16, 80); }
    } else if size <= 256 {
      RoundUpLeast(size, 32, 256);
      if block <= 256 { RoundUpLeast(size, 32, block); }
    } else if size <= 512 {
      RoundUpLeast(size, 16, 512);
      if block <= 512 { RoundUpLeast(size, 16, block); }
      if size <= 384 { RoundUpLeast(size, 16, 384); }
    } else {
      RoundUpLeast(size, 32, block);
    }
  }

  lemma GeometricBestFit(size: nat, b: nat)
    requires 1024 < size <= 4096
    requires 38 < b <= 50 && size <= GeometricBlock(b - 38)
    ensures GeometricClass(size, 0).block <= GeometricBlock(b - 38)
  {
    hide GeometricClass, GeometricBlock;
    GeometricFit(size, 0);
    var r :| 0 < r <= 12 && GeometricClass(size, 0) == Class(38 + r, GeometricBlock(r)) &&
             GeometricBlock(r - 1) < size <= GeometricBlock(r);
    if b - 38 < r - 1 {
      GeometricOrdered(b - 38, r - 1);
    } else if r < b - 38 {
      GeometricOrdered(r, b - 38);
    }
  }

  /** The block sizes of a shared bucket lie in the range of the classes that use it. */
  lemma BucketRanges(b: nat)
    requires SharedBucket(b)
    ensures b <= 38 || b >= 128 ==> 16 <= BucketBlock(b) <= 1024 && SmallBlock(BucketBlock(b))
    ensures 38 < b <= 50 ==> 1024 < BucketBlock(b) <= 4096
    ensures 50 < b < 128 ==> 4096 < BucketBlock(b) <= SEGMENT_BYTES
  {
    if 38 < b <= 50 { GeometricRange(b - 38); }
  }

  lemma GeometricRange(k: nat)
    requires 0 < k <= 12
    ensures 1024 < GeometricBlock(k) <= 4096
  {
    GeometricEnds();
    GeometricOrdered(0, k);
    if k < 12 { GeometricOrdered(k, 12); }
  }

  lemma GeometricEnds()
    ensures GeometricBlock(0) == 1024 && GeometricBlock(12) == 4096
  {
    GeometricTable();
  }

  lemma LargeBestFit(size: nat, b: nat)
    requires 4096 < size && 50 < b <= 57 && size <= GO_CLASSES[b - SHARED_LARGE_BASE]
    ensures LargeClass(size).block <= GO_CLASSES[b - SHARED_LARGE_BASE]
  {
    hide GoClassIndex;
    GoClassFit(size, 0);
    assert GoClassIndex(size, 0) <= b - SHARED_LARGE_BASE;
    GoClassesOrdered(GoClassIndex(size, 0), b - SHARED_LARGE_BASE);
  }

  /** Among all shared buckets the class picks the smallest block that fits. */
  lemma SizeClassBestFit(n: nat, b: nat)
    requires n + 8 <= MAX_BLOCK
    requires SharedBucket(b) && Footprint(n) <= BucketBlock(b)
    ensures SizeClass(n).block <= BucketBlock(b)
  {
    BucketRanges(b);
    SizeClassSound(n);
    var size, c := Footprint(n), SizeClass(n);
    if size <= 1024 {
      if BucketBlock(b) <= 1024 { SmallBestFit(size, BucketBlock(b)); } else { SmallBestFit(size, 1024); }
    } else if size <= 4096 {
      GeometricFit(size, 0);
      if b <= 50 { GeometricBestFit(size, b); } else { GeometricEnds(); GeometricBestFit(size, 50); }
    } else {
      LargeBestFit(size, b);
    }
  }

  /** The geometric search as the loop the allocator runs. */
  method ComputeGeometric(size: nat) returns (c: Class)
    requires 1024 < size <= SEGMENT_BYTES / 2
    ensures c == GeometricClass(size, 0)
  {
    var block, bucket := 1024, 38;
    while block < size
      invariant 38 <= bucket <= 50 && block == GeometricBlock(bucket - 38)
      invariant GeometricClass(size, 0) == GeometricClass(size, bucket - 38)
      decreases 50 - bucket
    {
      if bucket == 50 { GeometricEnds(); }
      var step := block / 8;
      if step < 128 { step := 128; }
      block := block + step;
      bucket := bucket + 1;
      if block > SEGMENT_BYTES / 2 { block := SEGMENT_BYTES / 2; }
    }
    c := Class(bucket, block);
  }

  /** The search for the bucket of a dedicated block, as the allocator runs it. */
  method ComputeLarge(size: nat) returns (c: Class)
    requires SEGMENT_BYTES / 2 < size
    ensures c == LargeClass(size)
  {
    hide GoClassIndex, RoundUp;
    var block := ComputeDedicatedBlock(size);
    GoClassFit(size, 0);
    GoClassLast(size);
    if block <= SEGMENT_BYTES {
      var i := 0;
      while i < |GO_CLASSES|
        invariant i <= GoClassIndex(size, 0) < |GO_CLASSES|
        invariant block == GO_CLASSES[GoClassIndex(size, 0)]
      {
        if GO_CLASSES[i] == block {
          return Class(SHARED_LARGE_BASE + i, block);
        }
        i := i + 1;
      }
    }
    c := Class(DEDICATED_BUCKET, block);
  }

  /** Sizes no Go class holds are rounded up past one segment. */
  lemma GoClassLast(size: nat)
    ensures GoClassIndex(size, 0) == |GO_CLASSES| ==> DedicatedBlockSize(size) > SEGMENT_BYTES
  {
    GoClassFit(size, 0);
    if GoClassIndex(size, 0) == |GO_CLASSES| {
      assert GO_CLASSES[22] < size;
    }
  }

  /** Sizes the Go runtime itself hands out: its small classes, and whole pages above them. */
  predicate RuntimeSize(block: nat)
  {
    block in GO_CLASSES || (block > 32768 && block % GO_PAGE == 0)
  }

  /** The classes of the table from `i` on are in order. */
  lemma {:induction false} GoClassesOrdered(i: nat, j: nat)
    requires i <= j < |GO_CLASSES|
    ensures GO_CLASSES[i] <= GO_CLASSES[j]
    decreases j - i
  {
    if i < j {
      GoClassesOrdered(i, j - 1);
      assert forall k :: 0 < k < |GO_CLASSES| ==> GO_CLASSES[k - 1] < GO_CLASSES[k];
    }
  }

  /** The dedicated block is the least runtime size that holds the value. */
  lemma DedicatedLeast(size: nat, block: nat)
    requires size <= block && RuntimeSize(block)
    ensures size <= DedicatedBlockSize(size) <= block && RuntimeSize(DedicatedBlockSize(size))
  {
    GoClassFit(size, 0);
    var i := GoClassIndex(size, 0);
    if i < |GO_CLASSES| {
      GoClassRange(i);
      if block in GO_CLASSES {
        var j :| 0 <= j < |GO_CLASSES| && GO_CLASSES[j] == block;
        GoClassesOrdered(i, j);
      }
    } else {
      assert GO_CLASSES[22] == 32768 < size;
      InTable(block);
      RoundUpLeast(size, GO_PAGE, block);
    }
  }

  lemma InTable(block: nat)
    ensures block in GO_CLASSES ==> block <= 32768
  {
    if block in GO_CLASSES {
      var j :| 0 <= j < |GO_CLASSES| && GO_CLASSES[j] == block;
      GoClassRange(j);
    }
  }

  method ComputeDedicatedBlock(size: nat) returns (block: nat)
    ensures block == DedicatedBlockSize(size)
  {
    var i := 0;
    while i < |GO_CLASSES|
      invariant i <= |GO_CLASSES|
      invariant GoClassIndex(size, 0) == GoClassIndex(size, i)
    {
      if size <= GO_CLASSES[i] { return GO_CLASSES[i]; }
      i := i + 1;
    }
    return RoundUp(size, GO_PAGE);
  }

  function SegmentSizeForBlock(block: nat): nat
    requires block > 0
  {
    if block > SEGMENT_BYTES then block
    else if block <= 1024 then SEGMENT_BYTES
    else
      var blocks := SEGMENT_BYTES / block;
      if blocks < 1 then block else blocks * block
  }

  function SegmentSizeForAllocation(block: nat, existing: nat): nat
    requires block > 0
  {
    if block > 1024 || existing >= 2 then SegmentSizeForBlock(block)
    else
      var target := if existing == 1 then 1024 else if existing == 0 && block == 24 then 192 else 256;
      if target < block then block
      else
        var blocks := target / block;
        if blocks < 1 then block else blocks * block
  }

  /** A new segment holds its first block; it exceeds one segment only when the block does,
      and a dedicated block always gets a segment of exactly its own size. */
  lemma SegmentSizeSound(block: nat, existing: nat)
    requires block > 0
    ensures block <= SegmentSizeForAllocation(block, existing)
    ensures SegmentSizeForAllocation(block, existing) <= SEGMENT_BYTES ||
      SegmentSizeForAllocation(block, existing) == block
    ensures Dedicated(block) ==> SegmentSizeForAllocation(block, existing) == block == SegmentSizeForBlock(block)
  {
    if block <= SEGMENT_BYTES {
      MultiplesFit(SEGMENT_BYTES, block);
      if block <= 1024 {
        MultiplesFit(1024, block);
        if block <= 256 { MultiplesFit(256, block); }
        if block == 24 { MultiplesFit(192, block); }
      }
      if Dedicated(block) { assert SEGMENT_BYTES / block == 1; }
    }
  }

  lemma MultiplesFit(total: nat, block: nat)
    requires 0 < block <= total
    ensures block <= total / block * block <= total
  {
    var q := total / block;
    assert total == q * block + total % block;
    assert q >= 1;
  }
}
