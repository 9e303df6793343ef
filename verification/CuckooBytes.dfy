/** The stored bytes of a cuckoo filter. */
module CuckooBytes {
  import opened Words
  import CuckooFilter

  const HEADER := 40
  const SUB_HEADER := 16
  const MAGIC: seq<byte> := ['S' as int, 'C' as int, 'F' as int, 1]

  datatype Sub = Sub(buckets: nat, data: seq<byte>)

  datatype Image = Image(buckets: nat, items: nat, deletes: nat, bucketSize: nat, iterations: nat, expansion: nat,
                         subs: seq<Sub>)

  /** Every field is within its word, and every sub-filter has whole buckets. */
  predicate Wide(f: Image)
  {
    && 0 < f.buckets < TWO64 && f.items < TWO64 && f.deletes < TWO64
    && 0 < f.bucketSize < TWO16 && 0 < f.iterations < TWO16 && f.expansion < TWO16 && 0 < |f.subs| < TWO16
    && forall i :: 0 <= i < |f.subs| ==> WideSub(f.subs[i], f.bucketSize)
  }

  predicate WideSub(s: Sub, size: nat)
  {
    0 < s.buckets < TWO64 && |s.data| == s.buckets * size < TWO64
  }

  // ---- encoding ----

  function HeadBytes(f: Image): (h: seq<byte>)
    ensures |h| == HEADER
  {
    MAGIC + (Le(f.buckets, 8) + (Le(f.items, 8) + (Le(f.deletes, 8)
      + (Le(f.bucketSize, 2) + (Le(f.iterations, 2) + (Le(f.expansion, 2) + (Le(|f.subs|, 2) + [0, 0, 0, 0])))))))
  }

  function SubBytes(s: Sub): seq<byte>
  {
    Le(s.buckets, 8) + (Le(|s.data|, 8) + s.data)
  }

  function AllSubs(subs: seq<Sub>): seq<byte>
  {
    if subs == [] then [] else SubBytes(subs[0]) + AllSubs(subs[1..])
  }

  function Encoded(f: Image): seq<byte>
  {
    HeadBytes(f) + AllSubs(f.subs)
  }

  // ---- decoding ----

  datatype Parsed = Parsed(sub: Sub, rest: seq<byte>)

  /** One sub-filter at the front of the bytes. */
  function ReadSub(v: seq<byte>, size: nat): Option<Parsed>
  {
    if |v| < SUB_HEADER then None
    else
      var buckets, len := Word(v, 0, 8), Word(v, 8, 8);
      if buckets == 0 || len != buckets * size % TWO64 || len > |v| - SUB_HEADER then None
      else Some(Parsed(Sub(buckets, v[SUB_HEADER..SUB_HEADER + len]), v[SUB_HEADER + len..]))
  }

  function ReadSubs(v: seq<byte>, count: nat, size: nat, done: seq<Sub>): Option<seq<Sub>>
    decreases count
  {
    if count == 0 then (if v == [] then Some(done) else None)
    else
      var first := ReadSub(v, size);
      if first.None? then None else ReadSubs(first.value.rest, count - 1, size, done + [first.value.sub])
  }

  function Decoded(v: seq<byte>): Option<Image>
  {
    if |v| < HEADER || v[..4] != MAGIC then None
    else
      var buckets, size, iterations, count := Word(v, 4, 8), Word(v, 28, 2), Word(v, 30, 2), Word(v, 34, 2);
      if buckets == 0 || size == 0 || iterations == 0 || count == 0 then None
      else
        var subs := ReadSubs(v[HEADER..], count, size, []);
        if subs.None? then None
        else Some(Image(buckets, Word(v, 12, 8), Word(v, 20, 8), size, iterations, Word(v, 32, 2), subs.value))
  }

  lemma SubReads(s: Sub, size: nat, rest: seq<byte>)
    requires WideSub(s, size)
    ensures ReadSub(SubBytes(s) + rest, size) == Some(Parsed(s, rest))
  {
    hide Le, FromLe;
    var a, b := Le(s.buckets, 8), Le(|s.data|, 8);
    var v := SubBytes(s) + rest;
    assert v[0..8] == a && v[8..16] == b && v[16..16 + |s.data|] == s.data && v[16 + |s.data|..] == rest;
    WordLimits();
    LeRoundTrip(s.buckets, 8);
    LeRoundTrip(|s.data|, 8);
  }

  lemma {:induction false} SubsRead(subs: seq<Sub>, size: nat, done: seq<Sub>)
    requires forall i :: 0 <= i < |subs| ==> WideSub(subs[i], size)
    ensures ReadSubs(AllSubs(subs), |subs|, size, done) == Some(done + subs)
    decreases |subs|
  {
    hide SubBytes, ReadSub, WideSub;
    if subs == [] {
      assert done + [] == done;
    } else {
      SubReads(subs[0], size, AllSubs(subs[1..]));
      SubsRead(subs[1..], size, done + [subs[0]]);
      assert done + [subs[0]] + subs[1..] == done + subs;
    }
  }

  lemma HeadParts(m: seq<byte>, a: seq<byte>, b: seq<byte>, c: seq<byte>, d: seq<byte>, e: seq<byte>, f: seq<byte>,
                  g: seq<byte>, z: seq<byte>,
                  t: seq<byte>)
    requires |m| == 4 && |a| == |b| == |c| == 8 && |d| == |e| == |f| == |g| == 2 && |z| == 4
    ensures var v := m + (a + (b + (c + (d + (e + (f + (g + z))))))) + t;
      && |v| >= 40 && v[..4] == m && v[4..12] == a && v[12..20] == b && v[20..28] == c
      && v[28..30] == d && v[30..32] == e && v[32..34] == f && v[34..36] == g && v[40..] == t
  {
  }

  /** Every filter reads back from its bytes. */
  lemma FilterRoundTrip(f: Image)
    requires Wide(f)
    ensures Decoded(Encoded(f)) == Some(f)
  {
    hide Le, FromLe, AllSubs, ReadSubs, WideSub;
    HeadParts(MAGIC, Le(f.buckets, 8), Le(f.items, 8), Le(f.deletes, 8), Le(f.bucketSize, 2), Le(f.iterations, 2),
      Le(f.expansion, 2), Le(|f.subs|, 2), [0, 0, 0, 0], AllSubs(f.subs));
    WordLimits();
    LeRoundTrip(f.buckets, 8);
    LeRoundTrip(f.items, 8);
    LeRoundTrip(f.deletes, 8);
    LeRoundTrip(f.bucketSize, 2);
    LeRoundTrip(f.iterations, 2);
    LeRoundTrip(f.expansion, 2);
    LeRoundTrip(|f.subs|, 2);
    SubsRead(f.subs, f.bucketSize, []);
    assert [] + f.subs == f.subs;
  }

  /** The bytes that a sub-filter was read from are its own. */
  lemma SubWrites(v: seq<byte>, size: nat)
    requires ReadSub(v, size).Some?
    ensures SubBytes(ReadSub(v, size).value.sub) + ReadSub(v, size).value.rest == v
  {
    hide Le, FromLe;
    var p := ReadSub(v, size).value;
    FromLeRoundTrip(v[0..8]);
    FromLeRoundTrip(v[8..16]);
    assert v == v[0..8] + (v[8..16] + v[16..16 + |p.sub.data|]) + v[16 + |p.sub.data|..];
  }

  lemma {:induction false} SubsWrite(v: seq<byte>, count: nat, size: nat, done: seq<Sub>)
    requires ReadSubs(v, count, size, done).Some?
    ensures var subs := ReadSubs(v, count, size, done).value;
      |subs| == |done| + count && subs[..|done|] == done && AllSubs(subs[|done|..]) == v
    decreases count
  {
    hide ReadSub, SubBytes;
    if count > 0 {
      var p := ReadSub(v, size).value;
      var subs := ReadSubs(v, count, size, done).value;
      SubWrites(v, size);
      SubsWrite(p.rest, count - 1, size, done + [p.sub]);
      assert subs[|done|..][0] == subs[..|done| + 1][|done|] == p.sub;
      assert subs[|done|..][1..] == subs[|done| + 1..];
      assert done == (done + [p.sub])[..|done|] == subs[..|done| + 1][..|done|] == subs[..|done|];
    }
  }

  /** Accepted bytes are those of the filter they stand for, but for the four spare ones. */
  lemma BytesRoundTrip(v: seq<byte>)
    requires Decoded(v).Some?
    ensures Encoded(Decoded(v).value) == v[..36] + [0, 0, 0, 0] + v[HEADER..]
  {
    hide Le, FromLe, AllSubs, ReadSubs;
    var f := Decoded(v).value;
    SubsWrite(v[HEADER..], Word(v, 34, 2), Word(v, 28, 2), []);
    assert f.subs[0..] == f.subs;
    FromLeRoundTrip(v[4..12]);
    FromLeRoundTrip(v[12..20]);
    FromLeRoundTrip(v[20..28]);
    FromLeRoundTrip(v[28..30]);
    FromLeRoundTrip(v[30..32]);
    FromLeRoundTrip(v[32..34]);
    FromLeRoundTrip(v[34..36]);
    HeadWhole(v);
  }

  lemma HeadWhole(v: seq<byte>)
    requires |v| >= 36
    ensures v[..36] ==
      v[..4] + (v[4..12] + (v[12..20] + (v[20..28] + (v[28..30] + (v[30..32] + (v[32..34] + v[34..36]))))))
  {
  }

  // ---- the buffer operations ----

  method Encode(f: Image) returns (out: seq<byte>)
    ensures out == Encoded(f)
  {
    hide SubBytes, HeadBytes;
    out := HeadBytes(f);
    assert f.subs[0..] == f.subs;
    for i := 0 to |f.subs|
      invariant out + AllSubs(f.subs[i..]) == Encoded(f)
    {
      assert f.subs[i..][1..] == f.subs[i + 1..];
      Assoc(out, SubBytes(f.subs[i]), AllSubs(f.subs[i + 1..]));
      out := out + SubBytes(f.subs[i]);
    }
    assert out + [] == out;
  }

  method Decode(v: seq<byte>) returns (r: Option<Image>)
    ensures r == Decoded(v)
  {
    hide ReadSub, Word;
    if |v| < HEADER || v[..4] != MAGIC { return None; }
    var buckets, size, iterations, count := Word(v, 4, 8), Word(v, 28, 2), Word(v, 30, 2), Word(v, 34, 2);
    if buckets == 0 || size == 0 || iterations == 0 || count == 0 { return None; }
    var subs := DecodeSubs(v, count, size);
    if subs.None? { return None; }
    return Some(Image(buckets, Word(v, 12, 8), Word(v, 20, 8), size, iterations, Word(v, 32, 2), subs.value));
  }

  method DecodeSubs(v: seq<byte>, count: nat, size: nat) returns (r: Option<seq<Sub>>)
    requires |v| >= HEADER
    ensures r == ReadSubs(v[HEADER..], count, size, [])
  {
    hide ReadSub;
    var offset: nat, subs := HEADER, [];
    for i := 0 to count
      invariant offset <= |v| && ReadSubs(v[HEADER..], count, size, []) == ReadSubs(v[offset..], count - i, size, subs)
    {
      var sub, next := DecodeSub(v, offset, size);
      if sub.None? { return None; }
      subs, offset := subs + [sub.value], next;
    }
    if offset != |v| { return None; }
    return Some(subs);
  }

  method DecodeSub(v: seq<byte>, offset: nat, size: nat) returns (sub: Option<Sub>, next: nat)
    requires offset <= |v|
    ensures sub.None? <==> ReadSub(v[offset..], size).None?
    ensures sub.Some? ==> next <= |v| && ReadSub(v[offset..], size) == Some(Parsed(sub.value, v[next..]))
  {
    hide FromLe;
    if offset + SUB_HEADER > |v| { return None, offset; }
    var buckets, len := Word(v, offset, 8), Word(v, offset + 8, 8);
    assert v[offset..][0..8] == v[offset..offset + 8] && v[offset..][8..16] == v[offset + 8..offset + 16];
    next := offset + SUB_HEADER;
    if buckets == 0 || len != buckets * size % TWO64 || len > |v| - next { return None, offset; }
    assert v[offset..][16..16 + len] == v[next..next + len] && v[offset..][16 + len..] == v[next + len..];
    return Some(Sub(buckets, v[next..next + len])), next + len;
  }

  // ---- filters ----

  function ImageOf(f: CuckooFilter.Filter): (im: Image)
    reads f, f.Arrays()
    ensures |im.subs| == |f.filters|
    ensures forall i :: 0 <= i < |f.filters| ==> im.subs[i] == Sub(f.filters[i].numBuckets, f.filters[i].data[..])
  {
    Image(f.numBuckets, f.numItems, f.numDeletes, f.bucketSize, f.maxIterations, f.expansion,
      seq(|f.filters|, i requires 0 <= i < |f.filters| reads f, f.Arrays() =>
        Sub(f.filters[i].numBuckets, f.filters[i].data[..])))
  }

  /** The parameters and counters of the filter fit their words. */
  ghost predicate Storable(f: CuckooFilter.Filter)
    reads f
  {
    && f.numItems < TWO64 && f.numDeletes < TWO64 && f.bucketSize < TWO16 && 0 < f.maxIterations < TWO16
    && f.numBuckets * f.bucketSize < TWO64
  }

  lemma ImageWide(f: CuckooFilter.Filter)
    requires f.Valid() && Storable(f)
    ensures Wide(ImageOf(f))
  {
    assert Open(0);
    assert f.numBuckets <= f.numBuckets * f.bucketSize;
    forall i | 0 <= i < |f.filters| ensures WideSub(ImageOf(f).subs[i], f.bucketSize) { assert f.SubValid(i); }
  }

  /** New arrays with the bytes of the sub-filters. */
  method LoadSubs(subs: seq<Sub>) returns (r: seq<CuckooFilter.Sub>)
    ensures |r| == |subs|
    ensures forall i :: 0 <= i < |r| ==>
      fresh(r[i].data) && r[i].numBuckets == subs[i].buckets && r[i].data[..] == subs[i].data
    ensures forall i, j :: 0 <= i < j < |r| ==> r[i].data != r[j].data
  {
    r := [];
    for k := 0 to |subs|
      invariant |r| == k
      invariant forall i :: 0 <= i < k ==>
        fresh(r[i].data) && r[i].numBuckets == subs[i].buckets && r[i].data[..] == subs[i].data
      invariant forall i, j :: 0 <= i < j < k ==> r[i].data != r[j].data
    {
      var bytes := subs[k].data;
      var data := new byte[|bytes|](i requires 0 <= i < |bytes| => bytes[i]);
      assert data[..] == bytes;
      r := r + [CuckooFilter.Sub(subs[k].buckets, data)];
    }
  }

  /** Storing a filter and loading it gives a filter that holds the same tags with the same counters. */
  method StoreThenLoad(f: CuckooFilter.Filter) returns (g: CuckooFilter.Filter)
    requires f.Valid() && Storable(f)
    ensures fresh(g) && fresh(g.Arrays()) && g.Valid() && g.hash == f.hash && g.numBuckets == f.numBuckets
    ensures g.Items() == f.Items() && g.numItems == f.numItems && g.numDeletes == f.numDeletes
    ensures ImageOf(g) == ImageOf(f)
  {
    hide Encoded, Decoded, Wide, CuckooFilter.Holds, CuckooFilter.Sum;
    ImageWide(f);
    var stored := ImageOf(f);
    var v := Encode(stored);
    FilterRoundTrip(stored);
    var image := Decode(v);
    var im := image.value;
    var subs := LoadSubs(im.subs);
    g := new CuckooFilter.Filter.Loaded(f.hash, im.buckets, im.bucketSize, im.iterations, im.expansion,
      im.items, im.deletes, subs, f.bags);
    forall i | 0 <= i < |subs| ensures g.SubValid(i) { assert f.SubValid(i); }
    assert ImageOf(g).subs == stored.subs;
  }
}
