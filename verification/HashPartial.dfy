/** An HSET that is refused half way: from an absent key, 32 fields make an indexed hash, and of two more
    writes the first finds room in its buffer and the second does not. */
module HashPartial {
  import opened Words
  import opened FieldOrder
  import opened HashSpec
  import opened HashCommands
  import IndexedHash
  import IndexedRecords
  import PackedHash

  /** One-byte fields with empty values. */
  function Short(n: nat): (p: seq<Pair>)
    requires n <= 256
    ensures |p| == n && forall i :: 0 <= i < n ==> p[i] == Pair([i], [], 0)
  {
    seq(n, i requires 0 <= i < n => Pair([i], [], 0))
  }

  function Names(n: nat): (f: seq<Field>)
    requires n <= 256
    ensures |f| == n && forall i :: 0 <= i < n ==> f[i] == [i]
  {
    seq(n, i requires 0 <= i < n => [i])
  }

  function Blanks(n: nat): (v: seq<seq<byte>>)
    ensures |v| == n && forall i :: 0 <= i < n ==> v[i] == []
  {
    seq(n, _ => [])
  }

  lemma OneByte(i: byte, j: byte)
    ensures Less([i], [j]) <==> i < j
  {
  }

  lemma ShortSorted(n: nat)
    requires n <= 256
    ensures Sorted(Short(n))
  {
    var p := Short(n);
    forall i, j | 0 <= i < j < n ensures Less(p[i].field, p[j].field) { OneByte(i, j); }
  }

  lemma {:induction false} ShortMap(n: nat)
    requires n <= 256
    ensures SetAll(map[], Names(n), Blanks(n)) == ToMap(Short(n))
  {
    if n > 0 {
      ShortMap(n - 1);
      assert Names(n)[..n - 1] == Names(n - 1) && Blanks(n)[..n - 1] == Blanks(n - 1);
      assert Short(n)[..n - 1] == Short(n - 1);
    }
  }

  /** Records of at most `b` bytes each. */
  lemma {:induction false} BodyBound(p: seq<Pair>, b: nat)
    requires forall i :: 0 <= i < |p| ==> |IndexedRecords.Record(p[i].field, p[i].value)| <= b
    ensures IndexedHash.BodySize(p) <= b * |p|
  {
    hide IndexedRecords.Record;
    if p != [] {
      BodyBound(p[..|p| - 1], b);
      assert b * |p| == b * (|p| - 1) + b;
    }
  }

  lemma SlotsFor()
    ensures IndexedHash.Doubled(8, 64) == 64 && IndexedHash.Doubled(8, 68) == 128
  {
    assert IndexedHash.Doubled(64, 64) == 64 && IndexedHash.Doubled(64, 68) == IndexedHash.Doubled(128, 68) == 128;
    assert IndexedHash.Doubled(8, 64) == IndexedHash.Doubled(16, 64) == IndexedHash.Doubled(32, 64);
    assert IndexedHash.Doubled(8, 68) == IndexedHash.Doubled(16, 68) == IndexedHash.Doubled(32, 68);
  }

  /** Thirty-two short fields: what an HSET leaves of them, and that they fit. */
  lemma ShortFits()
    ensures var p := Short(32);
      && Sorted(p) && ToMap(p) == SetAll(map[], Names(32), Blanks(32)) && |ToMap(p)| == 32 && NoDeadlines(ToMap(p))
      && ColdFits(ToMap(p)) && IndexedHash.BodySize(p) <= 672
  {
    hide ToMap, IndexedRecords.Record, IndexedHash.Doubled;
    var p := Short(32);
    ShortSorted(32);
    ShortMap(32);
    SortedDistinct(p);
    ToMapSize(p);
    DeadlinesOf(p);
    forall i | 0 <= i < 32 ensures |IndexedRecords.Record(p[i].field, p[i].value)| <= 21 {
      IndexedRecords.RecordLength(p[i].field, p[i].value);
    }
    BodyBound(p, 21);
    SlotsFor();
    ColdFitsFor(p);
  }

  const MORE: seq<Field> := [[32], [33]]

  function MoreValues(v: seq<byte>): seq<seq<byte>> { [[], v] }

  lemma MoreWrites(v: seq<byte>)
    ensures var m := ToMap(Short(32));
      && SetAll(m, MORE[..0], MoreValues(v)[..0]) == m && [32] !in m
      && SetAll(m, MORE[..1], MoreValues(v)[..1]) == ToMap(Short(33))
      && SetAll(m, MORE, MoreValues(v)) == ToMap(Short(33) + [Pair([33], v, 0)])
  {
    hide ToMap;
    var m := ToMap(Short(32));
    SetAllWhole(m, MORE, MoreValues(v));
    SetAllNext(m, MORE, MoreValues(v), 0);
    SetAllNext(m, MORE, MoreValues(v), 1);
    ToMapHas(Short(32), [32]);
    assert Short(33) == Short(32) + [Pair([32], [], 0)];
    ToMapSnoc(Short(32), Pair([32], [], 0));
    ToMapSnoc(Short(33), Pair([33], v, 0));
  }

  lemma ToMapSnoc(p: seq<Pair>, x: Pair)
    ensures ToMap(p + [x]) == ToMap(p)[x.field := Entry(x.value, x.expiresAt)]
  {
    assert (p + [x])[..|p|] == p;
  }

  /** The first of the two writes has room in the new buffer, the second has none. */
  lemma RoomForOne(d: seq<byte>, v: seq<byte>)
    requires IndexedHash.BuiltFrom(d, Short(32)) && IndexedHash.Contents(d) == ToMap(Short(32)) && |v| >= 512
    ensures IndexedHash.InPlace(d, MORE, MoreValues(v)) == 1
  {
    hide ToMap, SetAll, IndexedRecords.Record, IndexedHash.Doubled, IndexedHash.Contents, IndexedHash.LayoutOf,
      IndexedHash.Meta;
    ShortFits();
    SlotsFor();
    MoreWrites(v);
    RecordsOf(v);
    assert IndexedHash.RoomAt(d, MORE, MoreValues(v), 0) && !IndexedHash.RoomAt(d, MORE, MoreValues(v), 1);
    IndexedHash.InPlaceIs(d, MORE, MoreValues(v), 1);
  }

  lemma RecordsOf(v: seq<byte>)
    ensures IndexedHash.RecordBytes(MORE[..1], MoreValues(v)[..1]) <= 21
    ensures |v| < IndexedHash.RecordBytes(MORE[..2], MoreValues(v)[..2])
  {
    hide IndexedRecords.Record;
    IndexedRecords.RecordLength([32], []);
    IndexedRecords.RecordLength([33], v);
    assert MORE[..1][..0] == [] && MoreValues(v)[..1][..0] == [];
    assert MORE[..2][..1] == MORE[..1] && MoreValues(v)[..2][..1] == MoreValues(v)[..1];
  }

  /** All 34 fields fit a buffer when the last value is short. */
  lemma AllFit(v: seq<byte>)
    requires |v| <= 1000
    ensures !IndexedHash.TooLarge(SetAll(ToMap(Short(32)), MORE, MoreValues(v)))
  {
    hide ToMap, SetAll, IndexedRecords.Record, IndexedHash.Doubled;
    var p := Short(33) + [Pair([33], v, 0)];
    MoreWrites(v);
    forall i, j | 0 <= i < j < 34 ensures Less(p[i].field, p[j].field) { OneByte(i, j); }
    forall i | 0 <= i < 34 ensures |IndexedRecords.Record(p[i].field, p[i].value)| <= 1021 {
      IndexedRecords.RecordLength(p[i].field, p[i].value);
    }
    BodyBound(p, 1021);
    SlotsFor();
  }

  /** A key with 32 short fields in a new buffer. */
  method Start(fieldHash: Field -> nat, hotHash: Field -> nat, now: int) returns (key: HashKey)
    ensures fresh(key) && fresh(key.Repr()) && key.Valid() && key.spent <= 32 && key.form.Indexed?
    ensures key.Live(now) == ToMap(Short(32)) && IndexedHash.BuiltFrom(key.form.data[..], Short(32))
  {
    hide ToMap, SetAll, ColdFits, Bounded, LiveMap, WriteBytes, IndexedHash.BuiltFrom, Built, NoDeadlines, Short, Names,
      Blanks, Sorted, Storable, HashKey.FormValid, HashKey.Stored;
    key := new HashKey(fieldHash, hotHash);
    key.AbsentLive(now);
    ShortFits();
    ShortBytes();
    var added := key.Set(Names(32), Blanks(32), now, true);
    BuiltShort(key.Snap());
  }

  lemma BuiltShort(s: Snapshot)
    requires Built(s, ToMap(Short(32))) && Sorted(Short(32))
    ensures s.Slotted? && IndexedHash.BuiltFrom(s.buffer, Short(32))
  {
    hide ToMap, IndexedHash.BuiltFrom;
    var p :| Sorted(p) && ToMap(p) == ToMap(Short(32)) && IndexedHash.BuiltFrom(s.buffer, p);
    SortedUnique(p, Short(32));
  }

  lemma ShortBytes()
    ensures WriteBytes(Names(32), Blanks(32)) <= 32
  {
    ShortBytesTo(32);
  }

  lemma {:induction false} ShortBytesTo(n: nat)
    requires n <= 256
    ensures WriteBytes(Names(n), Blanks(n)) <= n
  {
    if n > 0 {
      ShortBytesTo(n - 1);
      assert Names(n)[..n - 1] == Names(n - 1) && Blanks(n)[..n - 1] == Blanks(n - 1);
    }
  }

  /** The second HSET is refused, by the memory limit although all its fields would fit a buffer, or
      because they fit none; either way its first write stays. */
  method HalfHset(fieldHash: Field -> nat, hotHash: Field -> nat, v: seq<byte>, now: int, grant: bool)
    returns (key: HashKey, added: Option<nat>)
    requires if grant then |v| == PackedHash.MAX_BYTES + 1 else 512 <= |v| <= 1000
    ensures key.Valid() && added == None && key.Live(now) == ToMap(Short(33)) != ToMap(Short(32))
    ensures IndexedHash.TooLarge(SetAll(ToMap(Short(32)), MORE, MoreValues(v))) <==> grant
  {
    hide ToMap, SetAll, Bounded, WriteBytes, IndexedHash.BuiltFrom, IndexedHash.InPlace, IndexedHash.TooLarge, SetDone,
      AllOrNothing, InPlace, LeftBy, Short, HashKey.Stored, HashKey.Live;
    key := Start(fieldHash, hotHash, now);
    key.IndexedLive(now);
    ghost var s := key.Snap();
    MoreBytes(v);
    added := key.Set(MORE, MoreValues(v), now, grant);
    HalfDone(s, key.Snap(), key.Live(now), v, grant, added);
    ShortGrows();
  }

  lemma HalfDone(s: Snapshot, s': Snapshot, m': map<Field, Entry>, v: seq<byte>, grant: bool, added: Option<nat>)
    requires s.Slotted? && IndexedHash.BuiltFrom(s.buffer, Short(32))
    requires IndexedHash.Contents(s.buffer) == ToMap(Short(32))
    requires if grant then |v| == PackedHash.MAX_BYTES + 1 else 512 <= |v| <= 1000
    requires SetDone(s, ToMap(Short(32)), s', m', MORE, MoreValues(v), grant, added)
    ensures added == None && m' == ToMap(Short(33))
    ensures IndexedHash.TooLarge(SetAll(ToMap(Short(32)), MORE, MoreValues(v))) <==> grant
  {
    hide ToMap, SetAll, IndexedHash.InPlace, IndexedHash.TooLarge, IndexedHash.Contents, Short, Storable, Built;
    RoomForOne(s.buffer, v);
    MoreWrites(v);
    if grant { OverSize(v); } else { AllFit(v); }
  }

  lemma OverSize(v: seq<byte>)
    requires |v| > PackedHash.MAX_BYTES
    ensures IndexedHash.TooLarge(SetAll(ToMap(Short(32)), MORE, MoreValues(v)))
  {
    hide ToMap;
    MoreWrites(v);
    ToMapSnoc(Short(33), Pair([33], v, 0));
    IndexedHash.TooLargeWith(SetAll(ToMap(Short(32)), MORE, MoreValues(v)), [33], v);
  }

  lemma ShortGrows()
    ensures ToMap(Short(33)) != ToMap(Short(32))
  {
    ToMapHas(Short(32), [32]);
    ToMapHas(Short(33), [32]);
    assert Short(33)[32].field == [32];
  }

  lemma MoreBytes(v: seq<byte>)
    ensures WriteBytes(MORE, MoreValues(v)) == |v| + 2
  {
    assert MORE[..1][..0] == [] && MoreValues(v)[..1][..0] == [];
    assert WriteBytes(MORE[..1], MoreValues(v)[..1]) == 1;
  }
}
