/** A hash under one key, in whichever physical form it has: absent, packed bytes, an indexed buffer
    or a HOT table.  Every command reads the clock once. */
module HashCommands {
  import opened Words
  import opened FieldOrder
  import opened HashSpec
  import PackedHash
  import IndexedHash
  import HotHash

  const PROMOTE_FIELDS := 256
  const INDEX_FIELDS := 32

  datatype Form = Absent | Packed(bytes: seq<byte>) | Indexed(data: array<byte>) | Hot(table: HotHash.HotHash)

  /** The form of a hash: none, packed bytes, an indexed buffer, or a HOT table. */
  datatype Snapshot = Gone | Flat | Slotted(buffer: seq<byte>) | Warm

  // ---- when commands pass ----

  /** How many of these writes HSET makes in the buffer of an indexed hash before it needs a new one; the
      other forms are never edited in place before the command is sure to succeed. */
  ghost function InPlace(s: Snapshot, fields: seq<Field>, values: seq<seq<byte>>): (k: nat)
    requires |fields| == |values|
    ensures k <= |fields|
  {
    if s.Slotted? && IndexedHash.Meta(s.buffer) then IndexedHash.InPlace(s.buffer, fields, values) else 0
  }

  /** What of the live fields `m` an HSET leaves when it is refused: the writes made in place stay. */
  ghost function LeftBy(s: Snapshot, m: map<Field, Entry>, fields: seq<Field>, values: seq<seq<byte>>)
    : map<Field, Entry>
    requires |fields| == |values|
  {
    var k := InPlace(s, fields, values);
    SetAll(m, fields[..k], values[..k])
  }

  /** The memory limit and the size limit let an HSET pass. */
  ghost predicate SetPasses(s: Snapshot, m: map<Field, Entry>, fields: seq<Field>, values: seq<seq<byte>>, grant: bool)
    requires |fields| == |values|
  {
    match s
    case Warm => true
    case Slotted(_) =>
      InPlace(s, fields, values) == |fields| || (grant && !IndexedHash.TooLarge(SetAll(m, fields, values)))
    case _ => grant && ColdFits(SetAll(m, fields, values))
  }

  /** An HSET makes all of its writes or changes nothing: it passes, or every field that is written in
      place already has its last value. */
  ghost predicate AllOrNothing(s: Snapshot, m: map<Field, Entry>, fields: seq<Field>, values: seq<seq<byte>>,
                               grant: bool)
    requires |fields| == |values|
  {
    var k := InPlace(s, fields, values);
    SetPasses(s, m, fields, values, grant) || Rewrites(m, fields[..k], values[..k])
  }

  lemma AllOrNothingIs(s: Snapshot, m: map<Field, Entry>, fields: seq<Field>, values: seq<seq<byte>>, grant: bool)
    requires |fields| == |values|
    ensures AllOrNothing(s, m, fields, values, grant) <==>
      SetPasses(s, m, fields, values, grant) || LeftBy(s, m, fields, values) == m
    ensures fields == [] ==> LeftBy(s, m, fields, values) == m
  {
    hide SetAll, Rewrites, InPlace, SetPasses;
    var k := InPlace(s, fields, values);
    RewritesNothing(m, fields[..k], values[..k]);
    SetAllWhole(m, fields, values);
  }

  /** The hash has just been written into a new buffer. */
  ghost predicate Built(s: Snapshot, m: map<Field, Entry>)
  {
    s.Slotted? && exists p :: Sorted(p) && ToMap(p) == m && IndexedHash.BuiltFrom(s.buffer, p)
  }

  /** What an HSET makes of a form and its live fields, and what it answers. */
  ghost predicate SetDone(s: Snapshot, m: map<Field, Entry>, s': Snapshot, m': map<Field, Entry>, fields: seq<Field>,
                          values: seq<seq<byte>>, grant: bool, added: Option<nat>)
    requires |fields| == |values|
  {
    && (added.Some? <==> SetPasses(s, m, fields, values, grant))
    && (added.Some? ==> !s'.Gone? && m' == SetAll(m, fields, values) && added.value == |m'| - |m|)
    && (added.Some? && (s.Gone? || s.Flat?) && |m'| >= INDEX_FIELDS && NoDeadlines(m') ==> Built(s', m'))
    && (added.None? ==> m' == LeftBy(s, m, fields, values) && InPlace(s, fields, values) < |fields|)
    && (grant && Storable(SetAll(m, fields, values)) ==> added.Some?)
  }

  function Without(m: map<Field, Entry>, remove: set<Field>): map<Field, Entry> { m - remove }

  lemma WithoutIs(m: map<Field, Entry>, remove: set<Field>)
    ensures Without(m, remove) == m - remove && (m - remove == m <==> m.Keys !! remove)
  {
    MinusNothing(m, remove);
  }

  /** There are enough live fields for a HOT table, and none has a deadline. */
  predicate Promotes(m: map<Field, Entry>)
  {
    |m| >= PROMOTE_FIELDS && NoDeadlines(m)
  }

  /** A batch finds the hash in the HOT form, or moves it there first. */
  ghost predicate Warms(s: Snapshot, m: map<Field, Entry>, unlimited: bool)
  {
    s.Warm? || (unlimited && !s.Gone? && Promotes(m))
  }

  /** A HOT table can be moved back: the memory limit allows it and its cold layout has room. */
  ghost predicate Freezes(s: Snapshot, m: map<Field, Entry>, grant: bool)
  {
    s.Warm? ==> grant && ColdFits(m)
  }

  /** An HDEL passes that would leave `left`: on a HOT table always, otherwise when it deletes nothing or
      the packed result can be published. */
  ghost predicate DelPasses(s: Snapshot, m: map<Field, Entry>, left: map<Field, Entry>, grant: bool)
  {
    s.Warm? || left == m || Publishes(left, grant)
  }

  /** A deadline command passes: the key is absent, or its cold form can be reached, the condition is known
      or never judged, and a changed result can be published. */
  ghost predicate ExpirePasses(s: Snapshot, m: map<Field, Entry>, fields: seq<Field>, when: int, c: Condition, now: int,
                               grant: bool)
  {
    || s.Gone?
    || (&& Freezes(s, m, grant) && !(c == Other && exists f :: f in fields && f in m)
        && (Touches(ExpireAll(m, fields, when, c, now).out) ==> Publishes(Expired(m, fields, when, c, now), grant)))
  }

  /** An HSETEX passes: its cold form can be reached and, when it is admitted, its result published. */
  ghost predicate SetExPasses(s: Snapshot, m: map<Field, Entry>, fields: seq<Field>, values: seq<seq<byte>>,
                              c: FieldCondition, at: Option<int>, keep: bool, now: int, grant: bool)
    requires |fields| == |values|
  {
    && Freezes(s, m, grant) && !c.Unknown?
    && (Admits(c, m, fields) ==> Publishes(LiveMap(SetExAll(m, fields, values, at, keep), now), grant))
  }

  /** These fields fit in either cold layout. */
  ghost predicate Storable(m: map<Field, Entry>)
  {
    forall p :: Sorted(p) && ToMap(p) == m ==> PackedHash.Fits(p) && IndexedHash.TotalSize(p) <= PackedHash.MAX_BYTES
  }

  class HashKey {
    /** The hash functions of the indexed and of the HOT layout. */
    const fieldHash: Field -> nat
    const hotHash: Field -> nat
    var form: Form
    /** A bound on the bytes written to this key so far. */
    ghost var spent: nat

    ghost function Repr(): set<object>
      reads `form
    {
      match form
      case Indexed(a) => {a}
      case Hot(h) => {h}
      case _ => {}
    }

    /** Every field the form holds, dead ones included. */
    ghost function Stored(): map<Field, Entry>
      reads `form, Repr()
    {
      match form
      case Absent => map[]
      case Packed(b) => if PackedHash.Unpack(b).Some? then ToMap(PackedHash.Unpack(b).value) else map[]
      case Indexed(a) => if IndexedHash.Meta(a[..]) then IndexedHash.Contents(a[..]) else map[]
      case Hot(h) => h.View()
    }

    ghost predicate FormValid()
      reads this, Repr()
    {
      match form
      case Absent => true
      case Packed(b) => PackedHash.Unpack(b).Some?
      case Indexed(a) => IndexedHash.Valid(a[..], fieldHash)
      case Hot(h) => h.Valid() && h.hash == hotHash && |h.payload| <= spent
    }

    ghost predicate Valid()
      reads this, Repr()
    {
      FormValid() && Bounded(Stored(), spent)
    }

    /** The fields alive at a time: what a client can see. */
    ghost function Live(now: int): map<Field, Entry>
      reads `form, Repr()
    {
      LiveMap(Stored(), now)
    }

    /** What the form is, as a value. */
    ghost function Snap(): Snapshot
      reads `form, Repr()
    {
      match form
      case Absent => Gone
      case Packed(_) => Flat
      case Indexed(a) => Slotted(a[..])
      case Hot(_) => Warm
    }

    constructor (fieldHash: Field -> nat, hotHash: Field -> nat)
      ensures Valid() && form == Absent && spent == 0 && Stored() == map[] && this.fieldHash == fieldHash
    {
      this.fieldHash, this.hotHash, form, spent := fieldHash, hotHash, Absent, 0;
      new;
      BoundedNothing();
    }

    /** Only the packed layout with deadlines ever holds one. */
    lemma DeadlinesArePacked()
      requires Valid() && !NoDeadlines(Stored())
      ensures form.Packed? && |form.bytes| >= 3 && form.bytes[..3] == PackedHash.EXPIRY
    {
      hide ToMap, Bounded, LiveMap, IndexedHash.Contents, IndexedHash.Valid;
      match form {
        case Absent =>
        case Indexed(a) => IndexedForever(a[..], fieldHash, 0);
        case Hot(h) => HotForever(h, 0);
        case Packed(b) =>
          PackedHash.UnpackSound(b);
          if b[..3] != PackedHash.EXPIRY { DeadlinesOf(PackedHash.Unpack(b).value); }
      }
    }

    // ---- reading ----

    /** The live pairs of a form other than HOT. */
    method ColdPairs(now: int) returns (p: seq<Pair>)
      requires Valid() && !form.Hot?
      ensures Sorted(p) && ToMap(p) == Live(now) && PackedHash.Stamped(p, true)
    {
      hide PackedHash.Unpack, IndexedHash.Valid, IndexedHash.Contents, ToMap, LiveMap, Bounded;
      match form {
        case Absent =>
          p := [];
          NothingLives(now);
        case Packed(b) =>
          var r := PackedHash.Decode(b);
          PackedHash.UnpackSound(b);
          p := LiveStamped(r.value, now);
        case Indexed(a) =>
          var r := IndexedHash.Decode(a[..], fieldHash);
          p := LiveStamped(r.value, now);
      }
    }

    /** HGET. */
    method Get(field: Field, now: int) returns (value: Option<seq<byte>>)
      requires Valid()
      ensures value == if field in Live(now) then Some(Live(now)[field].value) else None
    {
      hide PackedHash.Unpack, IndexedHash.Valid, IndexedHash.Contents, ToMap, Bounded;
      match form {
        case Absent =>
          value := None;
        case Packed(b) =>
          var r := PackedHash.Lookup(b, field, now);
          value := r.value;
        case Indexed(a) =>
          var r := IndexedHash.Lookup(a[..], field, fieldHash);
          IndexedForever(a[..], fieldHash, now);
          value := r.value;
        case Hot(h) =>
          value := h.Get(field);
          HotForever(h, now);
      }
    }

    /** HGETALL: the live fields, sorted. */
    method GetAll(now: int) returns (p: seq<Pair>)
      requires Valid()
      ensures Sorted(p) && ToMap(p) == Live(now)
    {
      hide PackedHash.Unpack, IndexedHash.Valid, IndexedHash.Contents, ToMap, LiveMap, Bounded;
      if form.Hot? {
        p := form.table.Pairs();
        HotForever(form.table, now);
      } else {
        p := ColdPairs(now);
      }
    }

    lemma AbsentLive(now: int)
      requires form.Absent?
      ensures Live(now) == map[]
    {
      LiveMeans(Stored(), now);
    }

    /** No field of a HOT table ever expires. */
    lemma HotLive(now: int)
      requires Valid()
      ensures form.Hot? ==> Live(now) == Stored()
    {
      hide LiveMap, Bounded;
      if form.Hot? { HotForever(form.table, now); }
    }

    /** Counts bytes as written. */
    method Spend(n: nat)
      requires Valid()
      modifies `spent
      ensures Valid() && spent == old(spent) + n && Bounded(Stored(), old(spent))
      ensures form.Hot? ==> |form.table.payload| <= old(spent)
      ensures Repr() == old(Repr()) && Stored() == old(Stored()) && Snap() == old(Snap())
      ensures forall now :: Live(now) == old(Live(now))
    {
      hide Bounded, IndexedHash.Valid, HotHash.HotHash.Valid;
      spent := spent + n;
      BoundedMore(Stored(), old(spent), spent);
    }

    // ---- publishing a new form ----

    /** Stores pairs in the packed layout; `grant` is the memory limit's answer. */
    method PublishPacked(p: seq<Pair>, grant: bool) returns (ok: bool)
      requires Valid() && Sorted(p) && PackedHash.Stamped(p, true) && Bounded(ToMap(p), spent)
      modifies `form
      ensures Valid() && (ok <==> grant && PackedHash.Fits(p))
      ensures ok ==> form.Packed? && Stored() == ToMap(p)
      ensures !ok ==> form == old(form)
    {
      hide PackedHash.Unpack, PackedHash.Packed, PackedHash.Fits, IndexedHash.Valid, ToMap, Bounded;
      var r := PackedHash.EncodeSorted(p);
      if r.None? || !grant { return false; }
      PackedHash.FitsRoundTrip(p);
      form := Packed(r.value);
      return true;
    }

    /** Stores pairs in the indexed layout. */
    method PublishIndexed(p: seq<Pair>, grant: bool) returns (ok: bool)
      requires Valid() && Sorted(p) && Bounded(ToMap(p), spent)
      modifies `form
      ensures Valid() && (ok <==> grant && IndexedHash.Encodes(p))
      ensures ok ==> form.Indexed? && fresh(form.data) && Stored() == ToMap(p)
      ensures ok ==> IndexedHash.BuiltFrom(form.data[..], p)
      ensures !ok ==> form == old(form)
    {
      hide PackedHash.Unpack, IndexedHash.Encodes, IndexedHash.BuiltFrom, ToMap, Bounded, IndexedHash.Contents;
      var r := IndexedHash.Encode(p, fieldHash);
      if r.None? || !grant { return false; }
      PublishBuffer(r.value);
      return true;
    }

    method PublishBuffer(d: seq<byte>)
      requires IndexedHash.Valid(d, fieldHash) && Bounded(IndexedHash.Contents(d), spent)
      modifies `form
      ensures Valid() && form.Indexed? && fresh(form.data) && form.data[..] == d && Stored() == IndexedHash.Contents(d)
    {
      hide Bounded, IndexedHash.Contents, IndexedHash.Valid, IndexedHash.Meta;
      var data := new byte[|d|](i requires 0 <= i < |d| => d[i]);
      assert data[..] == d;
      form := Indexed(data);
      assert IndexedHash.Meta(d) by { IndexedHash.ValidMeta(d, fieldHash); }
    }

    /** Stores live pairs packed; without any the key goes. */
    method Publish(q: seq<Pair>, ghost now: int, grant: bool) returns (ok: bool)
      requires Valid() && Sorted(q) && PackedHash.Stamped(q, true) && Bounded(ToMap(q), spent)
      requires LiveMap(ToMap(q), now) == ToMap(q)
      modifies `form
      ensures Valid() && fresh(Repr() - old(Repr()))
      ensures ok <==> Publishes(ToMap(q), grant)
      ensures ok ==> Live(now) == ToMap(q) && (ToMap(q) == map[] ==> form.Absent?)
      ensures !ok ==> form == old(form)
      ensures grant && Storable(ToMap(q)) ==> ok
    {
      hide ToMap, LiveMap, Bounded, Sorted, PackedHash.Fits, PackedHash.Stamped, IndexedHash.TotalSize, Publishes,
        HashKey.Stored, IndexedHash.Valid, HotHash.HotHash.Valid, PackedHash.Unpack;
      PublishesFor(q, grant);
      if |q| == 0 {
        EmptyMap(q);
        Remove(now);
        return true;
      }
      SortedDistinct(q);
      ToMapSize(q);
      ok := PublishPacked(q, grant);
    }

    /** What is left of the live fields is alive and no larger. */
    lemma LeftAlive(remove: set<Field>, now: int)
      requires Valid()
      ensures var left := Live(now) - remove; LiveMap(left, now) == left && Bounded(left, spent)
    {
      hide LiveMap, Bounded, HashKey.Stored;
      DeletedLeft(Stored(), spent, remove, now);
    }

    // ---- HSET ----

    /** HSET.  On success the live fields are the old ones with every pair written in order, and the
        answer is the number of new fields.  A refused HSET changes nothing, except that an indexed
        hash keeps the fields it set in place before it had to be rebuilt. */
    method Set(fields: seq<Field>, values: seq<seq<byte>>, now: int, grant: bool) returns (added: Option<nat>)
      requires Valid() && (|fields| == |values| ==> spent + WriteBytes(fields, values) < TWO32)
      modifies this, Repr()
      ensures Valid() && fresh(Repr() - old(Repr()))
      ensures fields == [] || |fields| != |values| ==> added == None && form == old(form) && Stored() == old(Stored())
      ensures |fields| == |values| ==> spent == old(spent) + WriteBytes(fields, values)
      ensures added.Some? ==> |fields| == |values|
      ensures fields != [] && |fields| == |values| ==>
        SetDone(old(Snap()), old(Live(now)), Snap(), Live(now), fields, values, grant, added)
      ensures added.None? && |fields| == |values| ==> Live(now) == LeftBy(old(Snap()), old(Live(now)), fields, values)
      ensures fields != [] && |fields| == |values| ==>
        (added.Some? || Live(now) == old(Live(now)) <==>
         AllOrNothing(old(Snap()), old(Live(now)), fields, values, grant))
    {
      hide Bounded, SetAll, Storable, Built, NoDeadlines, InPlace, LeftBy, SetPasses, AllOrNothing, HashKey.Valid,
        HashKey.Stored, HashKey.Live, HashKey.Snap, HashKey.Repr;
      if |fields| != |values| { return None; }
      AllOrNothingIs(Snap(), Live(now), fields, values, grant);
      if |fields| == 0 { return None; }
      added := SetForm(fields, values, now, grant);
    }

    /** HSET in the form that the hash has. */
    method SetForm(fields: seq<Field>, values: seq<seq<byte>>, now: int, grant: bool)
      returns (added: Option<nat>)
      requires Valid() && 0 < |fields| == |values| && spent + WriteBytes(fields, values) < TWO32
      modifies this, Repr()
      ensures Valid() && fresh(Repr() - old(Repr())) && spent == old(spent) + WriteBytes(fields, values)
      ensures SetDone(old(Snap()), old(Live(now)), Snap(), Live(now), fields, values, grant, added)
    {
      hide SetDone, WriteBytes, HashKey.Valid, HashKey.Stored, HashKey.Live, HashKey.Snap;
      if form.Hot? {
        added := SetHot(fields, values, now, grant);
      } else if form.Indexed? {
        added := SetIndexed(fields, values, now, grant);
      } else {
        added := SetCold(fields, values, now, grant);
      }
    }

    method SetHot(fields: seq<Field>, values: seq<seq<byte>>, ghost now: int, ghost grant: bool)
      returns (added: Option<nat>)
      requires Valid() && form.Hot? && |fields| == |values| && spent + WriteBytes(fields, values) < TWO32
      modifies `spent, form.table
      ensures Valid() && form == old(form) && spent == old(spent) + WriteBytes(fields, values)
      ensures SetDone(old(Snap()), old(Live(now)), Snap(), Live(now), fields, values, grant, added)
    {
      hide LiveMap, Bounded, SetAll, WriteBytes, Storable, ColdFits, HotHash.HotHash.Valid;
      HotForever(form.table, now);
      BoundedSetAll(Stored(), spent, fields, values);
      spent := spent + WriteBytes(fields, values);
      var n := HotSetAll(form.table, fields, values);
      HotForever(form.table, now);
      return Some(n);
    }

    method SetIndexed(fields: seq<Field>, values: seq<seq<byte>>, ghost now: int, grant: bool)
      returns (added: Option<nat>)
      requires Valid() && form.Indexed? && |fields| == |values|
      modifies `spent, `form, form.data
      ensures Valid() && fresh(Repr() - old(Repr())) && spent == old(spent) + WriteBytes(fields, values)
      ensures SetDone(old(Snap()), old(Live(now)), Snap(), Live(now), fields, values, grant, added)
    {
      hide IndexedHash.Contents, IndexedHash.Meta, IndexedHash.Valid, Bounded, SetAll, WriteBytes, SetDone, InPlace,
        HashKey.Live, HashKey.Stored;
      IndexedLive(now);
      BoundedPrefixes(Stored(), spent, fields, values);
      BoundedSetAll(Stored(), spent, fields, values);
      BoundedMore(Stored(), spent, spent + WriteBytes(fields, values));
      spent := spent + WriteBytes(fields, values);
      IndexedLive(now);
      added := EditIndexed(fields, values, now, grant);
    }

    /** Edits the buffer of an indexed hash, or publishes a rebuilt one. */
    method EditIndexed(fields: seq<Field>, values: seq<seq<byte>>, ghost now: int, grant: bool)
      returns (added: Option<nat>)
      requires FormValid() && form.Indexed? && |fields| == |values| && Bounded(Stored(), spent)
      requires Bounded(SetAll(Stored(), fields, values), spent)
      requires Bounded(LeftBy(Snap(), Live(now), fields, values), spent)
      modifies `form, form.data
      ensures Valid() && fresh(Repr() - old(Repr()))
      ensures SetDone(old(Snap()), old(Live(now)), Snap(), Live(now), fields, values, grant, added)
    {
      hide IndexedHash.Contents, IndexedHash.Meta, IndexedHash.Valid, IndexedHash.InPlace, IndexedHash.EditsWhole,
        IndexedHash.TooLarge, Storable, ColdFits, Bounded, SetAll, Built, HashKey.Live, HashKey.Stored;
      IndexedLive(now);
      ghost var m := Stored();
      SetAllWhole(m, fields, values);
      var n, rebuilt, ok;
      ghost var k;
      n, rebuilt, ok, k := IndexedHash.Set(form.data, fields, values, fieldHash);
      IndexedLive(now);
      if !ok {
        StorableFits(SetAll(m, fields, values), spent);
        return None;
      }
      if rebuilt.None? { return Some(n); }
      if !grant { return None; }
      PublishBuffer(rebuilt.value);
      IndexedLive(now);
      return Some(n);
    }

    /** The live fields of an indexed hash are those of its buffer. */
    lemma IndexedLive(now: int)
      requires FormValid() && form.Indexed?
      ensures IndexedHash.Meta(form.data[..]) && |form.data[..]| <= PackedHash.MAX_BYTES
      ensures Live(now) == Stored() == IndexedHash.Contents(form.data[..])
    {
      hide IndexedHash.Contents, LiveMap;
      IndexedHash.ValidMeta(form.data[..], fieldHash);
      IndexedForever(form.data[..], fieldHash, now);
    }

    method SetCold(fields: seq<Field>, values: seq<seq<byte>>, now: int, grant: bool) returns (added: Option<nat>)
      requires Valid() && (form.Packed? || form.Absent?) && |fields| == |values| > 0
      modifies `spent, `form
      ensures Valid() && fresh(Repr() - old(Repr())) && spent == old(spent) + WriteBytes(fields, values)
      ensures SetDone(old(Snap()), old(Live(now)), Snap(), Live(now), fields, values, grant, added)
    {
      hide LiveMap, Bounded, SetAll, WriteBytes, SetDone, PackedHash.Unpack, ToMap;
      ColdBounds(fields, values, now);
      BoundedMore(Stored(), spent, spent + WriteBytes(fields, values));
      spent := spent + WriteBytes(fields, values);
      added := WriteCold(fields, values, now, grant);
    }

    /** Writes the pairs of a packed or absent hash and publishes them in the layout they take. */
    method WriteCold(fields: seq<Field>, values: seq<seq<byte>>, now: int, grant: bool) returns (added: Option<nat>)
      requires Valid() && (form.Packed? || form.Absent?) && |fields| == |values| > 0
      requires Bounded(SetAll(Live(now), fields, values), spent)
      requires LiveMap(SetAll(Live(now), fields, values), now) == SetAll(Live(now), fields, values)
      modifies `form
      ensures Valid() && fresh(Repr() - old(Repr()))
      ensures SetDone(old(Snap()), old(Live(now)), Snap(), Live(now), fields, values, grant, added)
    {
      hide ToMap, LiveMap, Bounded, SetAll, PackedHash.Unpack, PackedHash.Fits, PackedHash.Stamped,
        IndexedHash.TotalSize, ColdFits, IndexedHash.BuiltFrom, IndexedHash.Valid, IndexedHash.Contents, Sorted;
      SetAllWhole(Live(now), fields, values);
      var before := ColdPairs(now);
      var p, n := PutFields(before, fields, values);
      SortedDistinct(p);
      ColdFitsFor(p);
      DeadlinesOf(p);
      ToMapSize(p);
      var ok;
      if IndexedHash.NoExpiry(p) && |p| >= INDEX_FIELDS { ok := PublishIndexed(p, grant); }
      else { ok := PublishPacked(p, grant); }
      if !ok { return None; }
      return Some(n);
    }

    lemma ColdBounds(fields: seq<Field>, values: seq<seq<byte>>, now: int)
      requires Valid() && |fields| == |values|
      ensures Bounded(SetAll(Live(now), fields, values), spent + WriteBytes(fields, values))
      ensures LiveMap(SetAll(Live(now), fields, values), now) == SetAll(Live(now), fields, values)
    {
      hide LiveMap, Bounded, SetAll, WriteBytes, HashKey.Stored;
      BoundedLive(Stored(), spent, now);
      BoundedSetAll(Live(now), spent, fields, values);
      LiveLater(Stored(), now, now);
      LiveSetAll(Stored(), fields, values, now);
      LiveSetAll(Live(now), fields, values, now);
    }

    // ---- HDEL ----

    /** HDEL.  On success the named fields are gone from the live ones, and the answer is how many there
        were; the key goes with its last field. */
    method Del(fields: seq<Field>, now: int, grant: bool) returns (deleted: Option<nat>)
      requires Valid()
      modifies this, Repr()
      ensures Valid() && fresh(Repr() - old(Repr())) && spent == old(spent)
      ensures deleted.Some? ==> Live(now) == old(Live(now)) - (set f | f in fields)
      ensures deleted.Some? ==> deleted.value == |old(Live(now))| - |Live(now)|
      ensures deleted.Some? && deleted.value > 0 && |Live(now)| == 0 ==> form.Absent?
      ensures deleted.None? ==> form == old(form) && Stored() == old(Stored()) && Live(now) == old(Live(now))
      ensures deleted.Some? <==> DelPasses(old(Snap()), old(Live(now)), old(Live(now)) - (set f | f in fields), grant)
      ensures grant && Storable(old(Live(now)) - (set f | f in fields)) ==> deleted.Some?
    {
      hide PackedHash.Unpack, IndexedHash.Valid, IndexedHash.Contents, ToMap, LiveMap, Bounded, Storable;
      if fields == [] {
        assert Live(now) - (set f | f in fields) == Live(now);
        return Some(0);
      }
      if form.Hot? {
        var n := DelHot(fields, now);
        return Some(n);
      }
      deleted := DelCold((set f | f in fields), now, grant);
    }

    method DelHot(fields: seq<Field>, ghost now: int) returns (deleted: nat)
      requires Valid() && form.Hot?
      modifies `form, form.table
      ensures Valid() && Repr() <= old(Repr())
      ensures Live(now) == old(Live(now)) - (set f | f in fields)
      ensures deleted == |old(Live(now))| - |Live(now)|
      ensures deleted > 0 && |Live(now)| == 0 ==> form.Absent?
    {
      hide LiveMap, Bounded, ToMap, HotHash.AllRead, HotHash.Indexes;
      var h := form.table;
      HotForever(h, now);
      BoundedMinus(h.View(), spent, set f | f in fields);
      deleted := h.Delete(fields);
      HotForever(h, now);
      HotSize(h);
      if deleted != 0 && |h.records| == 0 { Remove(now); }
    }

    method DelCold(remove: set<Field>, now: int, grant: bool) returns (deleted: Option<nat>)
      requires Valid() && !form.Hot?
      modifies `form
      ensures Valid() && fresh(Repr() - old(Repr()))
      ensures deleted.Some? ==> Live(now) == Without(old(Live(now)), remove)
      ensures deleted.Some? ==> deleted.value == |old(Live(now))| - |Live(now)|
      ensures deleted.Some? && deleted.value > 0 && |Live(now)| == 0 ==> form.Absent?
      ensures deleted.None? ==> form == old(form)
      ensures deleted.Some? <==> DelPasses(old(Snap()), old(Live(now)), Without(old(Live(now)), remove), grant)
      ensures grant && Storable(Without(old(Live(now)), remove)) ==> deleted.Some?
    {
      hide ToMap, LiveMap, Bounded, Storable, PackedHash.Unpack, PackedHash.Stamped, IndexedHash.Valid,
        IndexedHash.Contents, Sorted, Publishes, Without;
      LeftAlive(remove, now);
      WithoutIs(Live(now), remove);
      var p := ColdPairs(now);
      var kept, n := KeepOthers(p, remove);
      if n == 0 { return Some(0); }
      KeptStamped(p, kept);
      var ok := Publish(kept, now, grant);
      if !ok { return None; }
      return Some(n);
    }

    /** The key goes. */
    method Remove(ghost now: int)
      requires Valid()
      modifies `form
      ensures Valid() && form.Absent? && Live(now) == map[]
    {
      form := Absent;
      BoundedNothing();
      BoundedMore(map[], 0, spent);
    }

    // ---- changing form ----

    /** Moves a hash with enough live fields and no deadlines into a HOT table; the live fields stay. */
    method Thaw(now: int, unlimited: bool) returns (hot: bool)
      requires Valid() && spent < TWO32
      modifies `form
      ensures Valid() && fresh(Repr() - old(Repr()))
      ensures Live(now) == old(Live(now)) && (hot <==> form.Hot?)
      ensures hot <==> Warms(old(Snap()), old(Live(now)), unlimited)
      ensures form == old(form) || form.Hot?
    {
      hide PackedHash.Unpack, IndexedHash.Valid, IndexedHash.Contents, ToMap, LiveMap, Bounded;
      if form.Hot? { return true; }
      if !unlimited || form.Absent? { return false; }
      var p := ColdPairs(now);
      SortedDistinct(p);
      ToMapSize(p);
      DeadlinesOf(p);
      if |p| < PROMOTE_FIELDS || !IndexedHash.NoExpiry(p) { return false; }
      BoundedLive(Stored(), spent, now);
      BoundedPairs(p, spent);
      var h := HotHash.NewHotHash(hotHash, p);
      form := Hot(h);
      HotForever(h, now);
      return true;
    }

    /** Moves a HOT table back into a cold layout with the same fields. */
    method Freeze(grant: bool) returns (ok: bool)
      requires Valid()
      modifies `form
      ensures Valid() && fresh(Repr() - old(Repr())) && Stored() == old(Stored())
      ensures ok ==> !form.Hot?
      ensures !ok ==> form == old(form) && form.Hot?
      ensures ok <==> Freezes(old(Snap()), old(Stored()), grant)
      ensures grant && Storable(Stored()) ==> ok
    {
      hide PackedHash.Unpack, IndexedHash.Valid, IndexedHash.Contents, ToMap, Bounded, PackedHash.Fits,
        IndexedHash.TotalSize;
      if !form.Hot? { return true; }
      var p := form.table.Pairs();
      HotForever(form.table, 0);
      DeadlinesOf(p);
      SortedDistinct(p);
      ColdFitsFor(p);
      if |p| >= INDEX_FIELDS && IndexedHash.NoExpiry(p) {
        ok := PublishIndexed(p, grant);
      } else {
        ok := PublishPacked(p, grant);
      }
    }

    // ---- a batch of single-field HSETs ----

    /** Which of the fields are alive, looked up the way the form allows. */
    method Existing(fields: seq<Field>, now: int) returns (found: set<Field>)
      requires Valid() && !form.Hot?
      ensures forall f :: f in fields ==> (f in found <==> f in Live(now))
    {
      hide PackedHash.Unpack, IndexedHash.Valid, IndexedHash.Contents, ToMap, LiveMap, Bounded;
      found := {};
      if form.Indexed? {
        for i := 0 to |fields|
          invariant forall f :: f in fields[..i] ==> (f in found <==> f in Live(now))
          invariant forall f :: f in found ==> f in Live(now)
        {
          assert fields[..i + 1] == fields[..i] + [fields[i]];
          if fields[i] in found { continue; }
          var r := IndexedHash.Lookup(form.data[..], fields[i], fieldHash);
          IndexedForever(form.data[..], fieldHash, now);
          if r.value.Some? { found := found + {fields[i]}; }
        }
        assert fields[..|fields|] == fields;
      } else {
        var p := ColdPairs(now);
        found := set x | x in p :: x.field;
        forall f | f in fields
          ensures f in found <==> f in Live(now)
        {
          ToMapHas(p, f);
        }
      }
    }

    /** Single-field HSETs for one key under one lock: the answers are those of the commands one by
        one, and the hash may move to the HOT form before or after them. */
    method SetResults(fields: seq<Field>, values: seq<seq<byte>>, now: int, unlimited: bool, grant: bool)
      returns (results: Option<seq<nat>>)
      requires Valid() && (|fields| == |values| ==> spent + WriteBytes(fields, values) < TWO32)
      modifies this, Repr()
      ensures Valid() && fresh(Repr() - old(Repr()))
      ensures fields == [] || |fields| != |values| ==>
        results == None && form == old(form) && Stored() == old(Stored()) && spent == old(spent)
      ensures |fields| == |values| ==> spent <= old(spent) + WriteBytes(fields, values)
      ensures results.Some? ==> |fields| == |values| && Live(now) == SetAll(old(Live(now)), fields, values)
      ensures results.Some? ==> results.value == Results(old(Live(now)), fields)
      ensures fields != [] && |fields| == |values| ==>
        (results.Some? <==>
         Warms(old(Snap()), old(Live(now)), unlimited) || SetPasses(old(Snap()), old(Live(now)), fields, values, grant))
      ensures fields != [] && |fields| == |values| ==>
        (results.Some? || Live(now) == old(Live(now)) <==>
         Warms(old(Snap()), old(Live(now)), unlimited) ||
         AllOrNothing(old(Snap()), old(Live(now)), fields, values, grant))
      ensures results.None? && fields != [] && |fields| == |values| ==> InPlace(old(Snap()), fields, values) < |fields|
      ensures results.None? && |fields| == |values| ==> Live(now) == LeftBy(old(Snap()), old(Live(now)), fields, values)
      ensures fields != [] && |fields| == |values| && grant && Storable(SetAll(old(Live(now)), fields, values)) ==>
        results.Some?
    {
      hide SetAll, WriteBytes, Storable, Results, HashKey.Valid, HashKey.Live, HashKey.Stored, InPlace, LeftBy,
        SetPasses, AllOrNothing, Promotes;
      assert forall o | o in Repr() :: allocated(o);
      if |fields| == |values| {
        SetAllWhole(Live(now), fields, values);
        AllOrNothingIs(Snap(), Live(now), fields, values, grant);
      }
      if |fields| == 0 || |fields| != |values| { return None; }
      if !form.Absent? {
        var hot := Thaw(now, unlimited);
        if hot {
          var r := ResultsHot(fields, values, now);
          return Some(r);
        }
      }
      results := ResultsCold(fields, values, now, grant);
      if results.None? { return; }
      var promote := CountsForPromotion(now);
      if promote { var hot := Thaw(now, unlimited); }
    }

    method ResultsCold(fields: seq<Field>, values: seq<seq<byte>>, now: int, grant: bool)
      returns (results: Option<seq<nat>>)
      requires Valid() && !form.Hot? && 0 < |fields| == |values| && spent + WriteBytes(fields, values) < TWO32
      modifies this, Repr()
      ensures Valid() && fresh(Repr() - old(Repr())) && spent == old(spent) + WriteBytes(fields, values)
      ensures results.Some? ==>
        Live(now) == SetAll(old(Live(now)), fields, values) && results.value == Results(old(Live(now)), fields)
      ensures results.None? ==> Live(now) == LeftBy(old(Snap()), old(Live(now)), fields, values)
      ensures results.None? ==> InPlace(old(Snap()), fields, values) < |fields|
      ensures results.Some? <==> SetPasses(old(Snap()), old(Live(now)), fields, values, grant)
      ensures grant && Storable(SetAll(old(Live(now)), fields, values)) ==> results.Some?
    {
      hide SetAll, WriteBytes, Storable, Results, ColdFits, HashKey.Valid, HashKey.Live, InPlace, LeftBy, SetPasses,
        AllOrNothing, Built, NoDeadlines, HashKey.Stored, HashKey.FormValid, HashKey.Snap;
      assert forall o | o in Repr() :: allocated(o);
      var existing := Existing(fields, now);
      var r := FirstWrites(existing, fields, Live(now));
      var added := Set(fields, values, now, grant);
      if added.None? { return None; }
      return Some(r);
    }

    method ResultsHot(fields: seq<Field>, values: seq<seq<byte>>, ghost now: int) returns (results: seq<nat>)
      requires Valid() && form.Hot? && |fields| == |values| && spent + WriteBytes(fields, values) < TWO32
      modifies `spent, form.table
      ensures Valid() && spent == old(spent) + WriteBytes(fields, values)
      ensures Live(now) == SetAll(old(Live(now)), fields, values) && results == Results(old(Live(now)), fields)
    {
      hide LiveMap, Bounded, SetAll, WriteBytes, Results, HotHash.AllRead, HotHash.Indexes;
      HotForever(form.table, now);
      BoundedSetAll(Stored(), spent, fields, values);
      results := HotSetResults(form.table, fields, values);
      spent := spent + WriteBytes(fields, values);
      HotForever(form.table, now);
    }

    /** Whether a cold hash has enough live fields to be promoted. */
    method CountsForPromotion(now: int) returns (promote: bool)
      requires Valid()
      ensures promote <==> !form.Hot? && |Live(now)| >= PROMOTE_FIELDS
    {
      hide PackedHash.Unpack, IndexedHash.Contents, ToMap, LiveMap, Bounded;
      if form.Hot? { return false; }
      if form.Indexed? {
        IndexedForever(form.data[..], fieldHash, now);
        IndexedCount(form.data[..], fieldHash);
        return Word(form.data[..], 3, 4) >= PROMOTE_FIELDS;
      }
      var p := ColdPairs(now);
      SortedDistinct(p);
      ToMapSize(p);
      return |p| >= PROMOTE_FIELDS;
    }

    // ---- field deadlines ----

    /** HPEXPIREAT with a condition.  A HOT hash is frozen first.  On success the live fields are what
        the command makes of them on a plain map, and the answers are the map's answers. */
    method ExpireAt(fields: seq<Field>, when: int, c: Condition, now: int, grant: bool)
      returns (results: Option<seq<int>>)
      requires Valid() && Int64(when)
      modifies `form
      ensures Valid() && fresh(Repr() - old(Repr())) && (fields == [] ==> results == None)
      ensures results.Some? ==> results.value == ExpireAll(old(Live(now)), fields, when, c, now).out
      ensures results.Some? ==> Live(now) == Expired(old(Live(now)), fields, when, c, now)
      ensures results.None? ==> Live(now) == old(Live(now))
      ensures results.Some? <==> fields != [] && ExpirePasses(old(Snap()), old(Live(now)), fields, when, c, now, grant)
      ensures fields != [] && grant && c != Other && Storable(old(Live(now))) ==>
        Storable(Expired(old(Live(now)), fields, when, c, now)) ==> results.Some?
    {
      hide ToMap, LiveMap, Bounded, Storable, ExpireAll, Publishes, ColdFits, Touches, HashKey.FormValid,
        HashKey.Stored;
      if |fields| == 0 { return None; }
      if form.Absent? {
        AbsentLive(now);
        ghost var none := ExpireNothing(fields, when, c, now);
        return Some(seq(|fields|, _ => -2));
      }
      HotLive(now);
      var frozen := Freeze(grant);
      if !frozen { return None; }
      var p := ColdPairs(now);
      var q, remove, out, changed := ExpirePairs(p, fields, when, c, now);
      if out.None? { return None; }
      if !changed { return out; }
      var ok := PublishExpired(p, q, remove, fields, when, c, now, grant);
      if !ok { return None; }
      return out;
    }

    /** Stores the pairs left after a deadline command. */
    method PublishExpired(ghost p: seq<Pair>, q: seq<Pair>, remove: set<Field>, ghost fields: seq<Field>,
                          ghost when: int,
                          ghost c: Condition, ghost now: int, grant: bool)
      returns (ok: bool)
      requires Valid() && Sorted(p) && ToMap(p) == Live(now) && Sorted(q) && PackedHash.Stamped(q, true)
      requires var g := ExpireAll(ToMap(p), fields, when, c, now); ToMap(q) == g.m && remove == g.gone
      modifies `form
      ensures Valid() && fresh(Repr() - old(Repr()))
      ensures ok ==> Live(now) == ToMap(q) - remove
      ensures !ok ==> form == old(form)
      ensures ok <==> Publishes(ToMap(q) - remove, grant)
      ensures grant && Storable(ToMap(q) - remove) ==> ok
    {
      hide ToMap, LiveMap, Bounded, ExpireAll, Storable, Sorted, PackedHash.Stamped, Publishes, HashKey.Stored,
        HashKey.FormValid;
      assert forall o | o in Repr() :: allocated(o);
      ExpiredLeft(Stored(), spent, q, remove, fields, when, c, now);
      var kept := DropRemoved(q, remove);
      ok := Publish(kept, now, grant);
    }

    // ---- HSETEX ----

    /** HSETEX: the condition is judged on the live fields before the command; then every pair is
        written, with the given deadline, the old one, or none. */
    method SetEx(fields: seq<Field>, values: seq<seq<byte>>, c: FieldCondition, at: Option<int>, keep: bool, now: int,
                 grant: bool)
      returns (done: Option<bool>)
      requires Valid() && (|fields| == |values| ==> spent + WriteBytes(fields, values) < TWO32)
      requires at.Some? ==> Int64(at.value)
      modifies this
      ensures Valid() && fresh(Repr() - old(Repr()))
      ensures fields == [] || |fields| != |values| || c.Unknown? ==> done == None
      ensures |fields| == |values| ==> spent <= old(spent) + WriteBytes(fields, values)
      ensures |fields| != |values| ==> spent == old(spent)
      ensures done.Some? ==> |fields| == |values| && (done.value <==> Admits(c, old(Live(now)), fields))
      ensures done == Some(true) ==> Live(now) == LiveMap(SetExAll(old(Live(now)), fields, values, at, keep), now)
      ensures done != Some(true) ==> Live(now) == old(Live(now))
      ensures fields != [] && |fields| == |values| ==>
        (done.Some? <==> SetExPasses(old(Snap()), old(Live(now)), fields, values, c, at, keep, now, grant))
      ensures fields != [] && |fields| == |values| && !c.Unknown? && grant && Storable(old(Live(now))) ==>
        Storable(SetExLeft(old(Live(now)), fields, values, c, at, keep, now)) ==> done.Some?
    {
      hide LiveMap, Bounded, WriteBytes, SetExAll, Admits, Publishes, Storable, ColdFits, HashKey.FormValid,
        HashKey.Stored;
      if |fields| == 0 || |fields| != |values| { return None; }
      HotLive(now);
      var frozen := Freeze(grant);
      if !frozen { return None; }
      done := SetExCold(fields, values, c, at, keep, now, grant);
    }

    /** HSETEX on a hash that is not HOT. */
    method SetExCold(fields: seq<Field>, values: seq<seq<byte>>, c: FieldCondition, at: Option<int>, keep: bool,
                     now: int, grant: bool)
      returns (done: Option<bool>)
      requires Valid() && !form.Hot? && 0 < |fields| == |values| && (at.Some? ==> Int64(at.value))
      modifies this
      ensures Valid() && fresh(Repr() - old(Repr())) && old(spent) <= spent <= old(spent) + WriteBytes(fields, values)
      ensures done.Some? ==> (done.value <==> Admits(c, old(Live(now)), fields))
      ensures done == Some(true) ==> Live(now) == LiveMap(SetExAll(old(Live(now)), fields, values, at, keep), now)
      ensures done != Some(true) ==> Live(now) == old(Live(now))
      ensures done.Some? <==> !c.Unknown? && (Admits(c, old(Live(now)), fields) ==>
          Publishes(LiveMap(SetExAll(old(Live(now)), fields, values, at, keep), now), grant))
      ensures !c.Unknown? && grant && Storable(SetExLeft(old(Live(now)), fields, values, c, at, keep, now)) ==>
        done.Some?
    {
      hide ToMap, LiveMap, Bounded, WriteBytes, SetExAll, Admits, Publishes, Storable, PackedHash.Unpack,
        PackedHash.Stamped, IndexedHash.Valid, IndexedHash.Contents, Sorted;
      SetExBounded(fields, values, at, keep, now);
      var p := ColdPairs(now);
      if c.Unknown? { return None; }
      var admitted := CheckFields(p, fields, c);
      if !admitted { return Some(false); }
      var q := PutFieldsEx(p, fields, values, at, keep);
      Spend(WriteBytes(fields, values));
      if at.Some? && at.value <= now { q := LiveStamped(q, now); }
      var ok := Publish(q, now, grant);
      if !ok { return None; }
      return Some(true);
    }

    lemma SetExBounded(fields: seq<Field>, values: seq<seq<byte>>, at: Option<int>, keep: bool, now: int)
      requires Valid() && |fields| == |values|
      ensures var m, n := SetExAll(Live(now), fields, values, at, keep), spent + WriteBytes(fields, values);
        Bounded(m, n) && Bounded(LiveMap(m, now), n) && LiveMap(LiveMap(m, now), now) == LiveMap(m, now)
      ensures !(at.Some? && at.value <= now) ==>
        var m := SetExAll(Live(now), fields, values, at, keep); LiveMap(m, now) == m
    {
      hide LiveMap, Bounded, WriteBytes, SetExAll, HashKey.Stored;
      BoundedLive(Stored(), spent, now);
      BoundedSetEx(Live(now), spent, fields, values, at, keep);
      SetExLater(Stored(), fields, values, at, keep, now);
      var m := SetExAll(Live(now), fields, values, at, keep);
      BoundedLive(m, spent + WriteBytes(fields, values), now);
      LiveLater(m, now, now);
    }
  }

  datatype FieldCondition = Any | FXX | FNX | Unknown

  predicate Admits(c: FieldCondition, m: map<Field, Entry>, fields: seq<Field>)
  {
    match c
    case FXX => forall f :: f in fields ==> f in m
    case FNX => forall f :: f in fields ==> f !in m
    case _ => true
  }

  /** The live fields after HSETEX. */
  function SetExLeft(m: map<Field, Entry>, fields: seq<Field>, values: seq<seq<byte>>, c: FieldCondition,
                     at: Option<int>, keep: bool, now: int): map<Field, Entry>
    requires |fields| == |values|
  {
    if Admits(c, m, fields) then LiveMap(SetExAll(m, fields, values, at, keep), now) else m
  }

  /** The condition, by counting the fields that are present. */
  method CheckFields(p: seq<Pair>, fields: seq<Field>, c: FieldCondition) returns (ok: bool)
    requires Sorted(p) && !c.Unknown?
    ensures ok <==> Admits(c, ToMap(p), fields)
  {
    hide ToMap, Sorted;
    if c.Any? { return true; }
    var found := 0;
    for i := 0 to |fields|
      invariant 0 <= found <= i
      invariant found == i <==> forall f :: f in fields[..i] ==> f in ToMap(p)
      invariant found == 0 <==> forall f :: f in fields[..i] ==> f !in ToMap(p)
    {
      assert fields[..i + 1] == fields[..i] + [fields[i]];
      var idx := Search(p, fields[i]);
      if idx < |p| && p[idx].field == fields[i] { found := found + 1; }
    }
    assert fields[..|fields|] == fields;
    return if c.FXX? then found == |fields| else found == 0;
  }

  /** Writes fields with deadlines into sorted pairs. */
  method PutFieldsEx(before: seq<Pair>, fields: seq<Field>, values: seq<seq<byte>>, at: Option<int>, keep: bool)
    returns (p: seq<Pair>)
    requires Sorted(before) && PackedHash.Stamped(before, true) && |fields| == |values|
    requires (at.Some? ==> Int64(at.value))
    ensures Sorted(p) && PackedHash.Stamped(p, true) && ToMap(p) == SetExAll(ToMap(before), fields, values, at, keep)
  {
    hide ToMap, SetExAll, Upsert, Sorted;
    ghost var m := ToMap(before);
    p := before;
    SetExWhole(m, fields, values, at, keep);
    for j := 0 to |fields|
      invariant Sorted(p) && PackedHash.Stamped(p, true) && ToMap(p) == SetExAll(m, fields[..j], values[..j], at, keep)
    {
      var f := fields[j];
      var idx := Search(p, f);
      var ttl := 0;
      if idx < |p| && p[idx].field == f {
        SortedDistinct(p);
        ToMapAt(p, idx);
        if keep { ttl := p[idx].expiresAt; }
      }
      if at.Some? { ttl := at.value; }
      var x := Pair(f, values[j], ttl);
      UpsertAt(p, x, idx);
      UpsertKeeps(p, x);
      UpsertStamped(p, x);
      SetExNext(m, fields, values, at, keep, j);
      p := if idx < |p| && p[idx].field == f then p[idx := x] else p[..idx] + [x] + p[idx..];
    }
  }

  lemma SetExWhole(m: map<Field, Entry>, fields: seq<Field>, values: seq<seq<byte>>, at: Option<int>, keep: bool)
    requires |fields| == |values|
    ensures SetExAll(m, fields[..0], values[..0], at, keep) == m
    ensures SetExAll(m, fields[..|fields|], values[..|fields|], at, keep) == SetExAll(m, fields, values, at, keep)
  {
    assert fields[..|fields|] == fields && values[..|fields|] == values;
  }

  /** Unless the deadline is past, everything HSETEX writes is alive. */
  lemma SetExLater(stored: map<Field, Entry>, fields: seq<Field>, values: seq<seq<byte>>, at: Option<int>, keep: bool,
                   now: int)
    requires |fields| == |values|
    ensures !(at.Some? && at.value <= now) ==>
      var live := SetExAll(LiveMap(stored, now), fields, values, at, keep);
      LiveMap(live, now) == live
  {
    hide LiveMap, SetExAll;
    AllLiveMap(stored, now);
    if !(at.Some? && at.value <= now) {
      SetExLive(LiveMap(stored, now), fields, values, at, keep, now);
      AllLiveMap(SetExAll(LiveMap(stored, now), fields, values, at, keep), now);
    }
  }

  /** What is left after a deletion is alive, and takes no more bytes than before. */
  lemma DeletedLeft(stored: map<Field, Entry>, n: nat, remove: set<Field>, now: int)
    requires Bounded(stored, n)
    ensures var left := LiveMap(stored, now) - remove; LiveMap(left, now) == left && Bounded(left, n)
  {
    hide LiveMap, Bounded;
    LiveMinus(stored, remove, now);
    LiveLater(stored - remove, now, now);
    BoundedLive(stored, n, now);
    BoundedMinus(LiveMap(stored, now), n, remove);
  }

  method DropRemoved(q: seq<Pair>, remove: set<Field>) returns (kept: seq<Pair>)
    requires Sorted(q) && PackedHash.Stamped(q, true)
    ensures Sorted(kept) && PackedHash.Stamped(kept, true) && ToMap(kept) == ToMap(q) - remove
  {
    hide ToMap, Sorted;
    kept := q;
    if remove != {} {
      var n;
      kept, n := KeepOthers(q, remove);
    }
    assert ToMap(kept) == ToMap(q) - remove;
    KeptStamped(q, kept);
  }

  /** What is left after a deadline command is alive, and takes no more bytes than before. */
  lemma ExpiredLeft(stored: map<Field, Entry>, n: nat, q: seq<Pair>, remove: set<Field>, fields: seq<Field>, when: int,
                    c: Condition, now: int)
    requires Bounded(stored, n) && Sorted(q)
    requires var g := ExpireAll(LiveMap(stored, now), fields, when, c, now); ToMap(q) == g.m && remove == g.gone
    ensures LiveMap(ToMap(q) - remove, now) == ToMap(q) - remove && Bounded(ToMap(q) - remove, n)
  {
    hide ToMap, LiveMap, Bounded, ExpireAll;
    var m := LiveMap(stored, now);
    AllLiveMap(stored, now);
    ExpireKeeps(m, fields, when, c, now);
    AllLiveMap(ToMap(q) - remove, now);
    BoundedLive(stored, n, now);
    BoundedDeadlines(q, m, n);
    BoundedMinus(ToMap(q), n, remove);
  }

  lemma EmptyMap(p: seq<Pair>)
    requires p == []
    ensures ToMap(p) == map[]
  {
  }

  lemma {:induction false} ExpireNothing(fields: seq<Field>, when: int, c: Condition, now: int) returns (g: Progress)
    ensures g == ExpireAll(map[], fields, when, c, now) && g.m == map[] && g.gone == {}
    ensures g.out == seq(|fields|, _ => -2)
  {
    g := ExpireAll(map[], fields, when, c, now);
    if fields != [] {
      var before := ExpireNothing(fields[..|fields| - 1], when, c, now);
      assert g.out == seq(|fields|, _ => -2);
    }
  }

  /** The deadline loop on sorted pairs. */
  method ExpirePairs(p: seq<Pair>, fields: seq<Field>, when: int, c: Condition, now: int)
    returns (q: seq<Pair>, remove: set<Field>, out: Option<seq<int>>, changed: bool)
    requires Sorted(p) && PackedHash.Stamped(p, true) && Int64(when)
    ensures out.None? <==> c == Other && exists f :: f in fields && f in ToMap(p)
    ensures out.Some? ==> Sorted(q) && PackedHash.Stamped(q, true)
    ensures out.Some? ==> ExpireAll(ToMap(p), fields, when, c, now) == Progress(ToMap(q), remove, out.value)
    ensures out.Some? && !changed ==> ToMap(q) == ToMap(p) && remove == {}
    ensures out.Some? ==> (changed <==> Touches(out.value))
  {
    hide ToMap, Upsert, Sorted, Touches, Blocked, PackedHash.Stamped, ExpireAll;
    ghost var m := ToMap(p);
    q, remove, out, changed := p, {}, None, false;
    ExpireNone(m, when, c, now);
    TouchesNone();
    assert fields[..0] == [];
    var results: seq<int> := [];
    for i := 0 to |fields|
      invariant Sorted(q) && PackedHash.Stamped(q, true) && out == None
      invariant ExpireAll(m, fields[..i], when, c, now) == Progress(ToMap(q), remove, results)
      invariant ToMap(q).Keys == m.Keys && (c == Other ==> forall f :: f in fields[..i] ==> f !in m)
      invariant !changed ==> ToMap(q) == m && remove == {}
      invariant changed <==> Touches(results)
    {
      var f := fields[i];
      assert fields[..i + 1] == fields[..i] + [f];
      ExpireNext(m, fields, when, c, now, i);
      var idx := Search(q, f);
      if idx >= |q| || q[idx].field != f {
        TouchesNext(results, -2);
        results := results + [-2];
        continue;
      }
      SortedDistinct(q);
      ToMapAt(q, idx);
      if c == Other { return; }
      if Blocked(c, q[idx].expiresAt, when) {
        TouchesNext(results, 0);
        results := results + [0];
        continue;
      }
      changed := true;
      if when <= now {
        TouchesNext(results, 2);
        results := results + [2];
        remove := remove + {f};
        continue;
      }
      TouchesNext(results, 1);
      results := results + [1];
      var x := q[idx].(expiresAt := when);
      UpsertAt(q, x, idx);
      UpsertKeeps(q, x);
      UpsertStamped(q, x);
      q := q[idx := x];
    }
    assert fields[..|fields|] == fields;
    out := Some(results);
  }

  lemma IndexedCount(d: seq<byte>, hash: Field -> nat)
    requires IndexedHash.Valid(d, hash)
    ensures Word(d, 3, 4) == |IndexedHash.Contents(d)|
  {
    IndexedHash.CollectMeans(IndexedHash.LayoutOf(d), hash);
    var l := IndexedHash.LayoutOf(d);
    ToMapSize(IndexedHash.IndexedRecords.PairsIn(l.slots, IndexedHash.IndexedRecords.Recs(l.body), |l.slots|));
  }

  /** The answers of a batch, from the fields found before it. */
  method FirstWrites(existing: set<Field>, fields: seq<Field>, ghost m: map<Field, Entry>) returns (results: seq<nat>)
    requires forall f :: f in fields ==> (f in existing <==> f in m)
    ensures results == Results(m, fields)
  {
    results := [];
    var seen: set<Field> := {};
    for i := 0 to |fields|
      invariant |results| == i && forall j :: 0 <= j < i ==> results[j] == Results(m, fields)[j]
      invariant forall f :: f in fields[..i] ==> f in seen || f in existing
      invariant forall f :: f in seen ==> f in fields[..i]
    {
      var f := fields[i];
      assert fields[..i + 1] == fields[..i] + [f];
      if f in existing {
        seen := seen + {f};
        results := results + [0];
      } else if f in seen {
        results := results + [0];
      } else {
        seen := seen + {f};
        results := results + [1];
      }
    }
  }

  /** The same on a HOT table: each command looks its field up and then sets it. */
  method HotSetResults(h: HotHash.HotHash, fields: seq<Field>, values: seq<seq<byte>>) returns (results: seq<nat>)
    requires h.Valid() && |fields| == |values| && |h.payload| + WriteBytes(fields, values) < TWO32
    modifies h
    ensures h.Valid() && h.View() == SetAll(old(h.View()), fields, values) && results == Results(old(h.View()), fields)
    ensures |h.payload| <= old(|h.payload|) + WriteBytes(fields, values)
  {
    hide SetAll, WriteBytes, HotHash.AllRead, HotHash.Indexes;
    ghost var m, size := h.View(), |h.payload|;
    results := [];
    SetAllWhole(m, fields, values);
    WriteBytesStart(fields, values);
    for i := 0 to |fields|
      invariant h.Valid() && h.View() == SetAll(m, fields[..i], values[..i])
      invariant |results| == i && forall j :: 0 <= j < i ==> results[j] == Results(m, fields)[j]
      invariant |h.payload| <= size + WriteBytes(fields[..i], values[..i])
    {
      WriteBytesNext(fields, values, i);
      SetAllNext(m, fields, values, i);
      ResultsStep(m, fields, values, i);
      var value := h.Get(fields[i]);
      results := results + [if value.Some? then 0 else 1];
      var isNew := h.Set(fields[i], values[i]);
    }
  }

  lemma HotSize(h: HotHash.HotHash)
    requires h.Valid()
    ensures |h.records| == |h.View()|
  {
    ToMapSize(h.pairs);
  }

  lemma DeadlinesOf(p: seq<Pair>)
    requires Sorted(p)
    ensures IndexedHash.NoExpiry(p) <==> NoDeadlines(ToMap(p))
    ensures IndexedHash.NoExpiry(p) ==> PackedHash.Stamped(p, true)
  {
    SortedDistinct(p);
    if NoDeadlines(ToMap(p)) { IndexedHash.MapNoExpiry(p); }
    if IndexedHash.NoExpiry(p) {
      forall f | f in ToMap(p) ensures ToMap(p)[f].expiresAt == 0 {
        ToMapHas(p, f);
        var i :| 0 <= i < |p| && p[i].field == f;
        ToMapAt(p, i);
      }
    }
  }

  /** Pairs taken from a list keep its deadlines. */
  lemma KeptStamped(p: seq<Pair>, q: seq<Pair>)
    requires Sorted(p) && Sorted(q) && PackedHash.Stamped(p, true)
    requires forall f :: f in ToMap(q) ==> f in ToMap(p) && ToMap(q)[f] == ToMap(p)[f]
    ensures PackedHash.Stamped(q, true)
  {
    SortedDistinct(p);
    SortedDistinct(q);
    forall i | 0 <= i < |q|
      ensures Int64(q[i].expiresAt)
    {
      ToMapAt(q, i);
      ToMapHas(p, q[i].field);
      var j :| 0 <= j < |p| && p[j].field == q[i].field;
      ToMapAt(p, j);
    }
  }

  /** Writes fields into a sorted list of pairs, clearing their deadlines. */
  method PutFields(before: seq<Pair>, fields: seq<Field>, values: seq<seq<byte>>) returns (p: seq<Pair>, added: nat)
    requires Sorted(before) && PackedHash.Stamped(before, true) && |fields| == |values|
    ensures Sorted(p) && PackedHash.Stamped(p, true) && ToMap(p) == SetAll(ToMap(before), fields, values)
    ensures added == |ToMap(p)| - |ToMap(before)|
  {
    hide ToMap, SetAll, Upsert, Sorted;
    ghost var m := ToMap(before);
    p, added := before, 0;
    SetAllWhole(m, fields, values);
    for j := 0 to |fields|
      invariant Sorted(p) && PackedHash.Stamped(p, true)
      invariant ToMap(p) == SetAll(m, fields[..j], values[..j]) && added == |ToMap(p)| - |m|
    {
      var x := Pair(fields[j], values[j], 0);
      UpsertKeeps(p, x);
      UpsertStamped(p, x);
      UpdateSize(ToMap(p), x.field, Entry(x.value, 0));
      SetAllNext(m, fields, values, j);
      var isNew;
      p, isNew := PutField(p, x);
      if isNew { added := added + 1; }
    }
  }

  lemma {:induction false} UpsertStamped(p: seq<Pair>, x: Pair)
    requires PackedHash.Stamped(p, true) && Int64(x.expiresAt)
    ensures PackedHash.Stamped(Upsert(p, x), true)
  {
    if p != [] { UpsertStamped(p[..|p| - 1], x); }
  }

  /** The cold layout that a map of live fields takes has room for it: indexed from 32 fields on when
      none has a deadline, packed otherwise. */
  ghost predicate ColdFits(m: map<Field, Entry>)
  {
    forall p :: Sorted(p) && ToMap(p) == m ==>
      if IndexedHash.NoExpiry(p) && |p| >= INDEX_FIELDS then IndexedHash.TotalSize(p) <= PackedHash.MAX_BYTES
      else PackedHash.Fits(p)
  }

  /** The live fields `m` can be published packed; without any the key just goes. */
  ghost predicate Publishes(m: map<Field, Entry>, grant: bool)
  {
    m == map[] || (grant && forall p :: Sorted(p) && ToMap(p) == m ==> PackedHash.Fits(p))
  }

  lemma PublishesFor(p: seq<Pair>, grant: bool)
    requires Sorted(p)
    ensures Publishes(ToMap(p), grant) <==> |p| == 0 || (grant && PackedHash.Fits(p))
  {
    hide PackedHash.Fits;
    SortedDistinct(p);
    ToMapSize(p);
    forall q | Sorted(q) && ToMap(q) == ToMap(p) ensures q == p { SortedUnique(p, q); }
  }

  lemma ColdFitsFor(p: seq<Pair>)
    requires Sorted(p)
    ensures ColdFits(ToMap(p)) <==>
      if IndexedHash.NoExpiry(p) && |p| >= INDEX_FIELDS then IndexedHash.TotalSize(p) <= PackedHash.MAX_BYTES
      else PackedHash.Fits(p)
  {
    hide IndexedHash.TotalSize, PackedHash.Fits;
    forall q | Sorted(q) && ToMap(q) == ToMap(p) ensures q == p { SortedUnique(p, q); }
  }

  lemma StorableFits(m: map<Field, Entry>, n: nat)
    requires IndexedHash.TooLarge(m) && Bounded(m, n)
    ensures !Storable(m)
  {
  }

  /** HSET on a HOT table. */
  method HotSetAll(h: HotHash.HotHash, fields: seq<Field>, values: seq<seq<byte>>) returns (added: nat)
    requires h.Valid() && |fields| == |values| && |h.payload| + WriteBytes(fields, values) < TWO32
    modifies h
    ensures h.Valid() && h.View() == SetAll(old(h.View()), fields, values)
    ensures added == |h.View()| - |old(h.View())|
    ensures |h.payload| <= old(|h.payload|) + WriteBytes(fields, values)
  {
    hide SetAll, WriteBytes;
    ghost var m, size := h.View(), |h.payload|;
    added := 0;
    SetAllWhole(m, fields, values);
    WriteBytesStart(fields, values);
    for i := 0 to |fields|
      invariant h.Valid() && h.View() == SetAll(m, fields[..i], values[..i]) && added == |h.View()| - |m|
      invariant |h.payload| <= size + WriteBytes(fields[..i], values[..i])
    {
      WriteBytesNext(fields, values, i);
      SetAllNext(m, fields, values, i);
      UpdateSize(h.View(), fields[i], Entry(values[i], 0));
      var isNew := h.Set(fields[i], values[i]);
      if isNew { added := added + 1; }
    }
  }

  lemma WriteBytesStart(fields: seq<Field>, values: seq<seq<byte>>)
    requires |fields| == |values|
    ensures WriteBytes(fields[..0], values[..0]) == 0
    ensures WriteBytes(fields[..|fields|], values[..|fields|]) == WriteBytes(fields, values)
  {
    assert fields[..|fields|] == fields && values[..|fields|] == values;
  }

  lemma BoundedPrefixes(m: map<Field, Entry>, n: nat, fields: seq<Field>, values: seq<seq<byte>>)
    requires |fields| == |values| && Bounded(m, n)
    ensures forall k :: 0 <= k <= |fields| ==>
      Bounded(SetAll(m, fields[..k], values[..k]), n + WriteBytes(fields, values))
  {
    hide Bounded, SetAll, WriteBytes;
    forall k | 0 <= k <= |fields|
      ensures Bounded(SetAll(m, fields[..k], values[..k]), n + WriteBytes(fields, values))
    {
      BoundedSetAll(m, n, fields[..k], values[..k]);
      WriteBytesPrefix(fields, values, k);
      BoundedMore(SetAll(m, fields[..k], values[..k]), n + WriteBytes(fields[..k], values[..k]),
        n + WriteBytes(fields, values));
    }
  }

  lemma WriteBytesPrefix(fields: seq<Field>, values: seq<seq<byte>>, k: nat)
    requires |fields| == |values| && k <= |fields|
    ensures WriteBytes(fields[..k], values[..k]) <= WriteBytes(fields, values)
  {
    hide WriteBytes;
    if k < |fields| { WriteBytesNext(fields, values, k); }
    else { WriteBytesStart(fields, values); }
  }

  lemma {:induction false} WriteBytesNext(fields: seq<Field>, values: seq<seq<byte>>, i: nat)
    requires |fields| == |values| && i < |fields|
    ensures WriteBytes(fields[..i + 1], values[..i + 1]) ==
      WriteBytes(fields[..i], values[..i]) + |fields[i]| + |values[i]|
    ensures WriteBytes(fields[..i + 1], values[..i + 1]) <= WriteBytes(fields, values)
    decreases |fields| - i
  {
    assert fields[..i + 1][..i] == fields[..i] && values[..i + 1][..i] == values[..i];
    if i + 1 == |fields| {
      assert fields[..i + 1] == fields && values[..i + 1] == values;
    } else {
      WriteBytesNext(fields, values, i + 1);
    }
  }

  lemma NothingLives(now: int)
    ensures Sorted([]) && ToMap([]) == LiveMap(map[], now) && PackedHash.Stamped([], true)
  {
  }

  method LiveStamped(p: seq<Pair>, now: int) returns (q: seq<Pair>)
    requires Sorted(p) && (PackedHash.Stamped(p, true) || IndexedHash.NoExpiry(p))
    ensures Sorted(q) && ToMap(q) == LiveMap(ToMap(p), now) && PackedHash.Stamped(q, true)
  {
    q := LiveHashPairs(p, now);
    SortedDistinct(p);
    SortedDistinct(q);
    forall i | 0 <= i < |q|
      ensures Int64(q[i].expiresAt)
    {
      ToMapAt(q, i);
      assert ToMap(q)[q[i].field] == ToMap(p)[q[i].field];
      ToMapHas(p, q[i].field);
      var j :| 0 <= j < |p| && p[j].field == q[i].field;
      ToMapAt(p, j);
    }
  }

  lemma IndexedForever(d: seq<byte>, hash: Field -> nat, now: int)
    requires IndexedHash.Valid(d, hash)
    ensures NoDeadlines(IndexedHash.Contents(d)) && LiveMap(IndexedHash.Contents(d), now) == IndexedHash.Contents(d)
  {
    hide LiveMap;
    IndexedHash.CollectMeans(IndexedHash.LayoutOf(d), hash);
    LiveForever(IndexedHash.Contents(d), now);
  }

  lemma HotForever(h: HotHash.HotHash, now: int)
    requires h.Valid()
    ensures NoDeadlines(h.View()) && LiveMap(h.View(), now) == h.View()
  {
    hide LiveMap;
    forall f | f in h.View()
      ensures h.View()[f].expiresAt == 0
    {
      ToMapHas(h.pairs, f);
      var i :| 0 <= i < |h.pairs| && h.pairs[i].field == f;
      ToMapAt(h.pairs, i);
      assert HotHash.Reads(h.records[i], h.payload, h.hash, h.pairs[i]);
    }
    LiveForever(h.View(), now);
  }
}
