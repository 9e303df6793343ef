/** The mutable HOT form of a hash: a probing table over records whose fields and values live in one
    append-only payload. */
module HotHash {
  import opened Words
  import opened Bits
  import opened FieldOrder
  import opened Probing

  const MIN_SLOTS := 16

  datatype Record = Record(hash: nat, fieldOff: nat, fieldLen: nat, valueOff: nat, valueLen: nat)

  predicate InBounds(r: Record, size: nat)
  {
    r.fieldOff + r.fieldLen <= size && r.valueOff + r.valueLen <= size
  }

  function FieldOf(r: Record, payload: seq<byte>): Field
    requires InBounds(r, |payload|)
  {
    payload[r.fieldOff..r.fieldOff + r.fieldLen]
  }

  function ValueOf(r: Record, payload: seq<byte>): seq<byte>
    requires InBounds(r, |payload|)
  {
    payload[r.valueOff..r.valueOff + r.valueLen]
  }

  /** Record `r` reads as the given pair. */
  ghost predicate Reads(r: Record, payload: seq<byte>, hash: Field -> nat, p: Pair)
  {
    && InBounds(r, |payload|) && FieldOf(r, payload) == p.field && ValueOf(r, payload) == p.value
    && p.expiresAt == 0 && r.hash == hash(p.field)
  }

  lemma ReadsMore(r: Record, payload: seq<byte>, more: seq<byte>, hash: Field -> nat, p: Pair)
    requires Reads(r, payload, hash, p)
    ensures Reads(r, payload + more, hash, p)
  {
    PrefixReads(payload, more, r.fieldOff, r.fieldOff + r.fieldLen);
    PrefixReads(payload, more, r.valueOff, r.valueOff + r.valueLen);
  }

  lemma PrefixReads(s: seq<byte>, t: seq<byte>, lo: nat, hi: nat)
    requires lo <= hi <= |s|
    ensures (s + t)[lo..hi] == s[lo..hi]
  {
  }

  /** The field of each record number. */
  ghost function Keys(pairs: seq<Pair>): map<nat, Field>
  {
    map v: nat | 1 <= v <= |pairs| :: NameOf(pairs, v)
  }

  function NameOf(pairs: seq<Pair>, v: nat): Field
    requires 1 <= v <= |pairs|
  {
    pairs[v - 1].field
  }

  /** The table indexes exactly the given pairs; `spot` tells where each record is. */
  ghost predicate Indexes(slots: seq<nat>, spot: seq<nat>, pairs: seq<Pair>, hash: Field -> nat)
  {
    && Table(slots, Keys(pairs), hash)
    && |spot| == |pairs| == Occupied(slots)
    && (forall i :: 0 <= i < |spot| ==> spot[i] < |slots| && slots[spot[i]] == i + 1)
    && (forall s :: 0 <= s < |slots| ==> slots[s] <= |pairs|)
  }

  lemma IndexedHas(slots: seq<nat>, spot: seq<nat>, pairs: seq<Pair>, hash: Field -> nat, f: Field)
    requires Indexes(slots, spot, pairs, hash)
    ensures Has(slots, Keys(pairs), f) <==> f in ToMap(pairs)
  {
    ToMapHas(pairs, f);
    if f in ToMap(pairs) {
      var i :| 0 <= i < |pairs| && pairs[i].field == f;
      assert slots[spot[i]] == i + 1 && Keys(pairs)[i + 1] == f;
    }
    if Has(slots, Keys(pairs), f) {
      var s :| 0 <= s < |slots| && slots[s] != 0 && slots[s] in Keys(pairs) && Keys(pairs)[slots[s]] == f;
      assert pairs[slots[s] - 1].field == f;
    }
  }

  /** A new record put into the vacant slot of its probe. */
  lemma IndexNew(slots: seq<nat>, spot: seq<nat>, pairs: seq<Pair>, hash: Field -> nat, p: Pair, s: nat)
    requires Indexes(slots, spot, pairs, hash) && s < |slots|
    requires Decides(slots, Keys(pairs), Home(hash, p.field, |slots|), p.field, Vacant(s))
    ensures Indexes(slots[s := |pairs| + 1], spot + [s], pairs + [p], hash)
  {
    var v := |pairs| + 1;
    assert forall t :: 0 <= t < |slots| ==> slots[t] != v;
    InsertKeeps(slots, Keys(pairs), hash, p.field, s, v);
    OccupiedUpdate(slots, s, v);
    assert Keys(pairs + [p]) == Keys(pairs)[v := p.field];
  }

  /** Changing the value of a record changes nothing in the table. */
  lemma IndexSame(slots: seq<nat>, spot: seq<nat>, pairs: seq<Pair>, hash: Field -> nat, i: nat, p: Pair)
    requires Indexes(slots, spot, pairs, hash) && i < |pairs| && p.field == pairs[i].field
    ensures Indexes(slots, spot, pairs[i := p], hash)
  {
    assert Keys(pairs[i := p]) == Keys(pairs);
  }

  ghost predicate AllRead(records: seq<Record>, payload: seq<byte>, hash: Field -> nat, pairs: seq<Pair>)
  {
    && |records| == |pairs|
    && forall i {:trigger Reads(records[i], payload, hash, pairs[i])} :: 0 <= i < |records| ==>
         Reads(records[i], payload, hash, pairs[i])
  }

  class HotHash {
    const hash: Field -> nat
    var slots: seq<nat>
    var records: seq<Record>
    var payload: seq<byte>
    ghost var pairs: seq<Pair>
    ghost var spot: seq<nat>

    /** The map the table stands for. */
    ghost function View(): map<Field, Entry>
      reads this
    {
      ToMap(pairs)
    }

    ghost predicate Valid()
      reads this
    {
      && AllRead(records, payload, hash, pairs) && TotalBytes(pairs) <= |payload| < TWO32
      && Distinct(pairs)
      && Indexes(slots, spot, pairs, hash)
      && PowerOfTwo(|slots|) && MIN_SLOTS <= |slots| && |records| * 10 < |slots| * 7
    }

    /** Linear probing for a field; `h` is the field's hash. */
    method Find(field: Field, h: nat) returns (slot: nat, record: nat, found: bool)
      requires Valid() && h == hash(field)
      ensures found <==> field in View()
      ensures found ==> record < |records| && pairs[record].field == field
      ensures !found ==> slot < |slots| && Decides(slots, Keys(pairs), Home(hash, field, |slots|), field, Vacant(slot))
    {
      hide Table, Placed, AllRead, PowerOfTwo, Probe, PathFull, Has, Distinct, TotalBytes, At;
      RecordCount(records, payload, hash, pairs);
      slot, record, found := 0, 0, false;
      var n := |slots|;
      var start := h % n;
      ghost var key := Keys(pairs);
      IndexedHas(slots, spot, pairs, hash, field);
      ProbeDecides(slots, key, hash, field, 0);
      RoomLeft(slots);
      for probe := 0 to n
        invariant Probe(slots, key, start, field, 0) == Probe(slots, key, start, field, probe)
      {
        ProbeAt(slots, key, start, field, probe);
        slot := At(start, probe, n);
        var raw := slots[slot];
        if raw == 0 { return slot, 0, false; }
        record := raw - 1;
        var r := records[record];
        RecordAt(records, payload, hash, pairs, record);
        assert key[raw] == pairs[record].field;
        if r.hash != h { continue; }
        if FieldOf(r, payload) == field {
          ToMapHas(pairs, field);
          return slot, record, true;
        }
      }
      ProbeEnd(slots, key, start, field);
      assert false;
    }

    /** The value of a field. */
    method Get(field: Field) returns (value: Option<seq<byte>>)
      requires Valid()
      ensures value == if field in View() then Some(View()[field].value) else None
    {
      var slot, record, found := Find(field, hash(field));
      if !found { return None; }
      assert Reads(records[record], payload, hash, pairs[record]);
      ToMapAt(pairs, record);
      return Some(ValueOf(records[record], payload));
    }

    /** Builds a table of `size` slots over the records. */
    method Rehash(size: nat)
      requires AllRead(records, payload, hash, pairs) && Distinct(pairs)
      requires MIN_SLOTS <= size && |records| < size
      modifies `slots, `spot
      ensures Indexes(slots, spot, pairs, hash) && |slots| == size
    {
      hide Distinct, ToMap, Indexes, Keys;
      var next: seq<nat> := seq(size, _ => 0);
      ghost var where: seq<nat> := [];
      IndexNone(next, pairs, hash);
      for i := 0 to |records|
        invariant |next| == size && Indexes(next, where, pairs[..i], hash)
      {
        var r := records[i];
        assert Reads(r, payload, hash, pairs[i]);
        NewField(next, where, pairs, hash, i);
        var slot := FirstEmpty(next, r.hash % size);
        assert pairs[..i + 1] == pairs[..i] + [pairs[i]];
        IndexNew(next, where, pairs[..i], hash, pairs[i], slot);
        next := next[slot := i + 1];
        where := where + [slot];
      }
      assert pairs[..|records|] == pairs;
      slots, spot := next, where;
    }

    /** Doubles the table when one more record would bring the load to seven tenths. */
    method EnsureInsertCapacity()
      requires Valid()
      modifies `slots, `spot
      ensures Valid() && (|records| + 1) * 10 < |slots| * 7
    {
      if (|records| + 1) * 10 >= |slots| * 7 {
        PowerOfTwoDoubles(|slots|);
        Rehash(2 * |slots|);
      }
    }

    /** Sets a field; reports whether it is new. */
    method Set(field: Field, value: seq<byte>) returns (added: bool)
      requires Valid() && |payload| + |field| + |value| < TWO32
      modifies this
      ensures Valid()
      ensures added <==> field !in old(View())
      ensures View() == old(View())[field := Entry(value, 0)]
      ensures |payload| <= old(|payload|) + |field| + |value|
    {
      var slot, record, found := Find(field, hash(field));
      if found {
        ReplaceValue(record, value);
        return false;
      }
      EnsureInsertCapacity();
      slot, record, found := Find(field, hash(field));
      AppendRecord(slot, field, value);
      return true;
    }

    /** Overwrites a value: the new bytes go to the end of the payload. */
    method ReplaceValue(record: nat, value: seq<byte>)
      requires Valid() && record < |records| && |payload| + |value| < TWO32
      modifies `records, `payload, `pairs
      ensures Valid() && |payload| == old(|payload|) + |value|
      ensures View() == old(View()[pairs[record].field := Entry(value, 0)])
    {
      hide Indexes, Distinct, ToMap, TotalBytes, PowerOfTwo;
      ghost var p := Pair(pairs[record].field, value, 0);
      ghost var before := payload;
      var r := records[record];
      assert Reads(r, payload, hash, pairs[record]);
      var valueOff := |payload|;
      payload := payload + value;
      records := records[record := r.(valueOff := valueOff, valueLen := |value|)];
      MapUpdateAt(pairs, record, p);
      TotalUpdate(pairs, record, p);
      IndexSame(slots, spot, pairs, hash, record, p);
      assert payload[valueOff..] == value;
      forall i | 0 <= i < |records|
        ensures Reads(records[i], payload, hash, pairs[record := p][i])
      {
        ReadsMore(old(records)[i], before, value, hash, pairs[i]);
      }
      pairs := pairs[record := p];
    }

    /** Adds a record for a new field in the vacant slot its probe found. */
    method AppendRecord(slot: nat, field: Field, value: seq<byte>)
      requires Valid() && (|records| + 1) * 10 < |slots| * 7 && |payload| + |field| + |value| < TWO32
      requires slot < |slots| && Decides(slots, Keys(pairs), Home(hash, field, |slots|), field, Vacant(slot))
      requires field !in View()
      modifies this
      ensures Valid() && |payload| == old(|payload|) + |field| + |value|
      ensures View() == old(View())[field := Entry(value, 0)]
    {
      hide Table, Placed, Decides, Indexes, PowerOfTwo, AllRead;
      ghost var p := Pair(field, value, 0);
      CopiedRecord(records, payload, hash, pairs, field, value);
      RecordCount(records, payload, hash, pairs);
      IndexNew(slots, spot, pairs, hash, p, slot);
      DistinctSnoc(pairs, p);
      assert (pairs + [p])[..|pairs|] == pairs;
      var fieldOff := |payload|;
      payload := payload + field;
      var valueOff := |payload|;
      payload := payload + value;
      records := records + [Record(hash(field), fieldOff, |field|, valueOff, |value|)];
      slots := slots[slot := |records|];
      spot := spot + [slot];
      pairs := pairs + [p];
    }

    /** Marks the records of the given fields and counts them, each once. */
    method MarkRemoved(fields: seq<Field>) returns (remove: seq<bool>, deleted: nat)
      requires Valid()
      ensures |remove| == |records| && deleted == Marked(remove)
      ensures forall i :: 0 <= i < |records| ==> (remove[i] <==> pairs[i].field in fields)
    {
      remove, deleted := seq(|records|, _ => false), 0;
      MarkedNone(remove);
      for k := 0 to |fields|
        invariant |remove| == |records| && deleted == Marked(remove)
        invariant forall i :: 0 <= i < |records| ==> (remove[i] <==> pairs[i].field in fields[..k])
      {
        assert fields[..k + 1] == fields[..k] + [fields[k]];
        var slot, record, found := Find(fields[k], hash(fields[k]));
        if found && !remove[record] {
          MarkedUpdate(remove, record);
          remove := remove[record := true];
          deleted := deleted + 1;
        }
        ToMapHas(pairs, fields[k]);
      }
      assert fields[..|fields|] == fields;
    }

    /** Copies the records that stay into a fresh payload. */
    method CopyKept(remove: seq<bool>) returns (nextRecords: seq<Record>, nextPayload: seq<byte>)
      requires Valid() && |remove| == |records|
      ensures AllRead(nextRecords, nextPayload, hash, Kept(pairs, remove))
      ensures |nextPayload| == TotalBytes(Kept(pairs, remove))
    {
      hide Kept, TotalBytes, AllRead, Indexes, Distinct;
      nextRecords, nextPayload := [], [];
      RecordCount(records, payload, hash, pairs);
      assert pairs[..0] == [] && remove[..0] == [];
      KeptNone(hash);
      for i := 0 to |records|
        invariant AllRead(nextRecords, nextPayload, hash, Kept(pairs[..i], remove[..i]))
        invariant |nextPayload| == TotalBytes(Kept(pairs[..i], remove[..i]))
      {
        var r := records[i];
        RecordAt(records, payload, hash, pairs, i);
        KeptSnoc(pairs, remove, i);
        if remove[i] { continue; }
        var field, value := FieldOf(r, payload), ValueOf(r, payload);
        CopiedRecord(nextRecords, nextPayload, hash, Kept(pairs[..i], remove[..i]), field, value);
        nextRecords := nextRecords + [Record(r.hash, |nextPayload|, r.fieldLen, |nextPayload| + |field|, r.valueLen)];
        nextPayload := nextPayload + field + value;
      }
      assert pairs[..|records|] == pairs && remove[..|records|] == remove;
    }

    /** Rebuilds records, payload and table from the records that stay. */
    method DropMarked(remove: seq<bool>)
      requires Valid() && |remove| == |records| && Distinct(Kept(pairs, remove))
      modifies this
      ensures Valid() && pairs == Kept(old(pairs), remove) && |payload| <= old(|payload|)
    {
      hide Table, Placed;
      KeptBytes(pairs, remove);
      var nextRecords, nextPayload := CopyKept(remove);
      records, payload, pairs := nextRecords, nextPayload, Kept(pairs, remove);
      var size := TableSize(|records|);
      Rehash(size);
    }

    /** Removes fields; reports how many distinct ones were present. */
    method Delete(fields: seq<Field>) returns (deleted: nat)
      requires Valid()
      modifies this
      ensures Valid()
      ensures View() == old(View()) - (set f | f in fields)
      ensures deleted == |old(View())| - |View()| && |payload| <= old(|payload|)
    {
      if |fields| == 0 || |records| == 0 {
        assert View() - (set f | f in fields) == View();
        return 0;
      }
      var remove;
      remove, deleted := MarkRemoved(fields);
      KeptMap(pairs, remove, fields);
      if deleted == 0 { return 0; }
      DropMarked(remove);
    }

    /** The contents sorted by field. */
    method Pairs() returns (p: seq<Pair>)
      requires Valid()
      ensures Sorted(p) && ToMap(p) == View()
    {
      p := [];
      for i := 0 to |records|
        invariant p == pairs[..i]
      {
        assert Reads(records[i], payload, hash, pairs[i]);
        p := p + [Pair(FieldOf(records[i], payload), ValueOf(records[i], payload), 0)];
      }
      assert pairs[..|records|] == pairs;
      p := SortPairs(p);
      SortPairsKeeps(pairs);
    }

    /** An empty table with room for the given number of records. */
    constructor Sized(hash: Field -> nat, size: nat)
      requires MIN_SLOTS <= size && PowerOfTwo(size)
      ensures Valid() && this.hash == hash && View() == map[] && payload == []
    {
      this.hash := hash;
      slots, records, payload, pairs, spot := seq(size, _ => 0), [], [], [], [];
      new;
      EmptyTable(slots, hash);
      assert Keys(pairs) == map[];
    }
  }

  /** The table built from a list of pairs: the pairs are set one by one. */
  method NewHotHash(hash: Field -> nat, pairs: seq<Pair>) returns (h: HotHash)
    requires Sorted(pairs) && TotalBytes(pairs) < TWO32 && forall i :: 0 <= i < |pairs| ==> pairs[i].expiresAt == 0
    ensures fresh(h) && h.Valid() && h.hash == hash && h.View() == ToMap(pairs) && |h.payload| <= TotalBytes(pairs)
  {
    var size := TableSize(|pairs|);
    h := new HotHash.Sized(hash, size);
    for i := 0 to |pairs|
      invariant fresh(h) && h.Valid() && h.hash == hash && h.View() == ToMap(pairs[..i])
      invariant |h.payload| <= TotalBytes(pairs[..i])
    {
      assert pairs[..i + 1][..i] == pairs[..i];
      TotalPrefix(pairs, i + 1);
      var added := h.Set(pairs[i].field, pairs[i].value);
    }
    assert pairs[..|pairs|] == pairs;
  }

  lemma {:induction false} TotalPrefix(p: seq<Pair>, n: nat)
    requires n <= |p|
    ensures TotalBytes(p[..n]) <= TotalBytes(p)
    decreases |p| - n
  {
    if n < |p| {
      assert p[..n + 1][..n] == p[..n];
      TotalPrefix(p, n + 1);
    } else {
      assert p[..n] == p;
    }
  }

  /** Sixteen slots, doubled until they hold twice the records. */
  method TableSize(n: nat) returns (size: nat)
    ensures PowerOfTwo(size) && MIN_SLOTS <= size && n * 10 < size * 7
  {
    size := MIN_SLOTS;
    PowerOfTwoSmall();
    while size < 2 * n
      invariant PowerOfTwo(size) && MIN_SLOTS <= size
      decreases 2 * n - size
    {
      PowerOfTwoDoubles(size);
      size := 2 * size;
    }
  }

  /** How many records are marked. */
  function Marked(remove: seq<bool>): nat
  {
    if remove == [] then 0 else Marked(remove[..|remove| - 1]) + if remove[|remove| - 1] then 1 else 0
  }

  lemma {:induction false} MarkedNone(remove: seq<bool>)
    requires forall i :: 0 <= i < |remove| ==> !remove[i]
    ensures Marked(remove) == 0
  {
    if remove != [] { MarkedNone(remove[..|remove| - 1]); }
  }

  lemma {:induction false} MarkedUpdate(remove: seq<bool>, i: nat)
    requires i < |remove| && !remove[i]
    ensures Marked(remove[i := true]) == Marked(remove) + 1
  {
    var n := |remove| - 1;
    if i < n {
      assert remove[i := true][..n] == remove[..n][i := true];
      MarkedUpdate(remove[..n], i);
    } else {
      assert remove[i := true][..n] == remove[..n];
    }
  }

  /** The pairs that are not marked. */
  function Kept(p: seq<Pair>, remove: seq<bool>): seq<Pair>
    requires |p| == |remove|
  {
    if p == [] then []
    else
      var n := |p| - 1;
      Kept(p[..n], remove[..n]) + if remove[n] then [] else [p[n]]
  }

  lemma KeptNone(hash: Field -> nat)
    ensures Kept([], []) == [] && TotalBytes([]) == 0 && AllRead([], [], hash, [])
  {
  }

  lemma KeptSnoc(p: seq<Pair>, remove: seq<bool>, i: nat)
    requires i < |p| == |remove|
    ensures var q, q' := Kept(p[..i], remove[..i]), Kept(p[..i + 1], remove[..i + 1]);
      if remove[i] then q' == q else q' == q + [p[i]] && TotalBytes(q') == TotalBytes(q) + |p[i].field| + |p[i].value|
  {
    var q := Kept(p[..i], remove[..i]);
    assert p[..i + 1][..i] == p[..i] && remove[..i + 1][..i] == remove[..i];
    assert q + [] == q && (q + [p[i]])[..|q|] == q;
  }

  lemma {:induction false} KeptIsSelect(p: seq<Pair>, remove: seq<bool>, fields: seq<Field>)
    requires |p| == |remove| && forall i :: 0 <= i < |p| ==> (remove[i] <==> p[i].field in fields)
    ensures Kept(p, remove) == Select(p, (x: Pair) => x.field !in fields)
    ensures |Kept(p, remove)| + Marked(remove) == |p|
  {
    if p != [] { KeptIsSelect(p[..|p| - 1], remove[..|p| - 1], fields); }
  }

  /** Dropping the marked pairs is removing their fields from the map. */
  lemma KeptMap(p: seq<Pair>, remove: seq<bool>, fields: seq<Field>)
    requires Distinct(p) && |p| == |remove| && forall i :: 0 <= i < |p| ==> (remove[i] <==> p[i].field in fields)
    ensures Distinct(Kept(p, remove)) && ToMap(Kept(p, remove)) == ToMap(p) - (set f | f in fields)
    ensures Marked(remove) == |ToMap(p)| - |ToMap(Kept(p, remove))|
    ensures Marked(remove) == 0 ==> ToMap(Kept(p, remove)) == ToMap(p)
    ensures TotalBytes(Kept(p, remove)) <= TotalBytes(p)
  {
    hide Kept, ToMap, TotalBytes, Select, Marked;
    var keep := (x: Pair) => x.field !in fields;
    KeptIsSelect(p, remove, fields);
    SelectMaps(p, keep);
    assert SelectMap(ToMap(p), keep) == ToMap(p) - (set f | f in fields);
    ToMapSize(p);
    ToMapSize(Kept(p, remove));
    MinusSize(ToMap(p), set f | f in fields);
    KeptBytes(p, remove);
  }

  lemma {:induction false} KeptBytes(p: seq<Pair>, remove: seq<bool>)
    requires |p| == |remove|
    ensures TotalBytes(Kept(p, remove)) <= TotalBytes(p)
  {
    if p != [] {
      var n := |p| - 1;
      KeptBytes(p[..n], remove[..n]);
      var q := Kept(p[..n], remove[..n]);
      assert q + [] == q && (q + [p[n]])[..|q|] == q;
    }
  }

  function TotalBytes(p: seq<Pair>): nat
  {
    if p == [] then 0 else TotalBytes(p[..|p| - 1]) + |p[|p| - 1].field| + |p[|p| - 1].value|
  }

  lemma {:induction false} TotalUpdate(p: seq<Pair>, i: nat, x: Pair)
    requires i < |p| && x.field == p[i].field
    ensures TotalBytes(p[i := x]) == TotalBytes(p) - |p[i].value| + |x.value|
  {
    var n := |p| - 1;
    if i < n {
      assert p[i := x][..n] == p[..n][i := x];
      TotalUpdate(p[..n], i, x);
    } else {
      assert p[i := x][..n] == p[..n];
    }
  }

  lemma RecordCount(records: seq<Record>, payload: seq<byte>, hash: Field -> nat, pairs: seq<Pair>)
    requires AllRead(records, payload, hash, pairs)
    ensures |records| == |pairs|
  {
  }

  /** What a record reads as. */
  lemma RecordAt(records: seq<Record>, payload: seq<byte>, hash: Field -> nat, pairs: seq<Pair>, i: nat)
    requires AllRead(records, payload, hash, pairs) && i < |records|
    ensures |records| == |pairs| && Reads(records[i], payload, hash, pairs[i])
  {
  }

  /** One more record appended to a payload. */
  lemma CopiedRecord(records: seq<Record>, payload: seq<byte>, hash: Field -> nat, pairs: seq<Pair>, field: Field,
                     value: seq<byte>)
    requires AllRead(records, payload, hash, pairs)
    ensures AllRead(records + [Record(hash(field), |payload|, |field|, |payload| + |field|, |value|)],
                    payload + field + value, hash, pairs + [Pair(field, value, 0)])
  {
    var records' := records + [Record(hash(field), |payload|, |field|, |payload| + |field|, |value|)];
    var payload' := payload + field + value;
    var pairs' := pairs + [Pair(field, value, 0)];
    assert payload' == payload + (field + value);
    assert payload'[|payload|..|payload| + |field|] == field && payload'[|payload| + |field|..] == value;
    forall i | 0 <= i < |records'|
      ensures Reads(records'[i], payload', hash, pairs'[i])
    {
      if i < |records| {
        assert Reads(records[i], payload, hash, pairs[i]);
        ReadsMore(records[i], payload, field + value, hash, pairs[i]);
      }
    }
  }

  lemma MapUpdateAt(p: seq<Pair>, i: nat, x: Pair)
    requires Distinct(p) && i < |p| && x.field == p[i].field
    ensures Distinct(p[i := x]) && ToMap(p[i := x]) == ToMap(p)[x.field := Entry(x.value, x.expiresAt)]
  {
    var q := p[i := x];
    assert forall j :: 0 <= j < |p| ==> q[j].field == p[j].field;
    var m, m' := ToMap(p)[x.field := Entry(x.value, x.expiresAt)], ToMap(q);
    forall f
      ensures f in m <==> f in m'
      ensures f in m ==> m[f] == m'[f]
    {
      ToMapHas(p, f);
      ToMapHas(q, f);
      if f in ToMap(p) {
        var j :| 0 <= j < |p| && p[j].field == f;
        ToMapAt(p, j);
        assert q[j].field == f;
        ToMapAt(q, j);
      }
    }
  }

  /** A cleared table indexes nothing. */
  lemma IndexNone(slots: seq<nat>, pairs: seq<Pair>, hash: Field -> nat)
    requires |slots| > 0 && forall s :: 0 <= s < |slots| ==> slots[s] == 0
    ensures Indexes(slots, [], pairs[..0], hash)
  {
    EmptyTable(slots, hash);
    assert Keys(pairs[..0]) == map[];
  }

  /** The next record's field is not in the table yet. */
  lemma NewField(slots: seq<nat>, spot: seq<nat>, pairs: seq<Pair>, hash: Field -> nat, i: nat)
    requires i < |pairs| && Distinct(pairs) && Indexes(slots, spot, pairs[..i], hash)
    ensures Occupied(slots) == i && !Has(slots, Keys(pairs[..i]), pairs[i].field)
  {
    IndexedHas(slots, spot, pairs[..i], hash, pairs[i].field);
    ToMapHas(pairs[..i], pairs[i].field);
    assert forall j :: 0 <= j < i ==> pairs[..i][j].field == pairs[j].field;
  }

  /** A table built from sorted pairs lists exactly those pairs. */
  method BuildThenList(hash: Field -> nat, pairs: seq<Pair>) returns (p: seq<Pair>)
    requires Sorted(pairs) && TotalBytes(pairs) < TWO32 && forall i :: 0 <= i < |pairs| ==> pairs[i].expiresAt == 0
    ensures p == pairs
  {
    var h := NewHotHash(hash, pairs);
    p := h.Pairs();
    SortedUnique(p, pairs);
  }
}
