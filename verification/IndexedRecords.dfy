/** What a slot table and a list of records mean together: the map they hold, and how appending one
    record changes it. */
module IndexedRecords {
  import opened Words
  import opened FieldOrder
  import opened PackedHash
  import Probing
  import Uvarint

  // ---- records in a byte list ----

  function RecordAt(body: seq<byte>, pos: nat): Option<Pair>
  {
    if pos >= |body| then None
    else
      var r := GetPair(body[pos..], false);
      if r.None? then None else Some(r.value.value)
  }

  function Record(f: Field, v: seq<byte>): seq<byte> { PutPair(Pair(f, v, 0), false) }

  /** The record that a slot word names: the word is one more than the record's position. */
  function Named(body: seq<byte>, v: nat): Option<Pair>
  {
    if v == 0 then None else RecordAt(body, v - 1)
  }

  ghost function Recs(body: seq<byte>): map<nat, Pair>
  {
    map v: nat | 0 <= v <= |body| && Named(body, v).Some? :: Named(body, v).value
  }

  ghost function Keys(recs: map<nat, Pair>): map<nat, Field>
  {
    map v | v in recs :: recs[v].field
  }

  lemma LengthsLocal(s: seq<byte>, t: seq<byte>)
    requires GetLengths(s).Some?
    ensures GetLengths(s + t) == Some(Parsed(GetLengths(s).value.value, GetLengths(s).value.rest + t))
  {
    hide Uvarint.Get;
    var f := Uvarint.Get(s, 0).value;
    Uvarint.GetLocal(s, t, 0);
    var s1 := s[f.size..];
    assert (s + t)[f.size..] == s1 + t;
    var v := Uvarint.Get(s1, 0).value;
    Uvarint.GetLocal(s1, t, 0);
    assert (s1 + t)[v.size..] == s1[v.size..] + t;
  }

  lemma BytesLocal(s: seq<byte>, t: seq<byte>, n: Lengths)
    requires GetBytes(s, n, 0).Some?
    ensures GetBytes(s + t, n, 0) == Some(Parsed(GetBytes(s, n, 0).value.value, GetBytes(s, n, 0).value.rest + t))
  {
    var u := s[n.field..];
    assert (s + t)[n.field..] == u + t && (s + t)[..n.field] == s[..n.field];
    assert (u + t)[n.value..] == u[n.value..] + t && (u + t)[..n.value] == u[..n.value];
  }

  /** A record is read from its own bytes only. */
  lemma PairLocal(s: seq<byte>, t: seq<byte>)
    requires GetPair(s, false).Some?
    ensures GetPair(s + t, false) == Some(Parsed(GetPair(s, false).value.value, GetPair(s, false).value.rest + t))
  {
    hide GetLengths, GetBytes;
    LengthsLocal(s, t);
    BytesLocal(GetLengths(s).value.rest, t, GetLengths(s).value.value);
  }

  /** Appending a record adds it and keeps every record there was. */
  lemma Appended(body: seq<byte>, f: Field, v: seq<byte>)
    requires |f| < TWO64 && |v| < TWO64
    ensures var recs, recs' := Recs(body), Recs(body + Record(f, v));
      && (forall u :: u in recs ==> u in recs' && recs'[u] == recs[u])
      && |body| + 1 in recs' && recs'[|body| + 1] == Pair(f, v, 0)
  {
    hide GetPair, PutPair;
    var rec := Record(f, v);
    PairRoundTrip(Pair(f, v, 0), false, []);
    assert rec + [] == rec;
    assert (body + rec)[|body|..] == rec;
    RecordLength(f, v);
    forall u | u in Recs(body)
      ensures u in Recs(body + rec) && Recs(body + rec)[u] == Recs(body)[u]
    {
      assert (body + rec)[u - 1..] == body[u - 1..] + rec;
      PairLocal(body[u - 1..], rec);
    }
  }

  lemma RecordLength(f: Field, v: seq<byte>)
    ensures |f| + |v| + 2 <= |Record(f, v)|
    ensures |f| < TWO64 && |v| < TWO64 ==> |Record(f, v)| <= |f| + |v| + 20
  {
    hide Uvarint.Put;
    if |f| < TWO64 && |v| < TWO64 {
      Uvarint.RoundTrip(|f|, []);
      Uvarint.RoundTrip(|v|, []);
    }
  }

  // ---- the map they hold ----

  ghost predicate Taken(slots: seq<nat>, recs: map<nat, Pair>, s: nat)
  {
    s < |slots| && slots[s] != 0 && slots[s] in recs
  }

  ghost function Stored(slots: seq<nat>, recs: map<nat, Pair>): set<Field>
  {
    set s | 0 <= s < |slots| && Taken(slots, recs, s) :: recs[slots[s]].field
  }

  ghost function StoredIn(slots: seq<nat>, recs: map<nat, Pair>, f: Field): (s: nat)
    requires f in Stored(slots, recs)
    ensures Taken(slots, recs, s) && recs[slots[s]].field == f
  {
    var s: nat :| Taken(slots, recs, s) && recs[slots[s]].field == f;
    s
  }

  ghost function View(slots: seq<nat>, recs: map<nat, Pair>): map<Field, Entry>
  {
    map f | f in Stored(slots, recs) ::
      var x := recs[slots[StoredIn(slots, recs, f)]];
      Entry(x.value, x.expiresAt)
  }

  ghost predicate Table(slots: seq<nat>, recs: map<nat, Pair>, hash: Field -> nat)
  {
    Probing.Table(slots, Keys(recs), hash)
  }

  lemma TableSlot(slots: seq<nat>, recs: map<nat, Pair>, hash: Field -> nat, s: nat)
    requires Table(slots, recs, hash) && s < |slots| && slots[s] != 0
    ensures Taken(slots, recs, s)
  {
    assert Probing.Placed(slots, Keys(recs), hash, s);
  }

  lemma TableApart(slots: seq<nat>, recs: map<nat, Pair>, hash: Field -> nat, s: nat, t: nat)
    requires Table(slots, recs, hash) && Taken(slots, recs, s) && Taken(slots, recs, t)
    requires recs[slots[s]].field == recs[slots[t]].field
    ensures s == t
  {
    var a, b := slots[s], slots[t];
    assert Keys(recs)[a] == Keys(recs)[b];
  }

  /** Each taken slot shows its record in the view. */
  lemma ViewAt(slots: seq<nat>, recs: map<nat, Pair>, hash: Field -> nat, s: nat)
    requires Table(slots, recs, hash) && Taken(slots, recs, s)
    ensures var p := recs[slots[s]];
      p.field in View(slots, recs) && View(slots, recs)[p.field] == Entry(p.value, p.expiresAt)
  {
    var f := recs[slots[s]].field;
    assert f in Stored(slots, recs);
    TableApart(slots, recs, hash, s, StoredIn(slots, recs, f));
  }

  /** Each field of the view is in some slot. */
  lemma ViewSlot(slots: seq<nat>, recs: map<nat, Pair>, f: Field) returns (s: nat)
    requires f in View(slots, recs)
    ensures Taken(slots, recs, s) && recs[slots[s]].field == f
    ensures View(slots, recs)[f] == Entry(recs[slots[s]].value, recs[slots[s]].expiresAt)
  {
    s := StoredIn(slots, recs, f);
  }

  lemma HasView(slots: seq<nat>, recs: map<nat, Pair>, f: Field)
    ensures Probing.Has(slots, Keys(recs), f) <==> f in View(slots, recs)
  {
    if Probing.Has(slots, Keys(recs), f) {
      var s :| 0 <= s < |slots| && slots[s] != 0 && slots[s] in Keys(recs) && Keys(recs)[slots[s]] == f;
      assert Taken(slots, recs, s);
    }
    if f in View(slots, recs) {
      var s := StoredIn(slots, recs, f);
      assert Keys(recs)[slots[s]] == f;
    }
  }

  lemma TableGrows(slots: seq<nat>, key: map<nat, Field>, key': map<nat, Field>, hash: Field -> nat)
    requires Probing.Table(slots, key, hash)
    requires forall v :: v in key ==> v in key' && key'[v] == key[v]
    ensures Probing.Table(slots, key', hash)
  {
    forall s | 0 <= s < |slots|
      ensures Probing.Placed(slots, key', hash, s)
    {
      assert Probing.Placed(slots, key, hash, s);
    }
    forall s, t | 0 <= s < t < |slots| && slots[s] != 0 && slots[t] != 0
      ensures slots[s] in key' && slots[t] in key' && key'[slots[s]] != key'[slots[t]]
    {
      assert Probing.Placed(slots, key, hash, s) && Probing.Placed(slots, key, hash, t);
    }
  }

  /** The slot that a probe for `f` ends at. */
  ghost predicate Ends(slots: seq<nat>, recs: map<nat, Pair>, hash: Field -> nat, f: Field, s: nat)
    requires |slots| > 0
  {
    s < |slots| && Probing.Decides(slots, Keys(recs), Probing.Home(hash, f, |slots|), f,
      if slots[s] == 0 then Probing.Vacant(s) else Probing.Match(s))
  }

  /** Where a probe ends tells whether the field is held. */
  lemma EndsView(slots: seq<nat>, recs: map<nat, Pair>, hash: Field -> nat, f: Field, s: nat)
    requires Table(slots, recs, hash) && Ends(slots, recs, hash, f, s)
    ensures slots[s] == 0 <==> f !in View(slots, recs)
    ensures slots[s] != 0 ==> Taken(slots, recs, s) && recs[slots[s]].field == f
  {
    HasView(slots, recs, f);
    if slots[s] != 0 { assert Taken(slots, recs, s); }
  }

  /** Pointing the probed slot at a new record of the field sets that field, and nothing else. */
  lemma PutKeeps(slots: seq<nat>, recs: map<nat, Pair>, recs': map<nat, Pair>, hash: Field -> nat, s: nat, x: Pair,
                 v: nat)
    requires Table(slots, recs, hash) && Ends(slots, recs, hash, x.field, s)
    requires v != 0 && v !in recs && v in recs' && recs'[v] == x
    requires forall u :: u in recs ==> u in recs' && recs'[u] == recs[u]
    ensures Table(slots[s := v], recs', hash)
    ensures View(slots[s := v], recs') == View(slots, recs)[x.field := Entry(x.value, x.expiresAt)]
    ensures Probing.Occupied(slots[s := v]) == Probing.Occupied(slots) + if x.field in View(slots, recs) then 0 else 1
  {
    var key := Keys(recs);
    forall t | 0 <= t < |slots| ensures slots[t] != v {
      if slots[t] == v {
        TableSlot(slots, recs, hash, t);
        assert false;
      }
    }
    if slots[s] == 0 { Probing.InsertKeeps(slots, key, hash, x.field, s, v); }
    else { Probing.ReplaceKeeps(slots, key, hash, x.field, s, v); }
    TableGrows(slots[s := v], key[v := x.field], Keys(recs'), hash);
    Probing.OccupiedUpdate(slots, s, v);
    EndsView(slots, recs, hash, x.field, s);
    PutView(slots, recs, recs', hash, s, x, v);
  }

  lemma PutView(slots: seq<nat>, recs: map<nat, Pair>, recs': map<nat, Pair>, hash: Field -> nat, s: nat, x: Pair,
                v: nat)
    requires Table(slots, recs, hash) && s < |slots| && Table(slots[s := v], recs', hash)
    requires v != 0 && v in recs' && recs'[v] == x
    requires forall u :: u in recs ==> u in recs' && recs'[u] == recs[u]
    requires slots[s] != 0 ==> Taken(slots, recs, s) && recs[slots[s]].field == x.field
    ensures View(slots[s := v], recs') == View(slots, recs)[x.field := Entry(x.value, x.expiresAt)]
  {
    hide Probing.Table, View;
    var slots' := slots[s := v];
    var m, m' := View(slots, recs), View(slots', recs');
    assert Taken(slots', recs', s);
    ViewAt(slots', recs', hash, s);
    forall f | f in m && f != x.field
      ensures f in m' && m'[f] == m[f]
    {
      var t := ViewSlot(slots, recs, f);
      assert t != s && Taken(slots', recs', t);
      ViewAt(slots', recs', hash, t);
    }
    forall f | f in m' && f != x.field
      ensures f in m
    {
      var t := ViewSlot(slots', recs', f);
      assert t != s && slots[t] == slots'[t];
      TableSlot(slots, recs, hash, t);
      ViewAt(slots, recs, hash, t);
    }
  }

  // ---- all pairs of the table ----

  /** The records of the first `n` slots, in slot order. */
  ghost function PairsIn(slots: seq<nat>, recs: map<nat, Pair>, n: nat): seq<Pair>
    requires n <= |slots|
  {
    if n == 0 then []
    else PairsIn(slots, recs, n - 1) + if Taken(slots, recs, n - 1) then [recs[slots[n - 1]]] else []
  }

  lemma {:induction false} PairsInMap(slots: seq<nat>, recs: map<nat, Pair>, hash: Field -> nat, n: nat)
    requires Table(slots, recs, hash) && n <= |slots|
    ensures Distinct(PairsIn(slots, recs, n))
    ensures |PairsIn(slots, recs, n)| == Probing.Occupied(slots[..n])
    ensures forall f :: f in ToMap(PairsIn(slots, recs, n)) <==>
      exists s :: 0 <= s < n && Taken(slots, recs, s) && recs[slots[s]].field == f
  {
    hide Probing.Table;
    if n > 0 {
      var k := n - 1;
      PairsInMap(slots, recs, hash, k);
      var p := PairsIn(slots, recs, k);
      assert slots[..n][..k] == slots[..k];
      if slots[k] != 0 {
        TableSlot(slots, recs, hash, k);
        var x := recs[slots[k]];
        if x.field in ToMap(p) {
          var s :| 0 <= s < k && Taken(slots, recs, s) && recs[slots[s]].field == x.field;
          TableApart(slots, recs, hash, s, k);
          assert false;
        }
        DistinctSnoc(p, x);
        assert PairsIn(slots, recs, n) == p + [x];
        assert (p + [x])[..|p|] == p;
      } else {
        assert PairsIn(slots, recs, n) == p;
      }
    }
  }

  /** Collecting the slots gives exactly the view. */
  lemma {:induction false} PairsInView(slots: seq<nat>, recs: map<nat, Pair>, hash: Field -> nat)
    requires Table(slots, recs, hash)
    ensures ToMap(PairsIn(slots, recs, |slots|)) == View(slots, recs)
  {
    hide Probing.Table;
    var n := |slots|;
    var p := PairsIn(slots, recs, n);
    PairsInMap(slots, recs, hash, n);
    forall f | f in ToMap(p)
      ensures f in View(slots, recs) && ToMap(p)[f] == View(slots, recs)[f]
    {
      ToMapHas(p, f);
      var i :| 0 <= i < |p| && p[i].field == f;
      ToMapAt(p, i);
      var s := PairsInFrom(slots, recs, n, i);
      ViewAt(slots, recs, hash, s);
    }
    forall f | f in View(slots, recs)
      ensures f in ToMap(p)
    {
      assert Taken(slots, recs, StoredIn(slots, recs, f));
    }
  }

  lemma {:induction false} PairsInFrom(slots: seq<nat>, recs: map<nat, Pair>, n: nat, i: nat) returns (s: nat)
    requires n <= |slots| && i < |PairsIn(slots, recs, n)|
    ensures s < n && Taken(slots, recs, s) && PairsIn(slots, recs, n)[i] == recs[slots[s]]
  {
    if i < |PairsIn(slots, recs, n - 1)| {
      s := PairsInFrom(slots, recs, n - 1, i);
    } else {
      s := n - 1;
    }
  }
}
