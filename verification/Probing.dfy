/** Open addressing with linear probing, as both the indexed and the HOT hash layouts use it.  A slot
    holds zero when empty, otherwise a number that names a record; `key` gives the field of each
    record and `hash` the hash of each field. */
module Probing {
  import opened FieldOrder

  /** Probe position `e` from home slot `h`, among `n` slots. */
  function At(h: nat, e: nat, n: nat): nat
  {
    if h + e < n then h + e else h + e - n
  }

  /** How far slot `s` is from home slot `h`. */
  function Dist(h: nat, s: nat, n: nat): nat
    requires h < n && s < n
  {
    if h <= s then s - h else s + n - h
  }

  lemma AtDist(h: nat, s: nat, e: nat, n: nat)
    requires h < n && s < n && e < n
    ensures At(h, e, n) < n && Dist(h, s, n) < n && At(h, Dist(h, s, n), n) == s && Dist(h, At(h, e, n), n) == e
  {
  }

  /** Every slot from the home slot up to `s` is taken. */
  ghost predicate PathFull(slots: seq<nat>, h: nat, s: nat)
    requires h < |slots| && s < |slots|
  {
    forall e {:trigger At(h, e, |slots|)} :: 0 <= e < Dist(h, s, |slots|) ==> slots[At(h, e, |slots|)] != 0
  }

  function Home(hash: Field -> nat, f: Field, n: nat): (h: nat)
    requires n > 0
    ensures h < n
  {
    hash(f) % n
  }

  /** Slot `s` is empty, or its record is known and reachable from the home slot of its field. */
  ghost predicate Placed(slots: seq<nat>, key: map<nat, Field>, hash: Field -> nat, s: nat)
    requires s < |slots|
  {
    slots[s] != 0 ==> slots[s] in key && PathFull(slots, Home(hash, key[slots[s]], |slots|), s)
  }

  ghost predicate Table(slots: seq<nat>, key: map<nat, Field>, hash: Field -> nat)
  {
    && |slots| > 0
    && (forall s {:trigger Placed(slots, key, hash, s)} :: 0 <= s < |slots| ==> Placed(slots, key, hash, s))
    && (forall s, t :: 0 <= s < t < |slots| && slots[s] != 0 && slots[t] != 0 && slots[s] in key && slots[t] in key ==>
          key[slots[s]] != key[slots[t]])
  }

  /** Some slot holds a record of field `f`. */
  ghost predicate Has(slots: seq<nat>, key: map<nat, Field>, f: Field)
  {
    exists s :: 0 <= s < |slots| && slots[s] != 0 && slots[s] in key && key[slots[s]] == f
  }

  datatype Hit = Vacant(slot: nat) | Match(slot: nat) | Full

  /** What a probe for `f` that starts at distance `d` ends at. */
  ghost function Probe(slots: seq<nat>, key: map<nat, Field>, h: nat, f: Field, d: nat): Hit
    requires h < |slots| && d <= |slots|
    decreases |slots| - d
  {
    if d == |slots| then Full
    else
      var s := At(h, d, |slots|);
      if slots[s] == 0 then Vacant(s)
      else if slots[s] in key && key[slots[s]] == f then Match(s)
      else Probe(slots, key, h, f, d + 1)
  }

  /** One step of a probe. */
  lemma ProbeAt(slots: seq<nat>, key: map<nat, Field>, h: nat, f: Field, d: nat)
    requires h < |slots| && d < |slots|
    ensures var s := At(h, d, |slots|);
      && s < |slots| && (slots[s] == 0 ==> Probe(slots, key, h, f, d) == Vacant(s))
      && (slots[s] != 0 && slots[s] in key ==>
            Probe(slots, key, h, f, d) == if key[slots[s]] == f then Match(s) else Probe(slots, key, h, f, d + 1))
  {
  }

  lemma ProbeEnd(slots: seq<nat>, key: map<nat, Field>, h: nat, f: Field)
    requires h < |slots|
    ensures Probe(slots, key, h, f, |slots|) == Full
  {
  }

  /** The probe passed these positions without meeting an empty slot or the field. */
  ghost predicate Passed(slots: seq<nat>, key: map<nat, Field>, h: nat, f: Field, d: nat)
    requires h < |slots| && d <= |slots|
  {
    forall e {:trigger At(h, e, |slots|)} :: 0 <= e < d ==>
      slots[At(h, e, |slots|)] != 0 && !(slots[At(h, e, |slots|)] in key && key[slots[At(h, e, |slots|)]] == f)
  }

  /** The outcome of a probe: a match holds the field; a vacant slot proves the field absent. */
  ghost predicate Decides(slots: seq<nat>, key: map<nat, Field>, h: nat, f: Field, hit: Hit)
    requires h < |slots|
  {
    match hit
    case Match(s) => s < |slots| && slots[s] != 0 && slots[s] in key && key[slots[s]] == f
    case Vacant(s) => s < |slots| && slots[s] == 0 && PathFull(slots, h, s) && !Has(slots, key, f)
    case Full => forall s :: 0 <= s < |slots| ==> slots[s] != 0
  }

  lemma {:induction false} ProbeDecides(slots: seq<nat>, key: map<nat, Field>, hash: Field -> nat, f: Field, d: nat)
    requires Table(slots, key, hash) && d <= |slots| && Passed(slots, key, Home(hash, f, |slots|), f, d)
    ensures Decides(slots, key, Home(hash, f, |slots|), f, Probe(slots, key, Home(hash, f, |slots|), f, d))
    decreases |slots| - d
  {
    var n, h := |slots|, Home(hash, f, |slots|);
    if d == n {
      forall s | 0 <= s < n
        ensures slots[s] != 0
      {
        AtDist(h, s, 0, n);
        assert slots[At(h, Dist(h, s, n), n)] != 0;
      }
    } else {
      var s := At(h, d, n);
      AtDist(h, s, d, n);
      if slots[s] == 0 {
        Absent(slots, key, hash, f, d);
      } else if !(slots[s] in key && key[slots[s]] == f) {
        ProbeDecides(slots, key, hash, f, d + 1);
      }
    }
  }

  lemma Absent(slots: seq<nat>, key: map<nat, Field>, hash: Field -> nat, f: Field, d: nat)
    requires Table(slots, key, hash) && d < |slots| && Passed(slots, key, Home(hash, f, |slots|), f, d)
    requires slots[At(Home(hash, f, |slots|), d, |slots|)] == 0
    ensures !Has(slots, key, f)
  {
    var n, h := |slots|, Home(hash, f, |slots|);
    forall t | 0 <= t < n && slots[t] != 0 && slots[t] in key
      ensures key[slots[t]] != f
    {
      if key[slots[t]] == f {
        assert Placed(slots, key, hash, t);
        AtDist(h, t, d, n);
        assert false;
      }
    }
  }

  /** Putting a new record into the vacant slot of its probe keeps the table. */
  lemma InsertKeeps(slots: seq<nat>, key: map<nat, Field>, hash: Field -> nat, f: Field, s: nat, v: nat)
    requires Table(slots, key, hash) && s < |slots| && v != 0
    requires Decides(slots, key, Home(hash, f, |slots|), f, Vacant(s))
    requires forall t :: 0 <= t < |slots| ==> slots[t] != v
    ensures Table(slots[s := v], key[v := f], hash)
  {
    var slots', key' := slots[s := v], key[v := f];
    forall t | 0 <= t < |slots'|
      ensures Placed(slots', key', hash, t)
    {
      assert Placed(slots, key, hash, t);
    }
    forall t, u | 0 <= t < u < |slots'| && slots'[t] != 0 && slots'[u] != 0 && slots'[t] in key' && slots'[u] in key'
      ensures key'[slots'[t]] != key'[slots'[u]]
    {
      assert Placed(slots, key, hash, t) && Placed(slots, key, hash, u);
    }
  }

  /** Pointing a slot to a newer record of the same field keeps the table. */
  lemma ReplaceKeeps(slots: seq<nat>, key: map<nat, Field>, hash: Field -> nat, f: Field, s: nat, v: nat)
    requires Table(slots, key, hash) && s < |slots| && v != 0
    requires Decides(slots, key, Home(hash, f, |slots|), f, Match(s))
    requires forall t :: 0 <= t < |slots| ==> slots[t] != v
    ensures Table(slots[s := v], key[v := f], hash)
  {
    var slots', key' := slots[s := v], key[v := f];
    forall t | 0 <= t < |slots'|
      ensures Placed(slots', key', hash, t)
    {
      assert Placed(slots, key, hash, t);
    }
    forall t, u | 0 <= t < u < |slots'| && slots'[t] != 0 && slots'[u] != 0 && slots'[t] in key' && slots'[u] in key'
      ensures key'[slots'[t]] != key'[slots'[u]]
    {
      assert Placed(slots, key, hash, t) && Placed(slots, key, hash, u);
    }
  }

  /** The number of taken slots. */
  function Occupied(slots: seq<nat>): nat
  {
    if slots == [] then 0
    else Occupied(slots[..|slots| - 1]) + if slots[|slots| - 1] != 0 then 1 else 0
  }

  lemma {:induction false} OccupiedUpdate(slots: seq<nat>, s: nat, v: nat)
    requires s < |slots|
    ensures Occupied(slots[s := v]) == Occupied(slots) - (if slots[s] != 0 then 1 else 0) + if v != 0 then 1 else 0
  {
    var n := |slots| - 1;
    if s < n {
      assert slots[s := v][..n] == slots[..n][s := v];
      OccupiedUpdate(slots[..n], s, v);
    } else {
      assert slots[s := v][..n] == slots[..n];
    }
  }

  /** A table with room left has an empty slot, so every probe ends. */
  lemma {:induction false} RoomLeft(slots: seq<nat>)
    requires Occupied(slots) < |slots|
    ensures exists s :: 0 <= s < |slots| && slots[s] == 0
  {
    var n := |slots| - 1;
    if slots[n] != 0 {
      RoomLeft(slots[..n]);
      var s :| 0 <= s < n && slots[..n][s] == 0;
      assert slots[s] == 0;
    }
  }

  lemma {:induction false} OccupiedZero(slots: seq<nat>)
    requires forall s :: 0 <= s < |slots| ==> slots[s] == 0
    ensures Occupied(slots) == 0
  {
    if slots != [] { OccupiedZero(slots[..|slots| - 1]); }
  }

  /** The first empty slot from the home slot on. */
  method FirstEmpty(slots: seq<nat>, start: nat) returns (slot: nat)
    requires start < |slots| && Occupied(slots) < |slots|
    ensures slot < |slots| && slots[slot] == 0 && PathFull(slots, start, slot)
  {
    var n := |slots|;
    slot := start;
    RoomLeft(slots);
    for probe := 0 to n
      invariant forall e {:trigger At(start, e, n)} :: 0 <= e < probe ==> slots[At(start, e, n)] != 0
    {
      slot := At(start, probe, n);
      AtDist(start, slot, probe, n);
      if slots[slot] == 0 { return; }
    }
    ghost var s :| 0 <= s < n && slots[s] == 0;
    AtDist(start, s, 0, n);
    assert false;
  }

  lemma EmptyTable(slots: seq<nat>, hash: Field -> nat)
    requires |slots| > 0 && forall s :: 0 <= s < |slots| ==> slots[s] == 0
    ensures Table(slots, map[], hash) && Occupied(slots) == 0
  {
    OccupiedZero(slots);
  }
}
