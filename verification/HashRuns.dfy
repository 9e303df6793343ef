/** Whole runs of hash commands on one key, against a plain map. */
module HashRuns {
  import opened Words
  import opened FieldOrder
  import opened HashSpec
  import opened HashCommands
  import IndexedHash

  datatype Op =
    | OpSet(fields: seq<Field>, values: seq<seq<byte>>)
    | OpBatch(fields: seq<Field>, values: seq<seq<byte>>)
    | OpSetEx(fields: seq<Field>, values: seq<seq<byte>>, condition: FieldCondition, at: Option<int>, keep: bool)
    | OpExpire(fields: seq<Field>, when: int, only: Condition)
    | OpDel(fields: seq<Field>)
    | OpGet(field: Field)
    | OpGetAll
    | OpThaw
    | OpFreeze

  datatype Answer = Count(n: int) | Counts(results: seq<nat>) | Codes(codes: seq<int>) | Flag(done: bool)
    | Value(value: Option<seq<byte>>) | All(pairs: map<Field, Entry>) | Silent

  /** A command, the clock it reads, and what the memory limit says to it. */
  datatype Timed = Timed(op: Op, now: int, grant: bool, unlimited: bool)

  datatype Outcome = Outcome(m: map<Field, Entry>, answer: Answer)

  /** Commands a client can send: as many values as fields, and 64-bit deadlines. */
  predicate WellFormed(op: Op)
  {
    match op
    case OpSet(fields, values) => |fields| == |values|
    case OpBatch(fields, values) => |fields| == |values|
    case OpSetEx(fields, values, _, at, _) => |fields| == |values| && (at.Some? ==> Int64(at.value))
    case OpExpire(_, when, _) => Int64(when)
    case _ => true
  }

  /** What a command does to the live fields, and what it answers, on a plain map. */
  ghost function Meaning(op: Op, m: map<Field, Entry>, now: int): Outcome
    requires WellFormed(op)
  {
    match op
    case OpSet(fields, values) => Outcome(SetAll(m, fields, values), Count(|SetAll(m, fields, values)| - |m|))
    case OpBatch(fields, values) => Outcome(SetAll(m, fields, values), Counts(Results(m, fields)))
    case OpSetEx(fields, values, c, at, keep) =>
      Outcome(SetExLeft(m, fields, values, c, at, keep, now), Flag(Admits(c, m, fields)))
    case OpExpire(fields, when, c) =>
      Outcome(Expired(m, fields, when, c, now), Codes(ExpireAll(m, fields, when, c, now).out))
    case OpDel(fields) =>
      var left := m - (set f | f in fields);
      Outcome(left, Count(|m| - |left|))
    case OpGet(f) => Outcome(m, Value(if f in m then Some(m[f].value) else None))
    case OpGetAll => Outcome(m, All(m))
    case OpThaw => Outcome(m, Silent)
    case OpFreeze => Outcome(m, Silent)
  }

  /** The command asks for something, the memory limit lets it pass, and the fields fit in 32 MiB before
      and after it. */
  ghost predicate Admitted(t: Timed, m: map<Field, Entry>)
    requires WellFormed(t.op)
  {
    && t.grant && Storable(m) && Storable(Meaning(t.op, m, t.now).m)
    && match t.op
       case OpSet(fields, _) => fields != []
       case OpBatch(fields, _) => fields != []
       case OpSetEx(fields, _, c, _, _) => fields != [] && !c.Unknown?
       case OpExpire(fields, _, c) => fields != [] && c != Other
       case _ => true
  }

  /** The live fields that a refused command leaves: the first `kept` writes of an HSET stay, nothing of
      any other command does. */
  ghost function Left(op: Op, m: map<Field, Entry>, kept: nat): map<Field, Entry>
    requires WellFormed(op)
  {
    if (op.OpSet? || op.OpBatch?) && kept <= |op.fields| then SetAll(m, op.fields[..kept], op.values[..kept]) else m
  }

  /** How many writes of a command are made in place before it can be refused. */
  ghost function KeptBy(f: Snapshot, op: Op): (k: nat)
    requires WellFormed(op)
    ensures k > 0 ==> (op.OpSet? || op.OpBatch?) && k <= |op.fields|
  {
    if op.OpSet? || op.OpBatch? then InPlace(f, op.fields, op.values) else 0
  }

  /** The command is carried out on live fields `m` in the given form; every other one is refused. */
  ghost predicate Passes(f: Snapshot, m: map<Field, Entry>, t: Timed)
    requires WellFormed(t.op)
  {
    match t.op
    case OpSet(fields, values) => fields != [] && SetPasses(f, m, fields, values, t.grant)
    case OpBatch(fields, values) =>
      fields != [] && (Warms(f, m, t.unlimited) || SetPasses(f, m, fields, values, t.grant))
    case OpSetEx(fields, values, c, at, keep) =>
      fields != [] && SetExPasses(f, m, fields, values, c, at, keep, t.now, t.grant)
    case OpExpire(fields, when, c) => fields != [] && ExpirePasses(f, m, fields, when, c, t.now, t.grant)
    case OpDel(fields) => DelPasses(f, m, m - (set f | f in fields), t.grant)
    case OpFreeze => Freezes(f, m, t.grant)
    case _ => true
  }

  function Written(op: Op): nat
    requires WellFormed(op)
  {
    match op
    case OpSet(fields, values) => WriteBytes(fields, values)
    case OpBatch(fields, values) => WriteBytes(fields, values)
    case OpSetEx(fields, values, _, _, _) => WriteBytes(fields, values)
    case _ => 0
  }

  method StepSet(key: HashKey, t: Timed) returns (a: Option<Answer>)
    requires key.Valid() && WellFormed(t.op) && t.op.OpSet? && key.spent + Written(t.op) < TWO32
    modifies key, key.Repr()
    ensures key.Valid() && fresh(key.Repr() - old(key.Repr())) && key.spent <= old(key.spent) + Written(t.op)
    ensures a.Some? ==> Outcome(key.Live(t.now), a.value) == Meaning(t.op, old(key.Live(t.now)), t.now)
    ensures a.None? ==> key.Live(t.now) == Left(t.op, old(key.Live(t.now)), KeptBy(old(key.Snap()), t.op))
    ensures a.Some? <==> Passes(old(key.Snap()), old(key.Live(t.now)), t)
    ensures Admitted(t, old(key.Live(t.now))) ==> a.Some?
  {
    hide SetAll, SetExAll, ExpireAll, LiveMap, WriteBytes, Admits, Results, Bounded, ToMap, Storable, HashKey.Valid,
      HashKey.FormValid, HashKey.Stored, HashKey.Live, HashKey.Snap, InPlace, AllOrNothing, SetPasses, Built;
    var added := key.Set(t.op.fields, t.op.values, t.now, t.grant);
    a := if added.Some? then Some(Count(added.value)) else None;
  }

  method StepBatch(key: HashKey, t: Timed) returns (a: Option<Answer>)
    requires key.Valid() && WellFormed(t.op) && t.op.OpBatch? && key.spent + Written(t.op) < TWO32
    modifies key, key.Repr()
    ensures key.Valid() && fresh(key.Repr() - old(key.Repr())) && key.spent <= old(key.spent) + Written(t.op)
    ensures a.Some? ==> Outcome(key.Live(t.now), a.value) == Meaning(t.op, old(key.Live(t.now)), t.now)
    ensures a.None? ==> key.Live(t.now) == Left(t.op, old(key.Live(t.now)), KeptBy(old(key.Snap()), t.op))
    ensures a.Some? <==> Passes(old(key.Snap()), old(key.Live(t.now)), t)
    ensures Admitted(t, old(key.Live(t.now))) ==> a.Some?
  {
    hide SetAll, SetExAll, ExpireAll, LiveMap, WriteBytes, Admits, Results, Bounded, ToMap, Storable, HashKey.Valid,
      HashKey.FormValid, HashKey.Stored, HashKey.Live, HashKey.Snap, InPlace, AllOrNothing, SetPasses, Warms;
    var r := key.SetResults(t.op.fields, t.op.values, t.now, t.unlimited, t.grant);
    a := if r.Some? then Some(Counts(r.value)) else None;
  }

  method StepSetEx(key: HashKey, t: Timed) returns (a: Option<Answer>)
    requires key.Valid() && WellFormed(t.op) && t.op.OpSetEx? && key.spent + Written(t.op) < TWO32
    modifies key, key.Repr()
    ensures key.Valid() && fresh(key.Repr() - old(key.Repr())) && key.spent <= old(key.spent) + Written(t.op)
    ensures a.Some? ==> Outcome(key.Live(t.now), a.value) == Meaning(t.op, old(key.Live(t.now)), t.now)
    ensures a.None? ==> key.Live(t.now) == Left(t.op, old(key.Live(t.now)), KeptBy(old(key.Snap()), t.op))
    ensures a.Some? <==> Passes(old(key.Snap()), old(key.Live(t.now)), t)
    ensures Admitted(t, old(key.Live(t.now))) ==> a.Some?
  {
    hide SetAll, SetExAll, ExpireAll, LiveMap, WriteBytes, Admits, Results, Bounded, ToMap, Storable, HashKey.Valid,
      HashKey.FormValid, HashKey.Stored, HashKey.Live, HashKey.Snap, InPlace, SetExPasses;
    var r := key.SetEx(t.op.fields, t.op.values, t.op.condition, t.op.at, t.op.keep, t.now, t.grant);
    a := if r.Some? then Some(Flag(r.value)) else None;
  }

  method StepRead(key: HashKey, t: Timed) returns (a: Option<Answer>)
    requires key.Valid() && WellFormed(t.op) && (t.op.OpGet? || t.op.OpGetAll?)
    ensures a.Some? && Outcome(key.Live(t.now), a.value) == Meaning(t.op, key.Live(t.now), t.now)
    ensures Passes(key.Snap(), key.Live(t.now), t)
  {
    hide LiveMap, Bounded, ToMap, HashKey.FormValid, HashKey.Stored;
    match t.op {
      case OpGet(f) =>
        var v := key.Get(f, t.now);
        a := Some(Value(v));
      case OpGetAll =>
        var p := key.GetAll(t.now);
        a := Some(All(ToMap(p)));
    }
  }

  method StepDrop(key: HashKey, t: Timed) returns (a: Option<Answer>)
    requires key.Valid() && WellFormed(t.op) && (t.op.OpExpire? || t.op.OpDel?)
    modifies key, key.Repr()
    ensures key.Valid() && fresh(key.Repr() - old(key.Repr())) && key.spent == old(key.spent)
    ensures a.Some? ==> Outcome(key.Live(t.now), a.value) == Meaning(t.op, old(key.Live(t.now)), t.now)
    ensures a.None? ==> key.Live(t.now) == Left(t.op, old(key.Live(t.now)), KeptBy(old(key.Snap()), t.op))
    ensures a.Some? <==> Passes(old(key.Snap()), old(key.Live(t.now)), t)
    ensures Admitted(t, old(key.Live(t.now))) ==> a.Some?
  {
    hide SetAll, SetExAll, ExpireAll, LiveMap, Bounded, ToMap, Storable, HashKey.Valid, HashKey.FormValid,
      HashKey.Stored, HashKey.Live, HashKey.Snap, DelPasses, ExpirePasses;
    match t.op {
      case OpExpire(fields, when, c) =>
        var r := key.ExpireAt(fields, when, c, t.now, t.grant);
        a := if r.Some? then Some(Codes(r.value)) else None;
      case OpDel(fields) =>
        var r := key.Del(fields, t.now, t.grant);
        a := if r.Some? then Some(Count(r.value)) else None;
    }
  }

  method StepForm(key: HashKey, t: Timed) returns (a: Option<Answer>)
    requires key.Valid() && WellFormed(t.op) && (t.op.OpThaw? || t.op.OpFreeze?) && key.spent < TWO32
    modifies key
    ensures key.Valid() && fresh(key.Repr() - old(key.Repr())) && key.spent == old(key.spent)
    ensures a.Some? ==> Outcome(key.Live(t.now), a.value) == Meaning(t.op, old(key.Live(t.now)), t.now)
    ensures a.None? ==> key.Live(t.now) == Left(t.op, old(key.Live(t.now)), KeptBy(old(key.Snap()), t.op))
    ensures a.Some? <==> Passes(old(key.Snap()), old(key.Live(t.now)), t)
    ensures Admitted(t, old(key.Live(t.now))) ==> a.Some?
  {
    hide LiveMap, Bounded, ToMap, Storable, HashKey.FormValid;
    match t.op {
      case OpThaw =>
        var hot := key.Thaw(t.now, t.unlimited);
        a := Some(Silent);
      case OpFreeze =>
        key.HotLive(t.now);
        var ok := key.Freeze(t.grant);
        a := if ok then Some(Silent) else None;
    }
  }

  /** One command: when it is not refused, it does and answers what the map does; refused, it
      leaves the writes of an HSET that were made in place, and nothing else. */
  method Step(key: HashKey, t: Timed) returns (a: Option<Answer>)
    requires key.Valid() && WellFormed(t.op) && key.spent + Written(t.op) < TWO32
    modifies key, key.Repr()
    ensures key.Valid() && fresh(key.Repr() - old(key.Repr())) && key.spent <= old(key.spent) + Written(t.op)
    ensures a.Some? ==> Outcome(key.Live(t.now), a.value) == Meaning(t.op, old(key.Live(t.now)), t.now)
    ensures a.None? ==> key.Live(t.now) == Left(t.op, old(key.Live(t.now)), KeptBy(old(key.Snap()), t.op))
    ensures a.Some? <==> Passes(old(key.Snap()), old(key.Live(t.now)), t)
    ensures Admitted(t, old(key.Live(t.now))) ==> a.Some?
  {
    hide Written, Meaning, Left, KeptBy, Passes, Admitted, HashKey.Valid, HashKey.Live, HashKey.Snap;
    assert forall o | o in key.Repr() :: allocated(o);
    match t.op {
      case OpSet(_, _) => a := StepSet(key, t);
      case OpBatch(_, _) => a := StepBatch(key, t);
      case OpSetEx(_, _, _, _, _) => a := StepSetEx(key, t);
      case OpExpire(_, _, _) => a := StepDrop(key, t);
      case OpDel(_) => a := StepDrop(key, t);
      case OpGet(_) => a := StepRead(key, t);
      case OpGetAll => a := StepRead(key, t);
      case OpThaw => a := StepForm(key, t);
      case OpFreeze => a := StepForm(key, t);
    }
  }

  // ---- runs ----

  /** Every command is well formed, clocks do not go back, and less than 4 GiB is written in all. */
  ghost predicate Legal(ops: seq<Timed>)
  {
    && (forall i :: 0 <= i < |ops| ==> WellFormed(ops[i].op))
    && (forall i, j :: 0 <= i < j < |ops| ==> ops[i].now <= ops[j].now)
    && Total(ops) < TWO32
  }

  function Total(ops: seq<Timed>): nat
    requires forall i :: 0 <= i < |ops| ==> WellFormed(ops[i].op)
  {
    if ops == [] then 0 else Total(ops[..|ops| - 1]) + Written(ops[|ops| - 1].op)
  }

  /** The map after a run in which some commands were refused. */
  ghost function State(ops: seq<Timed>, out: seq<Option<Answer>>, kept: seq<nat>): map<Field, Entry>
    requires |ops| == |out| == |kept| && forall i :: 0 <= i < |ops| ==> WellFormed(ops[i].op)
  {
    if ops == [] then map[]
    else
      var n := |ops| - 1;
      After(ops[n], State(ops[..n], out[..n], kept[..n]), out[n].Some?, kept[n])
  }

  ghost function After(t: Timed, m: map<Field, Entry>, answered: bool, kept: nat): map<Field, Entry>
    requires WellFormed(t.op)
  {
    var live := LiveMap(m, t.now);
    if answered then Meaning(t.op, live, t.now).m else Left(t.op, live, kept)
  }

  /** A form that a hash with live fields `m` can have. */
  ghost predicate Suits(f: Snapshot, m: map<Field, Entry>, fieldHash: Field -> nat)
  {
    && (f.Gone? ==> m == map[])
    && (f.Slotted? ==> IndexedHash.Valid(f.buffer, fieldHash) && IndexedHash.Contents(f.buffer) == m)
  }

  /** One command of a run, on a hash in the form `f`: it is carried out exactly when it passes, its answer
      is then the one of the plain map, and when it is refused it leaves the writes made in place. */
  ghost predicate Told(t: Timed, m: map<Field, Entry>, f: Snapshot, a: Option<Answer>, kept: nat,
                       fieldHash: Field -> nat)
    requires WellFormed(t.op)
  {
    var live := LiveMap(m, t.now);
    && Suits(f, live, fieldHash) && (a.Some? <==> Passes(f, live, t)) && (Admitted(t, live) ==> a.Some?)
    && (a.Some? ==> a.value == Meaning(t.op, live, t.now).answer)
    && kept == if a.Some? then 0 else KeptBy(f, t.op)
  }

  /** Every command of a run is told by the map that the commands before it left. */
  ghost predicate Explained(ops: seq<Timed>, out: seq<Option<Answer>>, kept: seq<nat>, forms: seq<Snapshot>,
                            fieldHash: Field -> nat)
    requires |ops| == |out| == |kept| == |forms| && forall i :: 0 <= i < |ops| ==> WellFormed(ops[i].op)
  {
    forall i :: 0 <= i < |ops| ==>
      Told(ops[i], State(ops[..i], out[..i], kept[..i]), forms[i], out[i], kept[i], fieldHash)
  }

  lemma {:induction false} TotalPrefix(ops: seq<Timed>, n: nat)
    requires n <= |ops| && forall i :: 0 <= i < |ops| ==> WellFormed(ops[i].op)
    ensures Total(ops[..n]) <= Total(ops)
    decreases |ops| - n
  {
    hide Written;
    if n == |ops| {
      assert ops[..n] == ops;
    } else {
      assert ops[..n + 1][..n] == ops[..n];
      TotalPrefix(ops, n + 1);
    }
  }

  /** The two maps look the same from a time on. */
  ghost predicate Same(a: map<Field, Entry>, b: map<Field, Entry>, t: int)
  {
    LiveMap(a, t) == LiveMap(b, t)
  }

  lemma SameSelf(m: map<Field, Entry>, t: int)
    ensures Same(m, m, t)
  {
  }

  lemma SameLater(a: map<Field, Entry>, b: map<Field, Entry>, t: int, u: int)
    requires Same(a, b, t) && t <= u
    ensures Same(a, b, u)
  {
    LiveLater(a, t, u);
    LiveLater(b, t, u);
  }

  /** From an absent key, through any forms the hash takes, every answer is the one of a plain map on
      which the same commands were made; a refused command leaves on it what it leaves in the hash.
      `forms` are the forms that the commands meet, `kept` the writes that refused ones leave. */
  method Run(ops: seq<Timed>, fieldHash: Field -> nat, hotHash: Field -> nat)
    returns (out: seq<Option<Answer>>, ghost kept: seq<nat>, ghost forms: seq<Snapshot>)
    requires Legal(ops)
    ensures |out| == |kept| == |forms| == |ops| && Explained(ops, out, kept, forms, fieldHash)
  {
    hide LiveMap, HashKey.Stored, HashKey.Valid, Written, Told, After, State, Explained, Total, Same;
    var key := new HashKey(fieldHash, hotHash);
    out, kept, forms := [], [], [];
    RunNone(ops, fieldHash);
    for i := 0 to |ops|
      invariant fresh(key) && fresh(key.Repr()) && key.Valid() && key.spent <= Total(ops[..i])
      invariant key.fieldHash == fieldHash
      invariant |out| == |kept| == |forms| == i && Explained(ops[..i], out, kept, forms, fieldHash)
      invariant i == 0 ==> key.Stored() == State(ops[..i], out, kept)
      invariant i > 0 ==> Same(key.Stored(), State(ops[..i], out, kept), ops[i - 1].now)
    {
      var t := ops[i];
      ghost var m := State(ops[..i], out, kept);
      TotalPrefix(ops, i + 1);
      TotalNext(ops, i);
      if i > 0 { SameLater(key.Stored(), m, ops[i - 1].now, t.now); } else { SameSelf(m, t.now); }
      assert forall o | o in key.Repr() :: allocated(o);
      var a;
      ghost var k, f;
      a, k, f := RunOne(key, t, m);
      RunNext(ops, i, out, kept, forms, a, k, f, fieldHash);
      out, kept, forms := out + [a], kept + [k], forms + [f];
    }
    assert ops[..|ops|] == ops;
  }

  /** One command of a run, on the live fields of `m`. */
  method RunOne(key: HashKey, t: Timed, ghost m: map<Field, Entry>)
    returns (a: Option<Answer>, ghost k: nat, ghost f: Snapshot)
    requires key.Valid() && WellFormed(t.op) && key.spent + Written(t.op) < TWO32 && Same(key.Stored(), m, t.now)
    modifies key, key.Repr()
    ensures key.Valid() && fresh(key.Repr() - old(key.Repr())) && key.spent <= old(key.spent) + Written(t.op)
    ensures Told(t, m, f, a, k, key.fieldHash) && Same(key.Stored(), After(t, m, a.Some?, k), t.now)
  {
    hide Meaning, LiveMap, Admitted, Bounded, HashKey.FormValid, HashKey.Stored, HashKey.Valid, HashKey.Snap, Written,
      Told, After, KeptBy, Passes, Suits, Left, WriteBytes;
    f := key.Snap();
    SnapSuits(key, t.now);
    a := Step(key, t);
    k := if a.Some? then 0 else KeptBy(f, t.op);
    ToldBy(t, m, f, a, k, key.Live(t.now), key.fieldHash);
    LiveTwice(key.Stored(), t.now);
  }

  lemma SnapSuits(key: HashKey, now: int)
    requires key.Valid()
    ensures Suits(key.Snap(), key.Live(now), key.fieldHash)
  {
    hide LiveMap, Bounded, IndexedHash.Valid, IndexedHash.Contents;
    if key.form.Absent? { key.AbsentLive(now); }
    if key.form.Indexed? { key.IndexedLive(now); }
  }

  lemma ToldBy(t: Timed, m: map<Field, Entry>, f: Snapshot, a: Option<Answer>, k: nat, live: map<Field, Entry>,
               fieldHash: Field -> nat)
    requires WellFormed(t.op) && k == (if a.Some? then 0 else KeptBy(f, t.op)) && Suits(f, LiveMap(m, t.now), fieldHash)
    requires a.Some? <==> Passes(f, LiveMap(m, t.now), t)
    requires a.Some? ==> Outcome(live, a.value) == Meaning(t.op, LiveMap(m, t.now), t.now)
    requires a.None? ==> live == Left(t.op, LiveMap(m, t.now), KeptBy(f, t.op))
    requires Admitted(t, LiveMap(m, t.now)) ==> a.Some?
    ensures live == After(t, m, a.Some?, k) && Told(t, m, f, a, k, fieldHash)
  {
    hide Meaning, LiveMap, Admitted, KeptBy, Passes, Suits, Left;
  }

  lemma LiveTwice(m: map<Field, Entry>, now: int)
    ensures LiveMap(LiveMap(m, now), now) == LiveMap(m, now)
  {
    LiveLater(m, now, now);
  }

  lemma TotalNext(ops: seq<Timed>, i: nat)
    requires i < |ops| && forall j :: 0 <= j < |ops| ==> WellFormed(ops[j].op)
    ensures Total(ops[..i + 1]) == Total(ops[..i]) + Written(ops[i].op)
  {
    hide Written;
    assert ops[..i + 1][..i] == ops[..i];
  }

  lemma RunNone(ops: seq<Timed>, fieldHash: Field -> nat)
    ensures Explained(ops[..0], [], [], [], fieldHash) && State(ops[..0], [], []) == map[]
  {
  }

  lemma RunNext(ops: seq<Timed>, i: nat, out: seq<Option<Answer>>, kept: seq<nat>, forms: seq<Snapshot>,
                a: Option<Answer>, k: nat, f: Snapshot, fieldHash: Field -> nat)
    requires |out| == |kept| == |forms| == i < |ops| && (forall j :: 0 <= j < |ops| ==> WellFormed(ops[j].op))
    requires Explained(ops[..i], out, kept, forms, fieldHash)
    requires Told(ops[i], State(ops[..i], out, kept), f, a, k, fieldHash)
    ensures State(ops[..i + 1], out + [a], kept + [k]) == After(ops[i], State(ops[..i], out, kept), a.Some?, k)
    ensures Explained(ops[..i + 1], out + [a], kept + [k], forms + [f], fieldHash)
  {
    hide Told, After;
    var ops', out', kept', forms' := ops[..i + 1], out + [a], kept + [k], forms + [f];
    assert ops'[..i] == ops[..i] && out'[..i] == out && kept'[..i] == kept;
    forall j | 0 <= j < i + 1
      ensures Told(ops'[j], State(ops'[..j], out'[..j], kept'[..j]), forms'[j], out'[j], kept'[j], fieldHash)
    {
      if j < i {
        assert ops'[..j] == ops[..i][..j] && out'[..j] == out[..j] && kept'[..j] == kept[..j];
      }
    }
  }
}
