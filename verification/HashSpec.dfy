/** What the hash commands mean on a plain map from fields to values with deadlines. */
module HashSpec {
  import opened Words
  import opened FieldOrder
  import HotHash

  // ---- live fields ----

  predicate Lives(e: Entry, now: int) { !(e.expiresAt != 0 && e.expiresAt <= now) }

  lemma LiveMeans(m: map<Field, Entry>, now: int)
    ensures LiveMap(m, now) == map f | f in m && Lives(m[f], now) :: m[f]
  {
  }

  /** Dropping dead fields early changes nothing later on. */
  lemma LiveLater(m: map<Field, Entry>, a: int, b: int)
    requires a <= b
    ensures LiveMap(LiveMap(m, a), b) == LiveMap(m, b)
  {
  }

  predicate NoDeadlines(m: map<Field, Entry>)
  {
    forall f :: f in m ==> m[f].expiresAt == 0
  }

  lemma LiveForever(m: map<Field, Entry>, now: int)
    requires NoDeadlines(m)
    ensures LiveMap(m, now) == m
  {
  }

  lemma LiveUpdate(m: map<Field, Entry>, f: Field, v: seq<byte>, now: int)
    ensures LiveMap(m[f := Entry(v, 0)], now) == LiveMap(m, now)[f := Entry(v, 0)]
  {
  }

  lemma {:induction false} LiveSetAll(m: map<Field, Entry>, fields: seq<Field>, values: seq<seq<byte>>, now: int)
    requires |fields| == |values|
    ensures LiveMap(SetAll(m, fields, values), now) == SetAll(LiveMap(m, now), fields, values)
  {
    hide LiveMap;
    if fields != [] {
      var n := |fields| - 1;
      LiveSetAll(m, fields[..n], values[..n], now);
      LiveUpdate(SetAll(m, fields[..n], values[..n]), fields[n], values[n], now);
    }
  }

  lemma LiveMinus(m: map<Field, Entry>, s: set<Field>, now: int)
    ensures LiveMap(m - s, now) == LiveMap(m, now) - s
  {
  }

  // ---- the bytes of a map ----

  /** The fields and values of a map take at most `n` bytes. */
  ghost predicate Bounded(m: map<Field, Entry>, n: nat)
  {
    exists p :: Sorted(p) && ToMap(p) == m && HotHash.TotalBytes(p) <= n
  }

  lemma BoundedPairs(p: seq<Pair>, n: nat)
    requires Sorted(p) && Bounded(ToMap(p), n)
    ensures HotHash.TotalBytes(p) <= n
  {
    var q :| Sorted(q) && ToMap(q) == ToMap(p) && HotHash.TotalBytes(q) <= n;
    SortedUnique(p, q);
  }

  lemma {:induction false} TotalSnoc(p: seq<Pair>, x: Pair)
    ensures HotHash.TotalBytes(p + [x]) == HotHash.TotalBytes(p) + |x.field| + |x.value|
  {
    assert (p + [x])[..|p|] == p;
  }

  lemma {:induction false} UpsertBytes(p: seq<Pair>, x: Pair)
    ensures HotHash.TotalBytes(Upsert(p, x)) <= HotHash.TotalBytes(p) + |x.field| + |x.value|
  {
    if p == [] {
      TotalSnoc([], x);
    } else {
      var n := |p| - 1;
      var init, last := p[..n], p[n];
      if last.field == x.field {
        TotalSnoc(init, x);
      } else if Less(last.field, x.field) {
        TotalSnoc(p, x);
      } else {
        UpsertBytes(init, x);
        TotalSnoc(Upsert(init, x), last);
      }
    }
  }

  lemma BoundedUpdate(m: map<Field, Entry>, n: nat, x: Pair)
    requires Bounded(m, n)
    ensures Bounded(m[x.field := Entry(x.value, x.expiresAt)], n + |x.field| + |x.value|)
  {
    var p :| Sorted(p) && ToMap(p) == m && HotHash.TotalBytes(p) <= n;
    UpsertKeeps(p, x);
    UpsertBytes(p, x);
  }

  /** All the bytes of a list of writes. */
  function WriteBytes(fields: seq<Field>, values: seq<seq<byte>>): nat
    requires |fields| == |values|
  {
    if fields == [] then 0
    else
      var n := |fields| - 1;
      WriteBytes(fields[..n], values[..n]) + |fields[n]| + |values[n]|
  }

  lemma {:induction false} BoundedSetAll(m: map<Field, Entry>, n: nat, fields: seq<Field>, values: seq<seq<byte>>)
    requires |fields| == |values| && Bounded(m, n)
    ensures Bounded(SetAll(m, fields, values), n + WriteBytes(fields, values))
  {
    hide Bounded;
    if fields != [] {
      var k := |fields| - 1;
      BoundedSetAll(m, n, fields[..k], values[..k]);
      BoundedUpdate(SetAll(m, fields[..k], values[..k]), n + WriteBytes(fields[..k], values[..k]),
        Pair(fields[k], values[k], 0));
    }
  }

  lemma {:induction false} SelectBytes(p: seq<Pair>, keep: Pair -> bool)
    ensures HotHash.TotalBytes(Select(p, keep)) <= HotHash.TotalBytes(p)
  {
    if p != [] {
      var n := |p| - 1;
      SelectBytes(p[..n], keep);
      if keep(p[n]) { TotalSnoc(Select(p[..n], keep), p[n]); }
      else { assert Select(p[..n], keep) + [] == Select(p[..n], keep); }
    }
  }

  lemma BoundedSelect(m: map<Field, Entry>, n: nat, keep: Pair -> bool)
    requires Bounded(m, n)
    ensures Bounded(SelectMap(m, keep), n)
  {
    var p :| Sorted(p) && ToMap(p) == m && HotHash.TotalBytes(p) <= n;
    SortedDistinct(p);
    SelectSorted(p, keep);
    SelectMaps(p, keep);
    SelectBytes(p, keep);
  }

  lemma BoundedLive(m: map<Field, Entry>, n: nat, now: int)
    requires Bounded(m, n)
    ensures Bounded(LiveMap(m, now), n)
  {
    BoundedSelect(m, n, p => Alive(p, now));
  }

  lemma BoundedMinus(m: map<Field, Entry>, n: nat, s: set<Field>)
    requires Bounded(m, n)
    ensures Bounded(m - s, n)
  {
    BoundedSelect(m, n, (p: Pair) => p.field !in s);
    assert SelectMap(m, (p: Pair) => p.field !in s) == m - s;
  }

  lemma BoundedMore(m: map<Field, Entry>, a: nat, b: nat)
    requires Bounded(m, a) && a <= b
    ensures Bounded(m, b)
  {
  }

  lemma BoundedNothing()
    ensures Bounded(map[], 0)
  {
    var p: seq<Pair> := [];
    assert Sorted(p) && ToMap(p) == map[] && HotHash.TotalBytes(p) == 0;
  }

  // ---- the answers of single HSETs in a batch ----

  /** One when the field is neither there before nor written earlier in the batch. */
  function Results(m: map<Field, Entry>, fields: seq<Field>): (r: seq<nat>)
    ensures |r| == |fields|
  {
    seq(|fields|, i requires 0 <= i < |fields| => if fields[i] in m || fields[i] in fields[..i] then 0 else 1)
  }

  /** The same answers, one command at a time against the map as it changes. */
  lemma {:induction false} ResultsStep(m: map<Field, Entry>, fields: seq<Field>, values: seq<seq<byte>>, i: nat)
    requires |fields| == |values| && i <= |fields|
    ensures forall f :: f in SetAll(m, fields[..i], values[..i]) <==> f in m || f in fields[..i]
  {
    if i > 0 {
      ResultsStep(m, fields, values, i - 1);
      SetAllNext(m, fields, values, i - 1);
      assert fields[..i] == fields[..i - 1] + [fields[i - 1]];
    } else {
      assert fields[..0] == [];
    }
  }

  // ---- field deadlines ----

  datatype Condition = Always | NX | XX | GT | LT | Other

  /** The condition keeps the field's deadline as it is. */
  predicate Blocked(c: Condition, current: int, when: int)
  {
    match c
    case NX => current != 0
    case XX => current == 0
    case GT => current == 0 || current >= when
    case LT => current != 0 && current <= when
    case _ => false
  }

  /** A deadline command part way through: fields it has yet to delete are still in the map. */
  datatype Progress = Progress(m: map<Field, Entry>, gone: set<Field>, out: seq<int>)

  function ExpireOne(g: Progress, f: Field, when: int, c: Condition, now: int): Progress
  {
    if f !in g.m then g.(out := g.out + [-2])
    else if Blocked(c, g.m[f].expiresAt, when) then g.(out := g.out + [0])
    else if when <= now then Progress(g.m, g.gone + {f}, g.out + [2])
    else Progress(g.m[f := Entry(g.m[f].value, when)], g.gone, g.out + [1])
  }

  function ExpireAll(m: map<Field, Entry>, fields: seq<Field>, when: int, c: Condition, now: int): (g: Progress)
    ensures |g.out| == |fields|
  {
    if fields == [] then Progress(m, {}, [])
    else
      var n := |fields| - 1;
      ExpireOne(ExpireAll(m, fields[..n], when, c, now), fields[n], when, c, now)
  }

  /** Some field gets the deadline or is deleted. */
  predicate Touches(out: seq<int>)
  {
    exists i :: 0 <= i < |out| && out[i] >= 1
  }

  lemma TouchesNone()
    ensures !Touches([])
  {
  }

  lemma TouchesNext(out: seq<int>, x: int)
    ensures Touches(out + [x]) <==> Touches(out) || x >= 1
  {
    if Touches(out) {
      var i :| 0 <= i < |out| && out[i] >= 1;
      assert (out + [x])[i] >= 1;
    }
    if x >= 1 { assert (out + [x])[|out|] >= 1; }
  }

  /** The live fields after a deadline command. */
  function Expired(m: map<Field, Entry>, fields: seq<Field>, when: int, c: Condition, now: int): map<Field, Entry>
  {
    var g := ExpireAll(m, fields, when, c, now);
    g.m - g.gone
  }

  lemma ExpireNext(m: map<Field, Entry>, fields: seq<Field>, when: int, c: Condition, now: int, i: nat)
    requires i < |fields|
    ensures ExpireAll(m, fields[..i + 1], when, c, now) ==
      ExpireOne(ExpireAll(m, fields[..i], when, c, now), fields[i], when, c, now)
  {
    assert fields[..i + 1][..i] == fields[..i];
  }

  predicate AllLive(m: map<Field, Entry>, now: int)
  {
    forall f :: f in m ==> Lives(m[f], now)
  }

  lemma AllLiveMap(m: map<Field, Entry>, now: int)
    ensures AllLive(m, now) <==> LiveMap(m, now) == m
    ensures AllLive(LiveMap(m, now), now)
  {
    LiveMeans(m, now);
    if LiveMap(m, now) == m {
      forall f | f in m ensures Lives(m[f], now) { assert f in LiveMap(m, now); }
    }
  }

  lemma {:induction false} ExpireKeeps(m: map<Field, Entry>, fields: seq<Field>, when: int, c: Condition, now: int)
    requires AllLive(m, now)
    ensures var g := ExpireAll(m, fields, when, c, now);
      AllLive(g.m, now) && g.m.Keys == m.Keys && forall f :: f in m ==> g.m[f].value == m[f].value
  {
    if fields != [] {
      var n := |fields| - 1;
      ExpireKeeps(m, fields[..n], when, c, now);
    }
  }

  /** Map and deletions after the fields of `s`, each judged on its own. */
  ghost predicate Judged(m: map<Field, Entry>, s: set<Field>, g: Progress, when: int, c: Condition, now: int)
  {
    forall f :: JudgedAt(m, f in s, g, f, when, c, now)
  }

  /** One field: deleted, given the deadline or left alone, as its own answer says. */
  ghost predicate JudgedAt(m: map<Field, Entry>, named: bool, g: Progress, f: Field, when: int, c: Condition, now: int)
  {
    var a := if named then ExpireAnswer(m, f, when, c, now) else 0;
    && (f in g.gone <==> a == 2) && (f in g.m <==> f in m)
    && (f in m ==> g.m[f] == if a == 1 then Entry(m[f].value, when) else m[f])
  }

  /** The answer for a field that may have been named before: once it has the new deadline, the condition
      is judged on that deadline. */
  function AnswerAgain(m: map<Field, Entry>, f: Field, named: bool, when: int, c: Condition, now: int): int
  {
    var first := ExpireAnswer(m, f, when, c, now);
    if named && first == 1 && Blocked(c, when, when) then 0 else first
  }

  lemma ExpireStep(m: map<Field, Entry>, s: set<Field>, g: Progress, f: Field, when: int, c: Condition, now: int)
    requires Judged(m, s, g, when, c, now)
    ensures Judged(m, s + {f}, ExpireOne(g, f, when, c, now), when, c, now)
    ensures ExpireOne(g, f, when, c, now).out == g.out + [AnswerAgain(m, f, f in s, when, c, now)]
  {
    hide Blocked, JudgedAt, ExpireOne, AnswerAgain;
    forall x: Field
      ensures JudgedAt(m, x in s + {f}, ExpireOne(g, f, when, c, now), x, when, c, now)
    {
      assert JudgedAt(m, x in s, g, x, when, c, now);
      if x != f { StepOther(m, x in s, g, f, x, when, c, now); }
      else { StepAt(m, f in s, g, f, when, c, now); }
    }
    assert JudgedAt(m, f in s, g, f, when, c, now);
    StepAt(m, f in s, g, f, when, c, now);
  }

  lemma StepOther(m: map<Field, Entry>, named: bool, g: Progress, f: Field, x: Field, when: int, c: Condition, now: int)
    requires JudgedAt(m, named, g, x, when, c, now) && x != f
    ensures JudgedAt(m, named, ExpireOne(g, f, when, c, now), x, when, c, now)
  {
    hide Blocked, ExpireAnswer;
  }

  lemma StepAt(m: map<Field, Entry>, named: bool, g: Progress, f: Field, when: int, c: Condition, now: int)
    requires JudgedAt(m, named, g, f, when, c, now)
    ensures JudgedAt(m, true, ExpireOne(g, f, when, c, now), f, when, c, now)
    ensures ExpireOne(g, f, when, c, now).out == g.out + [AnswerAgain(m, f, named, when, c, now)]
  {
    hide Blocked;
  }

  lemma ExpireNone(m: map<Field, Entry>, when: int, c: Condition, now: int)
    ensures ExpireAll(m, [], when, c, now) == Progress(m, {}, [])
  {
  }

  lemma JudgedNone(m: map<Field, Entry>, when: int, c: Condition, now: int)
    ensures Judged(m, {}, Progress(m, {}, []), when, c, now) && Answered(m, [], [], when, c, now)
  {
  }

  /** Deletions and new deadlines depend on each field alone, however often it is named; so do the answers,
      but for a field named before whose new deadline blocks the condition. */
  lemma ExpirePointwise(m: map<Field, Entry>, fields: seq<Field>, when: int, c: Condition, now: int)
    ensures Judged(m, (set f | f in fields), ExpireAll(m, fields, when, c, now), when, c, now)
    ensures forall i :: 0 <= i < |fields| ==>
      ExpireAll(m, fields, when, c, now).out[i] == AnswerAgain(m, fields[i], fields[i] in fields[..i], when, c, now)
  {
    hide AnswerAgain, Judged, ExpireAll;
    ExpireJudged(m, fields, when, c, now);
  }

  /** The answers to the fields in turn. */
  ghost predicate Answered(m: map<Field, Entry>, fields: seq<Field>, out: seq<int>, when: int, c: Condition, now: int)
  {
    && |out| == |fields|
    && forall i :: 0 <= i < |fields| ==> out[i] == AnswerAgain(m, fields[i], fields[i] in fields[..i], when, c, now)
  }

  lemma AnsweredSnoc(m: map<Field, Entry>, fields: seq<Field>, out: seq<int>, when: int, c: Condition, now: int)
    requires fields != [] && Answered(m, fields[..|fields| - 1], out, when, c, now)
    ensures var n := |fields| - 1;
      Answered(m, fields, out + [AnswerAgain(m, fields[n], fields[n] in fields[..n], when, c, now)], when, c, now)
  {
    hide AnswerAgain;
    NamedSnoc(fields);
  }

  lemma {:induction false} ExpireJudged(m: map<Field, Entry>, fields: seq<Field>, when: int, c: Condition, now: int)
    ensures Judged(m, (set f | f in fields), ExpireAll(m, fields, when, c, now), when, c, now)
    ensures Answered(m, fields, ExpireAll(m, fields, when, c, now).out, when, c, now)
  {
    hide ExpireOne, AnswerAgain, Judged, ExpireAll, Answered;
    if fields == [] {
      assert (set f | f in fields) == {};
      ExpireNone(m, when, c, now);
      JudgedNone(m, when, c, now);
    } else {
      var n := |fields| - 1;
      var init := fields[..n];
      ExpireJudged(m, init, when, c, now);
      NamedSnoc(fields);
      ExpireNext(m, fields, when, c, now, n);
      ExpireStep(m, (set f | f in init), ExpireAll(m, init, when, c, now), fields[n], when, c, now);
      AnsweredSnoc(m, fields, ExpireAll(m, init, when, c, now).out, when, c, now);
    }
  }

  lemma NamedSnoc(fields: seq<Field>)
    requires fields != []
    ensures var n := |fields| - 1;
      && (set f | f in fields) == (set f | f in fields[..n]) + {fields[n]} && fields[..n + 1] == fields
      && (fields[n] in fields[..n] <==> fields[n] in (set f | f in fields[..n]))
      && forall i :: 0 <= i < n ==> fields[..n][..i] == fields[..i]
  {
    var n := |fields| - 1;
    assert fields == fields[..n] + [fields[n]];
  }

  /** A field named twice: with NX it gets the deadline once, and the second time that deadline blocks it. */
  lemma NamedTwice(f: Field, v: seq<byte>)
    ensures ExpireAll(map[f := Entry(v, 0)], [f, f], 10, NX, 5).out == [1, 0]
  {
    ExpirePointwise(map[f := Entry(v, 0)], [f, f], 10, NX, 5);
    assert [f, f][..0] == [] && [f, f][..1] == [f];
  }

  /** What the command answers for one field: -2 when it is missing, 0 when the condition keeps its
      deadline, 2 when it is deleted at once, 1 when it gets the deadline. */
  function ExpireAnswer(m: map<Field, Entry>, f: Field, when: int, c: Condition, now: int): int
  {
    if f !in m then -2
    else if Blocked(c, m[f].expiresAt, when) then 0
    else if when <= now then 2
    else 1
  }

  // ---- HSETEX ----

  function SetExOne(m: map<Field, Entry>, f: Field, v: seq<byte>, at: Option<int>, keep: bool): map<Field, Entry>
  {
    m[f := Entry(v, if at.Some? then at.value else if keep && f in m then m[f].expiresAt else 0)]
  }

  function SetExAll(m: map<Field, Entry>, fields: seq<Field>, values: seq<seq<byte>>, at: Option<int>,
                    keep: bool): map<Field, Entry>
    requires |fields| == |values|
  {
    if fields == [] then m
    else
      var n := |fields| - 1;
      SetExOne(SetExAll(m, fields[..n], values[..n], at, keep), fields[n], values[n], at, keep)
  }

  lemma SetExNext(m: map<Field, Entry>, fields: seq<Field>, values: seq<seq<byte>>, at: Option<int>, keep: bool, i: nat)
    requires |fields| == |values| && i < |fields|
    ensures SetExAll(m, fields[..i + 1], values[..i + 1], at, keep)
         == SetExOne(SetExAll(m, fields[..i], values[..i], at, keep), fields[i], values[i], at, keep)
  {
    assert fields[..i + 1][..i] == fields[..i] && values[..i + 1][..i] == values[..i];
  }

  /** Without options HSETEX is HSET. */
  lemma {:induction false} SetExPlain(m: map<Field, Entry>, fields: seq<Field>, values: seq<seq<byte>>)
    requires |fields| == |values|
    ensures SetExAll(m, fields, values, None, false) == SetAll(m, fields, values)
  {
    if fields != [] {
      var n := |fields| - 1;
      SetExPlain(m, fields[..n], values[..n]);
    }
  }

  lemma {:induction false} SetExLive(m: map<Field, Entry>, fields: seq<Field>, values: seq<seq<byte>>, at: Option<int>,
                                     keep: bool, now: int)
    requires |fields| == |values| && AllLive(m, now) && (at.Some? ==> at.value > now)
    ensures AllLive(SetExAll(m, fields, values, at, keep), now)
  {
    if fields != [] {
      var n := |fields| - 1;
      SetExLive(m, fields[..n], values[..n], at, keep, now);
    }
  }

  lemma {:induction false} BoundedSetEx(m: map<Field, Entry>, n: nat, fields: seq<Field>, values: seq<seq<byte>>,
                                        at: Option<int>, keep: bool)
    requires |fields| == |values| && Bounded(m, n)
    ensures Bounded(SetExAll(m, fields, values, at, keep), n + WriteBytes(fields, values))
  {
    hide Bounded;
    if fields != [] {
      var k := |fields| - 1;
      BoundedSetEx(m, n, fields[..k], values[..k], at, keep);
      var before := SetExAll(m, fields[..k], values[..k], at, keep);
      var after := SetExOne(before, fields[k], values[k], at, keep);
      BoundedUpdate(before, n + WriteBytes(fields[..k], values[..k]),
        Pair(fields[k], values[k], after[fields[k]].expiresAt));
    }
  }

  /** Which fields and values a map has decides its bytes, not their deadlines. */
  lemma BoundedDeadlines(p: seq<Pair>, m: map<Field, Entry>, n: nat)
    requires Sorted(p) && Bounded(m, n) && ToMap(p).Keys == m.Keys
    requires forall f :: f in m ==> ToMap(p)[f].value == m[f].value
    ensures Bounded(ToMap(p), n)
  {
    var q :| Sorted(q) && ToMap(q) == m && HotHash.TotalBytes(q) <= n;
    SameBytes(p, q);
  }

  lemma {:induction false} SameBytes(p: seq<Pair>, q: seq<Pair>)
    requires Sorted(p) && Sorted(q) && ToMap(p).Keys == ToMap(q).Keys
    requires forall f :: f in ToMap(q) ==> ToMap(p)[f].value == ToMap(q)[f].value
    ensures HotHash.TotalBytes(p) == HotHash.TotalBytes(q)
  {
    hide ToMap;
    if p == [] || q == [] {
      SortedDistinct(p);
      SortedDistinct(q);
      ToMapSize(p);
      ToMapSize(q);
      assert |ToMap(p).Keys| == |ToMap(q).Keys|;
    } else {
      LastIsGreatest(p, q);
      SortedDistinct(p);
      SortedDistinct(q);
      LastRemoved(p);
      LastRemoved(q);
      ToMapAt(p, |p| - 1);
      ToMapAt(q, |q| - 1);
      SortedPrefix(p, |p| - 1);
      SortedPrefix(q, |q| - 1);
      SameBytes(p[..|p| - 1], q[..|q| - 1]);
    }
  }
}
