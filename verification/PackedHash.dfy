/** The packed hash layouts: SH1 (fields and values) and SH3 (with a deadline per field), both sorted
    by field. */
module PackedHash {
  import opened Words
  import opened FieldOrder
  import Uvarint

  const MAX_BYTES := 0x200_0000
  const TWO63 := 0x8000_0000_0000_0000

  const PLAIN: seq<byte> := ['S' as int, 'H' as int, 1]
  const EXPIRY: seq<byte> := ['S' as int, 'H' as int, 3]

  /** The 64 bits of a signed number. */
  function ToU64(n: int): nat { n % TWO64 }

  function FromU64(u: nat): int
  {
    if u < TWO63 then u else u - TWO64
  }

  predicate HasExpiry(p: seq<Pair>)
  {
    exists i :: 0 <= i < |p| && p[i].expiresAt != 0
  }

  // ---- one pair ----

  datatype Parsed<+T> = Parsed(value: T, rest: seq<byte>)
  datatype Lengths = Lengths(field: nat, value: nat)

  function PutLengths(f: nat, v: nat): seq<byte>
  {
    Uvarint.Put(f) + Uvarint.Put(v)
  }

  function GetLengths(s: seq<byte>): Option<Parsed<Lengths>>
  {
    var f := Uvarint.Get(s, 0);
    if f.None? then None else
    var s1 := s[f.value.size..];
    var v := Uvarint.Get(s1, 0);
    if v.None? then None else Some(Parsed(Lengths(f.value.value, v.value.value), s1[v.value.size..]))
  }

  lemma LengthsRoundTrip(f: nat, v: nat, rest: seq<byte>)
    requires f < TWO64 && v < TWO64
    ensures GetLengths(PutLengths(f, v) + rest) == Some(Parsed(Lengths(f, v), rest))
  {
    hide Uvarint.Put, Uvarint.Get;
    var a, b := Uvarint.Put(f), Uvarint.Put(v);
    var s := PutLengths(f, v) + rest;
    assert s == a + (b + rest);
    Uvarint.RoundTrip(f, b + rest);
    assert s[|a|..] == b + rest;
    Uvarint.RoundTrip(v, rest);
    assert (b + rest)[|b|..] == rest;
  }

  function PutStamp(at: int, exp: bool): seq<byte>
  {
    if exp then Le(ToU64(at), 8) else []
  }

  function GetStamp(s: seq<byte>, exp: bool): Option<Parsed<int>>
  {
    if !exp then Some(Parsed(0, s))
    else if |s| < 8 then None
    else Some(Parsed(FromU64(FromLe(s[..8])), s[8..]))
  }

  lemma StampRoundTrip(at: int, exp: bool, rest: seq<byte>)
    requires Int64(at) && (!exp ==> at == 0)
    ensures GetStamp(PutStamp(at, exp) + rest, exp) == Some(Parsed(at, rest))
  {
    hide Le, FromLe;
    if exp {
      var e := Le(ToU64(at), 8);
      WordLimits();
      LeRoundTrip(ToU64(at), 8);
      assert (e + rest)[..8] == e && (e + rest)[8..] == rest;
    } else {
      assert [] + rest == rest;
    }
  }

  /** The field and value bytes, given their lengths. */
  function GetBytes(s: seq<byte>, n: Lengths, at: int): Option<Parsed<Pair>>
  {
    if n.field > |s| then None else
    var t := s[n.field..];
    if n.value > |t| then None
    else Some(Parsed(Pair(s[..n.field], t[..n.value], at), t[n.value..]))
  }

  lemma BytesRoundTrip(p: Pair, rest: seq<byte>)
    ensures GetBytes((p.field + p.value) + rest, Lengths(|p.field|, |p.value|), p.expiresAt) == Some(Parsed(p, rest))
  {
    var s := (p.field + p.value) + rest;
    assert s[..|p.field|] == p.field && s[|p.field|..] == p.value + rest;
    assert (p.value + rest)[..|p.value|] == p.value && (p.value + rest)[|p.value|..] == rest;
  }

  function PutPair(p: Pair, exp: bool): seq<byte>
  {
    PutLengths(|p.field|, |p.value|) + (PutStamp(p.expiresAt, exp) + (p.field + p.value))
  }

  function GetPair(s: seq<byte>, exp: bool): Option<Parsed<Pair>>
  {
    var n := GetLengths(s);
    if n.None? then None else
    var at := GetStamp(n.value.rest, exp);
    if at.None? then None else GetBytes(at.value.rest, n.value.value, at.value.value)
  }

  predicate Encodable(p: Pair, exp: bool)
  {
    |p.field| < TWO64 && |p.value| < TWO64 && Int64(p.expiresAt) && (!exp ==> p.expiresAt == 0)
  }

  lemma PairRoundTrip(p: Pair, exp: bool, rest: seq<byte>)
    requires Encodable(p, exp)
    ensures GetPair(PutPair(p, exp) + rest, exp) == Some(Parsed(p, rest))
  {
    var a, b, c := PutLengths(|p.field|, |p.value|), PutStamp(p.expiresAt, exp), p.field + p.value;
    Assoc(a, b + c, rest);
    Assoc(b, c, rest);
    LengthsRoundTrip(|p.field|, |p.value|, b + (c + rest));
    StampRoundTrip(p.expiresAt, exp, c + rest);
    BytesRoundTrip(p, rest);
  }

  // ---- all pairs ----

  function PutPairs(p: seq<Pair>, exp: bool): seq<byte>
  {
    if p == [] then [] else PutPair(p[0], exp) + PutPairs(p[1..], exp)
  }

  /** Reads `count` pairs and appends them to `p`. */
  function GetPairs(s: seq<byte>, count: nat, exp: bool, p: seq<Pair>): Option<Parsed<seq<Pair>>>
    decreases count
  {
    if count == 0 then Some(Parsed(p, s))
    else
      var first := GetPair(s, exp);
      if first.None? then None else GetPairs(first.value.rest, count - 1, exp, p + [first.value.value])
  }

  lemma {:induction false} PairsRoundTrip(p: seq<Pair>, exp: bool, done: seq<Pair>, rest: seq<byte>)
    requires forall i :: 0 <= i < |p| ==> Encodable(p[i], exp)
    ensures GetPairs(PutPairs(p, exp) + rest, |p|, exp, done) == Some(Parsed(done + p, rest))
    decreases |p|
  {
    hide GetPair, PutPair;
    if p == [] {
      assert [] + rest == rest && done + [] == done;
    } else {
      Assoc(PutPair(p[0], exp), PutPairs(p[1..], exp), rest);
      PairRoundTrip(p[0], exp, PutPairs(p[1..], exp) + rest);
      PairsRoundTrip(p[1..], exp, done + [p[0]], rest);
      assert done + [p[0]] + p[1..] == done + p;
    }
  }

  // ---- the whole record ----

  function Header(exp: bool): seq<byte> { if exp then EXPIRY else PLAIN }

  function Packed(p: seq<Pair>): seq<byte>
  {
    Header(HasExpiry(p)) + (Uvarint.Put(|p|) + PutPairs(p, HasExpiry(p)))
  }

  /** Fields strictly increase from one pair to the next. */
  predicate Increasing(p: seq<Pair>)
  {
    forall i {:trigger Rises(p, i)} :: 0 < i < |p| ==> Rises(p, i)
  }

  predicate Rises(p: seq<Pair>, i: nat)
    requires 0 < i < |p|
  {
    Less(p[i - 1].field, p[i].field)
  }

  lemma IncreasingSorted(p: seq<Pair>)
    ensures Increasing(p) <==> Sorted(p)
  {
    if Sorted(p) {
      forall i | 0 < i < |p| ensures Rises(p, i) { }
    }
    if Increasing(p) {
      forall i, j | 0 <= i < j < |p| ensures Less(p[i].field, p[j].field) { IncreasingLess(p, i, j); }
    }
  }

  lemma {:induction false} IncreasingLess(p: seq<Pair>, i: nat, j: nat)
    requires Increasing(p) && i < j < |p|
    ensures Less(p[i].field, p[j].field)
    decreases j - i
  {
    assert Rises(p, j);
    if i + 1 < j {
      IncreasingLess(p, i, j - 1);
      LessTransitive(p[i].field, p[j - 1].field, p[j].field);
    }
  }

  /** Everything after the header: the count, the pairs in strictly increasing order, nothing left over. */
  function UnpackRest(s: seq<byte>, exp: bool): Option<seq<Pair>>
  {
    var count := Uvarint.Get(s, 0);
    if count.None? || count.value.value > MAX_BYTES then None else
    var r := GetPairs(s[count.value.size..], count.value.value, exp, []);
    if r.None? || r.value.rest != [] || !Increasing(r.value.value) then None else Some(r.value.value)
  }

  /** What decoding a record means. */
  function Unpack(data: seq<byte>): Option<seq<Pair>>
  {
    if |data| < 3 || !(data[..3] == PLAIN || data[..3] == EXPIRY) then None
    else UnpackRest(data[3..], data[..3] == EXPIRY)
  }

  lemma RestRoundTrip(p: seq<Pair>, exp: bool)
    requires Sorted(p) && |p| <= MAX_BYTES && forall i :: 0 <= i < |p| ==> Encodable(p[i], exp)
    ensures UnpackRest(Uvarint.Put(|p|) + PutPairs(p, exp), exp) == Some(p)
  {
    var n, body := Uvarint.Put(|p|), PutPairs(p, exp);
    Uvarint.RoundTrip(|p|, body);
    assert (n + body)[|n|..] == body && body + [] == body;
    PairsRoundTrip(p, exp, [], []);
    assert [] + p == p;
    IncreasingSorted(p);
  }

  /** Packing and unpacking sorted pairs, in either layout, gives them back with their deadlines. */
  lemma PackedRoundTrip(p: seq<Pair>)
    requires Sorted(p) && |p| <= MAX_BYTES
    requires forall i :: 0 <= i < |p| ==> |p[i].field| < TWO64 && |p[i].value| < TWO64 && Int64(p[i].expiresAt)
    ensures Unpack(Packed(p)) == Some(p)
  {
    var exp := HasExpiry(p);
    RestRoundTrip(p, exp);
    HeaderSplit(Header(exp), Uvarint.Put(|p|) + PutPairs(p, exp));
    assert PLAIN[2] != EXPIRY[2];
  }

  lemma HeaderSplit(h: seq<byte>, s: seq<byte>)
    requires |h| == 3
    ensures |h + s| >= 3 && (h + s)[..3] == h && (h + s)[3..] == s
  {
  }

  // ---- the buffer operations ----

  /** An upper bound of the packed size: two varints a pair and eight bytes a deadline. */
  function Capacity(p: seq<Pair>, exp: bool): nat
  {
    if p == [] then 13
    else
      var last := p[|p| - 1];
      Capacity(p[..|p| - 1], exp) + |last.field| + |last.value| + 20 + if exp then 8 else 0
  }

  lemma {:induction false} CapacityBounds(p: seq<Pair>, exp: bool, i: nat)
    requires i < |p|
    ensures 20 * |p| + |p[i].field| + |p[i].value| <= Capacity(p, exp)
  {
    var n := |p| - 1;
    if i < n { CapacityBounds(p[..n], exp, i); }
    else if n > 0 { CapacityBounds(p[..n], exp, 0); }
  }

  lemma PutPairsSnoc(p: seq<Pair>, x: Pair, exp: bool)
    ensures PutPairs(p + [x], exp) == PutPairs(p, exp) + PutPair(x, exp)
  {
    if p == [] {
      assert [x][1..] == [] && PutPair(x, exp) + [] == [] + PutPair(x, exp);
    } else {
      assert (p + [x])[1..] == p[1..] + [x];
      PutPairsSnoc(p[1..], x, exp);
      Assoc(PutPair(p[0], exp), PutPairs(p[1..], exp), PutPair(x, exp));
    }
  }

  lemma PairSize(p: Pair, exp: bool)
    requires |p.field| < TWO64 && |p.value| < TWO64
    ensures |PutPair(p, exp)| <= |p.field| + |p.value| + 20 + if exp then 8 else 0
  {
    Uvarint.RoundTrip(|p.field|, []);
    Uvarint.RoundTrip(|p.value|, []);
  }

  lemma {:induction false} BodySize(p: seq<Pair>, exp: bool)
    requires Capacity(p, exp) <= MAX_BYTES
    ensures 13 + |PutPairs(p, exp)| <= Capacity(p, exp)
  {
    if p != [] {
      var n := |p| - 1;
      BodySize(p[..n], exp);
      assert p == p[..n] + [p[n]];
      PutPairsSnoc(p[..n], p[n], exp);
      PairSize(p[n], exp);
    }
  }

  /** Every check the encoder makes on a list of pairs. */
  ghost predicate Fits(p: seq<Pair>)
  {
    Sorted(p) && Capacity(p, HasExpiry(p)) <= MAX_BYTES
  }

  method ScanExpiry(p: seq<Pair>) returns (exp: bool)
    ensures exp == HasExpiry(p)
  {
    for i := 0 to |p|
      invariant forall j :: 0 <= j < i ==> p[j].expiresAt == 0
    {
      if p[i].expiresAt != 0 { return true; }
    }
    return false;
  }

  /** The order and size checks, pair by pair. */
  method CheckPairs(p: seq<Pair>, exp: bool) returns (ok: bool)
    ensures ok <==> Sorted(p) && Capacity(p, exp) <= MAX_BYTES
  {
    IncreasingSorted(p);
    var capacity := 13;
    for i := 0 to |p|
      invariant capacity == Capacity(p[..i], exp) <= MAX_BYTES
      invariant forall j {:trigger Rises(p, j)} :: 0 < j < i ==> Rises(p, j)
    {
      assert p[..i + 1][..i] == p[..i];
      CapacityGrows(p, exp, i + 1);
      if i > 0 && !Less(p[i - 1].field, p[i].field) {
        assert !Rises(p, i);
        return false;
      }
      capacity := capacity + |p[i].field| + |p[i].value| + 20;
      if exp { capacity := capacity + 8; }
      if capacity > MAX_BYTES { return false; }
    }
    assert p[..|p|] == p;
    return true;
  }

  lemma {:induction false} CapacityGrows(p: seq<Pair>, exp: bool, n: nat)
    requires n <= |p|
    ensures Capacity(p[..n], exp) <= Capacity(p, exp)
    decreases |p| - n
  {
    if n == |p| {
      assert p[..n] == p;
    } else {
      assert p[..n + 1][..n] == p[..n];
      CapacityGrows(p, exp, n + 1);
    }
  }

  /** Encodes pairs, or fails when they are unsorted, repeated or too large. */
  method EncodeSorted(p: seq<Pair>) returns (r: Option<seq<byte>>)
    ensures r.Some? <==> Fits(p)
    ensures r.Some? ==> r.value == Packed(p) && |r.value| <= MAX_BYTES
  {
    hide Uvarint.Put, Header, PutPair;
    var exp := ScanExpiry(p);
    var ok := CheckPairs(p, exp);
    if !ok { return None; }
    var out := Header(exp) + Uvarint.Put(|p|);
    for i := 0 to |p|
      invariant out == Header(exp) + Uvarint.Put(|p|) + PutPairs(p[..i], exp)
    {
      assert p[..i + 1] == p[..i] + [p[i]];
      PutPairsSnoc(p[..i], p[i], exp);
      Assoc(Header(exp) + Uvarint.Put(|p|), PutPairs(p[..i], exp), PutPair(p[i], exp));
      out := out + PutPair(p[i], exp);
    }
    assert p[..|p|] == p;
    Assoc(Header(exp), Uvarint.Put(|p|), PutPairs(p, exp));
    SizeFits(p, exp);
    if |out| > MAX_BYTES { return None; }
    return Some(out);
  }

  /** The bound the encoder checks first makes its last size check pass. */
  lemma SizeFits(p: seq<Pair>, exp: bool)
    requires Capacity(p, exp) <= MAX_BYTES
    ensures |Header(exp) + Uvarint.Put(|p|) + PutPairs(p, exp)| <= MAX_BYTES
  {
    if p != [] { CapacityBounds(p, exp, 0); }
    Uvarint.RoundTrip(|p|, []);
    BodySize(p, exp);
  }

  /** What an accepted list of pairs reads back as. */
  lemma FitsRoundTrip(p: seq<Pair>)
    requires Fits(p) && forall i :: 0 <= i < |p| ==> Int64(p[i].expiresAt)
    ensures Unpack(Packed(p)) == Some(p)
  {
    forall i | 0 <= i < |p|
      ensures |p[i].field| < TWO64 && |p[i].value| < TWO64
    {
      CapacityBounds(p, HasExpiry(p), i);
    }
    if p != [] { CapacityBounds(p, HasExpiry(p), 0); }
    PackedRoundTrip(p);
  }

  lemma Drop(s: seq<byte>, i: nat, n: nat)
    requires i + n <= |s|
    ensures s[i..][n..] == s[i + n..] && s[i..][..n] == s[i..i + n]
  {
  }

  method ReadLengths(data: seq<byte>, offset: nat) returns (n: Option<Lengths>, next: nat)
    requires offset <= |data|
    ensures n.None? <==> GetLengths(data[offset..]).None?
    ensures n.Some? ==> next <= |data| && GetLengths(data[offset..]) == Some(Parsed(n.value, data[next..]))
  {
    n, next := None, offset;
    var fieldLen := Uvarint.Get(data[next..], 0);
    if fieldLen.None? { return; }
    Drop(data, next, fieldLen.value.size);
    next := next + fieldLen.value.size;
    var valueLen := Uvarint.Get(data[next..], 0);
    if valueLen.None? { return; }
    Drop(data, next, valueLen.value.size);
    next := next + valueLen.value.size;
    n := Some(Lengths(fieldLen.value.value, valueLen.value.value));
  }

  method ReadStamp(data: seq<byte>, offset: nat, exp: bool) returns (at: Option<int>, next: nat)
    requires offset <= |data|
    ensures at.None? <==> GetStamp(data[offset..], exp).None?
    ensures at.Some? ==> next <= |data| && GetStamp(data[offset..], exp) == Some(Parsed(at.value, data[next..]))
  {
    if !exp { return Some(0), offset; }
    if |data| - offset < 8 { return None, offset; }
    Drop(data, offset, 8);
    return Some(FromU64(FromLe(data[offset..offset + 8]))), offset + 8;
  }

  method ReadBytes(data: seq<byte>, offset: nat, n: Lengths, at: int) returns (pair: Option<Pair>, next: nat)
    requires offset <= |data|
    ensures pair.None? <==> GetBytes(data[offset..], n, at).None?
    ensures pair.Some? ==> next <= |data| && GetBytes(data[offset..], n, at) == Some(Parsed(pair.value, data[next..]))
  {
    pair, next := None, offset;
    if n.field > |data| - next { return; }
    Drop(data, next, n.field);
    var field := data[next..next + n.field];
    next := next + n.field;
    if n.value > |data| - next { return; }
    Drop(data, next, n.value);
    pair := Some(Pair(field, data[next..next + n.value], at));
    next := next + n.value;
  }

  /** One pair read at an offset. */
  method ReadPair(data: seq<byte>, offset: nat, exp: bool) returns (pair: Option<Pair>, next: nat)
    requires offset <= |data|
    ensures pair.None? <==> GetPair(data[offset..], exp).None?
    ensures pair.Some? ==> next <= |data| && GetPair(data[offset..], exp) == Some(Parsed(pair.value, data[next..]))
  {
    pair, next := None, offset;
    var n, at;
    n, next := ReadLengths(data, next);
    if n.None? { return; }
    at, next := ReadStamp(data, next, exp);
    if at.None? { return; }
    pair, next := ReadBytes(data, next, n.value, at.value);
  }

  /** One step of reading pairs; `total` is what all of them read as. */
  method ReadNext(data: seq<byte>, offset: nat, left: nat, exp: bool, p: seq<Pair>,
                  ghost total: Option<Parsed<seq<Pair>>>)
    returns (q: Option<seq<Pair>>, next: nat)
    requires offset <= |data| && left > 0 && Increasing(p) && total == GetPairs(data[offset..], left, exp, p)
    ensures q.None? ==> !(total.Some? && Increasing(total.value.value))
    ensures q.Some? ==> next <= |data| && Increasing(q.value) && total == GetPairs(data[next..], left - 1, exp, q.value)
  {
    hide GetPair;
    var pair;
    pair, next := ReadPair(data, offset, exp);
    if pair.None? { return None, next; }
    if |p| > 0 && !Less(p[|p| - 1].field, pair.value.field) {
      NotIncreasing(p, pair.value, data[next..], left - 1, exp);
      return None, next;
    }
    IncreasingSnoc(p, pair.value);
    return Some(p + [pair.value]), next;
  }

  /** Reads `count` pairs from an offset, checking that fields increase. */
  method ReadPairs(data: seq<byte>, start: nat, count: nat, exp: bool, ghost total: Option<Parsed<seq<Pair>>>)
    returns (pairs: Option<seq<Pair>>, next: nat)
    requires start <= |data| && total == GetPairs(data[start..], count, exp, [])
    ensures pairs.Some? <==> total.Some? && Increasing(total.value.value)
    ensures pairs.Some? ==> next <= |data| && total == Some(Parsed(pairs.value, data[next..]))
  {
    hide GetPair;
    var p: seq<Pair> := [];
    next := start;
    for i := 0 to count
      invariant next <= |data| && Increasing(p) && total == GetPairs(data[next..], count - i, exp, p)
    {
      var q;
      q, next := ReadNext(data, next, count - i, exp, p, total);
      if q.None? { return None, next; }
      p := q.value;
    }
    return Some(p), next;
  }

  lemma IncreasingSnoc(p: seq<Pair>, x: Pair)
    requires Increasing(p) && (|p| > 0 ==> Less(p[|p| - 1].field, x.field))
    ensures Increasing(p + [x])
  {
    forall i | 0 < i < |p + [x]|
      ensures Rises(p + [x], i)
    {
      if i < |p| { assert Rises(p, i); }
    }
  }

  lemma {:induction false} ReadPrefix(s: seq<byte>, count: nat, exp: bool, p: seq<Pair>)
    requires GetPairs(s, count, exp, p).Some?
    ensures p <= GetPairs(s, count, exp, p).value.value
    decreases count
  {
    hide GetPair;
    if count > 0 {
      var first := GetPair(s, exp);
      ReadPrefix(first.value.rest, count - 1, exp, p + [first.value.value]);
    }
  }

  lemma NotIncreasing(p: seq<Pair>, x: Pair, s: seq<byte>, count: nat, exp: bool)
    requires |p| > 0 && !Less(p[|p| - 1].field, x.field)
    ensures var r := GetPairs(s, count, exp, p + [x]); r.Some? ==> !Increasing(r.value.value)
  {
    var r := GetPairs(s, count, exp, p + [x]);
    if r.Some? {
      ReadPrefix(s, count, exp, p + [x]);
      assert r.value.value[|p|] == x && r.value.value[|p| - 1] == p[|p| - 1];
      assert !Rises(r.value.value, |p|);
    }
  }

  /** Decodes a packed hash; every malformed input is refused. */
  method Decode(data: seq<byte>) returns (r: Option<seq<Pair>>)
    ensures r == Unpack(data)
  {
    hide GetPairs, Uvarint.Get;
    if |data| < 3 || !(data[..3] == PLAIN || data[..3] == EXPIRY) { return None; }
    var exp := data[..3] == EXPIRY;
    var count := Uvarint.Get(data[3..], 0);
    if count.None? || count.value.value > MAX_BYTES { return None; }
    var offset := 3 + count.value.size;
    ghost var total := UnpackFrom(data, count.value, exp);
    var pairs, next := ReadPairs(data, offset, count.value.value, exp, total);
    if pairs.None? || next != |data| { return None; }
    return pairs;
  }

  /** The pairs after the count, and what that makes of the whole record. */
  lemma UnpackFrom(data: seq<byte>, count: Uvarint.Read, exp: bool) returns (total: Option<Parsed<seq<Pair>>>)
    requires |data| >= 3 && (data[..3] == PLAIN || data[..3] == EXPIRY) && exp == (data[..3] == EXPIRY)
    requires Uvarint.Get(data[3..], 0) == Some(count) && count.value <= MAX_BYTES
    ensures 3 + count.size <= |data| && total == GetPairs(data[3 + count.size..], count.value, exp, [])
    ensures Unpack(data) ==
      if total.Some? && total.value.rest == [] && Increasing(total.value.value) then Some(total.value.value) else None
  {
    hide GetPairs, Uvarint.Get;
    Drop(data, 3, count.size);
    total := GetPairs(data[3 + count.size..], count.value, exp, []);
  }

  // ---- lookup without decoding ----

  /** The live value of a field. */
  function ValueOf(m: map<Field, Entry>, f: Field, now: int): Option<seq<byte>>
  {
    if f in LiveMap(m, now) then Some(m[f].value) else None
  }

  lemma LookupHit(p: seq<Pair>, k: nat, now: int)
    requires Sorted(p) && k < |p|
    ensures ValueOf(ToMap(p), p[k].field, now) == if Alive(p[k], now) then Some(p[k].value) else None
  {
    SortedDistinct(p);
    ToMapAt(p, k);
  }

  lemma LookupMiss(p: seq<Pair>, k: nat, target: Field, now: int)
    requires Sorted(p) && k <= |p| && Under(p[..k], target) && (k < |p| ==> Less(target, p[k].field))
    ensures ValueOf(ToMap(p), target, now) == None
  {
    if k < |p| {
      LessTotal(target, p[k].field);
      NotBelow(p, k, target);
    }
    SearchFinds(p, target, k);
  }

  /** Scans a record for one field, stopping at the first field that is not below it.  On every record
      that decodes, the answer is the live value of the decoded fields. */
  method Lookup(data: seq<byte>, target: Field, now: int) returns (r: Option<Option<seq<byte>>>)
    ensures Unpack(data).Some? ==> r == Some(ValueOf(ToMap(Unpack(data).value), target, now))
  {
    hide GetPair, GetPairs, Uvarint.Get, ToMap, ValueOf;
    if |data| < 3 || !(data[..3] == PLAIN || data[..3] == EXPIRY) { return None; }
    var exp := data[..3] == EXPIRY;
    var count := Uvarint.Get(data[3..], 0);
    if count.None? || count.value.value > MAX_BYTES { return None; }
    ghost var total := UnpackFrom(data, count.value, exp);
    r := Scan(data, 3 + count.value.size, count.value.value, exp, target, now, total);
  }

  method Scan(data: seq<byte>, start: nat, count: nat, exp: bool, target: Field, now: int,
              ghost total: Option<Parsed<seq<Pair>>>)
    returns (r: Option<Option<seq<byte>>>)
    requires start <= |data| && total == GetPairs(data[start..], count, exp, [])
    ensures total.Some? && Increasing(total.value.value) ==> r == Some(ValueOf(ToMap(total.value.value), target, now))
  {
    hide GetPair, ToMap, ValueOf;
    var offset: nat := start;
    ghost var done: seq<Pair> := [];
    for i := 0 to count
      invariant offset <= |data| && total == GetPairs(data[offset..], count - i, exp, done)
      invariant Under(done, target)
    {
      var pair, next := ReadPair(data, offset, exp);
      if pair.None? { return None; }
      ghost var before := done;
      done := done + [pair.value];
      if pair.value.field == target || Less(target, pair.value.field) {
        ScanStop(data[next..], count - i - 1, exp, before, pair.value, target, now);
        return Some(if pair.value.field == target && Alive(pair.value, now) then Some(pair.value.value) else None);
      }
      LessTotal(target, pair.value.field);
      offset := next;
    }
    if total.Some? && Increasing(total.value.value) {
      IncreasingSorted(done);
      assert done[..|done|] == done;
      LookupMiss(done, |done|, target, now);
    }
    return Some(None);
  }

  lemma ScanStop(s: seq<byte>, left: nat, exp: bool, done: seq<Pair>, x: Pair, target: Field, now: int)
    requires Under(done, target) && (x.field == target || Less(target, x.field))
    ensures var t := GetPairs(s, left, exp, done + [x]);
      t.Some? && Increasing(t.value.value) ==>
        ValueOf(ToMap(t.value.value), target, now) == if x.field == target && Alive(x, now) then Some(x.value) else None
  {
    hide GetPair, GetPairs, ToMap, ValueOf;
    var t := GetPairs(s, left, exp, done + [x]);
    if t.Some? && Increasing(t.value.value) {
      var p := t.value.value;
      ReadPrefix(s, left, exp, done + [x]);
      IncreasingSorted(p);
      assert p[..|done|] == done && p[|done|] == x;
      if x.field == target { LookupHit(p, |done|, now); }
      else { LookupMiss(p, |done|, target, now); }
    }
  }

  // ---- what every decoded record satisfies ----

  predicate Stamped(p: seq<Pair>, exp: bool)
  {
    forall i :: 0 <= i < |p| ==> Int64(p[i].expiresAt) && (!exp ==> p[i].expiresAt == 0)
  }

  lemma StampInt64(s: seq<byte>, exp: bool)
    requires GetPair(s, exp).Some?
    ensures Int64(GetPair(s, exp).value.value.expiresAt) && (!exp ==> GetPair(s, exp).value.value.expiresAt == 0)
  {
    hide Uvarint.Get;
    var at := GetStamp(GetLengths(s).value.rest, exp);
    if exp {
      WordLimits();
      FromLeRoundTrip(GetLengths(s).value.rest[..8]);
    }
  }

  lemma {:induction false} ReadStamped(s: seq<byte>, count: nat, exp: bool, p: seq<Pair>)
    requires Stamped(p, exp) && GetPairs(s, count, exp, p).Some?
    ensures Stamped(GetPairs(s, count, exp, p).value.value, exp)
    decreases count
  {
    hide GetPair;
    if count > 0 {
      var first := GetPair(s, exp).value;
      StampInt64(s, exp);
      ReadStamped(first.rest, count - 1, exp, p + [first.value]);
    }
  }

  /** A record that decodes is sorted, and only the layout with deadlines has any. */
  lemma UnpackSound(data: seq<byte>)
    requires Unpack(data).Some?
    ensures Sorted(Unpack(data).value) && Stamped(Unpack(data).value, data[..3] == EXPIRY)
  {
    hide GetPairs, Uvarint.Get;
    var exp := data[..3] == EXPIRY;
    var s := data[3..];
    var count := Uvarint.Get(s, 0).value;
    IncreasingSorted(Unpack(data).value);
    ReadStamped(s[count.size..], count.value, exp, []);
  }
}
