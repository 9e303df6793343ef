/** Unsigned varints as Go's `encoding/binary` writes and reads them. */
module Uvarint {
  import opened Words

  function Put(n: nat): (s: seq<byte>)
    ensures 1 <= |s|
  {
    if n < 128 then [n] else [n % 128 + 128] + Put(n / 128)
  }

  datatype Read = Read(value: nat, size: nat)

  /** The varint at the start of `s`, its first byte being number `i`: at most ten bytes, and the
      tenth at most 1. */
  function Get(s: seq<byte>, i: nat): (r: Option<Read>)
    ensures r.Some? ==> 1 <= r.value.size <= |s|
    decreases |s|
  {
    if s == [] || i == 10 then None
    else if s[0] < 128 then
      if i == 9 && s[0] > 1 then None else Some(Read(s[0], 1))
    else
      var rest := Get(s[1..], i + 1);
      if rest.None? then None else Some(Read(s[0] - 128 + 128 * rest.value.value, rest.value.size + 1))
  }

  /** Room for varints that start at byte `i`: seven bits less per byte. */
  function Room(i: nat): nat
    requires i <= 9
    decreases 9 - i
  {
    if i == 9 then 2 else 128 * Room(i + 1)
  }

  lemma RoomIsWord()
    ensures Room(0) == TWO64
  {
    assert Room(8) == 256 && Room(7) == 128 * 256 && Room(6) == 128 * 128 * 256;
    assert Room(5) == 128 * Room(6) && Room(4) == 128 * Room(5) && Room(3) == 128 * Room(4);
    assert Room(2) == 128 * Room(3) && Room(1) == 128 * Room(2);
  }

  lemma {:induction false} GetPut(n: nat, i: nat, rest: seq<byte>)
    requires i <= 9 && n < Room(i)
    ensures Get(Put(n) + rest, i) == Some(Read(n, |Put(n)|)) && |Put(n)| + i <= 10
    decreases n
  {
    var s := Put(n) + rest;
    if n >= 128 {
      GetPut(n / 128, i + 1, rest);
      assert s[1..] == Put(n / 128) + rest;
    }
  }

  /** Any 64-bit number reads back, whatever follows it. */
  lemma RoundTrip(n: nat, rest: seq<byte>)
    requires n < TWO64
    ensures Get(Put(n) + rest, 0) == Some(Read(n, |Put(n)|)) && |Put(n)| <= 10
  {
    RoomIsWord();
    GetPut(n, 0, rest);
  }

  /** A varint is read from its own bytes only. */
  lemma {:induction false} GetLocal(s: seq<byte>, t: seq<byte>, i: nat)
    requires Get(s, i).Some?
    ensures Get(s + t, i) == Get(s, i)
    decreases |s|
  {
    if s[0] >= 128 {
      assert (s + t)[1..] == s[1..] + t;
      GetLocal(s[1..], t, i + 1);
    }
  }
}
