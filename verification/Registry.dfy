/** The codec registry: the record chosen for a value always decodes to the value, whatever the codecs
    that are verified at run time do. */
module Registry {
  import opened Words
  import Uuid
  import Ulid
  import Integers
  import Hex
  import Repetition
  import Uvarint

  const RAW := 0
  const INTEGER := 1
  const UUID := 3
  const JSON_SHAPE := 5
  const REPEAT_BYTE := 8
  const LZ4 := 9
  const ZSTANDARD := 10
  const PERIODIC := 11
  const ULID := 12
  const HEX := 13
  const SOLANA := 16

  datatype Record = Record(id: nat, rawLength: nat, data: seq<byte>)

  /** A codec of which nothing is known but that it is deterministic. */
  datatype Codec = Codec(encode: seq<byte> -> Option<seq<byte>>, decode: (seq<byte>, nat) -> Option<seq<byte>>)

  /** Registered codecs: the ones modelled here by their numbers, the others by their functions. */
  datatype Codecs = Codecs(others: map<nat, Codec>, order: seq<nat>)

  function DecodeBy(r: Codecs, id: nat, data: seq<byte>, n: nat): Option<seq<byte>>
  {
    if id == RAW then (if |data| == n then Some(data) else None)
    else if id == INTEGER then Integers.Decoded(data)
    else if id == UUID then (if |data| == 16 then Some(Uuid.Text(data, 16)) else None)
    else if id == ULID then (if |data| == 16 then Some(Ulid.Text(data)) else None)
    else if id == HEX then Hex.Decoded(data, n)
    else if id == REPEAT_BYTE then Repetition.Repeated(data, n)
    else if id == PERIODIC then Repetition.Repeating(data, n)
    else if id in r.others then r.others[id].decode(data, n)
    else None
  }

  /** What a record decodes to, with the length checks. */
  function Decode(r: Codecs, rec: Record, max: nat): Option<seq<byte>>
  {
    if rec.rawLength > max then None
    else
      var out := DecodeBy(r, rec.id, rec.data, rec.rawLength);
      if out.Some? && |out.value| == rec.rawLength then out else None
  }

  /** The record stands for the value and takes no more bytes. */
  ghost predicate Stands(r: Codecs, rec: Record, src: seq<byte>)
  {
    rec.rawLength == |src| && |rec.data| <= |src| && DecodeBy(r, rec.id, rec.data, |src|) == Some(src)
  }

  lemma StandsDecodes(r: Codecs, rec: Record, src: seq<byte>, max: nat)
    requires Stands(r, rec, src) && |src| <= max
    ensures Decode(r, rec, max) == Some(src)
  {
  }

  predicate Modelled(id: nat)
  {
    id == RAW || id == INTEGER || id == UUID || id == ULID || id == HEX || id == REPEAT_BYTE || id == PERIODIC
  }

  /** Tries a codec and keeps its record only if it is shorter and decodes to the value. */
  method TryVerified(r: Codecs, id: nat, src: seq<byte>, bound: nat) returns (rec: Option<Record>)
    requires bound <= |src| && !Modelled(id)
    ensures rec.Some? ==> rec.value.id == id && |rec.value.data| < bound && Stands(r, rec.value, src)
  {
    if id !in r.others { return None; }
    var c := r.others[id];
    var data := c.encode(src);
    if data.None? || |data.value| >= bound { return None; }
    var decoded := c.decode(data.value, |src|);
    if decoded != Some(src) { return None; }
    return Some(Record(id, |src|, data.value));
  }

  /** The terminal paths: UUID, ULID and integer text are encoded without decoding them again. */
  method EncodeScalar(r: Codecs, src: seq<byte>) returns (rec: Option<Record>)
    ensures rec.Some? ==> Stands(r, rec.value, src) && (Uuid.IsUuid(src) || |src| <= 26)
    ensures Uuid.IsUuid(src) ==> rec.Some? && rec.value.id == UUID
    ensures Ulid.IsUlid(src) ==> rec.Some? && rec.value.id == ULID
    ensures forall n :: Int64(n) && Integers.FormatInt(n) == src && |Integers.PutVarint(n)| < |src| <= 20 ==>
      rec.Some? && rec.value.id == INTEGER
  {
    hide Uuid.Text, Ulid.Text, Integers.Decoded, Uvarint.Put, Integers.FormatInt, Integers.PutVarint;
    if |src| == 36 {
      var data := Uuid.Encode(src);
      if data.Some? { return Some(Record(UUID, |src|, data.value)); }
    }
    if |src| == 26 {
      var data := Ulid.Encode(src);
      if data.Some? {
        Ulid.TextBack(src, data.value);
        return Some(Record(ULID, |src|, data.value));
      }
    }
    if |src| <= 20 {
      var n := Integers.CanonicalInt64(src);
      if n.Some? {
        var data := Integers.PutVarint(n.value);
        if |data| < |src| {
          Integers.IntegerBack(n.value);
          return Some(Record(INTEGER, |src|, data));
        }
      }
    }
    return None;
  }

  /** The text takes a hex record: it is hex, but not a short run of decimal digits. */
  predicate TakesHex(src: seq<byte>)
  {
    Hex.IsHex(src) && !(|src| <= 78 && AllDigits(src))
  }

  /** Hex text of 32 to 4098 characters; the record is checked by decoding it, and always passes. */
  method EncodeHexForeground(r: Codecs, src: seq<byte>) returns (rec: Option<Record>)
    ensures rec.Some? <==> TakesHex(src)
    ensures rec.Some? ==> rec.value.id == HEX && |rec.value.data| < |src| && Stands(r, rec.value, src)
  {
    hide Hex.Decoded;
    if |src| < 32 || |src| > 4098 { return None; }
    var data := Hex.Encode(src);
    if data.Some? { HexRecord(data.value, src); }
    if data.None? || |data.value| >= |src| { return None; }
    if |src| <= 78 && data.value[0] % 2 == 0 && AllDigits(src) { return None; }
    var decoded := Hex.Decode(data.value, |src|);
    if decoded != Some(src) { return None; }
    return Some(Record(HEX, |src|, data.value));
  }

  /** A hex record is shorter than its text, and its prefix flag is the prefix of the text. */
  lemma HexRecord(data: seq<byte>, src: seq<byte>)
    requires Hex.Decoded(data, |src|) == Some(src) && |src| >= 32
    ensures 0 < |data| < |src| && (AllDigits(src) ==> data[0] % 2 == 0)
  {
    hide Hex.Spelled;
    if data[0] % 2 == 1 { assert src[1] == 'x' as int; }
  }

  /** Text of a terminal path is never hex text: a UUID has dashes, the others are too short. */
  lemma ScalarIsNotHex(src: seq<byte>)
    requires Uuid.IsUuid(src) || |src| <= 26
    ensures !TakesHex(src)
  {
    if Uuid.IsUuid(src) {
      assert Uuid.DashAt(8);
      if Hex.Prefixed(src) { assert Hex.DigitsOf(src)[6] == src[8]; }
    }
  }

  predicate AllDigits(src: seq<byte>)
  {
    forall i :: 0 <= i < |src| ==> '0' as int <= src[i] <= '9' as int
  }

  /** The record written on the foreground path. */
  method Encode(r: Codecs, src: seq<byte>) returns (rec: Record)
    ensures Stands(r, rec, src)
    ensures Uuid.IsUuid(src) ==> rec.id == UUID
    ensures Ulid.IsUlid(src) ==> rec.id == ULID
    ensures forall n :: Int64(n) && Integers.FormatInt(n) == src && |Integers.PutVarint(n)| < |src| <= 20 ==>
      rec.id == INTEGER
    ensures TakesHex(src) ==> rec.id == HEX
  {
    hide DecodeBy, TakesHex, Uuid.IsUuid, Ulid.IsUlid, Integers.FormatInt, Integers.PutVarint;
    var scalar := EncodeScalar(r, src);
    if scalar.Some? {
      ScalarIsNotHex(src);
      return scalar.value;
    }
    var hex := EncodeHexForeground(r, src);
    if hex.Some? { return hex.value; }
    if |src| == 165 || |src| == 220 {
      var token := TryVerified(r, SOLANA, src, |src|);
      if token.Some? { return token.value; }
    }
    rec := Record(RAW, |src|, src);
    RawStands(r, src);
    if |src| > 36 { return; }
    if |src| != 0 && (src[0] == '{' as int || src[0] == '[' as int) { return; }
    for i := 0 to |r.order|
      invariant Stands(r, rec, src)
    {
      var id := r.order[i];
      if id == RAW || id == INTEGER || id == UUID || id == JSON_SHAPE || id >= REPEAT_BYTE { continue; }
      var next := TryVerified(r, id, src, |rec.data|);
      if next.Some? { rec := next.value; }
    }
  }

  lemma RawStands(r: Codecs, src: seq<byte>)
    ensures Stands(r, Record(RAW, |src|, src), src)
  {
  }

  // ---- background compression ----

  predicate HasPrefix(src: seq<byte>, p: seq<byte>) { p <= src }

  predicate AlreadyCompressed(src: seq<byte>)
  {
    || HasPrefix(src, [0x1F, 0x8B]) || HasPrefix(src, [0x89, 0x50, 0x4E, 0x47]) || HasPrefix(src, [0xFF, 0xD8, 0xFF])
    || HasPrefix(src, [0x28, 0xB5, 0x2F, 0xFD]) || HasPrefix(src, [0x04, 0x22, 0x4D, 0x18])
    || HasPrefix(src, [0x50, 0x4B, 3, 4])
  }

  method EncodePeriodic(r: Codecs, src: seq<byte>) returns (rec: Option<Record>)
    ensures rec.Some? ==> rec.value.id == PERIODIC && |rec.value.data| <= 64 && Stands(r, rec.value, src)
  {
    hide Repetition.Expanded;
    var data := Repetition.EncodePeriodic(src);
    if data.None? { return None; }
    Repetition.PeriodicExpands(src, |data.value|);
    return Some(Record(PERIODIC, |src|, data.value));
  }

  /** The record chosen in the background. */
  method EncodeGeneral(r: Codecs, src: seq<byte>, cold: bool) returns (rec: Record)
    ensures Stands(r, rec, src)
    ensures |src| < 256 || AlreadyCompressed(src) ==> rec == Record(RAW, |src|, src)
    ensures |src| >= 256 && !AlreadyCompressed(src) && (forall i :: 0 <= i < |src| ==> src[i] == src[0]) ==>
      |rec.data| == 1
  {
    hide AlreadyCompressed, Repetition.Repeating, Repetition.Repeated;
    rec := Record(RAW, |src|, src);
    RawStands(r, src);
    if |src| < 256 || AlreadyCompressed(src) { return; }
    var byteData := Repetition.EncodeRepeat(src);
    if byteData.Some? { return Record(REPEAT_BYTE, |src|, byteData.value); }
    var periodic := EncodePeriodic(r, src);
    if periodic.Some? {
      rec := periodic.value;
      if |rec.data| <= 32 { return; }
    }
    var lz4 := TryVerified(r, LZ4, src, |rec.data|);
    if lz4.Some? { rec := lz4.value; }
    if cold {
      var zstd := TryVerified(r, ZSTANDARD, src, |rec.data|);
      if zstd.Some? { rec := zstd.value; }
    }
  }

  /** Both choices decode to the value under every limit that admits it. */
  method EncodeThenDecode(r: Codecs, src: seq<byte>, cold: bool, max: nat) returns (now: Record, later: Record)
    requires |src| <= max
    ensures Decode(r, now, max) == Some(src) && Decode(r, later, max) == Some(src)
  {
    hide Decode, Stands;
    now := Encode(r, src);
    StandsDecodes(r, now, src, max);
    later := EncodeGeneral(r, src, cold);
    StandsDecodes(r, later, src, max);
  }
}
