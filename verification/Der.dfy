/** Reading and writing canonical tag-length-value encodings (src/der.rs). */
module Der {
  import opened Basics
  import opened Readers

  const TAG_BOOLEAN: Byte := 0x01
  const TAG_INTEGER: Byte := 0x02
  const TAG_BIT_STRING: Byte := 0x03
  const TAG_OCTET_STRING: Byte := 0x04
  const TAG_OID: Byte := 0x06
  const TAG_UTF8_STRING: Byte := 0x0C
  const TAG_SEQUENCE: Byte := 0x30
  const TAG_SET: Byte := 0x31
  const TAG_UTC_TIME: Byte := 0x17
  const TAG_GENERALIZED_TIME: Byte := 0x18
  const TAG_CONTEXT_CONSTRUCTED_0: Byte := 0xA0
  const TAG_CONTEXT_CONSTRUCTED_1: Byte := 0xA1

  const SHORT_FORM_LEN_MAX: nat := 128
  const TWO_BYTE_DER_SIZE: nat := 0xffff

  /** What one reading operation gives, and how far it moved the reader (also when it failed). */
  datatype Step<+T> = Step(result: Result<T>, used: nat)

  datatype Tlv = Tlv(tag: Byte, value: Bytes)

  // ----- big-endian numbers

  /** The number that the bytes spell, most significant byte first. */
  function Big(b: Bytes): nat {
    if b == [] then 0 else Big(b[..|b| - 1]) * 256 + b[|b| - 1]
  }

  /** The shortest big-endian spelling of `n`; empty for 0. */
  function Shortest(n: nat): Bytes {
    if n == 0 then [] else Shortest(n / 256) + [n % 256]
  }

  function Pow256(k: nat): nat {
    if k == 0 then 1 else 256 * Pow256(k - 1)
  }

  lemma {:induction false} ShortestSize(n: nat, k: nat)
    ensures Pow256(8) == 0x1_0000_0000_0000_0000
    ensures n < Pow256(k) <==> |Shortest(n)| <= k
    decreases k
  {
    if k > 0 {
      ShortestSize(n / 256, k - 1);
    }
  }

  // ----- the encoding

  /** The length octets of a `usize`. */
  function EncodeLength(n: nat): Bytes
    requires n < 0x1_0000_0000_0000_0000
  {
    ShortestSize(n, 8);
    if n < 128 then [n] else [128 + |Shortest(n)|] + Shortest(n)
  }

  function Encode(tag: Byte, value: Bytes): Bytes
    requires |value| < 0x1_0000_0000_0000_0000
  {
    [tag] + EncodeLength(|value|) + value
  }

  lemma ShortestStep(n: nat)
    ensures Shortest(0) == []
    ensures n > 0 ==> Shortest(n) == Shortest(n / 256) + [n % 256]
  {
  }

  /** `der_encode_length`: fills the length octets from the last to the first. */
  method DerEncodeLength(length: nat) returns (encoded: Bytes)
    requires length < 0x1_0000_0000_0000_0000
    ensures encoded == EncodeLength(length)
  {
    hide Shortest, Pow256;
    if length < 128 {
      return [length];
    }
    encoded := [];
    var remaining := length;
    while remaining > 0
      invariant Shortest(length) == Shortest(remaining) + encoded
    {
      ShortestStep(remaining);
      ghost var behind := encoded;
      var byte := remaining % 256;
      encoded := [byte] + encoded;
      remaining := remaining / 256;
      assert Shortest(remaining) + [byte] + behind == Shortest(remaining) + encoded;
    }
    ShortestStep(0);
    ShortestSize(length, 8);
    encoded := [128 + |encoded|] + encoded;
  }

  // ----- the reader as a function of the bytes in front of it

  /** The smallest number that needs `k` length octets in the long form. */
  function SmallestLong(k: nat): nat
    requires 1 <= k <= 4
  {
    match k
    case 1 => 0x80
    case 2 => 0x100
    case 3 => 0x1_0000
    case 4 => 0x100_0000
  }

  function LengthStep(b: Bytes): Step<nat> {
    if b == [] then Step(Err(BadDer), 0)
    else if b[0] < 128 then Step(Ok(b[0]), 1)
    else if 0x81 <= b[0] <= 0x84 then
      var k := b[0] - 0x80;
      if |b| < 1 + k then Step(Err(BadDer), |b|)
      else
        var n := Big(b[1..1 + k]);
        Step(if n < SmallestLong(k) then Err(BadDer) else Ok(n), 1 + k)
    else Step(Err(BadDer), 1)
  }

  function TlvStep(b: Bytes, limit: nat): (s: Step<Tlv>)
    ensures s.used <= |b|
    ensures b != [] ==> 1 <= s.used
  {
    if b == [] then Step(Err(BadDer), 0)
    else if b[0] % 32 == 31 then Step(Err(BadDer), 1)
    else
      var length := LengthStep(b[1..]);
      var start := 1 + length.used;
      if length.result.Err? then Step(Err(BadDer), start)
      else if length.result.value >= limit then Step(Err(BadDer), start)
      else if |b| < start + length.result.value then Step(Err(BadDer), start)
      else
        var end := start + length.result.value;
        Step(Ok(Tlv(b[0], b[start..end])), end)
  }

  /** `expect_tag_and_get_value_limited`. */
  function ExpectTagLimited(b: Bytes, tag: Byte, limit: nat): (s: Step<Bytes>)
    ensures s.used <= |b|
    ensures b != [] ==> 1 <= s.used
  {
    var s := TlvStep(b, limit);
    match s.result
    case Err(e) => Step(Err(e), s.used)
    case Ok(tlv) => Step(if tlv.tag == tag then Ok(tlv.value) else Err(BadDer), s.used)
  }

  function ExpectTag(b: Bytes, tag: Byte): Step<Bytes> {
    ExpectTagLimited(b, tag, TWO_BYTE_DER_SIZE)
  }

  /** `Input::read_all`: everything has to be consumed, or `incomplete` is reported. */
  function ReadAll<T>(b: Bytes, incomplete: Error, decoder: Bytes -> Step<T>): Result<T> {
    var s := decoder(b);
    if s.result.Err? then s.result
    else if s.used != |b| then Err(incomplete)
    else s.result
  }

  /** `nested`: a value of the given tag whose whole contents `decoder` reads. */
  function Nested<T>(b: Bytes, tag: Byte, error: Error, decoder: Bytes -> Step<T>): (s: Step<T>)
    ensures s.used <= |b|
    ensures b != [] ==> 1 <= s.used
  {
    var read := ExpectTag(b, tag);
    match read.result
    case Err(_) => Step(Err(error), read.used)
    case Ok(value) => Step(ReadAll(value, error, decoder), read.used)
  }

  /** The case analysis of `nonnegative_integer` on the contents of an INTEGER. */
  function NonnegativeContents(value: Bytes): Result<Bytes> {
    if value == [] then Err(BadDer)
    else if value[0] == 0 then
      if |value| == 1 then Ok(value)
      else if value[1] >= 0x80 then Ok(value[1..])
      else Err(BadDer)
    else if value[0] < 0x80 then Ok(value)
    else Err(BadDer)
  }

  function NonnegativeInteger(b: Bytes): Step<Bytes> {
    var s := ExpectTag(b, TAG_INTEGER);
    match s.result
    case Err(e) => Step(Err(e), s.used)
    case Ok(value) => Step(NonnegativeContents(value), s.used)
  }

  /** `u8::from_der`. */
  function U8FromDer(b: Bytes): Step<Byte> {
    var s := NonnegativeInteger(b);
    match s.result
    case Err(e) => Step(Err(e), s.used)
    case Ok(value) => Step(if |value| == 1 then Ok(value[0]) else Err(BadDer), s.used)
  }

  /** `bool::from_der`: absent means false, and an explicit false is tolerated. */
  function BoolFromDer(b: Bytes): Step<bool> {
    if b == [] || b[0] != TAG_BOOLEAN then Step(Ok(false), 0)
    else Nested(b, TAG_BOOLEAN, TrailingData(DerTypeId.Bool), BoolContents)
  }

  function BoolContents(b: Bytes): Step<bool> {
    if b == [] then Step(Err(BadDer), 0)
    else Step(if b[0] == 0xff then Ok(true) else if b[0] == 0x00 then Ok(false) else Err(BadDer), 1)
  }

  // ----- the reader that moves

  method ReadLength(r: Reader) returns (length: Result<nat>)
    requires r.Valid()
    modifies r
    ensures r.Valid() && old(r.pos) <= r.pos
    ensures Step(length, r.pos - old(r.pos)) == LengthStep(old(r.Rest()))
  {
    ghost var b := r.Rest();
    var first := r.ReadByte();
    if first == None { return Err(BadDer); }
    var n := first.value;
    if n < 128 {
      return Ok(n);
    }
    if n < 0x81 || 0x84 < n {
      return Err(BadDer);
    }
    var one := r.ReadByte();
    if one == None { return Err(BadDer); }
    if n == 0x81 {
      BigOfFew(b[1..2]);
      if one.value < SHORT_FORM_LEN_MAX { return Err(BadDer); }
      return Ok(one.value);
    }
    var two := r.ReadByte();
    if two == None { return Err(BadDer); }
    if n == 0x82 {
      var combined := (one.value as int) * 0x100 + two.value;
      BigOfFew(b[1..3]);
      if combined <= 0xff { return Err(BadDer); }
      return Ok(combined);
    }
    var three := r.ReadByte();
    if three == None { return Err(BadDer); }
    if n == 0x83 {
      var combined := (one.value as int) * 0x1_0000 + (two.value as int) * 0x100 + three.value;
      BigOfFew(b[1..4]);
      if combined <= 0xffff { return Err(BadDer); }
      return Ok(combined);
    }
    var four := r.ReadByte();
    if four == None { return Err(BadDer); }
    var combined := (one.value as int) * 0x100_0000 + (two.value as int) * 0x1_0000 + (three.value as int) * 0x100 + four.value;
    BigOfFew(b[1..5]);
    if combined <= 0xff_ffff { return Err(BadDer); }
    return Ok(combined);
  }

  /** `read_tag_and_get_value_limited`. */
  method ReadTagAndGetValueLimited(r: Reader, limit: nat) returns (res: Result<Tlv>)
    requires r.Valid()
    modifies r
    ensures r.Valid() && old(r.pos) <= r.pos
    ensures Step(res, r.pos - old(r.pos)) == TlvStep(old(r.Rest()), limit)
  {
    ghost var b := r.Rest();
    var tag := r.ReadByte();
    if tag == None { return Err(BadDer); }
    if tag.value % 32 == 31 { return Err(BadDer); }
    assert r.Rest() == b[1..];
    var length := ReadLength(r);
    if length.Err? { return Err(BadDer); }
    if length.value >= limit { return Err(BadDer); }
    ghost var start := r.pos;
    var inner := r.ReadBytes(length.value);
    if inner == None { return Err(BadDer); }
    SliceOfSlice(r.input, old(r.pos), |r.input|, start - old(r.pos), r.pos - old(r.pos));
    assert b == r.input[old(r.pos)..|r.input|];
    return Ok(Tlv(tag.value, inner.value));
  }

  method ReadExpectedTag(r: Reader, tag: Byte) returns (res: Result<Bytes>)
    requires r.Valid()
    modifies r
    ensures r.Valid() && old(r.pos) <= r.pos
    ensures Step(res, r.pos - old(r.pos)) == ExpectTag(old(r.Rest()), tag)
  {
    var tlv :- ReadTagAndGetValueLimited(r, TWO_BYTE_DER_SIZE);
    if tlv.tag != tag { return Err(BadDer); }
    return Ok(tlv.value);
  }

  // ----- iteration

  /** What `FromDer` implementations have in common: on a non-empty input they read something. */
  ghost predicate Progress<T(!new)>(parse: Bytes -> Step<T>) {
    forall b: Bytes :: parse(b).used <= |b| && (b != [] ==> 1 <= parse(b).used)
  }

  /** Everything a `DerIterator` over `b` yields. It goes on behind an item that failed to parse. */
  function Items<T(!new)>(parse: Bytes -> Step<T>, b: Bytes): seq<Result<T>>
    requires Progress(parse)
    decreases |b|
  {
    if b == [] then [] else [parse(b).result] + Items(parse, b[parse(b).used..])
  }

  lemma {:induction false} IterationStops<T(!new)>(parse: Bytes -> Step<T>, b: Bytes)
    requires Progress(parse)
    ensures |Items(parse, b)| <= |b|
    ensures b != [] ==> Items(parse, b) != []
    decreases |b|
  {
    if b != [] {
      IterationStops(parse, b[parse(b).used..]);
    }
  }

  class DerIterator<T(!new)> {
    const reader: Reader
    const parse: Bytes -> Step<T>

    ghost predicate Valid()
      reads reader
    {
      reader.Valid() && Progress(parse)
    }

    ghost function Remaining(): seq<Result<T>>
      requires Valid()
      reads reader
    {
      Items(parse, reader.Rest())
    }

    constructor (input: Bytes, parse: Bytes -> Step<T>)
      requires Progress(parse)
      ensures Valid() && fresh(reader)
      ensures this.parse == parse && reader.input == input && reader.pos == 0
      ensures Remaining() == Items(parse, input)
    {
      this.reader := new Reader(input);
      this.parse := parse;
      new;
      assert reader.Rest() == input;
    }

    method Next() returns (item: Option<Result<T>>)
      requires Valid()
      modifies reader
      ensures Valid()
      ensures old(Remaining()) == if item.None? then [] else [item.value] + Remaining()
      ensures item.None? ==> Remaining() == []
      ensures item.Some? ==> old(reader.pos) < reader.pos
    {
      if reader.AtEnd() {
        return None;
      }
      var step := parse(reader.input[reader.pos..]);
      item := Some(step.result);
      var moved := reader.Skip(step.used);
      assert reader.Rest() == old(reader.Rest())[step.used..];
    }
  }

  lemma BigOfFew(b: Bytes)
    requires 1 <= |b| <= 4
    ensures |b| == 1 ==> Big(b) == b[0]
    ensures |b| == 2 ==> Big(b) == (b[0] as int) * 0x100 + b[1]
    ensures |b| == 3 ==> Big(b) == (b[0] as int) * 0x1_0000 + (b[1] as int) * 0x100 + b[2]
    ensures |b| == 4 ==> Big(b) == (b[0] as int) * 0x100_0000 + (b[1] as int) * 0x1_0000 + (b[2] as int) * 0x100 + b[3]
  {
    if |b| > 1 {
      BigOfFew(b[..|b| - 1]);
    } else {
      assert b[..0] == [];
    }
  }
}
