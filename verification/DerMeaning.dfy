/** Which bytes the small readers accept and what they give, said with the encoder (src/der.rs). Tags and
    limits are written out here as X.690 and the source have them. */
module DerMeaning {
  import opened Basics
  import opened Der
  import opened DerCanonical

  /** The encoding of a value with this tag, of less than 65535 octets. */
  predicate IsTagged(e: Bytes, tag: Byte, value: Bytes) {
    |value| < 0xffff && e == Encode(tag, value)
  }

  /** What a reader gives is the value whose encoding stands in front, and it stops behind that. */
  ghost predicate Reads<T(!new)>(parse: Bytes -> Step<T>, means: (Bytes, T) -> bool) {
    forall b, x, used :: ReadsAt(parse, means, b, x, used)
  }

  predicate ReadsAt<T(==)>(parse: Bytes -> Step<T>, means: (Bytes, T) -> bool, b: Bytes, x: T, used: nat) {
    parse(b) == Step(Ok(x), used) <==> used <= |b| && means(b[..used], x)
  }

  // ----- one value

  lemma TlvExactly(b: Bytes, tag: Byte, value: Bytes, used: nat)
    ensures TlvStep(b, TWO_BYTE_DER_SIZE) == Step(Ok(Tlv(tag, value)), used)
       <==> tag % 32 != 31 && used <= |b| && IsTagged(b[..used], tag, value)
  {
    hide TlvStep, Encode;
    var s := TlvStep(b, TWO_BYTE_DER_SIZE);
    if s == Step(Ok(Tlv(tag, value)), used) {
      ReadIsCanonical(b, TWO_BYTE_DER_SIZE);
      UsedIsEncoding(b, tag, value);
      assert b == b[..used] + b[used..];
      SameFront(b[..used], Encode(tag, value), b[used..]);
    }
    if tag % 32 != 31 && used <= |b| && IsTagged(b[..used], tag, value) {
      ReadEncoded(tag, value, b[used..], TWO_BYTE_DER_SIZE);
      assert b == Encode(tag, value) + b[used..];
    }
  }

  lemma SameFront(a: Bytes, b: Bytes, rest: Bytes)
    requires a + rest == b + rest
    ensures a == b
  {
    assert |a| == |b|;
    assert (a + rest)[..|a|] == a && (b + rest)[..|b|] == b;
  }

  lemma UsedIsEncoding(b: Bytes, tag: Byte, value: Bytes)
    requires TlvStep(b, TWO_BYTE_DER_SIZE).result == Ok(Tlv(tag, value))
    ensures TlvStep(b, TWO_BYTE_DER_SIZE).used <= |b|
  {
    hide LengthStep;
  }

  lemma TagExactly(b: Bytes, tag: Byte, value: Bytes, used: nat)
    requires tag % 32 != 31
    ensures ExpectTag(b, tag) == Step(Ok(value), used) <==> used <= |b| && IsTagged(b[..used], tag, value)
  {
    hide TlvStep, IsTagged;
    TlvExactly(b, tag, value, used);
  }

  /** Every failure to read a value is the same error. */
  lemma TagError(b: Bytes, tag: Byte)
    ensures ExpectTag(b, tag).result.Err? ==> ExpectTag(b, tag).result.error == BadDer
    ensures ExpectTag(b, tag).used <= |b|
  {
    hide LengthStep;
  }

  /** A value whose whole contents have a meaning of their own. */
  lemma NestedExactly<T(!new)>(b: Bytes, tag: Byte, error: Error, parse: Bytes -> Step<T>, x: T, used: nat)
    requires tag % 32 != 31
    ensures Nested(b, tag, error, parse) == Step(Ok(x), used)
       <==> exists value :: used <= |b| && IsTagged(b[..used], tag, value) && parse(value) == Step(Ok(x), |value|)
  {
    hide ExpectTag, IsTagged;
    var read := ExpectTag(b, tag);
    if read.result.Ok? {
      TagExactly(b, tag, read.result.value, read.used);
    }
    forall value | used <= |b| && IsTagged(b[..used], tag, value)
      ensures read == Step(Ok(value), used)
    {
      TagExactly(b, tag, value, used);
    }
  }

  // ----- booleans and small numbers

  /** Absent means false; an explicit false is tolerated. */
  predicate IsOptionalBool(e: Bytes, value: bool) {
    || (e == [] && !value)
    || IsTagged(e, 0x01, [if value then 0xff else 0x00])
  }

  /** Behind an optional boolean comes something else. */
  predicate NoBoolAhead(b: Bytes) {
    b != [] ==> b[0] != 0x01
  }

  lemma BoolContentsExactly(v: Bytes, value: bool)
    ensures BoolContents(v) == Step(Ok(value), |v|) <==> v == [if value then 0xff else 0x00]
  {
  }

  lemma BoolExactly(b: Bytes, value: bool, used: nat)
    ensures BoolFromDer(b) == Step(Ok(value), used)
       <==> used <= |b| && IsOptionalBool(b[..used], value) && (used == 0 ==> NoBoolAhead(b))
  {
    hide Nested, BoolContents, IsTagged;
    NestedExactly(b, TAG_BOOLEAN, TrailingData(DerTypeId.Bool), BoolContents, value, used);
    forall v
      ensures BoolContents(v) == Step(Ok(value), |v|) <==> v == [if value then 0xff else 0x00]
    {
      BoolContentsExactly(v, value);
    }
    if used <= |b| && IsTagged(b[..used], 0x01, [if value then 0xff else 0x00]) {
      TaggedBegins(b[..used], 0x01, [if value then 0xff else 0x00]);
    }
  }

  lemma TaggedBegins(e: Bytes, tag: Byte, value: Bytes)
    requires IsTagged(e, tag, value)
    ensures |e| >= 2 && e[0] == tag
  {
    hide Shortest;
  }

  /** The INTEGER of a number that fits one octet. */
  predicate IsSmallInteger(e: Bytes, n: nat) {
    n <= 255 && IsTagged(e, 0x02, IntegerContents(n))
  }

  lemma SmallMagnitude(n: nat)
    ensures |Magnitude(n)| == 1 <==> n <= 255
    ensures n <= 255 ==> Magnitude(n) == [n]
  {
    ShortestStep(n);
    ShortestStep(n / 256);
    ShortestStep(n / 256 / 256);
  }

  lemma U8Contents(contents: Bytes, n: Byte)
    ensures NonnegativeContents(contents) == Ok([n]) <==> contents == IntegerContents(n)
  {
    hide NonnegativeContents, IntegerContents, Magnitude;
    NonnegativeIntegerExact(contents, [n]);
    SmallMagnitude(n);
    forall m: nat | Magnitude(m) == [n]
      ensures m == n
    {
      SmallMagnitude(m);
    }
  }

  lemma U8Exactly(b: Bytes, n: Byte, used: nat)
    ensures U8FromDer(b) == Step(Ok(n), used) <==> used <= |b| && IsSmallInteger(b[..used], n)
  {
    hide ExpectTag, NonnegativeContents, IntegerContents, IsTagged;
    var s := ExpectTag(b, TAG_INTEGER);
    if s.result.Ok? {
      TagExactly(b, TAG_INTEGER, s.result.value, s.used);
      U8Contents(s.result.value, n);
      var m := NonnegativeContents(s.result.value);
      assert m.Ok? && |m.value| == 1 ==> m.value == [m.value[0]];
    }
    TagExactly(b, TAG_INTEGER, IntegerContents(n), used);
    U8Contents(IntegerContents(n), n);
  }

  // ----- sequences of values

  function Concat(parts: seq<Bytes>): Bytes {
    if parts == [] then [] else parts[0] + Concat(parts[1..])
  }

  function Oks<T>(xs: seq<T>): (items: seq<Result<T>>)
    ensures |items| == |xs| && forall i :: 0 <= i < |xs| ==> items[i] == Ok(xs[i])
  {
    seq(|xs|, i requires 0 <= i < |xs| => Ok(xs[i]))
  }

  ghost predicate EachMeans<T(!new)>(means: (Bytes, T) -> bool, parts: seq<Bytes>, xs: seq<T>) {
    |parts| == |xs| && forall i :: 0 <= i < |xs| ==> means(parts[i], xs[i])
  }

  /** The bytes are encodings of these values, one behind the other. */
  ghost predicate IsList<T(!new)>(means: (Bytes, T) -> bool, b: Bytes, xs: seq<T>) {
    exists parts :: b == Concat(parts) && EachMeans(means, parts, xs)
  }

  lemma {:induction false} ListIsRead<T(!new)>(parse: Bytes -> Step<T>, means: (Bytes, T) -> bool, parts: seq<Bytes>, xs: seq<T>)
    requires Progress(parse) && Reads(parse, means) && EachMeans(means, parts, xs)
    ensures Items(parse, Concat(parts)) == Oks(xs)
    decreases |parts|
  {
    hide Reads, Progress, ReadsAt, Items, Oks;
    ItemsStep(parse, Concat(parts));
    if parts != [] {
      FrontIsRead(parse, means, parts[0], xs[0], Concat(parts[1..]));
      ListIsRead(parse, means, parts[1..], xs[1..]);
      OksStep(xs);
      assert Oks(xs) == [Oks(xs)[0]] + Oks(xs)[1..];
    } else {
      assert Oks(xs) == [];
    }
  }

  lemma FrontIsRead<T(!new)>(parse: Bytes -> Step<T>, means: (Bytes, T) -> bool, e: Bytes, x: T, rest: Bytes)
    requires Progress(parse) && Reads(parse, means) && means(e, x)
    ensures parse(e + rest) == Step(Ok(x), |e|) && (e + rest)[|e|..] == rest && e + rest != []
  {
    var b := e + rest;
    assert b[..|e|] == e;
    assert ReadsAt(parse, means, b, x, |e|);
    NothingIsRead(parse, means, x);
  }

  lemma NothingIsRead<T(!new)>(parse: Bytes -> Step<T>, means: (Bytes, T) -> bool, x: T)
    requires Progress(parse) && Reads(parse, means)
    ensures !means([], x)
  {
    var b: Bytes := [0];
    assert b[..0] == [];
    assert ReadsAt(parse, means, b, x, 0);
  }

  lemma ItemsStep<T(!new)>(parse: Bytes -> Step<T>, b: Bytes)
    requires Progress(parse)
    ensures b == [] ==> Items(parse, b) == []
    ensures b != [] ==> 1 <= parse(b).used <= |b| && Items(parse, b) == [parse(b).result] + Items(parse, b[parse(b).used..])
  {
  }

  lemma OksStep<T>(xs: seq<T>)
    requires xs != []
    ensures Oks(xs)[0] == Ok(xs[0]) && Oks(xs)[1..] == Oks(xs[1..])
  {
  }

  lemma MemberOfOks<T>(xs: seq<T>, x: T)
    ensures x in xs <==> Ok(x) in Oks(xs)
  {
    var items := Oks(xs);
    if x in xs {
      var i :| 0 <= i < |xs| && xs[i] == x;
      assert items[i] == Ok(x);
    }
    if Ok(x) in items {
      var i :| 0 <= i < |items| && items[i] == Ok(x);
      assert xs[i] == x;
    }
  }

  lemma OnlyOks<T>(xs: seq<T>, item: Result<T>)
    requires item in Oks(xs)
    ensures item.Ok? && item.value in xs && item == Ok(item.value)
  {
    var i :| 0 <= i < |xs| && Oks(xs)[i] == item;
    assert item == Ok(xs[i]);
  }

  /** Items are values that were read, or one of them is an error. */
  lemma AsOks<T>(items: seq<Result<T>>) returns (xs: seq<T>)
    ensures items == Oks(xs) || exists item :: item in items && item.Err?
  {
    xs := [];
    if forall i :: 0 <= i < |items| ==> items[i].Ok? {
      xs := seq(|items|, i requires 0 <= i < |items| => items[i].value);
      assert forall i :: 0 <= i < |items| ==> items[i] == Ok(xs[i]);
    }
  }

  /** When every item could be read, the bytes are the list of what was read. */
  lemma {:induction false} ReadIsList<T(!new)>(parse: Bytes -> Step<T>, means: (Bytes, T) -> bool, b: Bytes, xs: seq<T>) returns (parts: seq<Bytes>)
    requires Progress(parse) && Reads(parse, means) && Items(parse, b) == Oks(xs)
    ensures b == Concat(parts) && EachMeans(means, parts, xs)
    decreases |b|
  {
    hide Reads, ReadsAt, Progress, Items, Oks;
    ItemsStep(parse, b);
    if b == [] {
      assert |Oks(xs)| == 0;
      parts := [];
    } else {
      var used := parse(b).used;
      OksStep(xs);
      assert Items(parse, b)[1..] == Items(parse, b[used..]);
      FirstMeans(parse, means, b, xs[0]);
      var others := ReadIsList(parse, means, b[used..], xs[1..]);
      parts := [b[..used]] + others;
      assert parts[1..] == others && b == b[..used] + b[used..];
    }
  }

  lemma FirstMeans<T(!new)>(parse: Bytes -> Step<T>, means: (Bytes, T) -> bool, b: Bytes, x: T)
    requires Reads(parse, means) && parse(b).result == Ok(x)
    ensures parse(b).used <= |b| && means(b[..parse(b).used], x)
  {
    assert ReadsAt(parse, means, b, x, parse(b).used);
  }

  /** Iterating over bytes gives just these values exactly when the bytes are their list. */
  lemma ListExactly<T(!new)>(parse: Bytes -> Step<T>, means: (Bytes, T) -> bool, b: Bytes, xs: seq<T>)
    requires Progress(parse) && Reads(parse, means)
    ensures Items(parse, b) == Oks(xs) <==> IsList(means, b, xs)
  {
    hide Reads, Progress, EachMeans, Items, Oks;
    if Items(parse, b) == Oks(xs) {
      var parts := ReadIsList(parse, means, b, xs);
    }
    if parts :| b == Concat(parts) && EachMeans(means, parts, xs) {
      ListIsRead(parse, means, parts, xs);
    }
  }

  // ----- the values in front

  lemma {:induction false} ItemsOfFront<T(!new)>(parse: Bytes -> Step<T>, means: (Bytes, T) -> bool, parts: seq<Bytes>, xs: seq<T>, rest: Bytes)
    requires Progress(parse) && Reads(parse, means) && EachMeans(means, parts, xs)
    ensures Items(parse, Concat(parts) + rest) == Oks(xs) + Items(parse, rest)
    decreases |parts|
  {
    hide Reads, Progress, ReadsAt, Items, Oks;
    if parts == [] {
      assert Concat(parts) + rest == rest && Oks(xs) == [];
    } else {
      var others := Concat(parts[1..]) + rest;
      assert Concat(parts) + rest == parts[0] + others;
      FrontIsRead(parse, means, parts[0], xs[0], others);
      ItemsStep(parse, Concat(parts) + rest);
      ItemsOfFront(parse, means, parts[1..], xs[1..], rest);
      OksStep(xs);
      assert Oks(xs) == [Oks(xs)[0]] + Oks(xs)[1..];
    }
  }

  lemma {:induction false} FrontIsList<T(!new)>(parse: Bytes -> Step<T>, means: (Bytes, T) -> bool, b: Bytes, xs: seq<T>)
    returns (parts: seq<Bytes>, rest: Bytes)
    requires Progress(parse) && Reads(parse, means) && |xs| <= |Items(parse, b)| && Items(parse, b)[..|xs|] == Oks(xs)
    ensures b == Concat(parts) + rest && EachMeans(means, parts, xs)
    decreases |xs|
  {
    hide Reads, ReadsAt, Progress, Items, Oks;
    parts, rest := [], b;
    if xs != [] {
      ItemsStep(parse, b);
      var items, used := Items(parse, b), parse(b).used;
      OksStep(xs);
      assert items[..|xs|][0] == items[0] && items[..|xs|][1..] == items[1..][..|xs| - 1];
      assert items[1..] == Items(parse, b[used..]);
      FirstMeans(parse, means, b, xs[0]);
      var others;
      others, rest := FrontIsList(parse, means, b[used..], xs[1..]);
      parts := [b[..used]] + others;
      assert parts[1..] == others && b == b[..used] + b[used..];
    }
  }

  /** Iterating gives just these values first exactly when their list stands in front. */
  lemma FrontExactly<T(!new)>(parse: Bytes -> Step<T>, means: (Bytes, T) -> bool, b: Bytes, xs: seq<T>)
    requires Progress(parse) && Reads(parse, means)
    ensures |xs| <= |Items(parse, b)| && Items(parse, b)[..|xs|] == Oks(xs)
       <==> exists used: nat :: used <= |b| && IsList(means, b[..used], xs)
  {
    hide Reads, Progress, EachMeans, Items, Oks;
    if |xs| <= |Items(parse, b)| && Items(parse, b)[..|xs|] == Oks(xs) {
      var parts, rest := FrontIsList(parse, means, b, xs);
      var used := |Concat(parts)|;
      assert b[..used] == Concat(parts);
    }
    forall used: nat | used <= |b| && IsList(means, b[..used], xs)
      ensures |xs| <= |Items(parse, b)| && Items(parse, b)[..|xs|] == Oks(xs)
    {
      var parts :| b[..used] == Concat(parts) && EachMeans(means, parts, xs);
      assert b == Concat(parts) + b[used..];
      ItemsOfFront(parse, means, parts, xs, b[used..]);
      assert |Oks(xs)| == |xs|;
    }
  }
}
